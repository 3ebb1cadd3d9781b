/** The sample state `initializeMockData` writes on first start: four
    students, four lecturers, four courses, nine enrollment pairs and five
    attendance records. No session code is seeded. */
module Seed {
  import opened Types
  import opened Codes
  import opened Registry
  import opened Enrollments
  import opened Ledger
  import opened Stats

  function SeedStudent(id: string, name: string, number: string): User {
    User(id, name, "student@ttu.edu.gh", "student123", Student,
         Some(number), Some("Graphic Design"), Some("Level 400"))
  }

  function SeedLecturer(id: string, name: string): User {
    User(id, name, "lecturer@ttu.edu.gh", "lecturer123", Lecturer, None, None, None)
  }

  function SeedUsers(): seq<User> {
    [ SeedStudent("s1", "Arhinful Emmanuel Kwabena", "BC/GRD/22/118"),
      SeedStudent("s2", "Joel Teye Tetteh", "BC/GRD/22/101"),
      SeedStudent("s3", "Bernard Mensah Otupri", "BC/GRD/22/149"),
      SeedStudent("s4", "Emmanuel Lokko", "BC/GRD/22/102"),
      SeedLecturer("l1", "Mr. Patrick Edu Bempah"),
      SeedLecturer("l2", "Mr. Ernest Kudzordzi"),
      SeedLecturer("l3", "Mr. Nduro"),
      SeedLecturer("l4", "Prof. Betty Fanniyan") ]
  }

  function SeedCourses(): seq<Course> {
    [ Course("c1", "Production Management", "GRD301", "l1"),
      Course("c2", "Web Design", "GRD302", "l2"),
      Course("c3", "Seminar in Graphic", "GRD303", "l3"),
      Course("c4", "Research Methodology", "GRD304", "l4") ]
  }

  function SeedEnrollments(): seq<Enrollment> {
    [ Enrollment("s1", "c1"), Enrollment("s1", "c2"), Enrollment("s1", "c3"),
      Enrollment("s2", "c1"), Enrollment("s2", "c3"),
      Enrollment("s3", "c2"), Enrollment("s3", "c3"),
      Enrollment("s4", "c1"), Enrollment("s4", "c3") ]
  }

  /** The sample records: those of the first two days, then the rest. */
  function SeedAttendance(): seq<AttendanceRecord> {
    EarlyRecords() + LateRecords()
  }

  function EarlyRecords(): seq<AttendanceRecord> {
    [ AttendanceRecord("a1", "s1", "c1", "2026-02-17", Present, "2026-02-17T09:00:00Z"),
      AttendanceRecord("a2", "s2", "c1", "2026-02-17", Present, "2026-02-17T09:05:00Z"),
      AttendanceRecord("a3", "s1", "c2", "2026-02-18", Present, "2026-02-18T10:00:00Z") ]
  }

  function LateRecords(): seq<AttendanceRecord> {
    [ AttendanceRecord("a4", "s1", "c1", "2026-02-19", Present, "2026-02-19T09:00:00Z"),
      AttendanceRecord("a5", "s2", "c2", "2026-02-18", Present, "2026-02-18T10:02:00Z") ]
  }

  /** The sample state meets every invariant the store keeps. */
  lemma SeedIsValid()
    ensures DistinctUserIds(SeedUsers()) && DistinctStudentNumbers(SeedUsers())
    ensures DistinctCourseIds(SeedCourses())
    ensures UniqueEnrollments(SeedEnrollments())
    ensures UniqueMarks(SeedAttendance())
  {
    SeedUserIds();
    SeedStudentNumbers();
    SeedCourseIds();
    SeedPairs();
    SeedMarks();
  }

  lemma SeedUserIds() ensures DistinctUserIds(SeedUsers()) {}
  lemma SeedStudentNumbers() ensures DistinctStudentNumbers(SeedUsers()) {}
  lemma SeedCourseIds() ensures DistinctCourseIds(SeedCourses()) {}
  lemma SeedPairs() ensures UniqueEnrollments(SeedEnrollments()) {}
  lemma SeedMarks() ensures UniqueMarks(SeedAttendance()) {}

  /** Course `c1` has records on two dates, three records and three enrolled
      students: an average of 300 / 6, that is 50 percent. */
  lemma SeedStatsOfFirstCourse()
    ensures CourseStats(SeedAttendance(), SeedEnrollments(), "c1") == AttendanceStats(2, 3, 3, Ratio(300, 6))
  {
    SeedFirstCourseRecords();
    SeedDates(CourseRecords(SeedAttendance(), "c1"));
    SeedFirstCourseEnrollments();
  }

  lemma SeedFirstCourseRecords()
    ensures CourseRecords(SeedAttendance(), "c1") == [EarlyRecords()[0], EarlyRecords()[1], LateRecords()[0]]
  {
    EarlyRecordsOfFirstCourse();
    LateRecordsOfFirstCourse();
    FilterAppend(EarlyRecords(), LateRecords(), RecordOfCourse("c1"));
  }

  lemma EarlyRecordsOfFirstCourse()
    ensures Filter(EarlyRecords(), RecordOfCourse("c1")) == [EarlyRecords()[0], EarlyRecords()[1]]
  {
    var e := EarlyRecords();
    FilterOfThree(e[0], e[1], e[2], RecordOfCourse("c1"));
  }

  lemma LateRecordsOfFirstCourse()
    ensures Filter(LateRecords(), RecordOfCourse("c1")) == [LateRecords()[0]]
  {
    var l := LateRecords();
    FilterOfTwo(l[0], l[1], RecordOfCourse("c1"));
  }

  /** Filtering a list of two, element by element. */
  lemma FilterOfTwo<T>(x: T, y: T, p: T -> bool)
    ensures Filter([x, y], p) == (if p(x) then [x] else []) + (if p(y) then [y] else [])
  {
    assert [x, y][1..] == [y];
    assert [y][1..] == [];
  }

  /** Filtering a list of three, element by element. */
  lemma FilterOfThree<T>(x: T, y: T, z: T, p: T -> bool)
    ensures Filter([x, y, z], p) == (if p(x) then [x] else []) + (if p(y) then [y] else []) + (if p(z) then [z] else [])
  {
    assert [x, y, z][1..] == [y, z];
    FilterOfTwo(y, z, p);
  }

  lemma SeedDates(records: seq<AttendanceRecord>)
    requires |records| == 3
    requires records[0].date == "2026-02-17" && records[1].date == "2026-02-17" && records[2].date == "2026-02-19"
    ensures |Dates(records)| == 2
  {
    assert records[2..][1..] == [];
    assert records[1..][1..] == records[2..];
    assert Dates(records) == {"2026-02-17", "2026-02-19"};
  }

  lemma SeedFirstCourseEnrollments()
    ensures |CourseEnrollments(SeedEnrollments(), "c1")| == 3
  {
    var e := SeedEnrollments();
    var p := InCourse("c1");
    FilterOfThree(e[0], e[1], e[2], p);
    FilterOfThree(e[3], e[4], e[5], p);
    FilterOfThree(e[6], e[7], e[8], p);
    assert e == [e[0], e[1], e[2]] + [e[3], e[4], e[5]] + [e[6], e[7], e[8]];
    FilterAppend([e[0], e[1], e[2]], [e[3], e[4], e[5]], p);
    FilterAppend([e[0], e[1], e[2]] + [e[3], e[4], e[5]], [e[6], e[7], e[8]], p);
  }

  /** Student `s2` has a record for `c2` without being enrolled in it: the
      ledger does not depend on the enrollment index. */
  lemma SeedRecordWithoutEnrollment()
    ensures SeedAttendance()[4].studentId == "s2" && SeedAttendance()[4].courseId == "c2"
    ensures !IsEnrolled(SeedEnrollments(), "s2", "c2")
  {
    assert SeedAttendance()[4] == LateRecords()[1];
  }
}
