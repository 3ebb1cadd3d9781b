/** The browser-storage database: five lists that every operation reads and
    rewrites in place. Each mutating operation of the service is a method of
    `AttendanceStore`; what it decides is the function of the module that
    owns the entity, and the method is proved to carry that decision out. */
module Store {
  import opened Types
  import opened Text
  import opened Codes
  import opened Registry
  import opened Enrollments
  import opened Ledger
  import opened Seed

  /** No user and no enrollment pair mentions `id` yet. */
  predicate FreshUserId(users: seq<User>, enrollments: seq<Enrollment>, id: string) {
    (forall i :: 0 <= i < |users| ==> users[i].id != id) && StudentUnused(enrollments, id)
  }

  /** No course and no enrollment pair mentions `id` yet. */
  predicate FreshCourseId(courses: seq<Course>, enrollments: seq<Enrollment>, id: string) {
    (forall i :: 0 <= i < |courses| ==> courses[i].id != id) && CourseUnused(enrollments, id)
  }

  /** A course with a fresh id keeps course ids distinct, and its
      auto-enrollment pairs keep pairs unique and enroll every student. */
  lemma FreshCourseKeepsInvariants(courses: seq<Course>, enrollments: seq<Enrollment>, users: seq<User>, course: Course)
    requires DistinctCourseIds(courses) && UniqueEnrollments(enrollments) && DistinctUserIds(users)
    requires FreshCourseId(courses, enrollments, course.id)
    ensures DistinctCourseIds(courses + [course])
    ensures var after := enrollments + PairsForCourse(Students(users), course.id);
      && UniqueEnrollments(after)
      && |CourseEnrollments(after, course.id)| == |Students(users)|
      && forall i :: 0 <= i < |users| && IsStudent(users[i]) ==> IsEnrolled(after, users[i].id, course.id)
  {
    AutoEnrollCourse(enrollments, users, course.id);
  }

  class AttendanceStore {
    var users: seq<User>
    var courses: seq<Course>
    var enrollments: seq<Enrollment>
    var attendanceCodes: seq<SessionCode>
    var attendance: seq<AttendanceRecord>
    /** The `initialized` flag that keeps the sample state from being written twice. */
    var initialized: bool

    /** The invariants every operation keeps. */
    ghost predicate Valid()
      reads this
    {
      && DistinctUserIds(users)
      && DistinctStudentNumbers(users)
      && DistinctCourseIds(courses)
      && UniqueEnrollments(enrollments)
      && AtMostOneActive(attendanceCodes)
      && UniqueMarks(attendance)
    }

    /** An empty storage: every list reads as `[]`. */
    constructor()
      ensures users == [] && courses == [] && enrollments == [] && attendanceCodes == [] && attendance == []
      ensures !initialized
      ensures Valid()
    {
      users := [];
      courses := [];
      enrollments := [];
      attendanceCodes := [];
      attendance := [];
      initialized := false;
    }

    /** Writes the sample users, courses, pairs and records on first start;
        the code list is left as it is. Later calls change nothing. */
    method InitializeMockData()
      requires Valid()
      modifies this
      ensures old(initialized) ==> users == old(users) && courses == old(courses) && enrollments == old(enrollments) && attendance == old(attendance)
      ensures !old(initialized) ==> users == SeedUsers() && courses == SeedCourses() && enrollments == SeedEnrollments() && attendance == SeedAttendance()
      ensures attendanceCodes == old(attendanceCodes)
      ensures initialized
      ensures Valid()
    {
      if !initialized {
        SeedIsValid();
        users := SeedUsers();
        courses := SeedCourses();
        enrollments := SeedEnrollments();
        attendance := SeedAttendance();
        initialized := true;
      }
    }

    /** Switches off, one by one, every active code of the course. */
    method SwitchOffCodes(courseId: string)
      modifies this`attendanceCodes
      ensures attendanceCodes == Deactivated(old(attendanceCodes), courseId)
    {
      var codes := attendanceCodes;
      for i := 0 to |codes|
        invariant |codes| == |attendanceCodes|
        invariant forall j :: 0 <= j < i ==> codes[j] == SwitchOff(attendanceCodes[j], courseId)
        invariant forall j :: i <= j < |codes| ==> codes[j] == attendanceCodes[j]
      {
        if codes[i].courseId == courseId && codes[i].active {
          codes := codes[i := codes[i].(active := false)];
        }
      }
      attendanceCodes := codes;
    }

    /** Issues a new code for the course: earlier codes of the course are
        switched off, then the code spelled by the five picks is appended,
        active. */
    method GenerateAttendanceCode(courseId: string, lecturerId: string, picks: seq<nat>, stamp: string, createdAt: string)
      returns (newCode: SessionCode)
      requires ValidPicks(picks)
      requires Valid()
      modifies this`attendanceCodes
      ensures newCode == SessionCode("code" + stamp, courseId, lecturerId, CodeFromPicks(picks), true, createdAt)
      ensures attendanceCodes == Issued(old(attendanceCodes), courseId, newCode)
      ensures ActiveCode(attendanceCodes, courseId) == Some(newCode)
      ensures forall other :: other != courseId ==> ActiveCode(attendanceCodes, other) == ActiveCode(old(attendanceCodes), other)
      ensures Valid()
    {
      SwitchOffCodes(courseId);
      var code := "";
      for i := 0 to CodeLength
        invariant code == CodeFromPicks(picks)[..i]
      {
        code := code + [Alphabet[picks[i]]];
      }
      newCode := SessionCode("code" + stamp, courseId, lecturerId, code, true, createdAt);
      attendanceCodes := attendanceCodes + [newCode];
      IssueMakesSoleActive(old(attendanceCodes), courseId, newCode);
      forall other | other != courseId
        ensures ActiveCode(attendanceCodes, other) == ActiveCode(old(attendanceCodes), other)
      {
        IssueLeavesOtherCourses(old(attendanceCodes), courseId, newCode, other);
      }
    }

    /** Switches off the course's codes; always reports success. */
    method DeactivateCode(courseId: string) returns (r: Outcome)
      requires Valid()
      modifies this`attendanceCodes
      ensures r == Pass
      ensures attendanceCodes == Deactivated(old(attendanceCodes), courseId)
      ensures ActiveCode(attendanceCodes, courseId).None?
      ensures Valid()
    {
      SwitchOffCodes(courseId);
      DeactivateIdempotent(old(attendanceCodes), courseId);
      DeactivatePreservesInvariant(old(attendanceCodes), courseId);
      r := Pass;
    }

    /** Redeems a presented code for a student: the checks of `MarkDecision`
        in order, then one new record dated `today`. */
    method MarkAttendance(studentId: string, courseId: string, code: string, today: string, stamp: string, timestamp: string)
      returns (r: Outcome)
      requires Valid()
      modifies this`attendance
      ensures r == MarkDecision(attendanceCodes, old(attendance), studentId, courseId, code, today)
      ensures r == Pass <==>
        ActiveCode(attendanceCodes, courseId).Some? && ActiveCode(attendanceCodes, courseId).value.code == UpperAscii(code) &&
        !MarkedToday(old(attendance), studentId, courseId, today)
      ensures r == Pass ==> attendance == old(attendance) + [NewRecord("a" + stamp, studentId, courseId, today, timestamp)]
      ensures r != Pass ==> attendance == old(attendance)
      ensures Valid()
    {
      var active := ActiveCode(attendanceCodes, courseId);
      if active.None? {
        return Fail(NoActiveSession);
      }
      if active.value.code != UpperAscii(code) {
        return Fail(InvalidCode);
      }
      if MarkedToday(attendance, studentId, courseId, today) {
        return Fail(AlreadyMarked);
      }
      MarkOnce(attendanceCodes, attendance, studentId, courseId, code, today, "a" + stamp, timestamp);
      attendance := attendance + [NewRecord("a" + stamp, studentId, courseId, today, timestamp)];
      r := Pass;
    }

    /** Enrolls the student holding `number` in the course, unless there is
        no such student or the pair exists. */
    method EnrollStudent(number: string, courseId: string) returns (r: Result<User>)
      requires Valid()
      modifies this`enrollments
      ensures r == EnrollDecision(users, old(enrollments), number, courseId)
      ensures r.Success? ==> enrollments == old(enrollments) + [Enrollment(r.value.id, courseId)]
      ensures r.Failure? ==> enrollments == old(enrollments)
      ensures Valid()
    {
      var student := FindStudentByNumber(users, number);
      if student.None? {
        return Failure(StudentNotFound);
      }
      if IsEnrolled(enrollments, student.value.id, courseId) {
        return Failure(AlreadyEnrolled);
      }
      EnrollOnce(users, enrollments, number, courseId);
      enrollments := enrollments + [Enrollment(student.value.id, courseId)];
      r := Success(student.value);
    }

    /** Adds a course with id `c` + stamp and enrolls every current student
        in it, one pair per student in the order of the user list. */
    method CreateCourse(courseName: string, courseCode: string, lecturerId: string, stamp: string)
      returns (course: Course)
      requires Valid()
      modifies this`courses, this`enrollments
      ensures course == Course("c" + stamp, courseName, courseCode, lecturerId)
      ensures courses == old(courses) + [course]
      ensures enrollments == old(enrollments) + PairsForCourse(Students(users), course.id)
      ensures FreshCourseId(old(courses), old(enrollments), course.id) ==>
        && Valid()
        && |CourseEnrollments(enrollments, course.id)| == |Students(users)|
        && forall i :: 0 <= i < |users| && IsStudent(users[i]) ==> IsEnrolled(enrollments, users[i].id, course.id)
    {
      course := Course("c" + stamp, courseName, courseCode, lecturerId);
      courses := courses + [course];
      var students := Students(users);
      for i := 0 to |students|
        invariant courses == old(courses) + [course]
        invariant enrollments == old(enrollments) + PairsForCourse(students[..i], course.id)
      {
        PairsForCourseSnoc(students, course.id, i);
        enrollments := enrollments + [Enrollment(students[i].id, course.id)];
      }
      assert students[..|students|] == students;
      if FreshCourseId(old(courses), old(enrollments), course.id) {
        FreshCourseKeepsInvariants(old(courses), old(enrollments), users, course);
      }
    }

    /** Registers a user after the checks of `RegistrationCheck`; a new
        student is enrolled in every existing course, in course order. The
        result is the new user without its password. */
    method RegisterUser(name: string, email: string, password: string, role: Role,
                        studentId: Option<string>, course: Option<string>, level: Option<string>, stamp: string)
      returns (r: Result<Profile>)
      requires Valid()
      modifies this`users, this`enrollments
      ensures var check := RegistrationCheck(old(users), email, role, studentId, course, level);
        check.Fail? ==> r == Failure(check.error) && users == old(users) && enrollments == old(enrollments)
      ensures var u := NewUser(UserIdFor(role, stamp), name, email, password, role, studentId, course, level);
        RegistrationCheck(old(users), email, role, studentId, course, level) == Pass ==>
          && r == Success(ProfileOf(u))
          && users == old(users) + [u]
          && enrollments == old(enrollments) + (if role == Student then PairsForStudent(u.id, courses) else [])
      ensures FreshUserId(old(users), old(enrollments), UserIdFor(role, stamp)) ==> Valid()
      ensures FreshUserId(old(users), old(enrollments), UserIdFor(role, stamp)) && r.Success? && role == Student ==>
        StudentCourses(enrollments, courses, r.value.id) == courses
    {
      if EmailRoleTaken(users, email, role) {
        return Failure(EmailTaken);
      }
      if role == Student {
        if !(Truthy(studentId) && Truthy(course) && Truthy(level)) {
          return Failure(StudentFieldsMissing);
        }
        if StudentNumberTaken(users, studentId.value) {
          return Failure(StudentIdTaken);
        }
      }
      var u := NewUser(UserIdFor(role, stamp), name, email, password, role, studentId, course, level);
      RegistrationKeepsStudentNumbersDistinct(users, u.id, name, email, password, role, studentId, course, level);
      users := users + [u];
      if role == Student {
        for i := 0 to |courses|
          invariant users == old(users) + [u]
          invariant enrollments == old(enrollments) + PairsForStudent(u.id, courses[..i])
        {
          PairsForStudentSnoc(u.id, courses, i);
          enrollments := enrollments + [Enrollment(u.id, courses[i].id)];
        }
        assert courses[..|courses|] == courses;
        if FreshUserId(old(users), old(enrollments), u.id) {
          AutoEnrollStudent(old(enrollments), courses, u.id);
        }
      }
      if FreshUserId(old(users), old(enrollments), u.id) {
        assert DistinctUserIds(users) by {
          forall i, j | 0 <= i < j < |users|
            ensures users[i].id != users[j].id
          {
            assert users[i] == old(users)[i];
            if j < |old(users)| {
              assert users[j] == old(users)[j];
            }
          }
        }
      }
      r := Success(ProfileOf(u));
    }
  }
}
