/** The statistics `getAttendanceStats` derives for a course from the ledger
    and the enrollment index. A session is not stored: it is a date on which
    the course has at least one record. */
module Stats {
  import opened Types
  import opened Ledger
  import opened Enrollments

  /** `averageAttendance` as the fraction `num / den`. A zero `den` stands for
      the division by zero the source performs when no student is enrolled. */
  datatype Ratio = Ratio(num: nat, den: nat)

  datatype AttendanceStats = AttendanceStats(
    totalSessions: nat,
    totalAttendances: nat,
    enrolledStudents: nat,
    averageAttendance: Ratio)

  /** `new Set(records.map(a => a.date))`. */
  function Dates(records: seq<AttendanceRecord>): (r: set<string>)
    ensures forall i :: 0 <= i < |records| ==> records[i].date in r
    ensures forall d :: d in r ==> exists i :: 0 <= i < |records| && records[i].date == d
  {
    if records == [] then {}
    else
      var rest := Dates(records[1..]);
      assert forall d :: d in rest ==> exists i :: 1 <= i < |records| && records[i].date == d by {
        forall d | d in rest
          ensures exists i :: 1 <= i < |records| && records[i].date == d
        {
          var k :| 0 <= k < |records[1..]| && records[1..][k].date == d;
          assert records[k + 1].date == d;
        }
      }
      {records[0].date} + rest
  }

  /** The statistics of a course: distinct record dates, records,
      enrollment pairs, and the average, which is 0 when there is no session. */
  function CourseStats(attendance: seq<AttendanceRecord>, enrollments: seq<Enrollment>, courseId: string): (s: AttendanceStats)
    ensures s.totalSessions <= s.totalAttendances
    ensures s.totalSessions == 0 <==> s.totalAttendances == 0
  {
    var records := CourseRecords(attendance, courseId);
    DatesBound(records);
    var sessions := |Dates(records)|;
    var enrolled := |CourseEnrollments(enrollments, courseId)|;
    AttendanceStats(
      sessions,
      |records|,
      enrolled,
      if sessions > 0 then Ratio(100 * |records|, Product(sessions, enrolled)) else Ratio(0, 1))
  }

  /** `a * b` behind a function, so that the nonlinear product stays out of
      the solver's way wherever the statistics are unfolded. */
  function Product(a: nat, b: nat): nat {
    a * b
  }

  /** There are no more distinct dates than records, and none exactly when
      there are no records. */
  lemma {:induction false} DatesBound(records: seq<AttendanceRecord>)
    ensures |Dates(records)| <= |records|
    ensures |Dates(records)| == 0 <==> records == []
  {
    if records != [] {
      DatesBound(records[1..]);
    }
  }

  /** The counts the statistics report, and the zero-session guard. */
  lemma CourseStatsFacts(attendance: seq<AttendanceRecord>, enrollments: seq<Enrollment>, courseId: string)
    ensures var s := CourseStats(attendance, enrollments, courseId);
      && s.totalAttendances == |Filter(attendance, RecordOfCourse(courseId))|
      && s.enrolledStudents == |Filter(enrollments, InCourse(courseId))|
      && s.totalSessions <= s.totalAttendances
      && (s.totalSessions == 0 <==> s.totalAttendances == 0)
      && (s.totalSessions == 0 ==> s.averageAttendance == Ratio(0, 1))
      && (s.totalSessions > 0 ==> s.averageAttendance == Ratio(100 * s.totalAttendances, s.totalSessions * s.enrolledStudents))
  {
    StatsFields(attendance, enrollments, courseId);
    DatesBound(CourseRecords(attendance, courseId));
  }

  /** With at least one session and one enrolled student, the fraction is the
      source's `attendances / (sessions * enrolled) * 100`. */
  lemma AverageIsPercentage(attendance: seq<AttendanceRecord>, enrollments: seq<Enrollment>, courseId: string)
    requires |Filter(attendance, RecordOfCourse(courseId))| > 0 && |Filter(enrollments, InCourse(courseId))| > 0
    ensures var s := CourseStats(attendance, enrollments, courseId);
      && s.averageAttendance.den > 0
      && s.averageAttendance.num as real / s.averageAttendance.den as real ==
           (s.totalAttendances as real / (s.totalSessions * s.enrolledStudents) as real) * 100.0
  {
    var s := CourseStats(attendance, enrollments, courseId);
    CourseStatsFacts(attendance, enrollments, courseId);
    PositiveProduct(s.totalSessions, s.enrolledStudents);
    var a, d := s.totalAttendances, s.totalSessions * s.enrolledStudents;
    assert s.averageAttendance == Ratio(100 * a, d);
    Percent(a, d);
  }

  lemma PositiveProduct(a: nat, b: nat)
    requires a > 0 && b > 0
    ensures a * b > 0
  {
  }

  lemma Percent(a: nat, d: nat)
    requires d > 0
    ensures (100 * a) as real / d as real == (a as real / d as real) * 100.0
  {
  }

  /** A successful redemption adds one attendance to its course, and one
      session exactly when no record of the course had that date. */
  lemma StatsAfterMark(attendance: seq<AttendanceRecord>, enrollments: seq<Enrollment>, r: AttendanceRecord)
    ensures var before := CourseStats(attendance, enrollments, r.courseId);
      var after := CourseStats(attendance + [r], enrollments, r.courseId);
      && after.totalAttendances == before.totalAttendances + 1
      && after.enrolledStudents == before.enrolledStudents
      && after.totalSessions == before.totalSessions + (if r.date in Dates(CourseRecords(attendance, r.courseId)) then 0 else 1)
  {
    CourseRecordsAppend(attendance, r);
    SessionsAfterAppend(CourseRecords(attendance, r.courseId), r);
    StatsFields(attendance, enrollments, r.courseId);
    StatsFields(attendance + [r], enrollments, r.courseId);
  }

  /** One more record adds a session exactly when its date is new. */
  lemma SessionsAfterAppend(records: seq<AttendanceRecord>, r: AttendanceRecord)
    ensures |Dates(records + [r])| == |Dates(records)| + (if r.date in Dates(records) then 0 else 1)
  {
    DatesAppend(records, r);
    var ds := Dates(records);
    if r.date in ds {
      assert ds + {r.date} == ds;
    }
  }

  /** A new record of a course lands at the end of that course's records. */
  lemma CourseRecordsAppend(attendance: seq<AttendanceRecord>, r: AttendanceRecord)
    ensures CourseRecords(attendance + [r], r.courseId) == CourseRecords(attendance, r.courseId) + [r]
  {
    FilterAppend(attendance, [r], RecordOfCourse(r.courseId));
    assert Filter([r], RecordOfCourse(r.courseId)) == [r];
  }

  lemma StatsFields(attendance: seq<AttendanceRecord>, enrollments: seq<Enrollment>, courseId: string)
    ensures var s := CourseStats(attendance, enrollments, courseId);
      && s.totalSessions == |Dates(CourseRecords(attendance, courseId))|
      && s.totalAttendances == |CourseRecords(attendance, courseId)|
      && s.enrolledStudents == |CourseEnrollments(enrollments, courseId)|
  {
  }

  lemma {:induction false} DatesAppend(records: seq<AttendanceRecord>, r: AttendanceRecord)
    ensures Dates(records + [r]) == Dates(records) + {r.date}
  {
    if records != [] {
      assert (records + [r])[1..] == records[1..] + [r];
      DatesAppend(records[1..], r);
    }
  }

  /** The (student, date) pairs of a list of records. */
  function Marks(records: seq<AttendanceRecord>): set<(string, string)> {
    if records == [] then {} else {(records[0].studentId, records[0].date)} + Marks(records[1..])
  }

  /** The students of a list of enrollment pairs. */
  function EnrolledIds(enrollments: seq<Enrollment>): set<string> {
    if enrollments == [] then {} else {enrollments[0].studentId} + EnrolledIds(enrollments[1..])
  }

  /** Every pair in `Marks(records)` comes from some record. */
  lemma {:induction false} MarksMembers(records: seq<AttendanceRecord>)
    ensures forall p :: p in Marks(records) ==> exists i :: 0 <= i < |records| && p == (records[i].studentId, records[i].date)
  {
    if records != [] {
      var rest := records[1..];
      MarksMembers(rest);
      forall q | q in Marks(records)
        ensures exists i :: 0 <= i < |records| && q == (records[i].studentId, records[i].date)
      {
        if q != (records[0].studentId, records[0].date) {
          assert q in Marks(rest);
          var i :| 0 <= i < |rest| && q == (rest[i].studentId, rest[i].date);
          assert records[i + 1] == rest[i];
        }
      }
    }
  }

  /** Records of one course with distinct triples have distinct (student, date) pairs. */
  lemma {:induction false} MarksCount(records: seq<AttendanceRecord>, courseId: string)
    requires UniqueMarks(records)
    requires forall i :: 0 <= i < |records| ==> records[i].courseId == courseId
    ensures |Marks(records)| == |records|
  {
    if records != [] {
      var rest := records[1..];
      MarksCount(rest, courseId);
      MarksMembers(rest);
      var p := (records[0].studentId, records[0].date);
      forall i | 0 <= i < |rest|
        ensures (rest[i].studentId, rest[i].date) != p
      {
        assert records[i + 1] == rest[i];
      }
      assert p !in Marks(rest);
    }
  }

  /** Every student in `EnrolledIds(pairs)` has a pair, and every pair's student is in it. */
  lemma {:induction false} EnrolledIdsMembers(enrollments: seq<Enrollment>)
    ensures forall s :: s in EnrolledIds(enrollments) ==> exists i :: 0 <= i < |enrollments| && enrollments[i].studentId == s
    ensures forall i :: 0 <= i < |enrollments| ==> enrollments[i].studentId in EnrolledIds(enrollments)
  {
    if enrollments != [] {
      var rest := enrollments[1..];
      EnrolledIdsMembers(rest);
      forall s | s in EnrolledIds(enrollments)
        ensures exists i :: 0 <= i < |enrollments| && enrollments[i].studentId == s
      {
        if s != enrollments[0].studentId {
          assert s in EnrolledIds(rest);
          var k :| 0 <= k < |rest| && rest[k].studentId == s;
          assert enrollments[k + 1] == rest[k];
        }
      }
      forall i | 0 < i < |enrollments|
        ensures enrollments[i].studentId in EnrolledIds(enrollments)
      {
        assert enrollments[i] == rest[i - 1];
      }
    }
  }

  /** Pairs of one course with no duplicate have distinct students. */
  lemma {:induction false} EnrolledIdsCount(enrollments: seq<Enrollment>, courseId: string)
    requires UniqueEnrollments(enrollments)
    requires forall i :: 0 <= i < |enrollments| ==> enrollments[i].courseId == courseId
    ensures |EnrolledIds(enrollments)| == |enrollments|
  {
    if enrollments != [] {
      var rest := enrollments[1..];
      EnrolledIdsCount(rest, courseId);
      EnrolledIdsMembers(rest);
      var s0 := enrollments[0].studentId;
      forall k | 0 <= k < |rest|
        ensures rest[k].studentId != s0
      {
        assert enrollments[k + 1] == rest[k];
      }
      assert s0 !in EnrolledIds(rest);
    }
  }

  /** A set of pairs drawn from `xs` times `ys` has at most `|xs| * |ys|` members. */
  lemma ProductBound<A, B>(pairs: set<(A, B)>, xs: set<A>, ys: set<B>)
    requires forall p :: p in pairs ==> p.0 in xs && p.1 in ys
    ensures |pairs| <= |xs| * |ys|
    decreases xs
  {
    if xs == {} {
      assert pairs == {};
    } else {
      var x :| x in xs;
      var row := set p | p in pairs && p.0 == x;
      var others := pairs - row;
      ProductBound(others, xs - {x}, ys);
      RowBound(row, x, ys);
      assert pairs == row + others;
      assert |xs| * |ys| == (|xs| - 1) * |ys| + |ys|;
    }
  }

  /** Pairs sharing their first component are no more than the second components available. */
  lemma RowBound<A, B>(row: set<(A, B)>, x: A, ys: set<B>)
    requires forall p :: p in row ==> p.0 == x && p.1 in ys
    ensures |row| <= |ys|
    decreases row
  {
    if row != {} {
      var p :| p in row;
      RowBound(row - {p}, x, ys - {p.1});
    }
  }

  lemma {:induction false} UniqueMarksFilter(attendance: seq<AttendanceRecord>, p: AttendanceRecord -> bool)
    requires UniqueMarks(attendance)
    ensures UniqueMarks(Filter(attendance, p))
  {
    if attendance != [] {
      var rest := Filter(attendance[1..], p);
      UniqueMarksFilter(attendance[1..], p);
      if p(attendance[0]) {
        forall j | 0 <= j < |rest|
          ensures !(attendance[0].studentId == rest[j].studentId && attendance[0].courseId == rest[j].courseId &&
                    attendance[0].date == rest[j].date)
        {
          var k :| 0 <= k < |attendance[1..]| && attendance[1..][k] == rest[j];
          assert attendance[k + 1] == rest[j];
        }
        assert Filter(attendance, p) == [attendance[0]] + rest;
      }
    }
  }

  lemma {:induction false} UniqueEnrollmentsFilter(enrollments: seq<Enrollment>, p: Enrollment -> bool)
    requires UniqueEnrollments(enrollments)
    ensures UniqueEnrollments(Filter(enrollments, p))
  {
    if enrollments != [] {
      var rest := Filter(enrollments[1..], p);
      UniqueEnrollmentsFilter(enrollments[1..], p);
      if p(enrollments[0]) {
        forall j | 0 <= j < |rest|
          ensures enrollments[0] != rest[j]
        {
          var k :| 0 <= k < |enrollments[1..]| && enrollments[1..][k] == rest[j];
          assert enrollments[k + 1] == rest[j];
        }
        assert Filter(enrollments, p) == [enrollments[0]] + rest;
      }
    }
  }

  /** When every record of the course is by an enrolled student and the two
      invariants hold, attendances never exceed sessions times enrolled
      students, so the average is at most 100. */
  lemma AverageAtMostHundred(attendance: seq<AttendanceRecord>, enrollments: seq<Enrollment>, courseId: string)
    requires UniqueMarks(attendance) && UniqueEnrollments(enrollments)
    requires forall i :: 0 <= i < |attendance| && attendance[i].courseId == courseId ==>
      IsEnrolled(enrollments, attendance[i].studentId, courseId)
    ensures var s := CourseStats(attendance, enrollments, courseId);
      && s.totalAttendances <= s.totalSessions * s.enrolledStudents
      && s.averageAttendance.num <= 100 * s.averageAttendance.den
  {
    var records := CourseRecords(attendance, courseId);
    var pairs := CourseEnrollments(enrollments, courseId);
    UniqueMarksFilter(attendance, RecordOfCourse(courseId));
    UniqueEnrollmentsFilter(enrollments, InCourse(courseId));
    MarksCount(records, courseId);
    MarksMembers(records);
    EnrolledIdsCount(pairs, courseId);
    forall m | m in Marks(records)
      ensures m.0 in EnrolledIds(pairs) && m.1 in Dates(records)
    {
      var i :| 0 <= i < |records| && m == (records[i].studentId, records[i].date);
      MarkIsEnrolled(attendance, enrollments, courseId, i);
    }
    ProductBound(Marks(records), EnrolledIds(pairs), Dates(records));
    var a, d, e := |records|, |Dates(records)|, |pairs|;
    assert a <= d * e;
    StatsFields(attendance, enrollments, courseId);
    if d > 0 {
      assert 100 * a <= 100 * (d * e);
    }
  }

  /** The student of a course record is among the course's enrolled students. */
  lemma MarkIsEnrolled(attendance: seq<AttendanceRecord>, enrollments: seq<Enrollment>, courseId: string, i: nat)
    requires UniqueEnrollments(enrollments)
    requires forall i :: 0 <= i < |attendance| && attendance[i].courseId == courseId ==>
      IsEnrolled(enrollments, attendance[i].studentId, courseId)
    requires i < |CourseRecords(attendance, courseId)|
    ensures CourseRecords(attendance, courseId)[i].studentId in EnrolledIds(CourseEnrollments(enrollments, courseId))
  {
    var records := CourseRecords(attendance, courseId);
    var pairs := CourseEnrollments(enrollments, courseId);
    EnrolledIdsMembers(pairs);
    var k :| 0 <= k < |attendance| && attendance[k] == records[i];
    var e := Enrollment(records[i].studentId, courseId);
    var j :| 0 <= j < |enrollments| && enrollments[j] == e;
    assert e in pairs;
    var n :| 0 <= n < |pairs| && pairs[n] == e;
  }
}
