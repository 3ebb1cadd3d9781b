/** The attendance ledger: the decision `markAttendance` takes before it
    appends a record, the "one record per (student, course, date)" invariant,
    and the two read projections over the records. */
module Ledger {
  import opened Types
  import opened Text
  import opened Codes
  import opened Registry

  function SameDay(studentId: string, courseId: string, date: string): AttendanceRecord -> bool {
    (a: AttendanceRecord) => a.studentId == studentId && a.courseId == courseId && a.date == date
  }

  /** `attendance.some(a => a.studentId === studentId && a.courseId === courseId && a.date === date)`. */
  predicate MarkedToday(attendance: seq<AttendanceRecord>, studentId: string, courseId: string, date: string) {
    exists i :: 0 <= i < |attendance| &&
      attendance[i].studentId == studentId && attendance[i].courseId == courseId && attendance[i].date == date
  }

  /** No two records share their (student, course, date) triple. */
  predicate UniqueMarks(attendance: seq<AttendanceRecord>) {
    forall i, j :: 0 <= i < j < |attendance| ==>
      !(attendance[i].studentId == attendance[j].studentId &&
        attendance[i].courseId == attendance[j].courseId &&
        attendance[i].date == attendance[j].date)
  }

  /** The record a successful redemption appends. */
  function NewRecord(id: string, studentId: string, courseId: string, today: string, timestamp: string): AttendanceRecord {
    AttendanceRecord(id, studentId, courseId, today, Present, timestamp)
  }

  /** Appending the new record marks the student present for exactly its
      (student, course, date) triple: that triple becomes marked and every
      other triple reads as before. */
  lemma NewRecordMarksOnlyItsDay(attendance: seq<AttendanceRecord>, id: string, studentId: string, courseId: string,
                                 today: string, timestamp: string)
    ensures var after := attendance + [NewRecord(id, studentId, courseId, today, timestamp)];
      && after[|attendance|].status == Present
      && MarkedToday(after, studentId, courseId, today)
      && forall s, c, d :: !(s == studentId && c == courseId && d == today) ==>
           (MarkedToday(after, s, c, d) <==> MarkedToday(attendance, s, c, d))
  {
    var after := attendance + [NewRecord(id, studentId, courseId, today, timestamp)];
    assert after[|attendance|] == NewRecord(id, studentId, courseId, today, timestamp);
    forall s, c, d | !(s == studentId && c == courseId && d == today)
      ensures MarkedToday(after, s, c, d) <==> MarkedToday(attendance, s, c, d)
    {
      if MarkedToday(attendance, s, c, d) {
        var i :| 0 <= i < |attendance| && attendance[i].studentId == s && attendance[i].courseId == c && attendance[i].date == d;
        assert after[i] == attendance[i];
      }
      if MarkedToday(after, s, c, d) {
        var i :| 0 <= i < |after| && after[i].studentId == s && after[i].courseId == c && after[i].date == d;
        assert i < |attendance| && attendance[i] == after[i];
      }
    }
  }

  /** The checks of `markAttendance`, in its order: an active code for the
      course, the presented code upper-cased equal to it, no record of this
      student for this course today. Enrollment is not consulted. */
  function MarkDecision(codes: seq<SessionCode>, attendance: seq<AttendanceRecord>,
                        studentId: string, courseId: string, presented: string, today: string): (r: Outcome)
    ensures r == Fail(NoActiveSession) <==> forall i :: 0 <= i < |codes| ==> !ActiveFor(codes[i], courseId)
    ensures r == Pass ==>
      && (exists i :: 0 <= i < |codes| && ActiveFor(codes[i], courseId) && codes[i].code == UpperAscii(presented))
      && !MarkedToday(attendance, studentId, courseId, today)
    ensures r == Fail(AlreadyMarked) ==> MarkedToday(attendance, studentId, courseId, today)
    ensures r == Pass || r == Fail(NoActiveSession) || r == Fail(InvalidCode) || r == Fail(AlreadyMarked)
  {
    match ActiveCode(codes, courseId)
    case None => Fail(NoActiveSession)
    case Some(active) =>
      if active.code != UpperAscii(presented) then Fail(InvalidCode)
      else if MarkedToday(attendance, studentId, courseId, today) then Fail(AlreadyMarked)
      else Pass
  }

  /** Under the one-active-code invariant, a presented code is refused as
      invalid exactly when the course has an active code and none of its
      active codes equals the upper-cased input. */
  lemma InvalidCodeExactlyWhenUnmatched(codes: seq<SessionCode>, attendance: seq<AttendanceRecord>,
                                        studentId: string, courseId: string, presented: string, today: string)
    requires AtMostOneActive(codes)
    ensures MarkDecision(codes, attendance, studentId, courseId, presented, today) == Fail(InvalidCode) <==>
      && (exists i :: 0 <= i < |codes| && ActiveFor(codes[i], courseId))
      && (forall i :: 0 <= i < |codes| && ActiveFor(codes[i], courseId) ==> codes[i].code != UpperAscii(presented))
  {
    forall i | 0 <= i < |codes| && ActiveFor(codes[i], courseId)
      ensures ActiveCode(codes, courseId) == Some(codes[i])
    {
      ActiveCodeIsUnique(codes, courseId, i);
    }
  }

  /** Under the invariant a triple has at most one record. */
  lemma {:induction false} AtMostOneRecordPerDay(attendance: seq<AttendanceRecord>, studentId: string, courseId: string, date: string)
    requires UniqueMarks(attendance)
    ensures |Filter(attendance, SameDay(studentId, courseId, date))| <= 1
  {
    if attendance != [] {
      var p := SameDay(studentId, courseId, date);
      AtMostOneRecordPerDay(attendance[1..], studentId, courseId, date);
      if p(attendance[0]) {
        forall i | 0 <= i < |attendance[1..]|
          ensures !p(attendance[1..][i])
        {
          assert attendance[1..][i] == attendance[i + 1];
        }
        FilterNone(attendance[1..], p);
      }
    }
  }

  /** A successful redemption appends the only record of its triple; the
      invariant still holds and the same call made again fails. */
  lemma MarkOnce(codes: seq<SessionCode>, attendance: seq<AttendanceRecord>, studentId: string, courseId: string,
                 presented: string, today: string, id: string, timestamp: string)
    requires UniqueMarks(attendance)
    requires MarkDecision(codes, attendance, studentId, courseId, presented, today) == Pass
    ensures var after := attendance + [NewRecord(id, studentId, courseId, today, timestamp)];
      && UniqueMarks(after)
      && Filter(attendance, SameDay(studentId, courseId, today)) == []
      && |Filter(after, SameDay(studentId, courseId, today))| == 1
      && MarkDecision(codes, after, studentId, courseId, presented, today) == Fail(AlreadyMarked)
  {
    var r := NewRecord(id, studentId, courseId, today, timestamp);
    var after := attendance + [r];
    var p := SameDay(studentId, courseId, today);
    FilterNone(attendance, p);
    FilterAppend(attendance, [r], p);
    assert after[|attendance|] == r;
  }

  /** Right after a code is issued, the student who presents it, in any ASCII
      letter case, is recorded unless already recorded today. */
  lemma IssuedCodeIsAccepted(codes: seq<SessionCode>, attendance: seq<AttendanceRecord>, issued: SessionCode,
                             studentId: string, presented: string, today: string, picks: seq<nat>)
    requires AtMostOneActive(codes)
    requires ValidPicks(picks) && issued.code == CodeFromPicks(picks) && ActiveFor(issued, issued.courseId)
    requires UpperAscii(presented) == issued.code
    ensures MarkDecision(Issued(codes, issued.courseId, issued), attendance, studentId, issued.courseId, presented, today) ==
      if MarkedToday(attendance, studentId, issued.courseId, today) then Fail(AlreadyMarked) else Pass
  {
    IssueMakesSoleActive(codes, issued.courseId, issued);
  }

  /** Once the course's codes are deactivated, every redemption fails with no active session. */
  lemma DeactivatedCourseRejects(codes: seq<SessionCode>, attendance: seq<AttendanceRecord>,
                                 studentId: string, courseId: string, presented: string, today: string)
    ensures MarkDecision(Deactivated(codes, courseId), attendance, studentId, courseId, presented, today) == Fail(NoActiveSession)
  {
    DeactivateIdempotent(codes, courseId);
  }

  function RecordOfCourse(courseId: string): AttendanceRecord -> bool {
    (a: AttendanceRecord) => a.courseId == courseId
  }

  function RecordOfStudent(studentId: string): AttendanceRecord -> bool {
    (a: AttendanceRecord) => a.studentId == studentId
  }

  /** `attendance.filter(a => a.courseId === courseId)`. */
  function CourseRecords(attendance: seq<AttendanceRecord>, courseId: string): (r: seq<AttendanceRecord>)
    ensures forall i :: 0 <= i < |r| ==> r[i] in attendance && r[i].courseId == courseId
    ensures forall i :: 0 <= i < |attendance| && attendance[i].courseId == courseId ==> attendance[i] in r
  {
    Filter(attendance, RecordOfCourse(courseId))
  }

  /** A record of a student's history, with its course looked up (absent if
      no course has that id). */
  datatype HistoryEntry = HistoryEntry(record: AttendanceRecord, course: Option<Course>)

  /** A record of a course's register, with its student looked up. */
  datatype RegisterEntry = RegisterEntry(record: AttendanceRecord, student: Option<User>)

  /** Newest first: no entry is dated after an entry before it. */
  predicate NewestFirst(h: seq<HistoryEntry>) {
    forall i, j :: 0 <= i < j < |h| ==> StringLe(h[j].record.date, h[i].record.date)
  }

  /** Inserts `x` before the first entry dated no later than it. */
  function InsertByDate(x: HistoryEntry, h: seq<HistoryEntry>): (r: seq<HistoryEntry>)
    ensures multiset(r) == multiset(h) + multiset{x}
  {
    if h == [] then [x]
    else if StringLe(h[0].record.date, x.record.date) then [x] + h
    else
      assert h == [h[0]] + h[1..];
      [h[0]] + InsertByDate(x, h[1..])
  }

  /** The stable sort of `getStudentAttendance`: by date, newest first, with
      entries of the same date in their original order. */
  function SortNewestFirst(h: seq<HistoryEntry>): (r: seq<HistoryEntry>)
    ensures NewestFirst(r)
    ensures multiset(r) == multiset(h)
  {
    if h == [] then []
    else
      var rest := SortNewestFirst(h[1..]);
      InsertByDateCorrect(h[0], rest);
      assert h == [h[0]] + h[1..];
      InsertByDate(h[0], rest)
  }

  /** Inserting into a newest-first list keeps it newest first. */
  lemma {:induction false} InsertByDateCorrect(x: HistoryEntry, h: seq<HistoryEntry>)
    requires NewestFirst(h)
    ensures NewestFirst(InsertByDate(x, h))
  {
    if h == [] {
    } else if StringLe(h[0].record.date, x.record.date) {
      forall j | 0 <= j < |h|
        ensures StringLe(h[j].record.date, x.record.date)
      {
        if j > 0 {
          StringLeTransitive(h[j].record.date, h[0].record.date, x.record.date);
        }
      }
      assert h == [h[0]] + h[1..];
    } else {
      StringLeTotal(h[0].record.date, x.record.date);
      InsertByDateCorrect(x, h[1..]);
      var rest := InsertByDate(x, h[1..]);
      assert h == [h[0]] + h[1..];
      forall j | 0 <= j < |rest|
        ensures StringLe(rest[j].record.date, h[0].record.date)
      {
        assert rest[j] in multiset(rest);
        if rest[j] != x {
          assert rest[j] in multiset(h[1..]);
          var k :| 0 <= k < |h[1..]| && h[1..][k] == rest[j];
          assert h[k + 1] == rest[j];
        }
      }
    }
  }

  /** Each record joined with the course it names. */
  function WithCourses(records: seq<AttendanceRecord>, courses: seq<Course>): seq<HistoryEntry>
  {
    seq(|records|, i requires 0 <= i < |records| => HistoryEntry(records[i], FindCourse(courses, records[i].courseId)))
  }

  /** `getStudentAttendance`: the student's records, each joined with its
      course, newest first. */
  function StudentAttendance(attendance: seq<AttendanceRecord>, courses: seq<Course>, studentId: string): (h: seq<HistoryEntry>)
    ensures NewestFirst(h)
    ensures multiset(h) == multiset(WithCourses(Filter(attendance, RecordOfStudent(studentId)), courses))
  {
    SortNewestFirst(WithCourses(Filter(attendance, RecordOfStudent(studentId)), courses))
  }

  /** The history is newest first, holds exactly the student's records (each
      as often as in the ledger), and joins each with its course. */
  lemma StudentAttendanceCorrect(attendance: seq<AttendanceRecord>, courses: seq<Course>, studentId: string)
    ensures var h := StudentAttendance(attendance, courses, studentId);
      && NewestFirst(h)
      && |h| == |Filter(attendance, RecordOfStudent(studentId))|
      && (forall i :: 0 <= i < |h| ==> h[i].record in attendance && h[i].record.studentId == studentId &&
                                       h[i].course == FindCourse(courses, h[i].record.courseId))
      && (forall i :: 0 <= i < |attendance| && attendance[i].studentId == studentId ==>
            HistoryEntry(attendance[i], FindCourse(courses, attendance[i].courseId)) in h)
  {
    var mine := Filter(attendance, RecordOfStudent(studentId));
    var joined := WithCourses(mine, courses);
    var h := SortNewestFirst(joined);
    assert |h| == |joined| by {
      assert |multiset(h)| == |multiset(joined)|;
    }
    forall i | 0 <= i < |h|
      ensures h[i].record in attendance && h[i].record.studentId == studentId
      ensures h[i].course == FindCourse(courses, h[i].record.courseId)
    {
      assert h[i] in multiset(joined) by {
        assert h[i] in multiset(h);
      }
      var k :| 0 <= k < |joined| && joined[k] == h[i];
    }
    forall i | 0 <= i < |attendance| && attendance[i].studentId == studentId
      ensures HistoryEntry(attendance[i], FindCourse(courses, attendance[i].courseId)) in h
    {
      var k :| 0 <= k < |mine| && mine[k] == attendance[i];
      assert joined[k] in multiset(h) by {
        assert joined[k] in multiset(joined);
      }
    }
  }

  /** A date inside the optional inclusive bounds; an absent or empty bound does not restrict. */
  predicate InRange(date: string, startDate: Option<string>, endDate: Option<string>) {
    (Truthy(startDate) ==> StringLe(startDate.value, date)) &&
    (Truthy(endDate) ==> StringLe(date, endDate.value))
  }

  function OnOrAfter(startDate: string): AttendanceRecord -> bool {
    (a: AttendanceRecord) => StringLe(startDate, a.date)
  }

  function OnOrBefore(endDate: string): AttendanceRecord -> bool {
    (a: AttendanceRecord) => StringLe(a.date, endDate)
  }

  /** The records dated within the optional inclusive bounds, in order: the
      two `if (bound)` filters of `getCourseAttendance`. */
  function WithinDates(records: seq<AttendanceRecord>, startDate: Option<string>, endDate: Option<string>): (r: seq<AttendanceRecord>)
    ensures |r| <= |records|
    ensures forall i :: 0 <= i < |r| ==> r[i] in records && InRange(r[i].date, startDate, endDate)
    ensures forall i :: 0 <= i < |records| && InRange(records[i].date, startDate, endDate) ==> records[i] in r
  {
    var fromStart := if Truthy(startDate) then Filter(records, OnOrAfter(startDate.value)) else records;
    if Truthy(endDate) then Filter(fromStart, OnOrBefore(endDate.value)) else fromStart
  }

  /** Each record joined with the user it names. */
  function WithStudents(records: seq<AttendanceRecord>, users: seq<User>): seq<RegisterEntry>
  {
    seq(|records|, i requires 0 <= i < |records| => RegisterEntry(records[i], FindUser(users, records[i].studentId)))
  }

  /** `getCourseAttendance`: the course's records within the optional
      inclusive date range, in ledger order, each joined with its student. */
  function CourseAttendance(attendance: seq<AttendanceRecord>, users: seq<User>, courseId: string,
                            startDate: Option<string>, endDate: Option<string>): (r: seq<RegisterEntry>)
    ensures |r| <= |attendance|
    ensures forall i :: 0 <= i < |r| ==>
      && r[i].record in attendance
      && r[i].record.courseId == courseId
      && InRange(r[i].record.date, startDate, endDate)
      && r[i].student == FindUser(users, r[i].record.studentId)
    ensures forall i :: 0 <= i < |attendance| && attendance[i].courseId == courseId && InRange(attendance[i].date, startDate, endDate) ==>
      exists k :: 0 <= k < |r| && r[k].record == attendance[i]
  {
    var inRange := WithinDates(CourseRecords(attendance, courseId), startDate, endDate);
    var r := WithStudents(inRange, users);
    assert forall i :: 0 <= i < |inRange| ==> r[i].record == inRange[i];
    r
  }
}
