/** The records the attendance engine keeps, its error results and two small
    sequence helpers shared by the other modules. */
module Types {

  datatype Option<+T> = None | Some(value: T)

  /** A failure is one of the engine's domain errors; nothing is thrown. */
  datatype Result<+T> = Success(value: T) | Failure(error: Error)

  /** Result of an operation that returns only `{ success }`. */
  datatype Outcome = Pass | Fail(error: Error)

  datatype Role = Student | Lecturer

  /** A user. `studentId`, `course` and `level` are `None` for lecturers. */
  datatype User = User(
    id: string,
    name: string,
    email: string,
    password: string,
    role: Role,
    studentId: Option<string>,
    course: Option<string>,
    level: Option<string>)

  /** A user as `registerUser` hands it back: everything but the password. */
  datatype Profile = Profile(
    id: string,
    name: string,
    email: string,
    role: Role,
    studentId: Option<string>,
    course: Option<string>,
    level: Option<string>)

  datatype Course = Course(id: string, courseName: string, courseCode: string, lecturerId: string)

  /** The (student id, course id) relation. `studentId` is the opaque user id. */
  datatype Enrollment = Enrollment(studentId: string, courseId: string)

  datatype SessionCode = SessionCode(
    id: string,
    courseId: string,
    lecturerId: string,
    code: string,
    active: bool,
    createdAt: string)

  /** Records are only ever written with status `present`. */
  datatype Status = Present

  datatype AttendanceRecord = AttendanceRecord(
    id: string,
    studentId: string,
    courseId: string,
    date: string,
    status: Status,
    timestamp: string)

  datatype Error =
    | NoActiveSession
    | InvalidCode
    | AlreadyMarked
    | StudentNotFound
    | AlreadyEnrolled
    | EmailTaken
    | StudentFieldsMissing
    | StudentIdTaken

  /** The message each failure carries back to the caller. */
  function Message(e: Error): (m: string)
    ensures |m| > 0
  {
    match e
    case NoActiveSession => "No active attendance session for this course"
    case InvalidCode => "Invalid attendance code"
    case AlreadyMarked => "Attendance already marked for today"
    case StudentNotFound => "Student not found. Check the Student ID."
    case AlreadyEnrolled => "Student is already enrolled in this class"
    case EmailTaken => "An account with this email already exists"
    case StudentFieldsMissing => "Student ID, Course, and Level are required for students"
    case StudentIdTaken => "This Student ID is already registered"
  }

  /** Each failure has its own message, so a caller can tell them apart. */
  lemma MessagesDistinct(e: Error, e': Error)
    ensures Message(e) == Message(e') <==> e == e'
  {
    if Message(e) == Message(e') {
      MessageShape(e);
      MessageShape(e');
    }
  }

  /** The length and next-to-last letter of each message, which together
      tell the messages apart. */
  lemma MessageShape(e: Error)
    ensures |Message(e)| > 1
    ensures (|Message(e)|, Message(e)[|Message(e)| - 2]) ==
      match e
      case NoActiveSession => (44, 's')
      case InvalidCode => (23, 'd')
      case AlreadyMarked => (35, 'a')
      case StudentNotFound => (40, 'D')
      case AlreadyEnrolled => (41, 's')
      case EmailTaken => (41, 't')
      case StudentFieldsMissing => (55, 't')
      case StudentIdTaken => (37, 'e')
  {
    match e
    case NoActiveSession =>
    case InvalidCode =>
    case AlreadyMarked =>
    case StudentNotFound =>
    case AlreadyEnrolled =>
    case EmailTaken =>
    case StudentFieldsMissing =>
    case StudentIdTaken =>
  }

  /** JavaScript truthiness of an optional string: absent and "" are both false. */
  predicate Truthy(s: Option<string>) {
    s.Some? && s.value != ""
  }

  /** `Array.prototype.filter`: keeps the elements satisfying `p`, in order. */
  function Filter<T>(s: seq<T>, p: T -> bool): (r: seq<T>)
    ensures |r| <= |s|
    ensures forall i :: 0 <= i < |r| ==> r[i] in s && p(r[i])
    ensures forall i :: 0 <= i < |s| && p(s[i]) ==> s[i] in r
  {
    if s == [] then []
    else if p(s[0]) then [s[0]] + Filter(s[1..], p) else Filter(s[1..], p)
  }

  /** `Array.prototype.find`: the first element satisfying `p`, if any. */
  function Find<T>(s: seq<T>, p: T -> bool): (r: Option<T>)
    ensures r.None? <==> forall i :: 0 <= i < |s| ==> !p(s[i])
    ensures r.Some? ==> exists i :: 0 <= i < |s| && s[i] == r.value && p(s[i]) &&
                          forall j :: 0 <= j < i ==> !p(s[j])
  {
    if s == [] then None
    else if p(s[0]) then Some(s[0])
    else
      var r := Find(s[1..], p);
      if r.Some? then
        ghost var i :| 0 <= i < |s[1..]| && s[1..][i] == r.value && p(s[1..][i]) &&
                       forall j :: 0 <= j < i ==> !p(s[1..][j]);
        assert s[i + 1] == r.value;
        r
      else r
  }

  /** When at most one element satisfies `p`, `Find` returns that element. */
  lemma FindOnly<T>(s: seq<T>, p: T -> bool, k: nat)
    requires k < |s| && p(s[k])
    requires forall i, j :: 0 <= i < j < |s| && p(s[i]) ==> !p(s[j])
    ensures Find(s, p) == Some(s[k])
  {
    var r := Find(s, p);
    var i :| 0 <= i < |s| && s[i] == r.value && p(s[i]) && forall j :: 0 <= j < i ==> !p(s[j]);
    assert i == k;
  }

  /** `Find` over a sequence with one more element at its end. */
  lemma {:induction false} FindAppend<T>(s: seq<T>, x: T, p: T -> bool)
    ensures Find(s + [x], p) == if Find(s, p).Some? then Find(s, p) else if p(x) then Some(x) else None
  {
    if s != [] {
      assert (s + [x])[1..] == s[1..] + [x];
      FindAppend(s[1..], x, p);
    }
  }

  lemma {:induction false} FilterAppend<T>(s: seq<T>, t: seq<T>, p: T -> bool)
    ensures Filter(s + t, p) == Filter(s, p) + Filter(t, p)
  {
    if s == [] {
      assert s + t == t;
    } else {
      assert (s + t)[1..] == s[1..] + t;
      FilterAppend(s[1..], t, p);
    }
  }

  /** Filtering everything out of `s` leaves nothing. */
  lemma {:induction false} FilterNone<T>(s: seq<T>, p: T -> bool)
    requires forall i :: 0 <= i < |s| ==> !p(s[i])
    ensures Filter(s, p) == []
  {
    if s != [] {
      FilterNone(s[1..], p);
    }
  }

  /** Filtering that keeps everything of `s` leaves `s`. */
  lemma {:induction false} FilterAll<T>(s: seq<T>, p: T -> bool)
    requires forall i :: 0 <= i < |s| ==> p(s[i])
    ensures Filter(s, p) == s
  {
    if s != [] {
      FilterAll(s[1..], p);
    }
  }
}
