/** The identity store and the course registry: lookups by id, the lookup of
    a student by the human-facing student number, a lecturer's courses, and
    the validation `registerUser` performs before it adds a user. */
module Registry {
  import opened Types

  function HasUserId(id: string): User -> bool {
    (u: User) => u.id == id
  }

  function HasCourseId(id: string): Course -> bool {
    (c: Course) => c.id == id
  }

  /** `users.find(u => u.id === id)`. */
  function FindUser(users: seq<User>, id: string): (r: Option<User>)
    ensures r.Some? ==> r.value in users && r.value.id == id
    ensures r.None? <==> forall i :: 0 <= i < |users| ==> users[i].id != id
  {
    Find(users, HasUserId(id))
  }

  /** `courses.find(c => c.id === id)`. */
  function FindCourse(courses: seq<Course>, id: string): (r: Option<Course>)
    ensures r.Some? ==> r.value in courses && r.value.id == id
    ensures r.None? <==> forall i :: 0 <= i < |courses| ==> courses[i].id != id
  {
    Find(courses, HasCourseId(id))
  }

  predicate DistinctUserIds(users: seq<User>) {
    forall i, j :: 0 <= i < j < |users| ==> users[i].id != users[j].id
  }

  predicate DistinctCourseIds(courses: seq<Course>) {
    forall i, j :: 0 <= i < j < |courses| ==> courses[i].id != courses[j].id
  }

  /** No two users carry the same student number. */
  predicate DistinctStudentNumbers(users: seq<User>) {
    forall i, j :: 0 <= i < j < |users| && users[i].studentId.Some? ==> users[i].studentId != users[j].studentId
  }

  /** With distinct ids, looking a user up by its own id yields that user. */
  lemma FindUserById(users: seq<User>, k: nat)
    requires DistinctUserIds(users) && k < |users|
    ensures FindUser(users, users[k].id) == Some(users[k])
  {
    FindOnly(users, HasUserId(users[k].id), k);
  }

  /** With distinct ids, looking a course up by its own id yields that course. */
  lemma FindCourseById(courses: seq<Course>, k: nat)
    requires DistinctCourseIds(courses) && k < |courses|
    ensures FindCourse(courses, courses[k].id) == Some(courses[k])
  {
    FindOnly(courses, HasCourseId(courses[k].id), k);
  }

  predicate IsStudent(u: User) {
    u.role == Student
  }

  function StudentsOnly(): User -> bool {
    u => IsStudent(u)
  }

  /** `users.filter(u => u.role === 'student')`. */
  function Students(users: seq<User>): (r: seq<User>)
    ensures |r| <= |users|
    ensures forall i :: 0 <= i < |r| ==> r[i] in users && IsStudent(r[i])
    ensures forall i :: 0 <= i < |users| && IsStudent(users[i]) ==> users[i] in r
  {
    Filter(users, StudentsOnly())
  }

  /** The students keep the users' distinct ids. */
  lemma {:induction false} StudentsDistinct(users: seq<User>)
    requires DistinctUserIds(users)
    ensures DistinctUserIds(Students(users))
  {
    if users != [] {
      var rest := Students(users[1..]);
      StudentsDistinct(users[1..]);
      if IsStudent(users[0]) {
        assert Students(users) == [users[0]] + rest;
        forall i | 0 <= i < |rest|
          ensures rest[i].id != users[0].id
        {
          var k :| 0 <= k < |users[1..]| && users[1..][k] == rest[i];
          assert users[k + 1] == rest[i];
        }
      } else {
        assert Students(users) == rest;
      }
    }
  }

  function HasStudentNumber(number: string): User -> bool {
    (u: User) => u.studentId == Some(number) && u.role == Student
  }

  /** `users.find(u => u.studentId === number && u.role === 'student')`. */
  function FindStudentByNumber(users: seq<User>, number: string): (r: Option<User>)
    ensures r.Some? ==> r.value in users && r.value.studentId == Some(number) && IsStudent(r.value)
    ensures r.None? <==> forall i :: 0 <= i < |users| ==> !(users[i].studentId == Some(number) && IsStudent(users[i]))
  {
    Find(users, HasStudentNumber(number))
  }

  function TaughtBy(lecturerId: string): Course -> bool {
    (c: Course) => c.lecturerId == lecturerId
  }

  /** `courses.filter(c => c.lecturerId === lecturerId)`. */
  function LecturerCourses(courses: seq<Course>, lecturerId: string): (r: seq<Course>)
    ensures forall i :: 0 <= i < |r| ==> r[i] in courses && r[i].lecturerId == lecturerId
    ensures forall i :: 0 <= i < |courses| && courses[i].lecturerId == lecturerId ==> courses[i] in r
  {
    Filter(courses, TaughtBy(lecturerId))
  }

  predicate EmailRoleTaken(users: seq<User>, email: string, role: Role) {
    exists i :: 0 <= i < |users| && users[i].email == email && users[i].role == role
  }

  predicate StudentNumberTaken(users: seq<User>, number: string) {
    exists i :: 0 <= i < |users| && users[i].studentId == Some(number)
  }

  /** The checks `registerUser` makes, in its order: an existing (email, role)
      pair, then for a student a missing student number, course or level,
      then a student number any user already has. */
  function RegistrationCheck(users: seq<User>, email: string, role: Role,
                             studentId: Option<string>, course: Option<string>, level: Option<string>): (r: Outcome)
    ensures r == Pass <==>
      && (forall i :: 0 <= i < |users| ==> !(users[i].email == email && users[i].role == role))
      && (role == Student ==> Truthy(studentId) && Truthy(course) && Truthy(level) &&
                              forall i :: 0 <= i < |users| ==> users[i].studentId != studentId)
    ensures role == Lecturer ==> r == Pass || r == Fail(EmailTaken)
    ensures r == Fail(EmailTaken) <==> EmailRoleTaken(users, email, role)
    ensures r == Fail(StudentFieldsMissing) <==>
      !EmailRoleTaken(users, email, role) && role == Student && !(Truthy(studentId) && Truthy(course) && Truthy(level))
    ensures r == Fail(StudentIdTaken) <==>
      && !EmailRoleTaken(users, email, role) && role == Student && Truthy(studentId) && Truthy(course) && Truthy(level)
      && StudentNumberTaken(users, studentId.value)
    ensures r == Pass || r == Fail(EmailTaken) || r == Fail(StudentFieldsMissing) || r == Fail(StudentIdTaken)
  {
    if EmailRoleTaken(users, email, role) then Fail(EmailTaken)
    else if role == Student && !(Truthy(studentId) && Truthy(course) && Truthy(level)) then Fail(StudentFieldsMissing)
    else if role == Student && StudentNumberTaken(users, studentId.value) then Fail(StudentIdTaken)
    else Pass
  }

  /** The id of a new user: `s` or `l` followed by the clock reading. */
  function UserIdFor(role: Role, stamp: string): string {
    (if role == Student then "s" else "l") + stamp
  }

  /** The record `registerUser` appends: the student fields are kept only for a student. */
  function NewUser(id: string, name: string, email: string, password: string, role: Role,
                   studentId: Option<string>, course: Option<string>, level: Option<string>): User
  {
    if role == Student then User(id, name, email, password, role, studentId, course, level)
    else User(id, name, email, password, role, None, None, None)
  }

  /** The user without its password, as `registerUser` returns it. */
  function ProfileOf(u: User): Profile {
    Profile(u.id, u.name, u.email, u.role, u.studentId, u.course, u.level)
  }

  /** The id of a new user tells its role and its clock reading apart: two
      ids are equal exactly when both the roles and the readings are. */
  lemma UserIdForRole(role: Role, stamp: string, role': Role, stamp': string)
    ensures UserIdFor(role, stamp) == UserIdFor(role', stamp') <==> role == role' && stamp == stamp'
  {
    var a, b := UserIdFor(role, stamp), UserIdFor(role', stamp');
    if a == b {
      assert a[0] == b[0];
      assert a[1..] == stamp && b[1..] == stamp';
    }
  }

  /** The profile drops the password and nothing else: two users have the
      same profile exactly when they agree on every other field. */
  lemma ProfileForgetsOnlyPassword(u: User, v: User)
    ensures ProfileOf(u) == ProfileOf(v) <==> u.(password := v.password) == v
  {
  }

  /** A successful registration gives a lecturer no student fields, gives a
      student all three, non-empty, and keeps student numbers distinct. */
  lemma RegistrationKeepsStudentNumbersDistinct(
    users: seq<User>, id: string, name: string, email: string, password: string, role: Role,
    studentId: Option<string>, course: Option<string>, level: Option<string>)
    requires DistinctStudentNumbers(users)
    requires RegistrationCheck(users, email, role, studentId, course, level) == Pass
    ensures var u := NewUser(id, name, email, password, role, studentId, course, level);
      && (role == Lecturer ==> u.studentId.None? && u.course.None? && u.level.None?)
      && (role == Student ==> Truthy(u.studentId) && Truthy(u.course) && Truthy(u.level))
      && DistinctStudentNumbers(users + [u])
  {
    var u := NewUser(id, name, email, password, role, studentId, course, level);
    var all := users + [u];
    forall i, j | 0 <= i < j < |all| && all[i].studentId.Some?
      ensures all[i].studentId != all[j].studentId
    {
      if j == |users| {
        assert all[i] == users[i];
      }
    }
  }

  /** Registering the same email and role a second time is refused. */
  lemma RegistrationRejectsRepeat(
    users: seq<User>, id: string, name: string, email: string, password: string, role: Role,
    studentId: Option<string>, course: Option<string>, level: Option<string>)
    requires RegistrationCheck(users, email, role, studentId, course, level) == Pass
    ensures RegistrationCheck(users + [NewUser(id, name, email, password, role, studentId, course, level)],
                              email, role, studentId, course, level) == Fail(EmailTaken)
  {
    var all := users + [NewUser(id, name, email, password, role, studentId, course, level)];
    assert all[|users|].email == email && all[|users|].role == role;
  }
}
