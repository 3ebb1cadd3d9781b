/** The enrollment index: the (student id, course id) relation, the decision
    `enrollStudent` takes, its two read projections, and the pairs the two
    auto-enrollments add. */
module Enrollments {
  import opened Types
  import opened Registry

  /** `enrollments.some(e => e.studentId === studentId && e.courseId === courseId)`. */
  predicate IsEnrolled(enrollments: seq<Enrollment>, studentId: string, courseId: string) {
    Enrollment(studentId, courseId) in enrollments
  }

  /** No pair occurs twice. */
  predicate UniqueEnrollments(enrollments: seq<Enrollment>) {
    forall i, j :: 0 <= i < j < |enrollments| ==> enrollments[i] != enrollments[j]
  }

  function InCourse(courseId: string): Enrollment -> bool {
    (e: Enrollment) => e.courseId == courseId
  }

  function OfStudent(studentId: string): Enrollment -> bool {
    (e: Enrollment) => e.studentId == studentId
  }

  /** `enrollments.filter(e => e.courseId === courseId)`. */
  function CourseEnrollments(enrollments: seq<Enrollment>, courseId: string): (r: seq<Enrollment>)
    ensures forall i :: 0 <= i < |r| ==> r[i] in enrollments && r[i].courseId == courseId
    ensures forall i :: 0 <= i < |enrollments| && enrollments[i].courseId == courseId ==> enrollments[i] in r
  {
    Filter(enrollments, InCourse(courseId))
  }

  /** What `enrollStudent` decides: the student with that student number, or
      not found, or already enrolled. */
  function EnrollDecision(users: seq<User>, enrollments: seq<Enrollment>, number: string, courseId: string): (r: Result<User>)
    ensures r.Success? ==>
      r.value in users && IsStudent(r.value) && r.value.studentId == Some(number) && !IsEnrolled(enrollments, r.value.id, courseId)
    ensures r == Failure(StudentNotFound) <==>
      forall i :: 0 <= i < |users| ==> !(users[i].studentId == Some(number) && IsStudent(users[i]))
    ensures r == Failure(AlreadyEnrolled) ==>
      exists i :: 0 <= i < |users| && users[i].studentId == Some(number) && IsStudent(users[i]) && IsEnrolled(enrollments, users[i].id, courseId)
    ensures r == Failure(AlreadyEnrolled) <==>
      FindStudentByNumber(users, number).Some? && IsEnrolled(enrollments, FindStudentByNumber(users, number).value.id, courseId)
    ensures r.Success? <==>
      FindStudentByNumber(users, number).Some? && !IsEnrolled(enrollments, FindStudentByNumber(users, number).value.id, courseId)
    ensures r.Success? ==> r.value == FindStudentByNumber(users, number).value
    ensures r.Success? || r == Failure(StudentNotFound) || r == Failure(AlreadyEnrolled)
  {
    match FindStudentByNumber(users, number)
    case None => Failure(StudentNotFound)
    case Some(s) => if IsEnrolled(enrollments, s.id, courseId) then Failure(AlreadyEnrolled) else Success(s)
  }

  /** A successful enrollment resolves a student with that number who was not
      yet enrolled; adding its pair keeps pairs unique, makes the course's
      enrollment count grow by one, and makes the same call fail. */
  lemma EnrollOnce(users: seq<User>, enrollments: seq<Enrollment>, number: string, courseId: string)
    requires UniqueEnrollments(enrollments)
    requires EnrollDecision(users, enrollments, number, courseId).Success?
    ensures var s := EnrollDecision(users, enrollments, number, courseId).value;
      var after := enrollments + [Enrollment(s.id, courseId)];
      && s in users && s.studentId == Some(number) && IsStudent(s)
      && !IsEnrolled(enrollments, s.id, courseId)
      && UniqueEnrollments(after)
      && |CourseEnrollments(after, courseId)| == |CourseEnrollments(enrollments, courseId)| + 1
      && EnrollDecision(users, after, number, courseId) == Failure(AlreadyEnrolled)
  {
    var s := EnrollDecision(users, enrollments, number, courseId).value;
    var e := Enrollment(s.id, courseId);
    var after := enrollments + [e];
    FilterAppend(enrollments, [e], InCourse(courseId));
    assert after[|enrollments|] == e;
  }

  /** `getStudentCourses`: for each of the student's pairs in order, the
      course with that id, skipping pairs whose course is missing. */
  function StudentCourses(enrollments: seq<Enrollment>, courses: seq<Course>, studentId: string): (r: seq<Course>)
    ensures |r| <= |enrollments|
    ensures forall i :: 0 <= i < |r| ==> r[i] in courses && IsEnrolled(enrollments, studentId, r[i].id)
  {
    if enrollments == [] then []
    else
      var rest := StudentCourses(enrollments[1..], courses, studentId);
      var e := enrollments[0];
      assert enrollments == [e] + enrollments[1..];
      if e.studentId == studentId && FindCourse(courses, e.courseId).Some? then
        [FindCourse(courses, e.courseId).value] + rest
      else rest
  }

  /** With distinct course ids, every course the student is enrolled in is listed. */
  lemma {:induction false} StudentCoursesComplete(enrollments: seq<Enrollment>, courses: seq<Course>, studentId: string, k: nat)
    requires DistinctCourseIds(courses) && k < |courses|
    requires IsEnrolled(enrollments, studentId, courses[k].id)
    ensures courses[k] in StudentCourses(enrollments, courses, studentId)
  {
    if enrollments[0] == Enrollment(studentId, courses[k].id) {
      FindCourseById(courses, k);
    } else {
      assert Enrollment(studentId, courses[k].id) in enrollments[1..];
      StudentCoursesComplete(enrollments[1..], courses, studentId, k);
    }
  }

  /** `getCourseStudents`: for each of the course's pairs in order, the user
      with that id, skipping pairs whose user is missing. */
  function CourseStudents(enrollments: seq<Enrollment>, users: seq<User>, courseId: string): (r: seq<User>)
    ensures |r| <= |enrollments|
    ensures forall i :: 0 <= i < |r| ==> r[i] in users && IsEnrolled(enrollments, r[i].id, courseId)
  {
    if enrollments == [] then []
    else
      var rest := CourseStudents(enrollments[1..], users, courseId);
      var e := enrollments[0];
      assert enrollments == [e] + enrollments[1..];
      if e.courseId == courseId && FindUser(users, e.studentId).Some? then
        [FindUser(users, e.studentId).value] + rest
      else rest
  }

  /** With distinct user ids, every user enrolled in the course is listed. */
  lemma {:induction false} CourseStudentsComplete(enrollments: seq<Enrollment>, users: seq<User>, courseId: string, k: nat)
    requires DistinctUserIds(users) && k < |users|
    requires IsEnrolled(enrollments, users[k].id, courseId)
    ensures users[k] in CourseStudents(enrollments, users, courseId)
  {
    if enrollments[0] == Enrollment(users[k].id, courseId) {
      FindUserById(users, k);
    } else {
      assert Enrollment(users[k].id, courseId) in enrollments[1..];
      CourseStudentsComplete(enrollments[1..], users, courseId, k);
    }
  }

  /** The pairs `createCourse` adds: one per student, in order. */
  function PairsForCourse(students: seq<User>, courseId: string): (r: seq<Enrollment>)
    ensures |r| == |students|
  {
    seq(|students|, i requires 0 <= i < |students| => Enrollment(students[i].id, courseId))
  }

  /** Every student gets a pair for the course, and students with distinct
      ids get distinct pairs. */
  lemma PairsForCourseEnrollsEach(students: seq<User>, courseId: string)
    ensures forall i :: 0 <= i < |students| ==> IsEnrolled(PairsForCourse(students, courseId), students[i].id, courseId)
    ensures DistinctUserIds(students) ==> UniqueEnrollments(PairsForCourse(students, courseId))
  {
    var r := PairsForCourse(students, courseId);
    assert forall i :: 0 <= i < |students| ==> r[i] == Enrollment(students[i].id, courseId);
  }

  /** One more student adds one more pair at the end. */
  lemma PairsForCourseSnoc(students: seq<User>, courseId: string, i: nat)
    requires i < |students|
    ensures PairsForCourse(students[..i + 1], courseId) == PairsForCourse(students[..i], courseId) + [Enrollment(students[i].id, courseId)]
  {
    var a := PairsForCourse(students[..i + 1], courseId);
    var b := PairsForCourse(students[..i], courseId) + [Enrollment(students[i].id, courseId)];
    assert |a| == |b|;
    forall k | 0 <= k < |a|
      ensures a[k] == b[k]
    {
      assert a[k] == Enrollment(students[..i + 1][k].id, courseId);
    }
  }

  /** The pairs `registerUser` adds for a new student: one per course, in order. */
  function PairsForStudent(studentId: string, courses: seq<Course>): (r: seq<Enrollment>)
    ensures |r| == |courses|
  {
    seq(|courses|, i requires 0 <= i < |courses| => Enrollment(studentId, courses[i].id))
  }

  /** The student gets a pair for every course, and courses with distinct
      ids give distinct pairs. */
  lemma PairsForStudentEnrollsEach(studentId: string, courses: seq<Course>)
    ensures forall i :: 0 <= i < |courses| ==> IsEnrolled(PairsForStudent(studentId, courses), studentId, courses[i].id)
    ensures DistinctCourseIds(courses) ==> UniqueEnrollments(PairsForStudent(studentId, courses))
  {
    var r := PairsForStudent(studentId, courses);
    assert forall i :: 0 <= i < |courses| ==> r[i] == Enrollment(studentId, courses[i].id);
  }

  /** One more course adds one more pair at the end. */
  lemma PairsForStudentSnoc(studentId: string, courses: seq<Course>, i: nat)
    requires i < |courses|
    ensures PairsForStudent(studentId, courses[..i + 1]) == PairsForStudent(studentId, courses[..i]) + [Enrollment(studentId, courses[i].id)]
  {
    var a := PairsForStudent(studentId, courses[..i + 1]);
    var b := PairsForStudent(studentId, courses[..i]) + [Enrollment(studentId, courses[i].id)];
    assert |a| == |b|;
    forall k | 0 <= k < |a|
      ensures a[k] == b[k]
    {
      assert a[k] == Enrollment(studentId, courses[..i + 1][k].id);
    }
  }

  /** A course id no pair mentions yet. */
  predicate CourseUnused(enrollments: seq<Enrollment>, courseId: string) {
    forall i :: 0 <= i < |enrollments| ==> enrollments[i].courseId != courseId
  }

  /** A student id no pair mentions yet. */
  predicate StudentUnused(enrollments: seq<Enrollment>, studentId: string) {
    forall i :: 0 <= i < |enrollments| ==> enrollments[i].studentId != studentId
  }

  /** Creating a course with a fresh id enrolls each of the N students exactly
      once: the course ends up with N pairs and no pair is duplicated. */
  lemma AutoEnrollCourse(enrollments: seq<Enrollment>, users: seq<User>, courseId: string)
    requires UniqueEnrollments(enrollments) && DistinctUserIds(users)
    requires CourseUnused(enrollments, courseId)
    ensures var after := enrollments + PairsForCourse(Students(users), courseId);
      && UniqueEnrollments(after)
      && |CourseEnrollments(after, courseId)| == |Students(users)|
      && forall i :: 0 <= i < |users| && IsStudent(users[i]) ==> IsEnrolled(after, users[i].id, courseId)
  {
    var students := Students(users);
    var pairs := PairsForCourse(students, courseId);
    StudentsDistinct(users);
    PairsForCourseEnrollsEach(students, courseId);
    AppendUnique(enrollments, pairs);
    CountAfterAppend(enrollments, pairs, InCourse(courseId));
    forall i | 0 <= i < |users| && IsStudent(users[i])
      ensures IsEnrolled(enrollments + pairs, users[i].id, courseId)
    {
      var k :| 0 <= k < |students| && students[k] == users[i];
      assert pairs[k] == Enrollment(users[i].id, courseId);
      assert (enrollments + pairs)[|enrollments| + k] == pairs[k];
    }
  }

  /** Appending pairs that are unique among themselves and new to the list keeps pairs unique. */
  lemma AppendUnique(enrollments: seq<Enrollment>, pairs: seq<Enrollment>)
    requires UniqueEnrollments(enrollments) && UniqueEnrollments(pairs)
    requires forall i, j :: 0 <= i < |enrollments| && 0 <= j < |pairs| ==> enrollments[i] != pairs[j]
    ensures UniqueEnrollments(enrollments + pairs)
  {
    var after := enrollments + pairs;
    forall i, j | 0 <= i < j < |after|
      ensures after[i] != after[j]
    {
      if j < |enrollments| {
        assert after[i] == enrollments[i] && after[j] == enrollments[j];
      } else if i < |enrollments| {
        assert after[i] == enrollments[i] && after[j] == pairs[j - |enrollments|];
      } else {
        assert after[i] == pairs[i - |enrollments|] && after[j] == pairs[j - |enrollments|];
      }
    }
  }

  /** When `p` holds of every appended pair and of no earlier one, filtering
      by `p` afterwards yields exactly the appended pairs. */
  lemma CountAfterAppend(enrollments: seq<Enrollment>, pairs: seq<Enrollment>, p: Enrollment -> bool)
    requires forall i :: 0 <= i < |enrollments| ==> !p(enrollments[i])
    requires forall i :: 0 <= i < |pairs| ==> p(pairs[i])
    ensures Filter(enrollments + pairs, p) == pairs
  {
    FilterAppend(enrollments, pairs, p);
    FilterNone(enrollments, p);
    FilterAll(pairs, p);
  }

  /** Registering a student with a fresh id enrolls it in each of the M
      courses exactly once, and no pair is duplicated. */
  lemma AutoEnrollStudent(enrollments: seq<Enrollment>, courses: seq<Course>, studentId: string)
    requires UniqueEnrollments(enrollments) && DistinctCourseIds(courses)
    requires StudentUnused(enrollments, studentId)
    ensures var after := enrollments + PairsForStudent(studentId, courses);
      && UniqueEnrollments(after)
      && |Filter(after, OfStudent(studentId))| == |courses|
      && StudentCourses(after, courses, studentId) == courses
  {
    var pairs := PairsForStudent(studentId, courses);
    PairsForStudentEnrollsEach(studentId, courses);
    AppendUnique(enrollments, pairs);
    CountAfterAppend(enrollments, pairs, OfStudent(studentId));
    StudentCoursesOfFreshStudent(enrollments, pairs, courses, studentId);
  }

  /** The courses listed for a student no earlier pair mentions are exactly
      those of its own pairs. */
  lemma {:induction false} StudentCoursesOfFreshStudent(
    enrollments: seq<Enrollment>, pairs: seq<Enrollment>, courses: seq<Course>, studentId: string)
    requires DistinctCourseIds(courses)
    requires StudentUnused(enrollments, studentId)
    requires pairs == PairsForStudent(studentId, courses)
    ensures StudentCourses(enrollments + pairs, courses, studentId) == courses
  {
    if enrollments != [] {
      assert (enrollments + pairs)[1..] == enrollments[1..] + pairs;
      StudentCoursesOfFreshStudent(enrollments[1..], pairs, courses, studentId);
    } else {
      assert enrollments + pairs == pairs;
      assert courses[0..] == courses;
      OwnPairsListCourses(courses, studentId, 0);
    }
  }

  /** The student's pairs for the courses from the `k`-th on list exactly those courses. */
  lemma {:induction false} OwnPairsListCourses(courses: seq<Course>, studentId: string, k: nat)
    requires DistinctCourseIds(courses) && k <= |courses|
    ensures StudentCourses(PairsForStudent(studentId, courses[k..]), courses, studentId) == courses[k..]
    decreases |courses| - k
  {
    if k < |courses| {
      var pairs := PairsForStudent(studentId, courses[k..]);
      PairsForStudentTail(studentId, courses, k);
      FindCourseById(courses, k);
      OwnPairsListCourses(courses, studentId, k + 1);
      StudentCoursesCons(pairs, courses, studentId);
      assert courses[k..] == [courses[k]] + courses[k + 1..];
    }
  }

  /** A first pair of the student whose course exists contributes that course first. */
  lemma StudentCoursesCons(enrollments: seq<Enrollment>, courses: seq<Course>, studentId: string)
    requires enrollments != [] && enrollments[0].studentId == studentId
    requires FindCourse(courses, enrollments[0].courseId).Some?
    ensures StudentCourses(enrollments, courses, studentId) ==
      [FindCourse(courses, enrollments[0].courseId).value] + StudentCourses(enrollments[1..], courses, studentId)
  {
  }

  /** The pairs for the courses from the `k`-th on start with the `k`-th course's pair. */
  lemma PairsForStudentTail(studentId: string, courses: seq<Course>, k: nat)
    requires k < |courses|
    ensures PairsForStudent(studentId, courses[k..])[0] == Enrollment(studentId, courses[k].id)
    ensures PairsForStudent(studentId, courses[k..])[1..] == PairsForStudent(studentId, courses[k + 1..])
  {
    var pairs := PairsForStudent(studentId, courses[k..]);
    var rest := PairsForStudent(studentId, courses[k + 1..]);
    assert |pairs[1..]| == |rest|;
    forall i | 0 <= i < |rest|
      ensures pairs[1..][i] == rest[i]
    {
      assert pairs[i + 1] == Enrollment(studentId, courses[k..][i + 1].id);
      assert rest[i] == Enrollment(studentId, courses[k + 1..][i].id);
    }
  }
}
