# Attendance engine — a Dafny model

This project models the attendance engine of a small university attendance
web app. The engine is one module that keeps five lists in browser storage:
users, courses, enrollment pairs, session codes and attendance records.

- A lecturer issues a 5-character session code for a course. Issuing a code
  switches off the course's earlier codes.
- A student redeems the code to be marked present for the day.
- Lecturers enroll students by their student number. A new course
  auto-enrolls every existing student, and a new student is auto-enrolled in
  every existing course.
- Read projections list a student's history, a course's register within a
  date range, the students of a course and the courses of a student.
- Per-course statistics report distinct session dates, records, enrolled
  students and an average attendance percentage.

The store is the class `Store.AttendanceStore`. Its five `seq` fields are
the five lists. Each mutating operation is a method with a `modifies`
clause and an `ensures` that gives the complete new state.

The method carries out a decision. That decision is a function in the
module that owns the entity:
- `Codes`: session codes and the "at most one active code per course"
  invariant.
- `Ledger`: the redemption check, the "one record per student, course and
  date" invariant, and the two history projections.
- `Enrollments`: the enrollment decision, the projections and the pairs
  added by auto-enrollment.
- `Registry`: user and course lookups, and the registration check.
- `Stats`: the statistics.

The properties are proved as lemmas about those functions. `Types` holds the
records, the error strings and the JavaScript `find`/`filter` semantics.
A failing operation returns an `Error` value. `Types.Message` records, as
documentation, the string the service returns for each error; the contracts
speak of the `Error` values, and the only property proved of the strings is
that they are pairwise distinct.
`Text` holds ASCII upper-casing and string order. `Seed` holds the sample
state written on first start.

Inputs the source draws from the environment are parameters:
- `picks`: the five random alphabet indices.
- `stamp`: the clock reading that makes up new ids.
- `today`, `createdAt` and `timestamp`: the date and time strings.

## Model

| member | source | states |
|---|---|---|
| Types.MessagesDistinct | src/app/services/mockData.ts:244-418 | The eight failure messages the service returns are pairwise distinct, so each error can be told apart by its message. |
| Codes.AlphabetHasNoAmbiguousSymbols | src/app/services/mockData.ts:200 | The code alphabet has 32 symbols, none of them `0`, `O`, `1` or `I`. |
| Codes.CodeFromPicks | src/app/services/mockData.ts:199-204 | The code built from five random picks has length 5. Every character is in the alphabet and is an unambiguous symbol. Upper-casing leaves it unchanged. |
| Codes.ActiveCode | src/app/services/mockData.ts:222-225 | No result exactly when no code of the course is active. Otherwise the result is an active code of that course from the list. |
| Codes.ActiveCodeIsUnique | src/app/services/mockData.ts:222-225 | Under the one-active-code invariant, any active code of the course is the one the lookup returns. |
| Codes.Deactivated | src/app/services/mockData.ts:193-197 | After switching off the course's codes, no code of the course is active. The list keeps its length. Every entry keeps every field except `active`. Other courses' entries are unchanged. |
| Codes.DeactivateIdempotent | src/app/services/mockData.ts:228-237 | Switching off twice is switching off once. Afterwards the active-code lookup finds nothing. |
| Codes.DeactivatePreservesInvariant | src/app/services/mockData.ts:228-237 | Switching off keeps at most one active code per course. |
| Codes.ActiveCodeAppend | src/app/services/mockData.ts:222-225 | Appending one code changes the lookup only when the course had no active code and the new code is active for it. |
| Codes.DeactivateOtherCourse | src/app/services/mockData.ts:193-197 | Switching off one course's codes does not change which code is active for another course. |
| Codes.Issued | src/app/services/mockData.ts:193-216 | Issuing grows the list by exactly one, with the new code last. Earlier entries keep all fields but `active`, and none of the course's is active. Other courses' entries are unchanged. |
| Codes.IssueMakesSoleActive | src/app/services/mockData.ts:189-219 | After issuing, the new code is the course's active code. Every earlier code of the course is inactive. At most one code per course is active. |
| Codes.IssueLeavesOtherCourses | src/app/services/mockData.ts:189-219 | Issuing a code for one course leaves the active code of every other course as it was. |
| Text.UpperAsciiFixes | src/app/services/mockData.ts:246 | An upper-cased string has no lower-case ASCII letter, keeps its length and every other character. A string is unchanged by upper-casing exactly when it has no lower-case letter, so upper-casing twice is upper-casing once. |
| Text.StringLeTotal | src/app/services/mockData.ts:299-302 | Any two date strings are ordered one way or the other. |
| Text.StringLeTransitive | src/app/services/mockData.ts:299-302 | The string order is transitive. |
| Text.StringLeAntisymmetric | src/app/services/mockData.ts:299-302 | Strings ordered both ways are equal. |
| Text.StringLeReflexive | src/app/services/mockData.ts:299-302 | Every string is ordered before itself, so both range bounds are inclusive. |
| Registry.FindUser | src/app/services/mockData.ts:307 | No result exactly when no user has the id. Otherwise the result is a user from the list with that id. |
| Registry.FindCourse | src/app/services/mockData.ts:178 | No result exactly when no course has the id. Otherwise the result is a course from the list with that id. |
| Registry.FindUserById | src/app/services/mockData.ts:318 | With distinct user ids, looking up a user's own id yields that user. |
| Registry.FindCourseById | src/app/services/mockData.ts:286 | With distinct course ids, looking up a course's own id yields that course. |
| Registry.Students | src/app/services/mockData.ts:364 | The students are exactly the users with role student, drawn from the user list. |
| Registry.StudentsDistinct | src/app/services/mockData.ts:364-367 | The students keep the users' distinct ids. |
| Registry.FindStudentByNumber | src/app/services/mockData.ts:328 | No result exactly when no student carries the number. Otherwise the result is a student with that number. |
| Registry.LecturerCourses | src/app/services/mockData.ts:183-186 | The result holds exactly the courses taught by the lecturer. |
| Registry.RegistrationKeepsStudentNumbersDistinct | src/app/services/mockData.ts:406-437 | The user a passing registration stores (`Registry.NewUser`) gives a lecturer no student fields. It gives a student all three, non-empty, and keeps student numbers distinct. |
| Registry.RegistrationCheck | src/app/services/mockData.ts:405-420 | The check passes exactly when no user has the email with the role and, for a student, the student number, course and level are all non-empty and no user has that student number. Each error is returned exactly in its case, in the source's order: a taken (email, role) pair first, then missing student fields, then a taken student number. A lecturer can only be refused for the email. |
| Registry.UserIdForRole | src/app/services/mockData.ts:423 | Two new-user ids are equal exactly when their roles and their clock readings are, so a student id never collides with a lecturer id. |
| Registry.ProfileForgetsOnlyPassword | src/app/services/mockData.ts:449-450 | Two users have the same returned profile exactly when they agree on every field but the password. |
| Registry.RegistrationRejectsRepeat | src/app/services/mockData.ts:406-409 | After a successful registration, the same email and role are refused. |
| Enrollments.EnrollDecision | src/app/services/mockData.ts:327-339 | Success returns exactly the student the number lookup finds, when that student is not yet enrolled; it is a student from the user list with that number. Not found exactly when no student carries the number. Already enrolled exactly when the found student has the pair. No other outcome occurs. |
| Enrollments.CourseEnrollments | src/app/services/mockData.ts:316 | The result holds exactly the pairs of the course. |
| Enrollments.EnrollOnce | src/app/services/mockData.ts:323-345 | A successful enrollment resolves a student with that number who was not yet enrolled. The new pair keeps pairs unique and grows the course's count by one. The same call then fails as already enrolled. |
| Enrollments.StudentCourses | src/app/services/mockData.ts:172-180 | Every listed course exists and the student is enrolled in it. The list is no longer than the pairs. |
| Enrollments.StudentCoursesComplete | src/app/services/mockData.ts:172-180 | With distinct course ids, every course the student is enrolled in is listed. |
| Enrollments.CourseStudents | src/app/services/mockData.ts:312-320 | Every listed user exists and is enrolled in the course. The list is no longer than the pairs. |
| Enrollments.CourseStudentsComplete | src/app/services/mockData.ts:312-320 | With distinct user ids, every user enrolled in the course is listed. |
| Enrollments.PairsForCourseEnrollsEach | src/app/services/mockData.ts:364-367 | The pairs a new course adds enroll every student in it, and are unique when the student ids are distinct. |
| Enrollments.PairsForStudentEnrollsEach | src/app/services/mockData.ts:441-446 | The pairs a new student gets enroll it in every course, and are unique when the course ids are distinct. |
| Enrollments.AutoEnrollCourse | src/app/services/mockData.ts:360-368 | For a fresh course id, N students give the course exactly N pairs. Every student is enrolled and no pair is duplicated. |
| Enrollments.AutoEnrollStudent | src/app/services/mockData.ts:440-447 | For a fresh student id, M courses give the student exactly M pairs. No pair is duplicated, and the student's course list is exactly the courses. |
| Enrollments.StudentCoursesOfFreshStudent | src/app/services/mockData.ts:440-447 | A new student's course list, after auto-enrollment, is the course list in order. |
| Ledger.MarkDecision | src/app/services/mockData.ts:240-260 | No active session exactly when no code of the course is active. A pass needs an active code of the course equal to the upper-cased input and no record of the triple today. Already marked only when such a record exists. No other outcome occurs. |
| Ledger.InvalidCodeExactlyWhenUnmatched | src/app/services/mockData.ts:242-248 | Under the one-active-code invariant, the input is refused as invalid exactly when the course has an active code and none of its active codes equals the upper-cased input. |
| Ledger.NewRecordMarksOnlyItsDay | src/app/services/mockData.ts:262-272 | The appended record is present and marks its (student, course, date) triple; every other triple reads as before. |
| Ledger.AtMostOneRecordPerDay | src/app/services/mockData.ts:253-260 | Under the ledger invariant, a (student, course, date) triple has at most one record. |
| Ledger.MarkOnce | src/app/services/mockData.ts:240-275 | A redemption that passes the checks adds the only record of its triple and keeps the invariant. Repeating the call fails as already marked. |
| Ledger.IssuedCodeIsAccepted | src/app/services/mockData.ts:240-260 | Right after a code is issued, presenting it in any ASCII letter case passes unless already marked today. |
| Ledger.DeactivatedCourseRejects | src/app/services/mockData.ts:242-245 | Once a course's codes are switched off, every redemption fails with no active session. |
| Ledger.CourseRecords | src/app/services/mockData.ts:296 | The result holds exactly the records of the course. |
| Ledger.InsertByDate | src/app/services/mockData.ts:288 | Inserting adds exactly the entry: the result is the input plus one copy of it, as a multiset. |
| Ledger.InsertByDateCorrect | src/app/services/mockData.ts:288 | Inserting into a newest-first list keeps it newest first. |
| Ledger.SortNewestFirst | src/app/services/mockData.ts:288 | The history sort yields newest-first order and a permutation of its input. |
| Ledger.StudentAttendance | src/app/services/mockData.ts:278-289 | The history is newest first and a permutation of the student's records joined with their courses. |
| Ledger.StudentAttendanceCorrect | src/app/services/mockData.ts:278-289 | The history is newest first and as long as the student's records. It holds only the student's records, each with its course, and every such record appears. |
| Ledger.WithinDates | src/app/services/mockData.ts:298-303 | The result holds exactly the records inside the inclusive bounds. An absent or empty bound does not restrict. |
| Ledger.CourseAttendance | src/app/services/mockData.ts:292-309 | Every entry is a record of the course inside the bounds, joined with its student. Every such record appears. |
| Stats.Dates | src/app/services/mockData.ts:382 | The set holds exactly the dates of the records. |
| Stats.DatesBound | src/app/services/mockData.ts:382-383 | There are no more sessions than records, and none exactly when there are no records. |
| Stats.CourseStats | src/app/services/mockData.ts:374-391 | Sessions never exceed attendances, and there are no sessions exactly when there are no attendances. |
| Stats.CourseStatsFacts | src/app/services/mockData.ts:374-391 | The counts are the course's records and pairs. Sessions do not exceed attendances. Zero sessions give an average of 0. Otherwise the average is 100 times attendances over sessions times enrolled. |
| Stats.AverageIsPercentage | src/app/services/mockData.ts:389 | With a record and an enrolled student, the fraction equals `attendances / (sessions * enrolled) * 100`. |
| Stats.StatsAfterMark | src/app/services/mockData.ts:378-383 | A new record adds one attendance. It adds one session exactly when its date is new for the course. The enrolled count is unchanged. |
| Stats.SessionsAfterAppend | src/app/services/mockData.ts:382-383 | One more record adds a distinct date exactly when its date is new. |
| Stats.AverageAtMostHundred | src/app/services/mockData.ts:378-389 | When every record's student is enrolled and both invariants hold, attendances are at most sessions times enrolled, so the average is at most 100. |
| Seed.SeedIsValid | src/app/services/mockData.ts:2-169 | The sample state has distinct user ids, course ids and student numbers, unique pairs and one record per triple. |
| Seed.SeedStatsOfFirstCourse | src/app/services/mockData.ts:107-161 | Sample course `c1` has 2 sessions, 3 attendances, 3 enrolled students and an average of 300/6 (50%). |
| Seed.SeedRecordWithoutEnrollment | src/app/services/mockData.ts:107-161 | The sample ledger holds a record of `s2` for `c2`, where `s2` is not enrolled. |
| Store.FreshCourseKeepsInvariants | src/app/services/mockData.ts:348-368 | A course with a fresh id keeps course ids distinct; its auto-enrollment pairs keep pairs unique, number one per student and enroll every student. |
| Store.AttendanceStore.constructor | src/app/services/mockData.ts:190 | Storage without saved lists reads every list as empty. The invariants hold. |
| Store.AttendanceStore.InitializeMockData | src/app/services/mockData.ts:2-169 | On first start the sample lists are written. Later calls change nothing. The code list is never touched, and the invariants hold. |
| Store.AttendanceStore.SwitchOffCodes | src/app/services/mockData.ts:193-197 | The in-place loop leaves the code list equal to its deactivated form. |
| Store.AttendanceStore.GenerateAttendanceCode | src/app/services/mockData.ts:189-219 | The returned code has id `code` + stamp, the picked characters and is active. The list is its issued form. The new code is the course's active code. Other courses' active codes are unchanged and the invariants hold. |
| Store.AttendanceStore.DeactivateCode | src/app/services/mockData.ts:228-237 | Always succeeds. The list is its deactivated form, the course has no active code, and the invariants hold. |
| Store.AttendanceStore.MarkAttendance | src/app/services/mockData.ts:240-275 | The outcome is the redemption decision. It succeeds exactly when the course has an active code equal to the upper-cased input and no record today. Success appends exactly one present record dated today; a failure writes nothing. The invariants hold. |
| Store.AttendanceStore.EnrollStudent | src/app/services/mockData.ts:323-345 | The outcome is the enrollment decision. Success appends exactly the student's pair; a failure writes nothing. The invariants hold. |
| Store.AttendanceStore.CreateCourse | src/app/services/mockData.ts:348-371 | Appends the course with id `c` + stamp and one pair per student. With a fresh id, the invariants hold and every student is enrolled. |
| Store.AttendanceStore.RegisterUser | src/app/services/mockData.ts:394-451 | A failed check writes nothing and returns that error. Otherwise exactly the new user is appended, and a student also gets one pair per course. The result is the user without its password. With a fresh id, the invariants hold and the student lists every course. |

## Left out

- Storage I/O: the JSON encoding and the browser storage reads and writes are not modelled. The five lists are fields of the store.
- Randomness and the clock: `Math.random` picks, `Date.now()` ids and ISO date/time strings are parameters. The model does not check that two clock readings differ.
- Store.AttendanceStore.CreateCourse: the invariants are promised only when `c` + stamp is fresh. Two courses created within one millisecond would share an id, and the source does not guard against that.
- Store.AttendanceStore.RegisterUser: the invariants are promised only when the new user id is fresh, for the same reason.
- Text.UpperAscii: upper-cases ASCII letters only. JavaScript's `toUpperCase` applies full Unicode case mapping, so some non-ASCII input maps onto ASCII capitals (`ß` becomes `SS`, `ſ` becomes `S`, `ﬀ` becomes `FF`). Such input is not upper-cased by the model.
- Store.AttendanceStore.MarkAttendance: because of the ASCII-only upper-casing, a typed code such as `ßabc` against the active code `SSABC` passes in the source but is refused as invalid by the model (`Ledger.MarkDecision` returns `InvalidCode`). For input made of ASCII characters the two agree.
- Concurrency: each operation is modelled as one atomic step on the store. Two browser tabs share the same storage and can interleave their read-modify-write sequences; two `markAttendance` calls for the same student, course and date could then both pass the already-marked check and both append. The invariants `UniqueMarks`, `UniqueEnrollments` and `AtMostOneActive` are proved only for a single writer.
- Ledger.SortNewestFirst: compares `YYYY-MM-DD` date strings in string order instead of parsing them into milliseconds. For well-formed dates the two orders agree. Malformed dates, which parse to NaN, are not modelled.
- Ledger.SortNewestFirst: states the order and the permutation, not the stability of the sort.
- Stats.CourseStats: the average is an exact fraction, not a floating-point number. With sessions but no enrolled student, the source divides by zero and gets `Infinity`; there the model keeps a zero denominator and proves nothing further.
- (email, role) uniqueness is not a store invariant. The sample state gives all students one email and all lecturers another, so only new registrations are checked.
- `getLecturerCourses` is modelled as `Registry.LecturerCourses`. Authentication, sessions, routing and the UI pages are not part of this model.
- Object identity is not modelled: the service hands out copies parsed from storage, and the model works on values.
