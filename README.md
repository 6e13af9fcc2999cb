# School management panel — the write rules, as a verified Dafny model

The School Management Panel is an Express/MySQL back end with a React front end. It
has two generations of back end: `backend/`, and the older `server/`. This project
models the part of it that decides whether a write is allowed, and the small helpers
around that decision:

- the timetable table and its conflict-checked create, update and delete handlers;
- the teacher-scope rule: an assignment covers a target when the sections are equal or
  either one is NULL;
- how an exam subject is resolved, and the ON DUPLICATE KEY upserts of marks and
  attendance;
- the teacher handlers built on the scope rule: entering marks, marking attendance,
  and listing exam subjects, marks sheets, students and the teacher's timetable;
- notification visibility, the role gate and pagination;
- the two login ladders, and the lifecycle of a single-use password-reset token;
- the time-slot helpers of the timetable pages and the helpers of the teaching-materials
  page;
- in the older `server/` back end: attendance by student and day, fees, and sign-in with
  seeding of the first admin.

Database tables the code changes in place are classes with `seq` fields, such as
`TimetableModel.TimetableTable` and `Marks.MarkTable`. Each handler is a method whose
`ensures` gives the new table contents. Queries are functions over those sequences.

SQL and JavaScript semantics are written out explicitly:

- NULL is `Option.None`.
- JavaScript truthiness of an id or a text is `Common.Truthy` / `Common.TruthyText`.
- `x || null` is `Common.OrNull` / `Common.TextOrNull`.
- A body field the update mappers may leave out, set to null, or give is `Common.Field`.
- `ORDER BY` is an insertion sort under a total preorder (`Sorting.SortedFilter`).
- `LIMIT 1` without an order is the first row in table order.
- `ON DUPLICATE KEY UPDATE` is `Keyed.UpsertAll`: the last record of the batch wins for
  each key, and rows with other keys stay.
- bcrypt, sha256, jwt signing, random tokens and the clock are parameters: function
  values, or plain values such as `now` and `today`.

## Model

| member | source | states |
|---|---|---|
| TimetableModel.DayRank | backend/models/timetableModel.js:48 | `FIELD(day_of_week, …)` is 0 exactly for text that is not a school day, and otherwise the 1-based position of that day in Monday..Saturday |
| TimetableModel.PeriodLeTotal | backend/models/timetableModel.js:48 | the listing order (day rank, then start time) is a total preorder, so the sorted listing is well defined |
| TimetableModel.HasClassConflict | backend/models/timetableModel.js:65-78 | true iff some row other than `excludeId` has the same class and day and overlaps the half-open interval `[start, end)`; the section plays no part |
| TimetableModel.HasTeacherConflict | backend/models/timetableModel.js:80-93 | the same overlap test, keyed only on the teacher, across every class and section |
| TimetableModel.OverlapSymmetric | backend/models/timetableModel.js:71-72 | stored A blocks proposed B iff stored B would block proposed A |
| TimetableModel.BackToBackNoClassConflict | backend/models/timetableModel.js:65-78 | periods that only touch (one ends where the other starts) are no class conflict |
| TimetableModel.ClassConflictIgnoresSection | backend/models/timetableModel.js:69-73 | any overlapping row of the class on that day conflicts, whatever its section, NULL included |
| TimetableModel.ExcludingNarrows | backend/models/timetableModel.js:65-93 | excluding an id can only remove conflicts, never add one |
| TimetableModel.ListTimetables | backend/models/timetableModel.js:39-63 | exactly the class's rows, restricted to the given section or NULL when a section is given, as a permutation of the table's matching rows, ordered by day then start time |
| TimetableModel.Stored | backend/models/timetableModel.js:3-21 | the inserted row: entry type defaults to lecture, a falsy title is stored as NULL, and every other column is as given |
| TimetableModel.ApplyPatch | backend/models/timetableModel.js:107-118 | every listed column takes its new value and every other column, and the id, keep theirs; an empty patch changes nothing |
| TimetableModel.TimetableTable.Create | backend/models/timetableModel.js:3-21 | appends exactly one row with a fresh id that no existing row has, and returns that id |
| TimetableModel.TimetableTable.Delete | backend/models/timetableModel.js:95-97 | removes every row with that id and leaves every other row, with its multiplicity |
| TimetableModel.TimetableTable.DeleteGroup | backend/models/timetableModel.js:99-105 | removes exactly the class's rows whose section is the given one, or NULL when none is given; all other rows stay |
| TimetableModel.TimetableTable.Update | backend/models/timetableModel.js:107-118 | an empty patch returns false and writes nothing; otherwise only the row with that id is patched |
| TimetableModel.FilterKeepsUniqueIds | backend/models/timetableModel.js:95-105 | deleting rows keeps ids distinct, and the remaining rows were all in the table |
| TimetableAdmin.Decide | backend/controllers/adminController.js:394-433 | 400 for a bad entry type, a lecture without subject and teacher, or a break without a title; then 409 for a class conflict; then, for lectures only, 409 for a teacher conflict; an accepted body stores a title only for a break and subject/teacher only for a lecture |
| TimetableAdmin.UpdatePatch | backend/controllers/adminController.js:477-490 | the update patch always sets the verdict's entry type, title, subject and teacher, so it is never empty; class, section, day, start, end and room left out of the body are left out of the patch |
| TimetableAdmin.UpdateKeepsOmittedColumns | backend/controllers/adminController.js:477-490 | an accepted update keeps the id and every column the body leaves out, clears a section or room sent as null, stores what the body gives, and always writes the verdict's entry type, title, subject and teacher |
| TimetableAdmin.SubsetKeepsConsistent | backend/controllers/adminController.js:514-532 | removing rows never breaks the no-overlap invariant |
| TimetableAdmin.PlaceKeepsConsistent | backend/controllers/adminController.js:405-425 | placing a row that passed both conflict checks (excluding its own id) keeps no class double-booked and no teacher double-booked |
| TimetableAdmin.ResubmitAccepted | backend/controllers/adminController.js:458-470 | re-saving an unchanged, complete period is accepted, because the update excludes its own id from both checks |
| TimetableAdmin.CreateTimetable | backend/controllers/adminController.js:392-438 | the verdict's reply and no write on rejection, otherwise 201 with the new row; a table with no overlaps keeps none |
| TimetableAdmin.UpdateTimetable | backend/controllers/adminController.js:440-495 | the verdict's reply and no write on rejection, otherwise only the row with that id is patched; with a full body a table with no overlaps keeps none |
| TimetableAdmin.DeleteTimetable | backend/controllers/adminController.js:514-521 | removes exactly the rows with that id and keeps the no-overlap invariant |
| TimetableAdmin.DeleteTimetableGroup | backend/controllers/adminController.js:523-532 | a missing or empty section query deletes the NULL-section group; exactly that group is removed and the invariant is kept |
| AdminPeople.NewStudent | backend/controllers/adminController.js:47-61 | a falsy section id is stored as NULL; the row points at the new user and the given class |
| AdminPeople.NewLinks | backend/controllers/adminController.js:63-68 | one parent link exactly when the parent id is truthy, for the new student, with a non-empty relationship |
| AdminPeople.UpdateKeepsOmittedFields | backend/controllers/adminController.js:109-118 | a field left out of the body keeps its stored value, one sent as null is cleared, one given is stored; id, user and name never change |
| AdminPeople.EmptyBodyEmptyPatch | backend/controllers/adminController.js:117 | the mapped patch is empty iff the body gives none of the six fields |
| AdminPeople.People.CreateStudent | backend/controllers/adminController.js:42-78 | all or nothing: an error in a statement that runs leaves users, students and links as they were; otherwise one user, one student and the optional link are added together, with 201 and the student id |
| AdminPeople.People.UpdateStudent | backend/controllers/adminController.js:103-123 | only the student with that id changes, by the mapped patch |
| TeacherScope.SectionsMatchSymmetric | backend/controllers/teacherController.js:86-90 | the section rule reads the same from either side |
| TeacherScope.SectionsMatchCases | backend/controllers/teacherController.js:86-90 | NULL on either side matches any section; two given sections match only when equal |
| TeacherScope.SectionsMatchNotTransitive | backend/controllers/teacherController.js:86-90 | the rule is not transitive: sections 1 and 2 both match NULL but not each other |
| TeacherScope.GetTeacherId | backend/controllers/teacherController.js:9-12 | a user without a teacher row gets null; a returned id is non-zero and belongs to a teacher row of that user |
| TeacherScope.NoTeacherNoCover | backend/controllers/teacherController.js:79-97 | `teacher_id = NULL` matches nothing, so a user without a teacher row covers no exam subject and no student |
| TeacherScope.ListTeacherAssignments | backend/models/teacherAssignmentModel.js:12-22 | exactly the rows of that teacher |
| TeacherScope.AssignmentTable.Create | backend/models/teacherAssignmentModel.js:3-10 | always appends one row with a fresh non-zero id, with no duplicate check and a falsy section as NULL; other rows stay |
| TeacherScope.AssignTeacher | backend/controllers/adminController.js:377-390 | answers 201 with the id of the one row appended |
| TeacherHandlers.Normalize | backend/controllers/teacherController.js:103-109 | numeric ids and marks are carried over; grade and remarks become NULL exactly when falsy |
| TeacherHandlers.EnterMarksCheck | backend/controllers/teacherController.js:66-101 | the checks in order (no records 400, no truthy exam-subject id 400, an uncovered id 403, missing marks 400), and passing iff all hold |
| TeacherHandlers.EnterMarks | backend/controllers/teacherController.js:66-116 | a refused request writes nothing; otherwise the normalised records are upserted and 'Marks saved' is answered |
| TeacherHandlers.NonTeacherCannotEnterMarks | backend/controllers/teacherController.js:9-12 | for a user with no teacher row, any body with a truthy exam-subject id gets 403 |
| TeacherHandlers.ZeroIdEscapesAuthorisation | backend/controllers/teacherController.js:74-111 | only truthy exam-subject ids are authorised, so a record whose id is 0 goes through with an authorised one and reaches the upsert |
| TeacherHandlers.StampAll | backend/controllers/teacherController.js:36-42 | every record saved carries the caller's user id as `marked_by` |
| TeacherHandlers.MarkAttendance | backend/controllers/teacherController.js:33-54 | no records 400; any status outside Present/Absent/Late 400; in both cases nothing is saved; otherwise one upsert stamped with the caller; there is no assignment check |
| TeacherHandlers.ListTeacherExamSubjects | backend/controllers/teacherController.js:237-270 | 400 without exam and class; otherwise exactly the exam subjects of that exam and class whose subject the teacher is assigned under the section rule |
| TeacherHandlers.TeacherMarksSheet | backend/controllers/teacherController.js:272-310 | 400 without ids; 403 unless the exam subject is in the class, matches the requested section and is covered; otherwise the marks sheet |
| TeacherHandlers.NonTeacherSeesNoSheet | backend/controllers/teacherController.js:283-304 | a user without a teacher row is never shown a marks sheet |
| TeacherHandlers.ListStudentsByClass | backend/controllers/teacherController.js:145-181 | [] for a non-teacher, 400 without a class, otherwise exactly the covered students of the class (and section), by name |
| TeacherHandlers.TeacherTimetable | backend/controllers/teacherController.js:183-227 | [] without a teacher row; otherwise exactly the periods the teacher teaches or of the teacher's assigned classes, by day then start |
| TeacherHandlers.OwnPeriodsListed | backend/controllers/teacherController.js:183-227 | every period the teacher teaches appears on the teacher's timetable |
| Exams.Existing | backend/models/examModel.js:46-68 | an exact match (section compared null-safely) wins when one exists; otherwise, for a truthy section, the section-NULL row; None iff neither exists |
| Exams.ResolveIdempotent | backend/models/examModel.js:46-79 | after the insert, the same arguments find the inserted row, so a repeated call returns the same id and inserts nothing |
| Exams.ListExamSubjects | backend/models/examModel.js:82-99 | each filter applies only when its argument is truthy, and the section filter also admits section-NULL rows |
| Exams.ListWithoutFilters | backend/models/examModel.js:99 | with no truthy filter every exam subject is listed |
| Exams.ExamSubjectTable.Add | backend/models/examModel.js:32-39 | appends one row with a fresh id, a falsy section stored as NULL |
| Exams.ExamSubjectTable.Resolve | backend/models/examModel.js:45-80 | the id of the existing row with the table unchanged; else null with nothing written when not asked to create; else one new row (100 marks by default) and its non-zero id |
| Exams.PatchExam | backend/models/examModel.js:15-26 | listed columns are replaced, the rest and the id kept; an empty patch changes nothing |
| Exams.ExamTable.Update | backend/controllers/adminController.js:543-556 | with undefined keys dropped, an empty patch returns false and writes nothing; otherwise only that exam is patched |
| Marks.MarkRow | backend/models/markModel.js:5 | the row keyed on (exam subject, student), remarks NULL exactly when falsy |
| Marks.MarkTable.UpsertMarks | backend/models/markModel.js:3-12 | an empty batch writes nothing; otherwise the table becomes the upsert of the batch keyed on (exam subject, student), keeping the key unique |
| Marks.UpsertMarksLastWins | backend/models/markModel.js:5-11 | after the upsert each batch key has exactly one row, holding the last batch record with that key |
| Marks.UpsertMarksKeepsOthers | backend/models/markModel.js:6-11 | a row whose key is not in the batch is in the table after iff it was before |
| Marks.MarkFor | backend/models/markModel.js:37-39 | the LEFT JOIN finds a mark only for a truthy exam-subject id, and one of that exam subject and student |
| Marks.Roster | backend/models/markModel.js:40-42 | the class's students, section-filtered when a section is given, as a permutation ordered by name |
| Marks.GetMarksSheet | backend/models/markModel.js:27-45 | one line per roster student, by name, with the marks and grade of that exam subject or NULL; all NULL without an exam-subject id |
| Marks.RosterMembers | backend/models/markModel.js:40-41 | a student is on the roster iff in the class (and section) |
| Marks.MarksSheetRowsOnRoster | backend/models/markModel.js:35-42 | every sheet line is a student of the class and section |
| Marks.MarksSheetListsRoster | backend/models/markModel.js:35-42 | every student of the class and section has a line |
| Attendance.AttendanceRowOf | backend/models/attendanceModel.js:4 | the row keyed on (student, date), remarks NULL exactly when falsy |
| Attendance.AttendanceTable.MarkAttendance | backend/models/attendanceModel.js:3-12 | an empty batch writes nothing; otherwise the table becomes the upsert of the batch keyed on (student, date), keeping the key unique |
| Attendance.MarkAttendanceLookup | backend/models/attendanceModel.js:6-11 | a key in the batch holds its last record; any other key keeps what it held |
| Attendance.AttendanceByStudent | backend/models/attendanceModel.js:14-20 | exactly that student's rows, newest date first |
| Attendance.PresentWithinTotal | backend/models/attendanceModel.js:28-29 | in any class/section group, present_count never exceeds total_records |
| Notifications.BroadcastVisibleToAll | backend/models/notificationModel.js:15-16 | a notification with both targets NULL is visible to every user of every role |
| Notifications.TargetedHiddenFromOthers | backend/models/notificationModel.js:15-16 | a notification for one user is visible to no other user, whatever the role |
| Notifications.ListForUser | backend/models/notificationModel.js:12-20 | exactly the visible notifications, newest first |
| Notifications.Created | backend/models/notificationModel.js:3-10 | a falsy target role or target user is stored as NULL; title and message as given |
| Notifications.PatchNotification | backend/models/notificationModel.js:22-33 | listed columns take their new values, others and the id keep theirs; an empty patch changes nothing |
| Notifications.NotificationTable.Create | backend/models/notificationModel.js:3-10 | appends one row with a fresh id, which is returned |
| Notifications.NotificationTable.Update | backend/models/notificationModel.js:22-33 | false and no write for an empty patch; otherwise only the row with that id is patched |
| Notifications.NotificationTable.Delete | backend/models/notificationModel.js:35-37 | removes exactly the rows with that id |
| RoleGate.Check | backend/middleware/role.js:1-9 | no caller or falsy role: 403 'Access denied'; a role outside the list: 403 'Insufficient permissions'; the handler runs iff the role is in the list |
| RoleGate.EmptyListRejectsAll | backend/middleware/role.js:5 | an empty list turns everyone away |
| RoleGate.WiderListAdmitsMore | backend/middleware/role.js:5 | adding roles to the list never turns away a caller who was admitted |
| Pagination.ParseInt | backend/utils/pagination.js:2-3 | `parseInt(…, 10)` is a number iff digits follow the optional whitespace and sign, and is non-negative without a minus sign |
| Pagination.ParsePagination | backend/utils/pagination.js:1-6 | page defaults to 1 and limit to 10; numeric page and limit are at least 1; offset is (page-1)*limit and non-negative; NaN propagates to the offset |
| Pagination.DefaultsParse | backend/utils/pagination.js:2-3 | the default texts '1' and '10' parse to 1 and 10 |
| Pagination.PagesTile | backend/utils/pagination.js:4 | consecutive pages tile: the next page starts one limit after this one |
| Pagination.NumericQuery | backend/utils/pagination.js:1-6 | decimal page and limit queries give exactly those values and offset (page-1)*limit |
| Pagination.TextPageIsNaN | backend/utils/pagination.js:2-4 | a non-numeric page is NaN, and so is the offset |
| Auth.FindByEmail | backend/controllers/authController.js:11 | the first account with that email, or none iff no account has it |
| Auth.Login | backend/controllers/authController.js:8-26 | unknown email 401; a given, different role 403; an omitted role skips the role check; then an inactive account 403 "Account inactive" and a wrong password 401; a token only for an active account whose password matches, with token and user carrying the same id, role and name |
| Auth.LoginPasswordDecides | backend/controllers/authController.js:18-19 | once the account is found, active and of the right role, sign-in succeeds iff the password matches |
| Auth.NewestUsable | backend/controllers/authController.js:74-79 | the usable reset row (that user, that hash, unused, not expired) with the highest id; none iff there is no usable row |
| Auth.Consume | backend/controllers/authController.js:85 | sets `used_at` on the rows with that id and changes nothing else |
| Auth.ConsumedNotUsable | backend/controllers/authController.js:76-85 | a consumed row is never usable again |
| Auth.SingleUse | backend/controllers/authController.js:74-85 | after a successful reset, the same token no longer finds a usable row |
| Auth.AuthStore.ForgotPassword | backend/controllers/authController.js:38-65 | the same reply either way; an unknown email writes nothing; otherwise one reset row holding the token's hash and an expiry one hour from now |
| Auth.AuthStore.ResetPassword | backend/controllers/authController.js:67-91 | 400 with nothing changed for an unknown email or no usable row; otherwise only that user's password hash changes and the newest usable row is consumed |
| TimeSlots.NormalizeTime | frontend/src/pages/TimetablePage.jsx:25 | the first eight characters of the time, or '' for none |
| TimeSlots.NormalizeIdempotent | frontend/src/pages/TimetablePage.jsx:25 | normalising twice is normalising once |
| TimeSlots.Minutes | frontend/src/pages/TimetablePage.jsx:26-29 | for a clock time, the hours and the minutes of "HH:MM" are read back as the quotient and remainder by 60, and the result is below 6000 |
| TimeSlots.MinutesOrderText | frontend/src/pages/TimetablePage.jsx:26-36 | for clock times, ordering by minutes, as `sortSlots` does, is ordering the "HH:MM" text in code-point order |
| TimeSlots.MinutesOfNormalized | frontend/src/pages/TimetablePage.jsx:25-29 | normalising a time does not change its minutes |
| TimeSlots.MinutesDetermineClock | frontend/src/pages/TimetablePage.jsx:26-29 | for valid clock times, equal minutes iff equal "HH:MM" |
| TimeSlots.ToLabel | frontend/src/pages/StudentTimetablePage.jsx:15 | the label "HH:MM - HH:MM" is thirteen characters |
| TimeSlots.LabelNamesTimes | frontend/src/pages/StudentTimetablePage.jsx:15 | two labels are equal iff their start and end agree in the first five characters |
| TimeSlots.NormalizeSlot | frontend/src/pages/TimetablePage.jsx:31-35 | both times of the slot are already normal and keep the given "HH:MM" and minutes; the 13-character label is the start's "HH:MM", " - ", and the end's "HH:MM" |
| TimeSlots.SortSlots | frontend/src/pages/TimetablePage.jsx:36 | a sorted permutation of the slots, by start minutes; the input is a value and is not changed |
| TimeSlots.SlotKeyDecides | frontend/src/pages/TimetablePage.jsx:42 | for normalised slots, the `${start}-${end}` key is equal iff the slots are equal |
| TimeSlots.DedupDistinct | frontend/src/pages/TimetablePage.jsx:38-43 | the map of slots by key holds no slot twice |
| TimeSlots.DedupCovers | frontend/src/pages/TimetablePage.jsx:38-43 | every entry's normalised slot is in the map |
| TimeSlots.DedupFromEntries | frontend/src/pages/TimetablePage.jsx:38-43 | every slot in the map comes from some entry |
| TimeSlots.BuildSlotsFromEntries | frontend/src/pages/StudentTimetablePage.jsx:22-30 | distinct slots, each from some entry, covering every entry, sorted by start |
| TimeSlots.CellAt | frontend/src/pages/StudentTimetablePage.jsx:33-39 | the last entry with that day and normalised start, or none iff no entry has that key |
| TimeSlots.StudentGrid | frontend/src/pages/StudentTimetablePage.jsx:41-68 | a row per derived slot and a cell per school day, each cell being the last entry for that day and slot start |
| TimeSlots.GridShowsLastPeriod | frontend/src/pages/StudentTimetablePage.jsx:33-68 | an entry not overridden by a later one on the same day and start is shown in its own cell |
| TimetableEditor.DefaultSlotsValid | frontend/src/pages/TimetablePage.jsx:9-14 | the four default slots are sorted and distinct |
| TimetableEditor.WithSeconds | frontend/src/pages/TimetablePage.jsx:268-269 | appending ':00' keeps the "HH:MM" part |
| TimetableEditor.WithSecondsNormal | frontend/src/pages/TimetablePage.jsx:268-269 | a time with seconds appended is already normal |
| TimetableEditor.Editor.Load | frontend/src/pages/TimetablePage.jsx:224-246 | without a class the grid is cleared and the slots kept; otherwise the grid is the loaded entries and the slots are built from them, or the defaults when there are none |
| TimetableEditor.Editor.AddTimeSlot | frontend/src/pages/TimetablePage.jsx:266-279 | refused with no change when start is not before end or the slot exists; otherwise the old slots plus the new normalised slot, sorted by start |
| TimetableEditor.Editor.RemoveTimeSlot | frontend/src/pages/TimetablePage.jsx:281-288 | refused with no change while a loaded entry uses the slot; otherwise exactly the slots with that start and end are removed |
| TimetableEditor.ValidateCell | frontend/src/pages/TimetablePage.jsx:290-298 | the first failure among class, subject, teacher (lecture) and a non-blank title (break), and '' iff all pass |
| TimetableEditor.SaveCell | frontend/src/pages/TimetablePage.jsx:300-328 | the validation message when incomplete; otherwise PUT iff an existing id is edited, else POST, with a title only for a break, subject and teacher only for a lecture, and a null section when none is chosen |
| Materials.StripApi | frontend/src/pages/TeacherMaterialsPage.jsx:8-14 | removes exactly one trailing "/api" or "/api/", and nothing when neither ends the base |
| Materials.Relative | frontend/src/pages/TeacherMaterialsPage.jsx:8-14 | drops exactly one leading slash |
| Materials.ResolveFileUrl | frontend/src/pages/TeacherMaterialsPage.jsx:8-14 | '' for no URL; an absolute http(s) URL unchanged; otherwise the server base, a slash and the relative path |
| Materials.ResolveIdempotent | frontend/src/pages/TeacherMaterialsPage.jsx:8-14 | when the server base is an http(s) URL, resolving a resolved URL changes nothing |
| Materials.FirstSeenCovers | frontend/src/pages/TeacherMaterialsPage.jsx:45-73 | every kept row's key appears among the options |
| Materials.FirstSeenKept | frontend/src/pages/TeacherMaterialsPage.jsx:45-73 | every option is a kept row |
| Materials.FirstSeenAppends | frontend/src/pages/TeacherMaterialsPage.jsx:45-73 | a row adds an option exactly when it is kept and its key was not seen before |
| Materials.FirstSeenFirstInOrder | frontend/src/pages/TeacherMaterialsPage.jsx:45-73 | each option is the first kept row with its key, and the options are in order of first appearance |
| Materials.FirstSeenUniqueKeys | frontend/src/pages/TeacherMaterialsPage.jsx:45-73 | no key is offered twice |
| Materials.ClassOptions | frontend/src/pages/TeacherMaterialsPage.jsx:45-56 | one option per class, from the first row of that class, in first-seen order |
| Materials.SectionOptions | frontend/src/pages/TeacherMaterialsPage.jsx:58-73 | none without a selected class; otherwise one option per section of that class, from its first row, skipping rows without a section |
| Materials.Submit | frontend/src/pages/TeacherMaterialsPage.jsx:93-109 | refused with 'Subject and title are required' iff no subject or a blank title; otherwise a payload with the trimmed, non-empty title and the trimmed description and file URL |
| LegacySchool.ClassRoster | server/src/controllers/attendanceController.js:69-94 | the students of the class, as a permutation, ordered by name |
| LegacySchool.ClassRosterUniqueIds | server/src/controllers/attendanceController.js:69-94 | distinct student ids stay distinct on the roster |
| LegacyAttendance.SqlDateOrToday | server/src/controllers/attendanceController.js:29-33 | none for a falsy date; otherwise the text before the first 'T', unchanged when there is no 'T' |
| LegacyAttendance.AttendanceDay | server/src/controllers/attendanceController.js:42 | today for a falsy date or one starting with 'T'; otherwise a non-empty prefix of the date with no 'T' in it |
| LegacyAttendance.AttendanceDayIdempotent | server/src/controllers/attendanceController.js:42 | normalising a normalised day changes nothing |
| LegacyAttendance.MarkedLookup | server/src/controllers/attendanceController.js:45-60 | after marking, the student-day holds the new status and every other student-day holds what it held |
| LegacyAttendance.MarkedUnique | server/src/controllers/attendanceController.js:45-60 | marking keeps one row per student and day and distinct ids, and adds at most one row |
| LegacyAttendance.AttendanceLog.MarkAttendance | server/src/controllers/attendanceController.js:35-67 | 400 with nothing written without a student or a status; otherwise the existing row of that day is updated or one row is inserted, and the saved day is returned |
| LegacyAttendance.RoundedPercent | server/src/controllers/attendanceController.js:108-111 | the percentage nearest to part/total, at most 100 when part ≤ total, 0 for no part and 100 for all |
| LegacyAttendance.StudentStats | server/src/controllers/attendanceController.js:108-111 | total days is the history's length, present plus absent within it, and the percentage of present days rounded to nearest (0 when empty) |
| LegacyAttendance.StatsCountStatuses | server/src/controllers/attendanceController.js:108-111 | the present and absent counts are the numbers of 'Present' and 'Absent' rows |
| LegacyAttendance.NewerDateTotal | server/src/controllers/attendanceController.js:96-106 | the newest-date-first order is a total preorder |
| LegacyAttendance.AttendanceByStudent | server/src/controllers/attendanceController.js:96-121 | exactly that student's rows, latest date first, with the statistics of those rows |
| LegacyAttendance.DayLineFor | server/src/controllers/attendanceController.js:69-94 | the student's line with that day's status, or an empty status and no date when not marked |
| LegacyAttendance.StudentsByClass | server/src/controllers/attendanceController.js:69-94 | one line per student of the class, by name, with the status of the normalised day |
| LegacyAttendance.StudentsByClassCoversClass | server/src/controllers/attendanceController.js:69-94 | a student is listed iff in the class |
| LegacyFees.NewFee | server/src/controllers/feeController.js:11 | the status defaults to 'Due' and a missing payment date is NULL |
| LegacyFees.FeeLedger.CreateFeeRecord | server/src/controllers/feeController.js:3-19 | 400 with nothing inserted iff the student or amount is missing; otherwise one row appended |
| LegacyFees.FeesByStudent | server/src/controllers/feeController.js:21-33 | exactly that student's fees, most recently created first |
| LegacyFees.LatestFee | server/src/controllers/feeController.js:43-56 | a fee of that student with the greatest `created_at`, or none iff the student has no fee |
| LegacyFees.FeeLineFor | server/src/controllers/feeController.js:43-56 | NULL aggregates iff the student has no fee; otherwise the latest `created_at` and the status and amount of a fee created then |
| LegacyFees.FeesByClass | server/src/controllers/feeController.js:36-64 | one line per student of the class, ordered by name |
| LegacyFees.FeesByClassOnePerStudent | server/src/controllers/feeController.js:36-64 | with distinct student ids, no student has two lines |
| LegacyFees.FeesByClassListsClass | server/src/controllers/feeController.js:36-64 | every student of the class has a line |
| LegacyFees.FeesByClassOnlyClass | server/src/controllers/feeController.js:36-64 | every line is a student of the class |
| LegacyAuth.FindUser | server/src/controllers/authController.js:42-46 | the first user with that email and role, or none iff there is none |
| LegacyAuth.Login | server/src/controllers/authController.js:35-87 | 400 without email, password or role; 401 for an unknown user or a wrong password; on success the token claims match the answer, and the student or teacher profile id is looked up by email for those roles |
| LegacyAuth.LoginPasswordDecides | server/src/controllers/authController.js:51-54 | once the user is found, sign-in succeeds iff the password matches |
| LegacyAuth.LoginProfileIds | server/src/controllers/authController.js:56-70 | a signed-in user never gets both a student and a teacher id, and other roles get neither |
| LegacyAuth.UserStore.AddUser | server/src/controllers/authController.js:111-115 | appends one user with a fresh id and keeps emails unique |
| LegacyAuth.UserStore.AdminCreateUser | server/src/controllers/authController.js:104-132 | 400 for a missing field, 400 for a taken email, in both cases nothing written; otherwise the user and, for the student or teacher role, its profile row |
| LegacyAuth.UserStore.EnsureAdmin | server/src/controllers/authController.js:21-31 | nothing changes when an admin exists or the seed email is taken; otherwise the Super Admin is added; afterwards an admin exists or the email is taken |
| LegacyAuth.SeedAddsOneAdmin | server/src/controllers/authController.js:21-31 | seeding adds exactly one admin |

## Left out

- The database collation is not modelled. Text is ordered by code point, and text equality in `WHERE` clauses and unique indexes is taken as exact. So `Auth.FindByEmail` and `LegacyAuth.FindUser` (`email = ?`, `role = ?`), the email uniqueness of `LegacyAuth.UserStore.Valid`, and the "Email already exists" case of `LegacyAuth.UserStore.AdminCreateUser` and `LegacyAuth.UserStore.EnsureAdmin` do not treat "Admin@Example.com" and "admin@example.com" as equal, as a case-insensitive collation would.
- `listExamSubjects` display order (exam start date, class, section name, subject name) is not modelled; `Exams.ListExamSubjects` states membership and multiplicity only.
- Joined display columns (class, section, subject and user names) are left out. Only the filtering and the ids are modelled.
- `ROUND(…, 2)` in the attendance overview and `Math.round` in the legacy statistics are floating point. The model uses exact integer rounding to nearest, and the overview percentage itself is not modelled.
- Malformed time strings are not modelled. Times in the page helpers are of the `TimeSlots.Time` shape ("HH:MM" or longer), and stored periods use seconds since midnight.
- The cell lookup key `${day}__${start}` is modelled as the pair (day, start), which is what it distinguishes for day names without "__".
- Concurrency between requests is not modelled. Each handler runs alone, and the transaction of `createStudent` is all-or-nothing.
- The database unique keys on (exam_subject_id, student_id), (student_id, date) and `users.email` are not in the code. The model assumes them, as the upserts and lookups rely on them.
- Foreign-key constraints, the DATE normalisation MySQL applies on insert, and auto-increment gaps after a rollback are not modelled. The legacy back end compares dates as text.
- An undefined value bound into a conflict query is taken to be NULL, so it matches no row. `TimetableAdmin.UpdateTimetable` keeps the no-overlap invariant only for bodies that give class, day, start and end (`Placed`).
- `updateStudent`'s call of `updateUser` for a given `userId` is not modelled; only the student columns are.
- Request ids are numbers: `Number(...)` of the body and `Option<nat>`. Text ids and negative ids are not modelled.
- React state, toasts, loading flags and the form reset after a save are not modelled. The page helpers are functions and methods over values.
- `TimeSlots.SortSlots`: the order among slots with equal start minutes is not stated, because `Array.prototype.sort` stability is not relied on.
- `LegacyFees.LatestFee`: with several fees of one student created at the same moment, the model takes the first in table order. The two `GROUP_CONCAT … ORDER BY created_at DESC` columns are assumed to pick the same fee.
- `GROUP_CONCAT`/`SUBSTRING_INDEX` truncation at a comma inside a status text is not modelled.
- Fee amounts are whole numbers.
- `TeacherHandlers.Normalize` and `Marks.MarkRow`: marks are whole numbers (`int`). `Number(r.marks)` in the source also keeps fractional marks such as 72.5, which the model does not represent.
- `Pagination.NumericQuery`: page, limit and offset are exact integers. In JavaScript they are doubles, so above 2^53 `parseInt` and the product `(page - 1) * limit` lose exactness; the lemma does not hold there.
- `AdminPeople.UpdateKeepsOmittedFields`: `admissionNo` and `classId` are left out or given, never sent as null. The source passes an explicit null for them on to the `UPDATE`, which the model does not represent.
- `LegacyAuth.UserStore.AdminCreateUser`: the profile insert after the user insert is assumed to succeed. The source has no transaction there.
- `getAttendanceSummary`, `getProfile` and the self-registration routes of the `server/` back end are not part of this model.
- `sqlDateOrToday` applied to a non-string is not modelled. Dates are text or absent.
- `VITE_API_URL` is a parameter of `Materials.ResolveFileUrl`, with `http://localhost:5000/api` when absent.
- I/O is not modelled: e-mail sending, the database connection, `bcrypt`, `sha256`, random token bytes and jwt signing (with its 7-day expiry) become parameters or are left out, and so does the clock (`now`, `today`).
- `Auth.Login` and `LegacyAuth.Login` take the password check as a parameter `matches`, so a bcrypt hash mismatch is whatever that function says.
