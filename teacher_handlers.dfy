/** The teacher endpoints: entering marks and attendance, and the lists a teacher sees,
    each limited by the teacher's assignments under the section rule. The caller is
    identified by the user id of the request's token; `teachers` maps users to
    teacher rows. */
module TeacherHandlers {
  import opened Common
  import opened Sorting
  import opened Keyed
  import opened School
  import opened Exams
  import opened Marks
  import Attendance
  import opened TeacherScope
  import opened TimetableModel

  /** What a listing endpoint answers: an error reply, or rows. */
  datatype Listing<T> = Refused(reply: Reply) | Rows(rows: seq<T>)

  // ---------------------------------------------------------------- enterMarks

  /** One record of an `enterMarks` body, after `Number(...)` on its fields: a falsy exam
      subject id reads as 0, and `marks` is `None` when it is null, missing or not a number. */
  datatype MarkInput = MarkInput(examSubjectId: nat, studentId: nat, marks: Option<int>,
                                 grade: Option<string>, remarks: Option<string>)

  /** The allowed-ids query: the exam subject with that id exists and some assignment of
      the teacher covers it. */
  predicate AllowedExamSubject(examSubjects: seq<ExamSubject>, assignments: seq<Assignment>,
                               teacherId: Option<nat>, id: nat) {
    exists e :: e in examSubjects && e.id == id && Covered(assignments, teacherId, e)
  }

  /** Some truthy exam subject id of the body (those that survive `filter(Boolean)`) is
      not allowed. */
  predicate Unauthorised(examSubjects: seq<ExamSubject>, assignments: seq<Assignment>,
                         teacherId: Option<nat>, records: seq<MarkInput>) {
    exists r :: r in records && r.examSubjectId != 0
                && !AllowedExamSubject(examSubjects, assignments, teacherId, r.examSubjectId)
  }

  /** The record passed to the upsert: numeric ids and marks, falsy grade and remarks as NULL. */
  function Normalize(r: MarkInput): (m: MarkRecord)
    requires r.marks.Some?
    ensures m.examSubjectId == r.examSubjectId && m.studentId == r.studentId && m.marks == r.marks.value
    ensures m.grade.Some? <==> TruthyText(r.grade)
    ensures m.remarks.Some? <==> TruthyText(r.remarks)
  {
    MarkRecord(r.examSubjectId, r.studentId, r.marks.value, TextOrNull(r.grade), TextOrNull(r.remarks))
  }

  function NormalizeAll(records: seq<MarkInput>): (batch: seq<MarkRecord>)
    requires forall r :: r in records ==> r.marks.Some?
    ensures |batch| == |records|
    ensures forall i :: 0 <= i < |records| ==> batch[i] == Normalize(records[i])
  {
    seq(|records|, i requires 0 <= i < |records| => Normalize(records[i]))
  }

  /** The checks of `enterMarks`, in their order: the reply to send, or `None` to write. */
  function EnterMarksCheck(examSubjects: seq<ExamSubject>, assignments: seq<Assignment>,
                           teacherId: Option<nat>, records: seq<MarkInput>): (v: Option<Reply>)
    ensures records == [] ==> v == Some(Reply(400, "No marks records provided"))
    ensures records != [] && (forall r :: r in records ==> r.examSubjectId == 0) ==>
              v == Some(Reply(400, "examSubjectId is required"))
    ensures records != [] && Unauthorised(examSubjects, assignments, teacherId, records) ==>
              v == Some(Reply(403, "You are not allowed to update marks for this exam subject"))
    ensures && records != [] && (exists r :: r in records && r.examSubjectId != 0)
            && !Unauthorised(examSubjects, assignments, teacherId, records)
            && (exists r :: r in records && r.marks.None?) ==>
              v == Some(Reply(400, "Valid marks are required for each record"))
    ensures v.None? <==>
              && records != []
              && (exists r :: r in records && r.examSubjectId != 0)
              && !Unauthorised(examSubjects, assignments, teacherId, records)
              && (forall r :: r in records ==> r.marks.Some?)
    ensures v.Some? ==> v.value.status == 400 || v.value.status == 403
  {
    if records == [] then Some(Reply(400, "No marks records provided"))
    else if forall r :: r in records ==> r.examSubjectId == 0 then Some(Reply(400, "examSubjectId is required"))
    else if Unauthorised(examSubjects, assignments, teacherId, records) then
      Some(Reply(403, "You are not allowed to update marks for this exam subject"))
    else if exists r :: r in records && r.marks.None? then Some(Reply(400, "Valid marks are required for each record"))
    else None
  }

  /** `enterMarks`: the checks, then one upsert of the normalised records. */
  method EnterMarks(teachers: seq<Teacher>, userId: nat, examSubjects: seq<ExamSubject>,
                    assignments: seq<Assignment>, table: MarkTable, records: seq<MarkInput>) returns (reply: Reply)
    requires table.Valid()
    modifies table
    ensures table.Valid()
    ensures var v := EnterMarksCheck(examSubjects, assignments, GetTeacherId(teachers, userId), records);
      if v.Some? then reply == v.value && table.rows == old(table.rows)
      else reply == Reply(200, "Marks saved")
           && table.rows == UpsertAll(old(table.rows), MarkRows(NormalizeAll(records)), MarkKeyOf)
  {
    var teacherId := GetTeacherId(teachers, userId);
    var v := EnterMarksCheck(examSubjects, assignments, teacherId, records);
    if v.Some? {
      return v.value;
    }
    table.UpsertMarks(NormalizeAll(records));
    reply := Reply(200, "Marks saved");
  }

  /** A user without a teacher row cannot enter marks: any body with a truthy exam subject
      id is refused with 403. */
  lemma NonTeacherCannotEnterMarks(examSubjects: seq<ExamSubject>, assignments: seq<Assignment>,
                                   records: seq<MarkInput>, i: nat)
    requires i < |records| && records[i].examSubjectId != 0
    ensures EnterMarksCheck(examSubjects, assignments, None, records)
         == Some(Reply(403, "You are not allowed to update marks for this exam subject"))
  {
    assert records[i] in records;
  }

  /** As written, the authorisation concerns only the truthy ids: a record whose exam
      subject id is 0 rides along with an authorised one and reaches the upsert. */
  lemma ZeroIdEscapesAuthorisation(examSubjects: seq<ExamSubject>, assignments: seq<Assignment>,
                                   teacherId: Option<nat>, good: MarkInput, stray: MarkInput)
    requires good.examSubjectId != 0 && good.marks.Some?
    requires AllowedExamSubject(examSubjects, assignments, teacherId, good.examSubjectId)
    requires stray.examSubjectId == 0 && stray.marks.Some?
    ensures EnterMarksCheck(examSubjects, assignments, teacherId, [good, stray]).None?
    ensures NormalizeAll([good, stray])[1].examSubjectId == 0
  {
    var records := [good, stray];
    assert records[0] in records;
    assert forall r :: r in records ==> r == good || r == stray;
  }

  // ------------------------------------------------------------ markAttendance

  /** One record of a `markAttendance` body. */
  datatype AttendanceInput = AttendanceInput(studentId: nat, date: nat, status: Option<string>, remarks: Option<string>)

  predicate AllowedStatus(status: Option<string>) {
    status == Some("Present") || status == Some("Absent") || status == Some("Late")
  }

  /** The record saved: the caller's user id as `marked_by`. */
  function Stamped(r: AttendanceInput, userId: nat): (a: Attendance.AttendanceRecord)
    requires r.status.Some?
    ensures a.markedBy == userId && a.studentId == r.studentId && a.date == r.date
    ensures Some(a.status) == r.status && a.remarks == r.remarks
  {
    Attendance.AttendanceRecord(r.studentId, r.date, r.status.value, userId, r.remarks)
  }

  function StampAll(records: seq<AttendanceInput>, userId: nat): (batch: seq<Attendance.AttendanceRecord>)
    requires forall r :: r in records ==> r.status.Some?
    ensures |batch| == |records|
    ensures forall i :: 0 <= i < |records| ==> batch[i] == Stamped(records[i], userId)
    ensures forall a :: a in batch ==> a.markedBy == userId
  {
    seq(|records|, i requires 0 <= i < |records| => Stamped(records[i], userId))
  }

  /** `markAttendance` (teacher): no records → 400; a status outside Present/Absent/Late → 400;
      otherwise one upsert with the caller as `marked_by`. There is no assignment check. */
  method MarkAttendance(table: Attendance.AttendanceTable, userId: nat, records: seq<AttendanceInput>) returns (reply: Reply)
    requires table.Valid()
    modifies table
    ensures table.Valid()
    ensures records == [] ==> reply == Reply(400, "No attendance records provided") && table.rows == old(table.rows)
    ensures records != [] && (exists r :: r in records && !AllowedStatus(r.status)) ==>
              reply == Reply(400, "Invalid attendance status") && table.rows == old(table.rows)
    ensures records != [] && (forall r :: r in records ==> AllowedStatus(r.status)) ==>
              reply == Reply(200, "Attendance saved")
              && table.rows == UpsertAll(old(table.rows), Attendance.AttendanceRows(StampAll(records, userId)), Attendance.DayKeyOf)
  {
    if |records| == 0 {
      return Reply(400, "No attendance records provided");
    }
    if exists r :: r in records && !AllowedStatus(r.status) {
      return Reply(400, "Invalid attendance status");
    }
    table.MarkAttendance(StampAll(records, userId));
    reply := Reply(200, "Attendance saved");
  }

  // ---------------------------------------------------------- listExamSubjects

  /** The assigned-subjects query: an assignment of the teacher in the class, under the
      section rule against the requested section. */
  predicate AssignedIn(a: Assignment, teacherId: Option<nat>, classId: nat, sectionId: Option<nat>) {
    teacherId == Some(a.teacherId) && a.classId == classId && SectionsMatch(a.sectionId, sectionId)
  }

  /** An exam subject the teacher gets to see. */
  predicate SubjectVisible(e: ExamSubject, assignments: seq<Assignment>, teacherId: Option<nat>,
                           examId: nat, classId: nat, sectionId: Option<nat>) {
    ExamSubjectListed(e, Some(examId), Some(classId), sectionId)
    && exists a :: a in assignments && AssignedIn(a, teacherId, classId, sectionId) && a.subjectId == e.subjectId
  }

  /** `listExamSubjects` (teacher). `sectionId` is `Number` of the query's section when the
      query has one. */
  function ListTeacherExamSubjects(examSubjects: seq<ExamSubject>, assignments: seq<Assignment>, teacherId: Option<nat>,
                                   examId: Option<nat>, classId: Option<nat>, sectionId: Option<nat>): (r: Listing<ExamSubject>)
    ensures r.Refused? <==> !Truthy(examId) || !Truthy(classId)
    ensures r.Refused? ==> r.reply == Reply(400, "examId and classId are required")
    ensures r.Rows? ==>
              forall e :: multiset(r.rows)[e] ==
                if SubjectVisible(e, assignments, teacherId, examId.value, classId.value, sectionId)
                then multiset(examSubjects)[e] else 0
  {
    if !Truthy(examId) || !Truthy(classId) then Refused(Reply(400, "examId and classId are required"))
    else
      var subjects := ListExamSubjects(examSubjects, examId, classId, sectionId);
      if |subjects| == 0 then
        assert forall e :: multiset(subjects)[e] == 0 by {
          forall e ensures multiset(subjects)[e] == 0 { assert e !in subjects; }
        }
        Rows([])
      else
        var keep := (e: ExamSubject) => exists a :: a in assignments && AssignedIn(a, teacherId, classId.value, sectionId)
                                                     && a.subjectId == e.subjectId;
        forall e ensures multiset(Filter(subjects, keep))[e] == if keep(e) then multiset(subjects)[e] else 0 {
          FilterMultiset(subjects, keep, e);
        }
        Rows(Filter(subjects, keep))
  }

  // ---------------------------------------------------------------- marksSheet

  /** The marks-sheet permission query: the exam subject has that id and class, the
      requested section when one is given, and an assignment of the teacher covers it. */
  predicate SheetAllowed(examSubjects: seq<ExamSubject>, assignments: seq<Assignment>, teacherId: Option<nat>,
                         examSubjectId: nat, classId: nat, sectionId: Option<nat>) {
    exists e :: e in examSubjects && e.id == examSubjectId && e.classId == classId
                && (sectionId.None? || e.sectionId == sectionId) && Covered(assignments, teacherId, e)
  }

  /** `marksSheet` (teacher). */
  function TeacherMarksSheet(examSubjects: seq<ExamSubject>, assignments: seq<Assignment>, teacherId: Option<nat>,
                             students: seq<Student>, marks: seq<Mark>,
                             examSubjectId: Option<nat>, classId: Option<nat>, sectionId: Option<nat>): (r: Listing<SheetRow>)
    ensures !Truthy(examSubjectId) || !Truthy(classId) ==>
              r == Refused(Reply(400, "examSubjectId and classId are required"))
    ensures Truthy(examSubjectId) && Truthy(classId)
            && !SheetAllowed(examSubjects, assignments, teacherId, examSubjectId.value, classId.value, sectionId) ==>
              r == Refused(Reply(403, "You are not allowed to access this marks sheet"))
    ensures r.Rows? <==> Truthy(examSubjectId) && Truthy(classId)
                         && SheetAllowed(examSubjects, assignments, teacherId, examSubjectId.value, classId.value, sectionId)
    ensures r.Rows? ==> r.rows == GetMarksSheet(students, marks, examSubjectId, classId.value, sectionId)
  {
    if !Truthy(examSubjectId) || !Truthy(classId) then Refused(Reply(400, "examSubjectId and classId are required"))
    else if !SheetAllowed(examSubjects, assignments, teacherId, examSubjectId.value, classId.value, sectionId) then
      Refused(Reply(403, "You are not allowed to access this marks sheet"))
    else Rows(GetMarksSheet(students, marks, examSubjectId, classId.value, sectionId))
  }

  /** Without a teacher row, no marks sheet is ever shown. */
  lemma NonTeacherSeesNoSheet(examSubjects: seq<ExamSubject>, assignments: seq<Assignment>, students: seq<Student>,
                              marks: seq<Mark>, examSubjectId: Option<nat>, classId: Option<nat>, sectionId: Option<nat>)
    ensures TeacherMarksSheet(examSubjects, assignments, None, students, marks, examSubjectId, classId, sectionId).Refused?
  {
  }

  // ------------------------------------------------------- listStudentsByClass

  /** A student the teacher gets to see. `sectionQuery` is the query's section, when it has one. */
  predicate StudentVisible(s: Student, assignments: seq<Assignment>, teacherId: nat, classId: nat, sectionQuery: Option<nat>) {
    s.classId == classId && (sectionQuery.None? || s.sectionId == sectionQuery)
    && exists a :: a in assignments && CoversStudent(a, Some(teacherId), s)
  }

  /** `listStudentsByClass` (teacher): [] for a user without a teacher row, 400 without a
      class, otherwise the covered students of the class (and section), by name. */
  function ListStudentsByClass(students: seq<Student>, assignments: seq<Assignment>, teacherId: Option<nat>,
                               classId: Option<nat>, sectionQuery: Option<nat>): (r: Listing<Student>)
    ensures !Truthy(teacherId) ==> r == Rows([])
    ensures Truthy(teacherId) && classId.None? ==> r == Refused(Reply(400, "classId is required"))
    ensures Truthy(teacherId) && classId.Some? ==>
              && r.Rows?
              && (forall s :: multiset(r.rows)[s] ==
                    if StudentVisible(s, assignments, teacherId.value, classId.value, sectionQuery)
                    then multiset(students)[s] else 0)
              && SortedBy(r.rows, NameLe)
  {
    if !Truthy(teacherId) then Rows([])
    else if classId.None? then Refused(Reply(400, "classId is required"))
    else
      NameLeTotal();
      Rows(SortedFilter(students, (s: Student) => StudentVisible(s, assignments, teacherId.value, classId.value, sectionQuery), NameLe))
  }

  // ----------------------------------------------------------------- timetable

  /** A period on the teacher's timetable: taught by the teacher, or in a class (and
      section, under the section rule) the teacher is assigned to. */
  predicate OnTeacherTimetable(p: Period, assignments: seq<Assignment>, teacherId: nat) {
    p.teacherId == Some(teacherId)
    || exists a :: a in assignments && a.teacherId == teacherId && a.classId == p.classId
                   && SectionsMatch(a.sectionId, p.sectionId)
  }

  /** `timetable` (teacher): [] without a teacher row, otherwise the periods of the
      teacher's own and assigned classes, Monday to Saturday, then by start time. */
  function TeacherTimetable(periods: seq<Period>, assignments: seq<Assignment>, teacherId: Option<nat>): (r: seq<Period>)
    ensures !Truthy(teacherId) ==> r == []
    ensures Truthy(teacherId) ==>
              (forall p :: multiset(r)[p] == if OnTeacherTimetable(p, assignments, teacherId.value) then multiset(periods)[p] else 0)
    ensures SortedBy(r, PeriodLe)
  {
    if !Truthy(teacherId) then []
    else
      PeriodLeTotal();
      SortedFilter(periods, (p: Period) => OnTeacherTimetable(p, assignments, teacherId.value), PeriodLe)
  }

  /** Every period the teacher teaches is on the teacher's timetable. */
  lemma OwnPeriodsListed(periods: seq<Period>, assignments: seq<Assignment>, teacherId: nat, p: Period)
    requires teacherId != 0 && p in periods && p.teacherId == Some(teacherId)
    ensures p in TeacherTimetable(periods, assignments, Some(teacherId))
  {
    assert multiset(periods)[p] > 0;
    assert multiset(TeacherTimetable(periods, assignments, Some(teacherId)))[p] > 0;
  }
}
