/** What a teacher may see and change: the `teacher_assignments` table and the one
    section rule every teacher query uses, in which a NULL section on either side
    stands for "all sections". */
module TeacherScope {
  import opened Common
  import opened Keyed
  import opened School
  import opened Exams

  /** A row of `teacher_assignments`: the teacher teaches the subject in the class, for one
      section or (section NULL) for all of them. */
  datatype Assignment = Assignment(id: nat, teacherId: nat, classId: nat, sectionId: Option<nat>, subjectId: nat)

  /** `(x.section_id = y.section_id OR x.section_id IS NULL OR y.section_id IS NULL)`. */
  predicate SectionsMatch(a: Option<nat>, b: Option<nat>) {
    a.None? || b.None? || a == b
  }

  /** The rule reads the same from either side. */
  lemma SectionsMatchSymmetric(a: Option<nat>, b: Option<nat>)
    ensures SectionsMatch(a, b) <==> SectionsMatch(b, a)
  {
  }

  /** NULL matches every section, on either side; two given sections match only when equal. */
  lemma SectionsMatchCases(a: Option<nat>, b: Option<nat>)
    ensures a.None? ==> SectionsMatch(a, b) && SectionsMatch(b, a)
    ensures a.Some? && b.Some? ==> (SectionsMatch(a, b) <==> a.value == b.value)
  {
  }

  /** The rule is not transitive: sections 1 and 2 each match the all-sections NULL,
      yet not each other. */
  lemma SectionsMatchNotTransitive()
    ensures SectionsMatch(Some(1), None) && SectionsMatch(None, Some(2)) && !SectionsMatch(Some(1), Some(2))
  {
  }

  /** `getTeacherId`: the id of the first teacher row of the user, or null when the user has
      none (or, as `|| null` reads it, when that id is 0). */
  function GetTeacherId(teachers: seq<Teacher>, userId: nat): (r: Option<nat>)
    ensures r.Some? ==> r.value != 0 && exists t :: t in teachers && t.userId == userId && t.id == r.value
    ensures (forall t :: t in teachers ==> t.userId != userId) ==> r.None?
    ensures (forall t :: t in teachers && t.userId == userId ==> t.id != 0) && (exists t :: t in teachers && t.userId == userId) ==> r.Some?
  {
    var row := Lookup(teachers, (t: Teacher) => t.userId, userId);
    if row.Some? then OrNull(Some(row.value.id)) else None
  }

  /** The join of `enterMarks` and `marksSheet`: the assignment belongs to the teacher (a NULL
      teacher id equals nothing) and teaches the exam subject's subject in its class,
      under the section rule. */
  predicate CoversExamSubject(a: Assignment, teacherId: Option<nat>, e: ExamSubject) {
    teacherId == Some(a.teacherId) && a.classId == e.classId && a.subjectId == e.subjectId
    && SectionsMatch(a.sectionId, e.sectionId)
  }

  /** Some assignment of the teacher covers the exam subject. */
  predicate Covered(assignments: seq<Assignment>, teacherId: Option<nat>, e: ExamSubject) {
    exists a :: a in assignments && CoversExamSubject(a, teacherId, e)
  }

  /** The EXISTS of `listStudentsByClass`: an assignment of the teacher in the student's
      class, under the section rule (subject does not matter). */
  predicate CoversStudent(a: Assignment, teacherId: Option<nat>, s: Student) {
    teacherId == Some(a.teacherId) && a.classId == s.classId && SectionsMatch(a.sectionId, s.sectionId)
  }

  /** A user without a teacher row is covered for nothing. */
  lemma NoTeacherNoCover(assignments: seq<Assignment>, e: ExamSubject, s: Student)
    ensures !Covered(assignments, None, e)
    ensures forall a :: a in assignments ==> !CoversStudent(a, None, s)
  {
  }

  /** `listTeacherAssignments`: the rows of that teacher. */
  function ListTeacherAssignments(rows: seq<Assignment>, teacherId: nat): (r: seq<Assignment>)
    ensures forall a :: multiset(r)[a] == if a.teacherId == teacherId then multiset(rows)[a] else 0
  {
    var keep := (a: Assignment) => a.teacherId == teacherId;
    forall a ensures multiset(Filter(rows, keep))[a] == if keep(a) then multiset(rows)[a] else 0 {
      FilterMultiset(rows, keep, a);
    }
    Filter(rows, keep)
  }

  class AssignmentTable {
    var rows: seq<Assignment>
    var nextId: nat

    ghost predicate Valid()
      reads this
    {
      0 < nextId && (forall a :: a in rows ==> 0 < a.id < nextId)
    }

    constructor ()
      ensures Valid() && rows == [] && nextId == 1
    {
      rows := [];
      nextId := 1;
    }

    /** `createTeacherAssignment`: always inserts one row (there is no duplicate check), a
        falsy section stored as NULL, and returns the new id; every other row stays. */
    method Create(teacherId: nat, classId: nat, sectionId: Option<nat>, subjectId: nat) returns (id: nat)
      requires Valid()
      modifies this
      ensures Valid()
      ensures id == old(nextId) && nextId == id + 1 && id != 0
      ensures forall a :: a in old(rows) ==> a.id != id
      ensures rows == old(rows) + [Assignment(id, teacherId, classId, OrNull(sectionId), subjectId)]
    {
      id := nextId;
      rows := rows + [Assignment(id, teacherId, classId, OrNull(sectionId), subjectId)];
      nextId := nextId + 1;
    }
  }

  /** `assignTeacher`: passes the body to `createTeacherAssignment` and answers 201 with the id. */
  method AssignTeacher(table: AssignmentTable, teacherId: nat, classId: nat, sectionId: Option<nat>, subjectId: nat)
    returns (reply: Reply, id: nat)
    requires table.Valid()
    modifies table
    ensures table.Valid()
    ensures reply.status == 201 && id == old(table.nextId)
    ensures table.rows == old(table.rows) + [Assignment(id, teacherId, classId, OrNull(sectionId), subjectId)]
  {
    id := table.Create(teacherId, classId, OrNull(sectionId), subjectId);
    reply := Reply(201, "");
  }
}
