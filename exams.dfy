/** The `exams` and `exam_subjects` tables: an exam subject places one subject of one
    exam in a class, for one section or (section NULL) for all of them. */
module Exams {
  import opened Common
  import opened Keyed

  datatype Exam = Exam(id: nat, name: string, startDate: string, endDate: string)

  /** The columns an `UPDATE exams SET ...` may assign; `None` leaves a column alone. */
  datatype ExamPatch = ExamPatch(name: Option<string>, startDate: Option<string>, endDate: Option<string>)

  datatype ExamSubject = ExamSubject(
    id: nat,
    examId: nat,
    classId: nat,
    sectionId: Option<nat>,
    subjectId: nat,
    maxMarks: Option<nat>)

  /** What identifies an exam subject when it is resolved: exam, class, subject and section. */
  datatype Placement = Placement(examId: nat, classId: nat, subjectId: nat, sectionId: Option<nat>)

  function PlacementOf(e: ExamSubject): Placement {
    Placement(e.examId, e.classId, e.subjectId, e.sectionId)
  }

  /** The WHERE clause of the exact lookup, with `section_id <=> ?` bound to `section || null`. */
  predicate ExactMatch(e: ExamSubject, examId: nat, classId: nat, subjectId: nat, sectionId: Option<nat>) {
    e.examId == examId && e.classId == classId && e.subjectId == subjectId && e.sectionId == OrNull(sectionId)
  }

  /** The WHERE clause of the fallback lookup: the all-sections row. */
  predicate CommonMatch(e: ExamSubject, examId: nat, classId: nat, subjectId: nat) {
    e.examId == examId && e.classId == classId && e.subjectId == subjectId && e.sectionId.None?
  }

  /** The stored row `resolveExamSubjectId` settles on without inserting: the first exact
      match; failing that, for a truthy section, the first all-sections row. */
  function Existing(rows: seq<ExamSubject>, examId: nat, classId: nat, subjectId: nat, sectionId: Option<nat>): (r: Option<ExamSubject>)
    ensures r.Some? ==> r.value in rows
    ensures (exists e :: e in rows && ExactMatch(e, examId, classId, subjectId, sectionId)) ==>
              r.Some? && ExactMatch(r.value, examId, classId, subjectId, sectionId)
    ensures r.Some? ==> ExactMatch(r.value, examId, classId, subjectId, sectionId)
                        || (Truthy(sectionId) && CommonMatch(r.value, examId, classId, subjectId))
    ensures r.None? <==>
              && (forall e :: e in rows ==> !ExactMatch(e, examId, classId, subjectId, sectionId))
              && (Truthy(sectionId) ==> forall e :: e in rows ==> !CommonMatch(e, examId, classId, subjectId))
  {
    var exact := Lookup(rows, PlacementOf, Placement(examId, classId, subjectId, OrNull(sectionId)));
    if exact.Some? then exact
    else if Truthy(sectionId) then Lookup(rows, PlacementOf, Placement(examId, classId, subjectId, None))
    else None
  }

  /** The row `resolveExamSubjectId` inserts: the section or NULL, and 100 marks unless given. */
  function Created(id: nat, examId: nat, classId: nat, subjectId: nat, sectionId: Option<nat>, maxMarks: Option<nat>): ExamSubject {
    ExamSubject(id, examId, classId, OrNull(sectionId), subjectId, Some(if maxMarks.Some? then maxMarks.value else 100))
  }

  /** Once the row is created, the same request finds it: resolving twice with the same
      arguments yields one id and one insert. */
  lemma ResolveIdempotent(rows: seq<ExamSubject>, id: nat, examId: nat, classId: nat, subjectId: nat,
                          sectionId: Option<nat>, maxMarks: Option<nat>)
    requires Existing(rows, examId, classId, subjectId, sectionId).None?
    ensures Existing(rows + [Created(id, examId, classId, subjectId, sectionId, maxMarks)], examId, classId, subjectId, sectionId)
         == Some(Created(id, examId, classId, subjectId, sectionId, maxMarks))
  {
    var x := Created(id, examId, classId, subjectId, sectionId, maxMarks);
    LookupAppend(rows, PlacementOf, x, PlacementOf(x));
  }

  /** The WHERE clause `listExamSubjects` builds: each filter applies only when its argument
      is truthy, and the section filter also admits the all-sections rows. */
  predicate ExamSubjectListed(e: ExamSubject, examId: Option<nat>, classId: Option<nat>, sectionId: Option<nat>) {
    && (Truthy(examId) ==> e.examId == examId.value)
    && (Truthy(classId) ==> e.classId == classId.value)
    && (Truthy(sectionId) ==> e.sectionId == sectionId || e.sectionId.None?)
  }

  /** `listExamSubjects`, without its display ordering. */
  function ListExamSubjects(rows: seq<ExamSubject>, examId: Option<nat>, classId: Option<nat>, sectionId: Option<nat>): (r: seq<ExamSubject>)
    ensures forall e :: multiset(r)[e] == if ExamSubjectListed(e, examId, classId, sectionId) then multiset(rows)[e] else 0
  {
    var keep := (e: ExamSubject) => ExamSubjectListed(e, examId, classId, sectionId);
    forall e ensures multiset(Filter(rows, keep))[e] == if keep(e) then multiset(rows)[e] else 0 {
      FilterMultiset(rows, keep, e);
    }
    Filter(rows, keep)
  }

  /** With no truthy filter, every exam subject is listed. */
  lemma ListWithoutFilters(rows: seq<ExamSubject>)
    ensures ListExamSubjects(rows, None, None, None) == rows
  {
    FilterAllPass(rows, (e: ExamSubject) => ExamSubjectListed(e, None, None, None));
  }

  predicate UniqueSubjectIds(rows: seq<ExamSubject>) {
    forall i, j :: 0 <= i < j < |rows| ==> rows[i].id != rows[j].id
  }

  class ExamSubjectTable {
    var rows: seq<ExamSubject>
    var nextId: nat

    ghost predicate Valid()
      reads this
    {
      0 < nextId && UniqueSubjectIds(rows) && (forall e :: e in rows ==> 0 < e.id < nextId)
    }

    constructor ()
      ensures Valid() && rows == [] && nextId == 1
    {
      rows := [];
      nextId := 1;
    }

    /** `addExamSubject`: inserts one row, a falsy section stored as NULL. */
    method Add(examId: nat, classId: nat, sectionId: Option<nat>, subjectId: nat, maxMarks: Option<nat>) returns (id: nat)
      requires Valid()
      modifies this
      ensures Valid()
      ensures id == old(nextId) && nextId == id + 1
      ensures rows == old(rows) + [ExamSubject(id, examId, classId, OrNull(sectionId), subjectId, maxMarks)]
    {
      id := nextId;
      rows := rows + [ExamSubject(id, examId, classId, OrNull(sectionId), subjectId, maxMarks)];
      nextId := nextId + 1;
    }

    /** `resolveExamSubjectId`: the id of the existing row, else NULL when not asked to
        create, else the id of one new row. */
    method Resolve(examId: nat, classId: nat, subjectId: nat, sectionId: Option<nat>,
                   createIfMissing: bool, maxMarks: Option<nat>) returns (id: Option<nat>)
      requires Valid()
      modifies this
      ensures Valid()
      ensures var found := Existing(old(rows), examId, classId, subjectId, sectionId);
        if found.Some? then
          id == Some(found.value.id) && rows == old(rows) && nextId == old(nextId)
        else if !createIfMissing then
          id.None? && rows == old(rows) && nextId == old(nextId)
        else
          id == Some(old(nextId)) && nextId == old(nextId) + 1
          && rows == old(rows) + [Created(old(nextId), examId, classId, subjectId, sectionId, maxMarks)]
      ensures id.Some? ==> id.value != 0
    {
      var exact := Lookup(rows, PlacementOf, Placement(examId, classId, subjectId, OrNull(sectionId)));
      if exact.Some? && exact.value.id != 0 {
        return Some(exact.value.id);
      }
      if Truthy(sectionId) {
        var common := Lookup(rows, PlacementOf, Placement(examId, classId, subjectId, None));
        if common.Some? && common.value.id != 0 {
          return Some(common.value.id);
        }
      }
      if !createIfMissing {
        return None;
      }
      var newId := nextId;
      rows := rows + [Created(newId, examId, classId, subjectId, sectionId, maxMarks)];
      nextId := nextId + 1;
      id := Some(newId);
    }
  }

  predicate EmptyExamPatch(patch: ExamPatch) {
    patch.name.None? && patch.startDate.None? && patch.endDate.None?
  }

  /** One exam row after the update: listed columns replaced, id and the rest kept. */
  function PatchExam(e: Exam, patch: ExamPatch): (r: Exam)
    ensures r.id == e.id
    ensures EmptyExamPatch(patch) ==> r == e
    ensures r.name == (if patch.name.Some? then patch.name.value else e.name)
    ensures r.startDate == (if patch.startDate.Some? then patch.startDate.value else e.startDate)
    ensures r.endDate == (if patch.endDate.Some? then patch.endDate.value else e.endDate)
  {
    Exam(e.id,
         if patch.name.Some? then patch.name.value else e.name,
         if patch.startDate.Some? then patch.startDate.value else e.startDate,
         if patch.endDate.Some? then patch.endDate.value else e.endDate)
  }

  class ExamTable {
    var rows: seq<Exam>

    constructor ()
      ensures rows == []
    {
      rows := [];
    }

    /** `updateExam`: an empty patch returns false and writes nothing; otherwise the listed
        columns of the exam with that id change and true is returned. */
    method Update(id: nat, patch: ExamPatch) returns (updated: bool)
      modifies this
      ensures updated == !EmptyExamPatch(patch)
      ensures |rows| == |old(rows)|
      ensures forall i :: 0 <= i < |rows| ==>
                rows[i] == if updated && old(rows)[i].id == id then PatchExam(old(rows)[i], patch) else old(rows)[i]
    {
      if EmptyExamPatch(patch) {
        return false;
      }
      rows := seq(|rows|, i requires 0 <= i < |rows| reads this =>
                  if rows[i].id == id then PatchExam(rows[i], patch) else rows[i]);
      updated := true;
    }
  }
}
