/** The `marks` table: one row per (exam subject, student), written by a batch upsert,
    and the marks sheet of a class for one exam subject. The table's UNIQUE key on
    (exam_subject_id, student_id) is an assumption of the model: the schema is not
    part of it. */
module Marks {
  import opened Common
  import opened Keyed
  import opened Sorting
  import opened School

  datatype Mark = Mark(examSubjectId: nat, studentId: nat, marks: int, grade: Option<string>, remarks: Option<string>)

  /** One record handed to `upsertMarks`. */
  datatype MarkRecord = MarkRecord(examSubjectId: nat, studentId: nat, marks: int, grade: Option<string>, remarks: Option<string>)

  datatype MarkKey = MarkKey(examSubjectId: nat, studentId: nat)

  function MarkKeyOf(m: Mark): MarkKey {
    MarkKey(m.examSubjectId, m.studentId)
  }

  /** The VALUES row for one record: a falsy remark becomes NULL. */
  function MarkRow(r: MarkRecord): (m: Mark)
    ensures MarkKeyOf(m) == MarkKey(r.examSubjectId, r.studentId)
    ensures m.marks == r.marks && m.grade == r.grade
    ensures m.remarks.Some? <==> TruthyText(r.remarks)
    ensures m.remarks.Some? ==> m.remarks == r.remarks
  {
    Mark(r.examSubjectId, r.studentId, r.marks, r.grade, TextOrNull(r.remarks))
  }

  function MarkRows(records: seq<MarkRecord>): (rows: seq<Mark>)
    ensures |rows| == |records|
    ensures forall i :: 0 <= i < |records| ==> rows[i] == MarkRow(records[i])
  {
    seq(|records|, i requires 0 <= i < |records| => MarkRow(records[i]))
  }

  class MarkTable {
    var rows: seq<Mark>

    ghost predicate Valid()
      reads this
    {
      UniqueKeys(rows, MarkKeyOf)
    }

    constructor ()
      ensures Valid() && rows == []
    {
      rows := [];
    }

    /** `upsertMarks`: nothing for an empty batch; otherwise every record is inserted or
        overwrites the marks, grade and remarks stored under its key. */
    method UpsertMarks(records: seq<MarkRecord>)
      requires Valid()
      modifies this
      ensures Valid()
      ensures records == [] ==> rows == old(rows)
      ensures rows == UpsertAll(old(rows), MarkRows(records), MarkKeyOf)
    {
      if |records| == 0 {
        return;
      }
      UpsertAllUnique(rows, MarkRows(records), MarkKeyOf);
      rows := UpsertAll(rows, MarkRows(records), MarkKeyOf);
    }
  }

  /** After the upsert, a key of the batch holds the last record with that key, and the
      table still holds one row per key. */
  lemma UpsertMarksLastWins(rows: seq<Mark>, records: seq<MarkRecord>, i: nat)
    requires UniqueKeys(rows, MarkKeyOf)
    requires i < |records|
    requires forall j :: i < j < |records| ==>
               MarkKey(records[j].examSubjectId, records[j].studentId) != MarkKey(records[i].examSubjectId, records[i].studentId)
    ensures var after := UpsertAll(rows, MarkRows(records), MarkKeyOf);
      && UniqueKeys(after, MarkKeyOf)
      && Lookup(after, MarkKeyOf, MarkKey(records[i].examSubjectId, records[i].studentId)) == Some(MarkRow(records[i]))
  {
    var k := MarkKey(records[i].examSubjectId, records[i].studentId);
    UpsertAllUnique(rows, MarkRows(records), MarkKeyOf);
    UpsertAllLookup(rows, MarkRows(records), MarkKeyOf, k);
    LastWithIsLast(MarkRows(records), MarkKeyOf, i);
  }

  /** A row whose key the batch does not mention is still there after the upsert, and no
      row under such a key appears. */
  lemma UpsertMarksKeepsOthers(rows: seq<Mark>, records: seq<MarkRecord>, m: Mark)
    requires forall r :: r in records ==> MarkKey(r.examSubjectId, r.studentId) != MarkKeyOf(m)
    ensures m in UpsertAll(rows, MarkRows(records), MarkKeyOf) <==> m in rows
  {
    var batch := MarkRows(records);
    forall b | b in batch ensures MarkKeyOf(b) != MarkKeyOf(m) {
      var j :| 0 <= j < |batch| && batch[j] == b;
      assert records[j] in records;
    }
    UpsertAllOthers(rows, batch, MarkKeyOf, m);
  }

  /** One line of the marks sheet. */
  datatype SheetRow = SheetRow(studentId: nat, admissionNo: string, name: string, marks: Option<int>, grade: Option<string>)

  /** `WHERE s.class_id = ? AND (? IS NULL OR s.section_id = ?)`, bound with `section || null`. */
  predicate OnSheet(s: Student, classId: nat, sectionId: Option<nat>) {
    s.classId == classId && (OrNull(sectionId).None? || s.sectionId == OrNull(sectionId))
  }

  /** The LEFT JOIN: the student's mark for the exam subject, none when the exam subject is
      falsy (bound as NULL) or the student has no mark for it. */
  function MarkFor(marks: seq<Mark>, examSubjectId: Option<nat>, studentId: nat): (m: Option<Mark>)
    ensures m.Some? ==> m.value in marks && Truthy(examSubjectId)
                        && m.value.examSubjectId == examSubjectId.value && m.value.studentId == studentId
    ensures m.None? && Truthy(examSubjectId) ==>
              forall x :: x in marks ==> !(x.examSubjectId == examSubjectId.value && x.studentId == studentId)
  {
    if Truthy(examSubjectId) then Lookup(marks, MarkKeyOf, MarkKey(examSubjectId.value, studentId)) else None
  }

  function SheetRowFor(s: Student, marks: seq<Mark>, examSubjectId: Option<nat>): SheetRow {
    var m := MarkFor(marks, examSubjectId, s.id);
    SheetRow(s.id, s.admissionNo, s.name,
             if m.Some? then Some(m.value.marks) else None,
             if m.Some? then m.value.grade else None)
  }

  /** The students on the sheet, ordered by name. */
  function Roster(students: seq<Student>, classId: nat, sectionId: Option<nat>): (r: seq<Student>)
    ensures forall s :: multiset(r)[s] == if OnSheet(s, classId, sectionId) then multiset(students)[s] else 0
    ensures SortedBy(r, NameLe)
  {
    var keep := (s: Student) => OnSheet(s, classId, sectionId);
    var picked := Filter(students, keep);
    NameLeTotal();
    forall s ensures multiset(picked)[s] == if OnSheet(s, classId, sectionId) then multiset(students)[s] else 0 {
      FilterMultiset(students, keep, s);
    }
    Sort(picked, NameLe)
  }

  /** `getMarksSheet`: one line per student of the class (and section, when one is given),
      ordered by name, carrying the student's marks and grade for the exam subject or NULLs. */
  function GetMarksSheet(students: seq<Student>, marks: seq<Mark>, examSubjectId: Option<nat>,
                         classId: nat, sectionId: Option<nat>): (r: seq<SheetRow>)
    ensures |r| == |Roster(students, classId, sectionId)|
    ensures forall i :: 0 <= i < |r| ==> r[i] == SheetRowFor(Roster(students, classId, sectionId)[i], marks, examSubjectId)
    ensures forall i, j :: 0 <= i < j < |r| ==> LexLe(r[i].name, r[j].name)
    ensures !Truthy(examSubjectId) ==> forall i :: 0 <= i < |r| ==> r[i].marks.None? && r[i].grade.None?
  {
    var roster := Roster(students, classId, sectionId);
    seq(|roster|, i requires 0 <= i < |roster| => SheetRowFor(roster[i], marks, examSubjectId))
  }

  /** A student is on the roster exactly when it is a student of the class (and section). */
  lemma RosterMembers(students: seq<Student>, classId: nat, sectionId: Option<nat>, s: Student)
    ensures s in Roster(students, classId, sectionId) <==> s in students && OnSheet(s, classId, sectionId)
  {
    var roster := Roster(students, classId, sectionId);
    assert s in roster <==> s in multiset(roster);
    assert s in students <==> s in multiset(students);
  }

  /** Every line of the sheet is a student of the class (and section). */
  lemma MarksSheetRowsOnRoster(students: seq<Student>, marks: seq<Mark>, examSubjectId: Option<nat>,
                               classId: nat, sectionId: Option<nat>, i: nat)
    requires i < |GetMarksSheet(students, marks, examSubjectId, classId, sectionId)|
    ensures exists s :: s in students && OnSheet(s, classId, sectionId)
                        && GetMarksSheet(students, marks, examSubjectId, classId, sectionId)[i].studentId == s.id
  {
    var roster := Roster(students, classId, sectionId);
    RosterMembers(students, classId, sectionId, roster[i]);
  }

  /** Every student of the class (and section) has a line on the sheet. */
  lemma MarksSheetListsRoster(students: seq<Student>, marks: seq<Mark>, examSubjectId: Option<nat>,
                              classId: nat, sectionId: Option<nat>, s: Student)
    requires s in students && OnSheet(s, classId, sectionId)
    ensures var r := GetMarksSheet(students, marks, examSubjectId, classId, sectionId);
      exists i :: 0 <= i < |r| && r[i].studentId == s.id
  {
    var r := GetMarksSheet(students, marks, examSubjectId, classId, sectionId);
    var roster := Roster(students, classId, sectionId);
    RosterMembers(students, classId, sectionId, s);
    var i :| 0 <= i < |roster| && roster[i] == s;
    assert r[i].studentId == s.id;
  }
}
