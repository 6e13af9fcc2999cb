/** The `attendance` table: one row per (student, date), written by a batch upsert, the
    history of one student, and the per-group counts of the overview. The UNIQUE key on
    (student_id, date) is an assumption of the model. Dates are day numbers. */
module Attendance {
  import opened Common
  import opened Keyed
  import opened Sorting
  import opened School

  datatype AttendanceRow = AttendanceRow(studentId: nat, date: nat, status: string, markedBy: nat, remarks: Option<string>)

  /** One record handed to `markAttendance`. */
  datatype AttendanceRecord = AttendanceRecord(studentId: nat, date: nat, status: string, markedBy: nat, remarks: Option<string>)

  datatype DayKey = DayKey(studentId: nat, date: nat)

  function DayKeyOf(a: AttendanceRow): DayKey {
    DayKey(a.studentId, a.date)
  }

  /** The VALUES row for one record: a falsy remark becomes NULL. */
  function AttendanceRowOf(r: AttendanceRecord): (a: AttendanceRow)
    ensures DayKeyOf(a) == DayKey(r.studentId, r.date)
    ensures a.status == r.status && a.markedBy == r.markedBy
    ensures a.remarks.Some? <==> TruthyText(r.remarks)
    ensures a.remarks.Some? ==> a.remarks == r.remarks
  {
    AttendanceRow(r.studentId, r.date, r.status, r.markedBy, TextOrNull(r.remarks))
  }

  function AttendanceRows(records: seq<AttendanceRecord>): (rows: seq<AttendanceRow>)
    ensures |rows| == |records|
    ensures forall i :: 0 <= i < |records| ==> rows[i] == AttendanceRowOf(records[i])
  {
    seq(|records|, i requires 0 <= i < |records| => AttendanceRowOf(records[i]))
  }

  class AttendanceTable {
    var rows: seq<AttendanceRow>

    ghost predicate Valid()
      reads this
    {
      UniqueKeys(rows, DayKeyOf)
    }

    constructor ()
      ensures Valid() && rows == []
    {
      rows := [];
    }

    /** `markAttendance`: nothing for an empty batch; otherwise every record is inserted or
        overwrites status, marked_by and remarks under its (student, date). */
    method MarkAttendance(records: seq<AttendanceRecord>)
      requires Valid()
      modifies this
      ensures Valid()
      ensures records == [] ==> rows == old(rows)
      ensures rows == UpsertAll(old(rows), AttendanceRows(records), DayKeyOf)
    {
      if |records| == 0 {
        return;
      }
      UpsertAllUnique(rows, AttendanceRows(records), DayKeyOf);
      rows := UpsertAll(rows, AttendanceRows(records), DayKeyOf);
    }
  }

  /** After the upsert, every (student, date) of the batch reads as the last record for it,
      and every other (student, date) reads as before. */
  lemma MarkAttendanceLookup(rows: seq<AttendanceRow>, records: seq<AttendanceRecord>, k: DayKey)
    ensures var batch := AttendanceRows(records);
      Lookup(UpsertAll(rows, batch, DayKeyOf), DayKeyOf, k)
        == if LastWith(batch, DayKeyOf, k).Some? then LastWith(batch, DayKeyOf, k) else Lookup(rows, DayKeyOf, k)
    ensures (forall r :: r in records ==> DayKey(r.studentId, r.date) != k) ==>
              LastWith(AttendanceRows(records), DayKeyOf, k).None?
  {
    var batch := AttendanceRows(records);
    UpsertAllLookup(rows, batch, DayKeyOf, k);
    if forall r :: r in records ==> DayKey(r.studentId, r.date) != k {
      forall b | b in batch ensures DayKeyOf(b) != k {
        var j :| 0 <= j < |batch| && batch[j] == b;
        assert records[j] in records;
      }
    }
  }

  /** `ORDER BY date DESC`. */
  predicate NewerFirst(a: AttendanceRow, b: AttendanceRow) {
    a.date >= b.date
  }

  /** `getAttendanceByStudent`: that student's rows, newest date first. */
  function AttendanceByStudent(rows: seq<AttendanceRow>, studentId: nat): (r: seq<AttendanceRow>)
    ensures forall a :: multiset(r)[a] == if a.studentId == studentId then multiset(rows)[a] else 0
    ensures forall i, j :: 0 <= i < j < |r| ==> r[i].date >= r[j].date
  {
    var keep := (a: AttendanceRow) => a.studentId == studentId;
    var picked := Filter(rows, keep);
    forall a ensures multiset(picked)[a] == if a.studentId == studentId then multiset(rows)[a] else 0 {
      FilterMultiset(rows, keep, a);
    }
    assert TotalPreorder(NewerFirst);
    var r := Sort(picked, NewerFirst);
    assert SortedBy(r, NewerFirst);
    r
  }

  /** The overview's group of a row: the class and section of its student (the first
      `students` row with that id; a row without a student is in no group). */
  predicate InGroup(students: seq<Student>, a: AttendanceRow, classId: nat, sectionId: Option<nat>) {
    var s := Lookup(students, (st: Student) => st.id, a.studentId);
    s.Some? && s.value.classId == classId && s.value.sectionId == sectionId
  }

  /** `COUNT(a.id)` of one group of the overview. */
  function TotalRecords(rows: seq<AttendanceRow>, students: seq<Student>, classId: nat, sectionId: Option<nat>): nat {
    Count(rows, (a: AttendanceRow) => InGroup(students, a, classId, sectionId))
  }

  /** `SUM(CASE WHEN a.status = 'Present' THEN 1 ELSE 0 END)` of one group of the overview. */
  function PresentCount(rows: seq<AttendanceRow>, students: seq<Student>, classId: nat, sectionId: Option<nat>): nat {
    Count(rows, (a: AttendanceRow) => InGroup(students, a, classId, sectionId) && a.status == "Present")
  }

  /** In every group of the overview, the present count never exceeds the total. */
  lemma PresentWithinTotal(rows: seq<AttendanceRow>, students: seq<Student>, classId: nat, sectionId: Option<nat>)
    ensures PresentCount(rows, students, classId, sectionId) <= TotalRecords(rows, students, classId, sectionId)
  {
    CountMonotone(rows, (a: AttendanceRow) => InGroup(students, a, classId, sectionId) && a.status == "Present",
                  (a: AttendanceRow) => InGroup(students, a, classId, sectionId));
  }
}
