/** Fees in the older `server/` backend: recording a fee, a student's fees, and a class's
    latest fee per student. `created_at` is a clock reading, a parameter here. */
module LegacyFees {
  import opened Common
  import opened Keyed
  import opened Sorting
  import opened LegacySchool

  datatype FeeRow = FeeRow(id: nat, studentId: nat, amount: nat, status: string, paymentDate: Option<string>, createdAt: nat)

  function FeeId(f: FeeRow): nat {
    f.id
  }

  /** The row `createFeeRecord` inserts: the status defaults to `Due` and a missing payment
      date is NULL. */
  function NewFee(id: nat, studentId: nat, amount: nat, status: Option<string>, paymentDate: Option<string>,
                  now: nat): (f: FeeRow)
    ensures f.id == id && f.studentId == studentId && f.amount == amount && f.createdAt == now
    ensures TruthyText(status) ==> f.status == status.value
    ensures !TruthyText(status) ==> f.status == "Due"
    ensures f.paymentDate.Some? <==> TruthyText(paymentDate)
    ensures f.paymentDate.Some? ==> f.paymentDate == paymentDate
  {
    FeeRow(id, studentId, amount, if TruthyText(status) then status.value else "Due", TextOrNull(paymentDate), now)
  }

  datatype FeeCreated = FeeRejected(reply: Reply) | FeeInserted(row: FeeRow)

  class FeeLedger {
    var rows: seq<FeeRow>
    var nextId: nat

    /** Distinct ids, all below the next one. */
    ghost predicate Valid()
      reads this
    {
      UniqueKeys(rows, FeeId) && 0 < nextId && forall f :: f in rows ==> 0 < f.id < nextId
    }

    constructor ()
      ensures Valid() && rows == [] && nextId == 1
    {
      rows := [];
      nextId := 1;
    }

    /** `createFeeRecord`: 400 and nothing inserted without a student or an amount; otherwise
        one row is appended and answered with 201. */
    method CreateFeeRecord(studentId: Option<nat>, amount: Option<nat>, status: Option<string>,
                           paymentDate: Option<string>, now: nat) returns (result: FeeCreated)
      requires Valid()
      modifies this
      ensures Valid()
      ensures result.FeeRejected? <==> !Truthy(studentId) || !Truthy(amount)
      ensures result.FeeRejected? ==>
                && result.reply == Reply(400, "student_id and amount are required")
                && rows == old(rows) && nextId == old(nextId)
      ensures result.FeeInserted? ==>
                && result.row == NewFee(old(nextId), studentId.value, amount.value, status, paymentDate, now)
                && rows == old(rows) + [result.row] && nextId == old(nextId) + 1
    {
      if !Truthy(studentId) || !Truthy(amount) {
        return FeeRejected(Reply(400, "student_id and amount are required"));
      }
      var row := NewFee(nextId, studentId.value, amount.value, status, paymentDate, now);
      forall m | 0 <= m < |rows| ensures rows[m].id != row.id {
        assert rows[m] in rows;
      }
      rows := rows + [row];
      nextId := nextId + 1;
      result := FeeInserted(row);
    }
  }

  /** `ORDER BY created_at DESC`. */
  predicate NewerFee(a: FeeRow, b: FeeRow) {
    a.createdAt >= b.createdAt
  }

  /** `getFeesByStudent`: exactly that student's fees, the most recently created first. */
  function FeesByStudent(rows: seq<FeeRow>, studentId: nat): (r: seq<FeeRow>)
    ensures forall f :: multiset(r)[f] == if f.studentId == studentId then multiset(rows)[f] else 0
    ensures forall i, j :: 0 <= i < j < |r| ==> r[i].createdAt >= r[j].createdAt
  {
    assert TotalPreorder(NewerFee);
    var r := SortedFilter(rows, (f: FeeRow) => f.studentId == studentId, NewerFee);
    assert SortedBy(r, NewerFee);
    r
  }

  /** The student's fee with the greatest `created_at` (the first such in the table). */
  function LatestFee(fees: seq<FeeRow>, studentId: nat): (r: Option<FeeRow>)
    ensures r.None? <==> forall f :: f in fees ==> f.studentId != studentId
    ensures r.Some? ==> r.value in fees && r.value.studentId == studentId
    ensures r.Some? ==> forall f :: f in fees && f.studentId == studentId ==> f.createdAt <= r.value.createdAt
  {
    if fees == [] then None
    else
      var rest := LatestFee(fees[1..], studentId);
      assert fees == [fees[0]] + fees[1..];
      if fees[0].studentId != studentId then rest
      else if rest.Some? && rest.value.createdAt > fees[0].createdAt then rest
      else Some(fees[0])
  }

  /** A line of `getFeesByClass`. */
  datatype FeeLine = FeeLine(studentId: nat, studentName: string, lastUpdate: Option<nat>,
                             latestStatus: Option<string>, latestAmount: Option<nat>)

  /** The aggregates of one student: NULLs without fees; otherwise the greatest `created_at`
      and the status and amount of the fee created last. */
  function FeeLineFor(s: LegacyStudent, fees: seq<FeeRow>): (l: FeeLine)
    ensures l.studentId == s.id && l.studentName == s.name
    ensures (l.lastUpdate.None? && l.latestStatus.None? && l.latestAmount.None?)
            <==> forall f :: f in fees ==> f.studentId != s.id
    ensures l.lastUpdate.Some? ==>
              && (forall f :: f in fees && f.studentId == s.id ==> f.createdAt <= l.lastUpdate.value)
              && exists f :: f in fees && f.studentId == s.id && f.createdAt == l.lastUpdate.value
                             && Some(f.status) == l.latestStatus && Some(f.amount) == l.latestAmount
  {
    var latest := LatestFee(fees, s.id);
    if latest.None? then FeeLine(s.id, s.name, None, None, None)
    else
      var f := latest.value;
      FeeLine(s.id, s.name, Some(f.createdAt), Some(f.status), Some(f.amount))
  }

  /** `getFeesByClass`: one line per student of the class, ordered by name. */
  function FeesByClass(students: seq<LegacyStudent>, fees: seq<FeeRow>, classId: nat): (r: seq<FeeLine>)
    ensures |r| == |ClassRoster(students, classId)|
    ensures forall i :: 0 <= i < |r| ==> r[i] == FeeLineFor(ClassRoster(students, classId)[i], fees)
    ensures forall i, j :: 0 <= i < j < |r| ==> LexLe(r[i].studentName, r[j].studentName)
  {
    var roster := ClassRoster(students, classId);
    seq(|roster|, i requires 0 <= i < |roster| => FeeLineFor(roster[i], fees))
  }

  /** With distinct student ids, no student has two lines. */
  lemma FeesByClassOnePerStudent(students: seq<LegacyStudent>, fees: seq<FeeRow>, classId: nat)
    requires UniqueKeys(students, StudentId)
    ensures var r := FeesByClass(students, fees, classId);
      forall i, j :: 0 <= i < j < |r| ==> r[i].studentId != r[j].studentId
  {
    var roster := ClassRoster(students, classId);
    ClassRosterUniqueIds(students, classId);
    assert forall i :: 0 <= i < |roster| ==> FeesByClass(students, fees, classId)[i].studentId == StudentId(roster[i]);
  }

  /** Every student of the class has a line. */
  lemma FeesByClassListsClass(students: seq<LegacyStudent>, fees: seq<FeeRow>, classId: nat, s: LegacyStudent)
    requires s in students && InClass(s, classId)
    ensures var r := FeesByClass(students, fees, classId);
      exists i :: 0 <= i < |r| && r[i].studentId == s.id && r[i].studentName == s.name
  {
    var roster := ClassRoster(students, classId);
    var r := FeesByClass(students, fees, classId);
    var i :| 0 <= i < |roster| && roster[i] == s;
    assert r[i].studentId == s.id && r[i].studentName == s.name;
  }

  /** Every line is a student of the class. */
  lemma FeesByClassOnlyClass(students: seq<LegacyStudent>, fees: seq<FeeRow>, classId: nat, i: nat)
    requires i < |FeesByClass(students, fees, classId)|
    ensures exists t :: t in students && InClass(t, classId) && t.id == FeesByClass(students, fees, classId)[i].studentId
  {
    var roster := ClassRoster(students, classId);
    assert roster[i] in roster;
  }
}
