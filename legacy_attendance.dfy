/** Attendance in the older `server/` backend: the day a request refers to, marking one
    student for one day by a select-then-update-or-insert, a student's history with its
    statistics, and a class's list for one day. Dates are `YYYY-MM-DD` texts; the current
    day is a parameter. */
module LegacyAttendance {
  import opened Common
  import opened Keyed
  import opened Sorting
  import opened LegacySchool

  datatype AttendanceRow = AttendanceRow(id: nat, studentId: nat, date: string, status: string)

  datatype StudentDay = StudentDay(studentId: nat, date: string)

  function DayOf(a: AttendanceRow): StudentDay {
    StudentDay(a.studentId, a.date)
  }

  function IdOf(a: AttendanceRow): nat {
    a.id
  }

  /** `s.split("T")[0]`: the text before the first `T`. */
  function BeforeT(s: string): (r: string)
    ensures r <= s && 'T' !in r
    ensures |r| < |s| ==> s[|r|] == 'T'
    ensures 'T' !in s ==> r == s
  {
    if s == [] || s[0] == 'T' then []
    else
      assert s == [s[0]] + s[1..];
      [s[0]] + BeforeT(s[1..])
  }

  /** `sqlDateOrToday`: nothing for a missing or empty date; the part before the `T` of an
      ISO timestamp; any other text unchanged. */
  function SqlDateOrToday(d: Option<string>): (r: Option<string>)
    ensures r.None? <==> !TruthyText(d)
    ensures r.Some? ==> r.value <= d.value && 'T' !in r.value
    ensures r.Some? && 'T' !in d.value ==> r.value == d.value
    ensures r.Some? && 'T' in d.value ==> |r.value| < |d.value| && d.value[|r.value|] == 'T'
  {
    if !TruthyText(d) then None
    else if 'T' in d.value then
      Some(BeforeT(d.value))
    else d
  }

  /** `sqlDateOrToday(date) || today`: today when no date is given or the date starts with
      `T`; otherwise the date's text up to its first `T`. */
  function AttendanceDay(date: Option<string>, today: string): (day: string)
    ensures !TruthyText(date) || date.value[0] == 'T' ==> day == today
    ensures TruthyText(date) && date.value[0] != 'T' ==>
              && day != [] && day <= date.value && 'T' !in day
              && (|day| < |date.value| ==> date.value[|day|] == 'T')
  {
    var d := SqlDateOrToday(date);
    if d.Some? && d.value != "" then d.value else today
  }

  /** A day that was already worked out is kept as it is, as long as today's text has no `T`. */
  lemma AttendanceDayIdempotent(date: Option<string>, today: string)
    requires 'T' !in today
    ensures AttendanceDay(Some(AttendanceDay(date, today)), today) == AttendanceDay(date, today)
  {
    var day := AttendanceDay(date, today);
    if day != [] {
      assert day[0] != 'T';
    }
  }

  /** One student's day after `markAttendance`: the status of the first row of that
      (student, day) is overwritten, or a row is appended under the next id. */
  function Marked(rows: seq<AttendanceRow>, nextId: nat, k: StudentDay, status: string): seq<AttendanceRow> {
    var i := IndexOf(rows, DayOf, k);
    if i >= 0 then rows[i := rows[i].(status := status)] else rows + [AttendanceRow(nextId, k.studentId, k.date, status)]
  }

  /** After marking, the (student, day) reads with the new status, and every other
      (student, day) reads as before. */
  lemma MarkedLookup(rows: seq<AttendanceRow>, nextId: nat, k: StudentDay, status: string, other: StudentDay)
    ensures var after := Lookup(Marked(rows, nextId, k, status), DayOf, k);
      after.Some? && after.value.status == status && DayOf(after.value) == k
    ensures other != k ==> Lookup(Marked(rows, nextId, k, status), DayOf, other) == Lookup(rows, DayOf, other)
  {
    var i := IndexOf(rows, DayOf, k);
    var out := Marked(rows, nextId, k, status);
    if i >= 0 {
      assert forall m :: 0 <= m < |rows| ==> DayOf(out[m]) == DayOf(rows[m]);
      assert IndexOf(out, DayOf, k) == i;
      var j := IndexOf(rows, DayOf, other);
      assert IndexOf(out, DayOf, other) == j;
      if other != k && j >= 0 {
        assert out[j] == rows[j];
      }
    } else {
      LookupAppend(rows, DayOf, AttendanceRow(nextId, k.studentId, k.date, status), k);
      LookupAppend(rows, DayOf, AttendanceRow(nextId, k.studentId, k.date, status), other);
    }
  }

  /** Marking never creates a second row for a (student, day), and an id not in use keeps
      the ids distinct. */
  lemma MarkedUnique(rows: seq<AttendanceRow>, nextId: nat, k: StudentDay, status: string)
    requires UniqueKeys(rows, DayOf) && UniqueKeys(rows, IdOf)
    requires forall a :: a in rows ==> a.id < nextId
    ensures UniqueKeys(Marked(rows, nextId, k, status), DayOf)
    ensures UniqueKeys(Marked(rows, nextId, k, status), IdOf)
    ensures |Marked(rows, nextId, k, status)| <= |rows| + 1
  {
    var i := IndexOf(rows, DayOf, k);
    var out := Marked(rows, nextId, k, status);
    if i < 0 {
      forall m | 0 <= m < |rows| ensures out[m].id != nextId && DayOf(out[m]) != k {
        assert rows[m] in rows;
      }
    }
  }

  class AttendanceLog {
    var rows: seq<AttendanceRow>
    var nextId: nat

    /** At most one row per (student, day), distinct ids, and the next id above them all. */
    ghost predicate Valid()
      reads this
    {
      && UniqueKeys(rows, DayOf) && UniqueKeys(rows, IdOf)
      && 0 < nextId && forall a :: a in rows ==> 0 < a.id < nextId
    }

    constructor ()
      ensures Valid() && rows == [] && nextId == 1
    {
      rows := [];
      nextId := 1;
    }

    /** `markAttendance`: 400 and no write without a student or a status; otherwise the
        day's row of that student is updated or inserted and the day is echoed. */
    method MarkAttendance(studentId: Option<nat>, status: Option<string>, date: Option<string>, today: string)
      returns (reply: Reply, savedDay: Option<string>)
      requires Valid()
      modifies this
      ensures Valid()
      ensures !Truthy(studentId) || !TruthyText(status) ==>
                && reply == Reply(400, "student_id and status are required") && savedDay.None?
                && rows == old(rows) && nextId == old(nextId)
      ensures Truthy(studentId) && TruthyText(status) ==>
                var k := StudentDay(studentId.value, AttendanceDay(date, today));
                && reply == Reply(200, "Attendance saved") && savedDay == Some(k.date)
                && rows == Marked(old(rows), old(nextId), k, status.value)
                && nextId == if IndexOf(old(rows), DayOf, k) >= 0 then old(nextId) else old(nextId) + 1
    {
      if !Truthy(studentId) || !TruthyText(status) {
        return Reply(400, "student_id and status are required"), None;
      }
      var day := AttendanceDay(date, today);
      var k := StudentDay(studentId.value, day);
      MarkedUnique(rows, nextId, k, status.value);
      var i := IndexOf(rows, DayOf, k);
      if i < 0 {
        nextId := nextId + 1;
        rows := Marked(rows, nextId - 1, k, status.value);
      } else {
        rows := Marked(rows, nextId, k, status.value);
      }
      reply, savedDay := Reply(200, "Attendance saved"), Some(day);
    }
  }

  datatype Stats = Stats(totalDays: nat, presentDays: nat, absentDays: nat, percentage: nat)

  lemma MulMonotone(a: int, b: int, c: int)
    requires a <= b && c >= 0
    ensures a * c <= b * c
  {
  }

  /** The quotient of `n` by `d` is the `q` with `q * d <= n < q * d + d`. */
  lemma DivisionUnique(n: nat, d: nat, q: nat)
    requires 0 < d && q * d <= n < q * d + d
    ensures n / d == q
  {
    var r := n / d;
    assert r * d + n % d == n;
    if r < q {
      MulMonotone(r + 1, q, d);
    } else if r > q {
      MulMonotone(q + 1, r, d);
    }
  }

  /** `Math.round(part / total * 100)` in exact arithmetic: the nearest whole percentage,
      a half rounded up; none of nothing and all of everything. */
  function RoundedPercent(part: nat, total: nat): (pct: nat)
    requires 0 < total
    ensures 2 * (pct * total - 100 * part) <= total
    ensures 2 * (100 * part - pct * total) < total
    ensures part <= total ==> pct <= 100
    ensures part == 0 ==> pct == 0
    ensures part == total ==> pct == 100
  {
    var n := 200 * part + total;
    var d := 2 * total;
    var q := n / d;
    assert q * d + n % d == n;
    assert q * d == 2 * (q * total);
    assert part <= total ==> q <= 100 by {
      if part <= total && q > 100 {
        MulMonotone(101, q, d);
      }
    }
    assert part == 0 ==> q == 0 by {
      if part == 0 {
        DivisionUnique(n, d, 0);
      }
    }
    assert part == total ==> q == 100 by {
      if part == total {
        DivisionUnique(n, d, 100);
      }
    }
    q
  }

  predicate IsPresent(a: AttendanceRow) {
    a.status == "Present"
  }

  predicate IsAbsent(a: AttendanceRow) {
    a.status == "Absent"
  }

  /** The `stats` of `getAttendanceByStudent`: the days, the exact `Present` and `Absent`
      matches, and the rounded share of present days (0 without rows). */
  function StudentStats(history: seq<AttendanceRow>): (s: Stats)
    ensures s.totalDays == |history|
    ensures s.presentDays + s.absentDays <= s.totalDays
    ensures s.percentage <= 100
    ensures s.totalDays == 0 ==> s.percentage == 0
    ensures s.totalDays > 0 ==>
              2 * (s.percentage * s.totalDays - 100 * s.presentDays) <= s.totalDays
              && 2 * (100 * s.presentDays - s.percentage * s.totalDays) < s.totalDays
    ensures s.totalDays > 0 && s.presentDays == s.totalDays ==> s.percentage == 100
    ensures s.presentDays == 0 ==> s.percentage == 0
  {
    var total := |history|;
    var present := Count(history, IsPresent);
    var absent := Count(history, IsAbsent);
    CountDisjoint(history, IsPresent, IsAbsent);
    Stats(total, present, absent, if total > 0 then RoundedPercent(present, total) else 0)
  }

  /** The count of present days is the number of `Present` rows, and likewise for absent. */
  lemma StatsCountStatuses(history: seq<AttendanceRow>)
    ensures StudentStats(history).presentDays == |Filter(history, IsPresent)|
    ensures StudentStats(history).absentDays == |Filter(history, IsAbsent)|
    ensures (forall a :: a in history ==> a.status == "Present") ==> StudentStats(history).presentDays == |history|
  {
    if forall a :: a in history ==> a.status == "Present" {
      FilterAllPass(history, IsPresent);
    }
  }

  /** `ORDER BY date DESC`, comparing the date texts. */
  predicate NewerDate(a: AttendanceRow, b: AttendanceRow) {
    LexLe(b.date, a.date)
  }

  lemma NewerDateTotal()
    ensures TotalPreorder(NewerDate)
  {
    forall a: AttendanceRow, b: AttendanceRow ensures NewerDate(a, b) || NewerDate(b, a) {
      LexLeTotal(a.date, b.date);
    }
    forall a: AttendanceRow, b: AttendanceRow, c: AttendanceRow | NewerDate(a, b) && NewerDate(b, c)
      ensures NewerDate(a, c)
    {
      LexLeTransitive(c.date, b.date, a.date);
    }
  }

  datatype StudentReport = StudentReport(history: seq<AttendanceRow>, stats: Stats)

  /** `getAttendanceByStudent`: that student's rows, latest date first, and their statistics. */
  function AttendanceByStudent(rows: seq<AttendanceRow>, studentId: nat): (r: StudentReport)
    ensures forall a :: multiset(r.history)[a] == if a.studentId == studentId then multiset(rows)[a] else 0
    ensures SortedBy(r.history, NewerDate)
    ensures r.stats == StudentStats(r.history)
  {
    NewerDateTotal();
    var history := SortedFilter(rows, (a: AttendanceRow) => a.studentId == studentId, NewerDate);
    StudentReport(history, StudentStats(history))
  }

  /** A line of `getStudentsByClass`: the student, and the day's status (`''` when not
      marked) and date (NULL when not marked). */
  datatype DayLine = DayLine(id: nat, name: string, rollNumber: Option<string>, status: string, date: Option<string>)

  function DayLineFor(s: LegacyStudent, rows: seq<AttendanceRow>, day: string): (l: DayLine)
    ensures l.id == s.id && l.name == s.name && l.rollNumber == s.rollNumber
    ensures var a := Lookup(rows, DayOf, StudentDay(s.id, day));
      && (a.None? ==> l.status == "" && l.date.None?)
      && (a.Some? ==> l.status == a.value.status && l.date == Some(day))
  {
    var a := Lookup(rows, DayOf, StudentDay(s.id, day));
    if a.Some? then DayLine(s.id, s.name, s.rollNumber, a.value.status, Some(day))
    else DayLine(s.id, s.name, s.rollNumber, "", None)
  }

  datatype ClassDay = ClassDay(date: string, students: seq<DayLine>)

  /** `getStudentsByClass`: one line per student of the class, by name, with that day's
      status (with at most one row per student and day, the LEFT JOIN adds no line). */
  function StudentsByClass(students: seq<LegacyStudent>, rows: seq<AttendanceRow>, classId: nat,
                           date: Option<string>, today: string): (r: ClassDay)
    ensures r.date == AttendanceDay(date, today)
    ensures |r.students| == |ClassRoster(students, classId)|
    ensures forall i :: 0 <= i < |r.students| ==>
              r.students[i] == DayLineFor(ClassRoster(students, classId)[i], rows, r.date)
    ensures forall i, j :: 0 <= i < j < |r.students| ==> LexLe(r.students[i].name, r.students[j].name)
  {
    var day := AttendanceDay(date, today);
    var roster := ClassRoster(students, classId);
    ClassDay(day, seq(|roster|, i requires 0 <= i < |roster| => DayLineFor(roster[i], rows, day)))
  }

  /** Every student of the class has a line, and every line is a student of the class. */
  lemma StudentsByClassCoversClass(students: seq<LegacyStudent>, rows: seq<AttendanceRow>, classId: nat,
                                   date: Option<string>, today: string, s: LegacyStudent)
    ensures (s in students && InClass(s, classId)) <==>
            exists i :: 0 <= i < |ClassRoster(students, classId)| && ClassRoster(students, classId)[i] == s
  {
    var roster := ClassRoster(students, classId);
    assert s in roster <==> exists i :: 0 <= i < |roster| && roster[i] == s;
  }
}
