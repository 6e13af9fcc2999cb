/** The time-slot helpers the timetable pages share (the admin page and the student page
    define the same ones): normalising a time, its minutes, slot labels, the slot list
    derived from the loaded periods, and the lookup of the period shown in a grid cell.
    Times are the `TIME` column's text, `HH:MM:SS`, or a time input's `HH:MM`. */
module TimeSlots {
  import opened Common
  import opened Text
  import opened Keyed
  import opened Sorting
  import TimetableModel

  /** Text that starts with `HH:MM`. */
  predicate IsTime(t: string) {
    |t| >= 5 && IsDigit(t[0]) && IsDigit(t[1]) && t[2] == ':' && IsDigit(t[3]) && IsDigit(t[4])
  }

  type Time = t: string | IsTime(t) witness "00:00"

  /** `normalizeTime`: the first eight characters, `''` for a missing time. */
  function NormalizeTime(t: Option<string>): (r: string)
    ensures t.None? ==> r == ""
    ensures t.Some? ==> r <= t.value && |r| == if |t.value| < 8 then |t.value| else 8
    ensures t.Some? && IsTime(t.value) ==> IsTime(r)
  {
    if t.None? then "" else if |t.value| < 8 then t.value else t.value[..8]
  }

  /** `normalizeTime` on a time. */
  function Norm(t: Time): (r: Time)
    ensures |r| <= 8 && r <= t
  {
    NormalizeTime(Some(t))
  }

  /** Normalising a normalised time changes nothing. */
  lemma NormalizeIdempotent(t: Option<string>)
    ensures NormalizeTime(Some(NormalizeTime(t))) == NormalizeTime(t)
  {
  }

  function DigitValue(c: char): (v: nat)
    requires IsDigit(c)
    ensures v <= 9
  {
    c as int - '0' as int
  }

  /** `minutes`: the hours of `HH:MM` times sixty plus its minutes. For a clock time the
      hours and the minutes can be read back from the result. */
  function Minutes(t: Time): (m: nat)
    ensures ClockTime(t) ==> m / 60 == 10 * DigitValue(t[0]) + DigitValue(t[1])
    ensures ClockTime(t) ==> m % 60 == 10 * DigitValue(t[3]) + DigitValue(t[4])
    ensures ClockTime(t) ==> m < 100 * 60
  {
    60 * (10 * DigitValue(t[0]) + DigitValue(t[1])) + 10 * DigitValue(t[3]) + DigitValue(t[4])
  }

  /** The minutes depend on `HH:MM` alone, so normalising keeps them. */
  lemma MinutesOfNormalized(t: Time)
    ensures Minutes(Norm(t)) == Minutes(t)
  {
  }

  /** A clock time: minutes below sixty. */
  predicate ClockTime(t: Time) {
    DigitValue(t[3]) <= 5
  }

  /** One step of the lexicographic order on non-empty text. */
  lemma LexLeStep(a: string, b: string)
    requires a != [] && b != []
    ensures LexLe(a, b) <==> a[0] < b[0] || (a[0] == b[0] && LexLe(a[1..], b[1..]))
  {
  }

  /** Sorting clock times by their minutes is sorting their `HH:MM` text in code-point order. */
  lemma MinutesOrderText(a: Time, b: Time)
    requires ClockTime(a) && ClockTime(b)
    ensures Minutes(a) <= Minutes(b) <==> LexLe(a[..5], b[..5])
  {
    var x, y := a[..5], b[..5];
    LexLeStep(x, y);
    LexLeStep(x[1..], y[1..]);
    LexLeStep(x[2..], y[2..]);
    LexLeStep(x[3..], y[3..]);
    LexLeStep(x[4..], y[4..]);
    assert x[4..][1..] == [] && x[4..][1..] == y[4..][1..];
    assert x[1..][1..] == x[2..] && y[1..][1..] == y[2..];
    assert x[2..][1..] == x[3..] && y[2..][1..] == y[3..];
    assert x[3..][1..] == x[4..] && y[3..][1..] == y[4..];
  }

  /** Two clock times have the same minutes exactly when they agree on `HH:MM`. */
  lemma MinutesDetermineClock(a: Time, b: Time)
    requires ClockTime(a) && ClockTime(b)
    ensures Minutes(a) == Minutes(b) <==> a[..5] == b[..5]
  {
    var ha, hb := 10 * DigitValue(a[0]) + DigitValue(a[1]), 10 * DigitValue(b[0]) + DigitValue(b[1]);
    var ma, mb := 10 * DigitValue(a[3]) + DigitValue(a[4]), 10 * DigitValue(b[3]) + DigitValue(b[4]);
    if Minutes(a) == Minutes(b) {
      assert ha == hb && ma == mb;
      assert a[0] == b[0] && a[1] == b[1] && a[3] == b[3] && a[4] == b[4];
      assert a[..5] == [a[0], a[1], a[2], a[3], a[4]];
      assert b[..5] == [b[0], b[1], b[2], b[3], b[4]];
    }
    if a[..5] == b[..5] {
      assert a[0] == b[0] && a[1] == b[1] && a[3] == b[3] && a[4] == b[4] by {
        assert a[..5][0] == a[0] && a[..5][1] == a[1] && a[..5][3] == a[3] && a[..5][4] == a[4];
      }
    }
  }

  /** `toLabel`: `HH:MM - HH:MM`. */
  function ToLabel(start: Time, end: Time): (l: string)
    ensures |l| == 13
  {
    start[..5] + " - " + end[..5]
  }

  /** A label names its slot's start and end to the minute, and nothing else. */
  lemma LabelNamesTimes(a: Time, b: Time, c: Time, d: Time)
    ensures ToLabel(a, b) == ToLabel(c, d) <==> a[..5] == c[..5] && b[..5] == d[..5]
  {
    if ToLabel(a, b) == ToLabel(c, d) {
      assert a[..5] == ToLabel(a, b)[..5] && c[..5] == ToLabel(c, d)[..5];
      assert b[..5] == ToLabel(a, b)[8..] && d[..5] == ToLabel(c, d)[8..];
    }
  }

  /** A row of the grid: its start and end, and the label shown for it. */
  datatype Slot = Slot(start: Time, end: Time, caption: string)

  /** `normalizeSlot`. */
  function NormalizeSlot(start: Time, end: Time): (s: Slot)
    ensures NormalizeTime(Some(s.start)) == s.start && NormalizeTime(Some(s.end)) == s.end
    ensures s.start[..5] == start[..5] && s.end[..5] == end[..5]
    ensures Minutes(s.start) == Minutes(start) && Minutes(s.end) == Minutes(end)
    ensures |s.caption| == 13 && s.caption[..5] == start[..5] && s.caption[5..8] == " - " && s.caption[8..] == end[..5]
  {
    Slot(Norm(start), Norm(end), ToLabel(Norm(start), Norm(end)))
  }

  /** The comparator of `sortSlots`: by the minutes of the start. */
  predicate StartLe(a: Slot, b: Slot) {
    Minutes(a.start) <= Minutes(b.start)
  }

  /** `sortSlots`: a sorted copy; the slots themselves are left alone. */
  function SortSlots(slots: seq<Slot>): (r: seq<Slot>)
    ensures multiset(r) == multiset(slots)
    ensures SortedBy(r, StartLe)
  {
    assert TotalPreorder(StartLe);
    Sort(slots, StartLe)
  }

  /** The key `${start}-${end}` of the de-duplicating map. */
  function SlotKey(s: Slot): string {
    s.start + "-" + s.end
  }

  function SlotPair(s: Slot): (Time, Time) {
    (s.start, s.end)
  }

  /** No two slots share a start and an end. */
  predicate DistinctSlots(slots: seq<Slot>) {
    UniqueKeys(slots, SlotPair)
  }

  /** The text key tells normalised slots apart: a time has `:` where a shorter start would
      put the separator. */
  lemma SlotKeyInjective(a1: Time, b1: Time, a2: Time, b2: Time)
    requires |a1| <= 8 && |a2| <= 8
    ensures a1 + "-" + b1 == a2 + "-" + b2 ==> a1 == a2 && b1 == b2
  {
    var s1, s2 := a1 + "-" + b1, a2 + "-" + b2;
    if s1 == s2 {
      assert s1[|a1|] == '-' && s2[|a2|] == '-';
      assert |a1| == |a2|;
      assert a1 == s1[..|a1|] && a2 == s2[..|a2|];
      assert b1 == s1[|a1| + 1..] && b2 == s2[|a2| + 1..];
    }
  }

  /** Two normalised slots with the same key are the same slot. */
  lemma SlotKeyDecides(x: Slot, y: Slot)
    requires x.caption == ToLabel(x.start, x.end) && y.caption == ToLabel(y.start, y.end)
    requires |x.start| <= 8 && |y.start| <= 8
    ensures SlotKey(x) == SlotKey(y) <==> x == y
  {
    SlotKeyInjective(x.start, x.end, y.start, y.end);
  }

  /** A loaded period, as the pages read it. */
  datatype Entry = Entry(
    id: Option<nat>, day: string, startTime: Time, endTime: Time, entryType: string,
    title: Option<string>, subjectId: Option<nat>, teacherId: Option<nat>, room: Option<string>)

  function EntrySlot(e: Entry): Slot {
    NormalizeSlot(e.startTime, e.endTime)
  }

  function EntrySlots(entries: seq<Entry>): (r: seq<Slot>)
    ensures |r| == |entries|
    ensures forall i :: 0 <= i < |entries| ==> r[i] == EntrySlot(entries[i])
  {
    seq(|entries|, i requires 0 <= i < |entries| => EntrySlot(entries[i]))
  }

  /** The slots of the periods, de-duplicated through a map keyed by `SlotKey` (a later
      `set` of a key keeps that key's first position) and sorted. */
  function Dedup(entries: seq<Entry>): seq<Slot> {
    SortSlots(UpsertAll([], EntrySlots(entries), SlotKey))
  }

  lemma DedupDistinct(entries: seq<Entry>)
    ensures DistinctSlots(Dedup(entries))
  {
    var uniq := UpsertAll([], EntrySlots(entries), SlotKey);
    var r := SortSlots(uniq);
    UpsertAllUnique([], EntrySlots(entries), SlotKey);
    PermutationKeepsUniqueKeys(uniq, r, SlotKey);
    forall i, j | 0 <= i < j < |r| ensures SlotPair(r[i]) != SlotPair(r[j]) {
      assert SlotKey(r[i]) != SlotKey(r[j]);
    }
  }

  lemma DedupFromEntries(entries: seq<Entry>, s: Slot)
    requires s in Dedup(entries)
    ensures exists e :: e in entries && EntrySlot(e) == s
  {
    var batch := EntrySlots(entries);
    var uniq := UpsertAll([], batch, SlotKey);
    assert s in multiset(uniq);
    UpsertAllFrom([], batch, SlotKey, s);
    var i :| 0 <= i < |batch| && batch[i] == s;
    assert entries[i] in entries;
  }

  lemma DedupCovers(entries: seq<Entry>, e: Entry)
    requires e in entries
    ensures EntrySlot(e) in Dedup(entries)
  {
    var batch := EntrySlots(entries);
    var uniq := UpsertAll([], batch, SlotKey);
    var k := SlotKey(EntrySlot(e));
    var i :| 0 <= i < |entries| && entries[i] == e;
    assert batch[i] == EntrySlot(e);
    UpsertAllLookup([], batch, SlotKey, k);
    var found := LastWith(batch, SlotKey, k).value;
    var j :| 0 <= j < |batch| && batch[j] == found;
    SlotKeyDecides(found, EntrySlot(e));
    assert Lookup(uniq, SlotKey, k) == Some(EntrySlot(e));
    assert EntrySlot(e) in multiset(Dedup(entries));
  }

  /** `buildSlotsFromEntries`: one slot per distinct (start, end) of the periods, each
      period's slot among them and no other, ordered by start. */
  function BuildSlotsFromEntries(entries: seq<Entry>): (r: seq<Slot>)
    ensures DistinctSlots(r)
    ensures forall e :: e in entries ==> EntrySlot(e) in r
    ensures forall s :: s in r ==> exists e :: e in entries && EntrySlot(e) == s
    ensures SortedBy(r, StartLe)
  {
    DedupDistinct(entries);
    forall e | e in entries ensures EntrySlot(e) in Dedup(entries) {
      DedupCovers(entries, e);
    }
    forall s | s in Dedup(entries) ensures exists e :: e in entries && EntrySlot(e) == s {
      DedupFromEntries(entries, s);
    }
    Dedup(entries)
  }

  /** The key `${day}__${start}` of the grid's cell map, as a pair. */
  datatype CellKey = CellKey(day: string, start: string)

  function CellKeyOf(e: Entry): CellKey {
    CellKey(e.day, Norm(e.startTime))
  }

  /** `byCell.get(buildKey(day, start))`: the last period of that day starting at that time. */
  function CellAt(entries: seq<Entry>, day: string, start: string): (r: Option<Entry>)
    ensures r.None? <==> forall e :: e in entries ==> CellKeyOf(e) != CellKey(day, start)
    ensures r.Some? ==>
              exists i :: 0 <= i < |entries| && entries[i] == r.value && CellKeyOf(entries[i]) == CellKey(day, start)
                          && forall j :: i < j < |entries| ==> CellKeyOf(entries[j]) != CellKey(day, start)
  {
    LastWithPosition(entries, CellKeyOf, CellKey(day, start));
    LastWith(entries, CellKeyOf, CellKey(day, start))
  }

  /** One row of the student's grid: a slot and the period shown under each day. */
  datatype GridRow = GridRow(slot: Slot, cells: seq<Option<Entry>>)

  /** The student's timetable grid: a row per derived slot, a cell per school day. */
  function StudentGrid(entries: seq<Entry>): (g: seq<GridRow>)
    ensures |g| == |BuildSlotsFromEntries(entries)|
    ensures forall i :: 0 <= i < |g| ==>
              && g[i].slot == BuildSlotsFromEntries(entries)[i]
              && |g[i].cells| == |TimetableModel.Days|
              && forall d :: 0 <= d < |TimetableModel.Days| ==>
                   g[i].cells[d] == CellAt(entries, TimetableModel.Days[d], g[i].slot.start)
  {
    var slots := BuildSlotsFromEntries(entries);
    seq(|slots|, i requires 0 <= i < |slots| =>
      GridRow(slots[i], seq(|TimetableModel.Days|, d requires 0 <= d < |TimetableModel.Days| =>
                              CellAt(entries, TimetableModel.Days[d], slots[i].start))))
  }

  /** A period on a school day that no later period of the same day and start replaces is
      shown in the grid, in its own slot's row under its own day. */
  lemma GridShowsLastPeriod(entries: seq<Entry>, i: nat)
    requires i < |entries| && entries[i].day in TimetableModel.Days
    requires forall j :: i < j < |entries| ==> CellKeyOf(entries[j]) != CellKeyOf(entries[i])
    ensures var g := StudentGrid(entries);
      exists r, d :: 0 <= r < |g| && 0 <= d < |TimetableModel.Days|
                     && TimetableModel.Days[d] == entries[i].day && g[r].slot == EntrySlot(entries[i])
                     && g[r].cells[d] == Some(entries[i])
  {
    var e := entries[i];
    var g := StudentGrid(entries);
    var slots := BuildSlotsFromEntries(entries);
    assert EntrySlot(e) in slots;
    var r :| 0 <= r < |slots| && slots[r] == EntrySlot(e);
    var d :| 0 <= d < |TimetableModel.Days| && TimetableModel.Days[d] == e.day;
    LastWithIsLast(entries, CellKeyOf, i);
    assert g[r].cells[d] == CellAt(entries, e.day, Norm(e.startTime));
  }
}
