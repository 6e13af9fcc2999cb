/** The `timetables` table and its queries: the weekly periods of every class,
    the two overlap queries that the admin handlers consult before writing,
    the listing for one class, and the writes (insert, delete by id, delete a
    class/section group, patch one row). Times are seconds since midnight. */
module TimetableModel {
  import opened Common
  import opened Sorting

  datatype EntryType = Lecture | Break

  /** One stored row of `timetables`. */
  datatype Period = Period(
    id: nat,
    classId: nat,
    sectionId: Option<nat>,   // NULL: the period applies to every section of the class
    day: string,
    start: nat,
    end: nat,
    entryType: EntryType,
    title: Option<string>,
    subjectId: Option<nat>,
    teacherId: Option<nat>,
    room: Option<string>)

  /** What `createTimetable` is given. An entry type or title left out is `None`. */
  datatype NewPeriod = NewPeriod(
    classId: nat,
    sectionId: Option<nat>,
    day: string,
    start: nat,
    end: nat,
    entryType: Option<EntryType>,
    title: Option<string>,
    subjectId: Option<nat>,
    teacherId: Option<nat>,
    room: Option<string>)

  /** The columns an `UPDATE timetables SET ...` may assign: `None` leaves a column
      alone, `Some(v)` stores `v` (for a nullable column `Some(None)` stores NULL). */
  datatype PeriodPatch = PeriodPatch(
    classId: Option<nat>,
    sectionId: Option<Option<nat>>,
    day: Option<string>,
    start: Option<nat>,
    end: Option<nat>,
    entryType: Option<EntryType>,
    title: Option<Option<string>>,
    subjectId: Option<Option<nat>>,
    teacherId: Option<Option<nat>>,
    room: Option<Option<string>>)

  const Days: seq<string> := ["Monday", "Tuesday", "Wednesday", "Thursday", "Friday", "Saturday"]

  /** MySQL `FIELD(day_of_week, 'Monday', ..., 'Saturday')`: the 1-based position of
      the day in the week list, and 0 for any other text. */
  function DayRank(day: string): (r: nat)
    ensures r <= |Days|
    ensures r == 0 <==> day !in Days
    ensures r > 0 ==> Days[r - 1] == day
  {
    if day == Days[0] then 1
    else if day == Days[1] then 2
    else if day == Days[2] then 3
    else if day == Days[3] then 4
    else if day == Days[4] then 5
    else if day == Days[5] then 6
    else 0
  }

  /** `ORDER BY FIELD(t.day_of_week, ...), t.start_time`. */
  predicate PeriodLe(a: Period, b: Period) {
    DayRank(a.day) < DayRank(b.day) || (DayRank(a.day) == DayRank(b.day) && a.start <= b.start)
  }

  lemma PeriodLeTotal()
    ensures TotalPreorder(PeriodLe)
  {
  }

  /** The overlap test of both conflict queries, `start_time < newEnd AND end_time > newStart`:
      the half-open intervals [start, end) and [newStart, newEnd) share a moment. */
  predicate Overlaps(start: nat, end: nat, newStart: nat, newEnd: nat) {
    start < newEnd && end > newStart
  }

  /** `AND id <> ?`, present only when an id to exclude is given. */
  predicate Excluded(p: Period, excludeId: Option<nat>) {
    excludeId.Some? && p.id == excludeId.value
  }

  /** The WHERE clause of `hasClassConflict`, for one row. */
  predicate ClassClash(p: Period, classId: nat, day: string, start: nat, end: nat, excludeId: Option<nat>) {
    p.classId == classId && p.day == day && Overlaps(p.start, p.end, start, end) && !Excluded(p, excludeId)
  }

  /** The WHERE clause of `hasTeacherConflict`, for one row. `teacher_id = ?` never
      holds for a row whose teacher is NULL. */
  predicate TeacherClash(p: Period, teacherId: nat, day: string, start: nat, end: nat, excludeId: Option<nat>) {
    p.teacherId == Some(teacherId) && p.day == day && Overlaps(p.start, p.end, start, end) && !Excluded(p, excludeId)
  }

  /** `hasClassConflict`: some row of the same class, of any section, on the same day,
      other than `excludeId`, overlaps [start, end). */
  function HasClassConflict(rows: seq<Period>, classId: nat, day: string, start: nat, end: nat, excludeId: Option<nat>): (b: bool)
    ensures b <==> exists p :: p in rows && p.classId == classId && p.day == day
                              && p.start < end && p.end > start
                              && !(excludeId.Some? && p.id == excludeId.value)
  {
    if rows == [] then false
    else
      assert rows == [rows[0]] + rows[1..];
      ClassClash(rows[0], classId, day, start, end, excludeId)
      || HasClassConflict(rows[1..], classId, day, start, end, excludeId)
  }

  /** `hasTeacherConflict`: some row of the same teacher, in any class or section, on the
      same day, other than `excludeId`, overlaps [start, end). */
  function HasTeacherConflict(rows: seq<Period>, teacherId: nat, day: string, start: nat, end: nat, excludeId: Option<nat>): (b: bool)
    ensures b <==> exists p :: p in rows && p.teacherId == Some(teacherId) && p.day == day
                              && p.start < end && p.end > start
                              && !(excludeId.Some? && p.id == excludeId.value)
  {
    if rows == [] then false
    else
      assert rows == [rows[0]] + rows[1..];
      TeacherClash(rows[0], teacherId, day, start, end, excludeId)
      || HasTeacherConflict(rows[1..], teacherId, day, start, end, excludeId)
  }

  /** Overlap is symmetric: a stored period A blocks a proposed B exactly when a stored B
      would block a proposed A. */
  lemma OverlapSymmetric(a: Period, b: Period)
    ensures Overlaps(a.start, a.end, b.start, b.end) <==> Overlaps(b.start, b.end, a.start, a.end)
  {
  }

  /** Back-to-back periods do not conflict: when every period of the class on that day
      ends no later than `start` or begins no earlier than `end`, there is no class conflict. */
  lemma BackToBackNoClassConflict(rows: seq<Period>, classId: nat, day: string, start: nat, end: nat)
    requires forall p :: p in rows && p.classId == classId && p.day == day ==> p.end <= start || end <= p.start
    ensures !HasClassConflict(rows, classId, day, start, end, None)
  {
  }

  /** The class conflict ignores sections: an overlapping period of the same class on the
      same day conflicts whatever section it (or the proposal) belongs to. */
  lemma ClassConflictIgnoresSection(rows: seq<Period>, p: Period, start: nat, end: nat, excludeId: Option<nat>)
    requires p in rows && Overlaps(p.start, p.end, start, end) && !Excluded(p, excludeId)
    ensures HasClassConflict(rows, p.classId, p.day, start, end, excludeId)
  {
  }

  /** Excluding an id can only remove conflicts. */
  lemma ExcludingNarrows(rows: seq<Period>, classId: nat, teacherId: nat, day: string, start: nat, end: nat, id: nat)
    ensures HasClassConflict(rows, classId, day, start, end, Some(id)) ==> HasClassConflict(rows, classId, day, start, end, None)
    ensures HasTeacherConflict(rows, teacherId, day, start, end, Some(id)) ==> HasTeacherConflict(rows, teacherId, day, start, end, None)
  {
  }

  /** The WHERE clause of `listTimetables`. `sectionId` is the raw query value:
      when given, rows of that section and rows for all sections are listed. */
  predicate Listed(p: Period, classId: Option<nat>, sectionId: Option<nat>) {
    classId == Some(p.classId) && (sectionId.None? || p.sectionId == sectionId || p.sectionId.None?)
  }

  /** `listTimetables`: the rows of the class (restricted to the section and the
      all-sections rows when a section is given), Monday to Saturday, then by start time. */
  function ListTimetables(rows: seq<Period>, classId: Option<nat>, sectionId: Option<nat>): (r: seq<Period>)
    ensures forall p :: multiset(r)[p] == if Listed(p, classId, sectionId) then multiset(rows)[p] else 0
    ensures forall p :: p in r <==> p in rows && Listed(p, classId, sectionId)
    ensures SortedBy(r, PeriodLe)
  {
    var keep := (p: Period) => Listed(p, classId, sectionId);
    var picked := Filter(rows, keep);
    PeriodLeTotal();
    var r := Sort(picked, PeriodLe);
    assert forall p :: multiset(r)[p] == multiset(picked)[p];
    assert forall p :: multiset(picked)[p] == if Listed(p, classId, sectionId) then multiset(rows)[p] else 0 by {
      forall p ensures multiset(picked)[p] == if Listed(p, classId, sectionId) then multiset(rows)[p] else 0 {
        FilterMultiset(rows, keep, p);
      }
    }
    assert forall p :: p in r <==> p in picked by {
      forall p ensures p in r <==> p in picked {
        SortMembers(picked, PeriodLe, p);
      }
    }
    r
  }

  /** The row `createTimetable` stores: entry type defaults to lecture, a falsy title to NULL. */
  function Stored(payload: NewPeriod, id: nat): (p: Period)
    ensures p.id == id && p.classId == payload.classId && p.sectionId == payload.sectionId
    ensures p.day == payload.day && p.start == payload.start && p.end == payload.end
    ensures p.entryType == (if payload.entryType.None? then Lecture else payload.entryType.value)
    ensures p.title.Some? <==> TruthyText(payload.title)
    ensures p.title.Some? ==> p.title == payload.title
    ensures p.subjectId == payload.subjectId && p.teacherId == payload.teacherId && p.room == payload.room
  {
    Period(id, payload.classId, payload.sectionId, payload.day, payload.start, payload.end,
           if payload.entryType.None? then Lecture else payload.entryType.value,
           TextOrNull(payload.title), payload.subjectId, payload.teacherId, payload.room)
  }

  /** An UPDATE with no column to set. */
  predicate EmptyPatch(patch: PeriodPatch) {
    && patch.classId.None? && patch.sectionId.None? && patch.day.None? && patch.start.None?
    && patch.end.None? && patch.entryType.None? && patch.title.None? && patch.subjectId.None?
    && patch.teacherId.None? && patch.room.None?
  }

  function Pick<T>(update: Option<T>, current: T): T {
    if update.Some? then update.value else current
  }

  /** One row after `UPDATE ... SET <listed columns>`: listed columns take the patch's
      value, the others and the id keep theirs. */
  function ApplyPatch(p: Period, patch: PeriodPatch): (q: Period)
    ensures q.id == p.id
    ensures patch.classId.Some? ==> q.classId == patch.classId.value
    ensures patch.classId.None? ==> q.classId == p.classId
    ensures patch.sectionId.Some? ==> q.sectionId == patch.sectionId.value
    ensures patch.sectionId.None? ==> q.sectionId == p.sectionId
    ensures patch.day.Some? ==> q.day == patch.day.value
    ensures patch.day.None? ==> q.day == p.day
    ensures patch.start.Some? ==> q.start == patch.start.value
    ensures patch.start.None? ==> q.start == p.start
    ensures patch.end.Some? ==> q.end == patch.end.value
    ensures patch.end.None? ==> q.end == p.end
    ensures patch.entryType.Some? ==> q.entryType == patch.entryType.value
    ensures patch.entryType.None? ==> q.entryType == p.entryType
    ensures patch.title.Some? ==> q.title == patch.title.value
    ensures patch.title.None? ==> q.title == p.title
    ensures patch.subjectId.Some? ==> q.subjectId == patch.subjectId.value
    ensures patch.subjectId.None? ==> q.subjectId == p.subjectId
    ensures patch.teacherId.Some? ==> q.teacherId == patch.teacherId.value
    ensures patch.teacherId.None? ==> q.teacherId == p.teacherId
    ensures patch.room.Some? ==> q.room == patch.room.value
    ensures patch.room.None? ==> q.room == p.room
    ensures EmptyPatch(patch) ==> q == p
  {
    Period(p.id,
           Pick(patch.classId, p.classId),
           Pick(patch.sectionId, p.sectionId),
           Pick(patch.day, p.day),
           Pick(patch.start, p.start),
           Pick(patch.end, p.end),
           Pick(patch.entryType, p.entryType),
           Pick(patch.title, p.title),
           Pick(patch.subjectId, p.subjectId),
           Pick(patch.teacherId, p.teacherId),
           Pick(patch.room, p.room))
  }

  /** The rows `deleteTimetableGroup` removes: with a truthy section, that class's rows
      of that section; otherwise that class's all-sections rows. */
  predicate InGroup(p: Period, classId: nat, sectionId: Option<nat>) {
    p.classId == classId && (if Truthy(sectionId) then p.sectionId == sectionId else p.sectionId.None?)
  }

  /** No two rows share an id (the primary key). */
  predicate UniqueIds(rows: seq<Period>) {
    forall i, j :: 0 <= i < j < |rows| ==> rows[i].id != rows[j].id
  }

  class TimetableTable {
    var rows: seq<Period>
    var nextId: nat   // the AUTO_INCREMENT counter

    ghost predicate Valid()
      reads this
    {
      0 < nextId && UniqueIds(rows) && (forall p :: p in rows ==> 0 < p.id < nextId)
    }

    constructor ()
      ensures Valid() && rows == [] && nextId == 1
    {
      rows := [];
      nextId := 1;
    }

    /** `createTimetable`: inserts one row and returns its fresh id. */
    method Create(payload: NewPeriod) returns (id: nat)
      requires Valid()
      modifies this
      ensures Valid()
      ensures id == old(nextId) && nextId == id + 1
      ensures forall p :: p in old(rows) ==> p.id != id
      ensures rows == old(rows) + [Stored(payload, id)]
    {
      id := nextId;
      rows := rows + [Stored(payload, id)];
      nextId := nextId + 1;
    }

    /** `deleteTimetable`: removes the row with that id, if any. */
    method Delete(id: nat)
      requires Valid()
      modifies this`rows
      ensures Valid()
      ensures forall p :: multiset(rows)[p] == if p.id == id then 0 else multiset(old(rows))[p]
    {
      var keep := (p: Period) => p.id != id;
      ghost var before := rows;
      rows := Filter(rows, keep);
      forall p ensures multiset(rows)[p] == if p.id == id then 0 else multiset(before)[p] {
        FilterMultiset(before, keep, p);
      }
      FilterKeepsUniqueIds(before, keep);
    }

    /** `deleteTimetableGroup`: removes exactly the rows of one class/section group. */
    method DeleteGroup(classId: nat, sectionId: Option<nat>)
      requires Valid()
      modifies this`rows
      ensures Valid()
      ensures forall p :: multiset(rows)[p] == if InGroup(p, classId, sectionId) then 0 else multiset(old(rows))[p]
    {
      var keep := (p: Period) => !InGroup(p, classId, sectionId);
      ghost var before := rows;
      rows := Filter(rows, keep);
      forall p ensures multiset(rows)[p] == if InGroup(p, classId, sectionId) then 0 else multiset(before)[p] {
        FilterMultiset(before, keep, p);
      }
      FilterKeepsUniqueIds(before, keep);
    }

    /** `updateTimetable`: an empty patch returns false and writes nothing; otherwise
        the listed columns of the row with that id change and true is returned. */
    method Update(id: nat, patch: PeriodPatch) returns (updated: bool)
      requires Valid()
      modifies this`rows
      ensures Valid()
      ensures updated == !EmptyPatch(patch)
      ensures |rows| == |old(rows)|
      ensures forall i :: 0 <= i < |rows| ==>
                rows[i] == if updated && old(rows)[i].id == id then ApplyPatch(old(rows)[i], patch) else old(rows)[i]
    {
      if EmptyPatch(patch) {
        return false;
      }
      rows := seq(|rows|, i requires 0 <= i < |rows| reads this =>
                  if rows[i].id == id then ApplyPatch(rows[i], patch) else rows[i]);
      updated := true;
    }
  }

  lemma FilterKeepsUniqueIds(rows: seq<Period>, keep: Period -> bool)
    requires UniqueIds(rows)
    ensures UniqueIds(Filter(rows, keep))
    ensures forall p :: p in Filter(rows, keep) ==> p in rows
  {
    if rows != [] {
      FilterKeepsUniqueIds(rows[1..], keep);
      assert forall p :: p in rows[1..] ==> p.id != rows[0].id;
    }
  }
}
