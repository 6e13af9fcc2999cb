/** The admin page's timetable editor: the slot rows it shows, adding and removing a slot,
    checking a cell's form and building the request that saves it. */
module TimetableEditor {
  import opened Common
  import opened Text
  import opened Keyed
  import opened Sorting
  import opened TimeSlots

  /** The four rows an empty editor starts with; the last one's caption reads `12:00 - 01:00`. */
  const DefaultSlots: seq<Slot> := [
    Slot("09:00:00", "10:00:00", "09:00 - 10:00"),
    Slot("10:00:00", "11:00:00", "10:00 - 11:00"),
    Slot("11:00:00", "12:00:00", "11:00 - 12:00"),
    Slot("12:00:00", "13:00:00", "12:00 - 01:00")
  ]

  /** The default rows are in start order and distinct. */
  lemma DefaultSlotsValid()
    ensures SortedBy(DefaultSlots, StartLe) && DistinctSlots(DefaultSlots)
  {
    assert Minutes(DefaultSlots[0].start) == 540;
    assert Minutes(DefaultSlots[1].start) == 600;
    assert Minutes(DefaultSlots[2].start) == 660;
    assert Minutes(DefaultSlots[3].start) == 720;
  }

  /** A time input's `HH:MM` with `:00` appended. */
  function WithSeconds(t: Time): (r: Time)
    ensures r[..5] == t[..5] && |r| == |t| + 3
  {
    t + ":00"
  }

  /** With an `HH:MM` input, the slot time is already in normal form. */
  lemma WithSecondsNormal(t: Time)
    requires |t| == 5
    ensures Norm(WithSeconds(t)) == WithSeconds(t)
  {
  }

  class Editor {
    var timetable: seq<Entry>
    var slots: seq<Slot>

    /** The slot rows are in start order and no two share a start and an end. */
    ghost predicate Valid()
      reads this
    {
      SortedBy(slots, StartLe) && DistinctSlots(slots)
    }

    /** `openCreateMode`: no periods and the default rows. */
    constructor ()
      ensures Valid() && timetable == [] && slots == DefaultSlots
    {
      timetable := [];
      slots := DefaultSlots;
      DefaultSlotsValid();
    }

    /** `loadEditorTimetable`: without a class, the periods are cleared and the rows kept;
        otherwise the class's periods are loaded and the rows derived from them, or the
        default rows when there are none. */
    method Load(classSelected: bool, entries: seq<Entry>)
      requires Valid()
      modifies this
      ensures Valid()
      ensures !classSelected ==> timetable == [] && slots == old(slots)
      ensures classSelected ==> timetable == entries
      ensures classSelected && entries != [] ==> slots == BuildSlotsFromEntries(entries)
      ensures classSelected && entries == [] ==> slots == DefaultSlots
    {
      if !classSelected {
        timetable := [];
        return;
      }
      timetable := entries;
      var derived := BuildSlotsFromEntries(entries);
      assert entries != [] ==> EntrySlot(entries[0]) in derived;
      if |derived| > 0 {
        slots := derived;
      } else {
        slots := DefaultSlots;
        DefaultSlotsValid();
      }
    }

    /** `addTimeSlot`: refused when the end is not after the start or the same slot is already
        there; otherwise the new slot joins the rows, which stay in start order. */
    method AddTimeSlot(newStart: Time, newEnd: Time) returns (error: Option<string>)
      requires Valid()
      modifies this`slots
      ensures var start, end := WithSeconds(newStart), WithSeconds(newEnd);
        && (Minutes(start) >= Minutes(end) ==>
              error == Some("End time must be after start time") && slots == old(slots))
        && (Minutes(start) < Minutes(end) && (exists s :: s in old(slots) && s.start == start && s.end == end) ==>
              error == Some("Time slot already exists") && slots == old(slots))
        && (error.None? <==> Minutes(start) < Minutes(end) && !exists s :: s in old(slots) && s.start == start && s.end == end)
        && (error.None? ==> multiset(slots) == multiset(old(slots)) + multiset{NormalizeSlot(start, end)})
      ensures SortedBy(slots, StartLe)
      ensures |newStart| == 5 && |newEnd| == 5 ==> Valid()
    {
      var start, end := WithSeconds(newStart), WithSeconds(newEnd);
      if Minutes(start) >= Minutes(end) {
        return Some("End time must be after start time");
      }
      if exists s :: s in slots && s.start == start && s.end == end {
        return Some("Time slot already exists");
      }
      ghost var before := slots;
      var added := slots + [NormalizeSlot(start, end)];
      if |newStart| == 5 && |newEnd| == 5 {
        WithSecondsNormal(newStart);
        WithSecondsNormal(newEnd);
        forall i, j | 0 <= i < j < |added| ensures SlotPair(added[i]) != SlotPair(added[j]) {
          if j == |before| {
            assert added[i] in before;
          }
        }
      }
      slots := SortSlots(added);
      if |newStart| == 5 && |newEnd| == 5 {
        PermutationKeepsUniqueKeys(added, slots, SlotPair);
      }
      error := None;
    }

    /** `removeTimeSlot`: refused while a loaded period occupies the slot; otherwise exactly
        the rows with that start and end go. */
    method RemoveTimeSlot(slot: Slot) returns (error: Option<string>)
      requires Valid()
      modifies this`slots
      ensures Valid()
      ensures (exists e :: e in timetable && Norm(e.startTime) == slot.start && Norm(e.endTime) == slot.end) ==>
                error == Some("Delete periods in this slot first") && slots == old(slots)
      ensures error.None? <==> !exists e :: e in timetable && Norm(e.startTime) == slot.start && Norm(e.endTime) == slot.end
      ensures forall s :: multiset(slots)[s] ==
                if error.None? && s.start == slot.start && s.end == slot.end then 0 else multiset(old(slots))[s]
    {
      if exists e :: e in timetable && Norm(e.startTime) == slot.start && Norm(e.endTime) == slot.end {
        return Some("Delete periods in this slot first");
      }
      var keep := (s: Slot) => !(s.start == slot.start && s.end == slot.end);
      ghost var before := slots;
      slots := Filter(slots, keep);
      forall s ensures multiset(slots)[s] == if s.start == slot.start && s.end == slot.end then 0 else multiset(before)[s] {
        FilterMultiset(before, keep, s);
      }
      FilterSorted(before, keep, StartLe);
      FilterKeepsUniqueKeys(before, keep, SlotPair);
      error := None;
    }
  }

  /** The cell form: selects hold an id or nothing (`''`). */
  datatype CellForm = CellForm(entryType: string, title: string, subjectId: Option<nat>, teacherId: Option<nat>, room: string)

  /** A class is chosen, a lecture names its subject and teacher, a break has a title that
      is not blank. */
  predicate CellComplete(classId: Option<nat>, form: CellForm) {
    && classId.Some?
    && (form.entryType == "lecture" ==> form.subjectId.Some? && form.teacherId.Some?)
    && (form.entryType == "break" ==> Trim(form.title) != "")
  }

  /** `validateCell`: the first missing piece, in the order class, subject, teacher, break
      title; `''` when nothing is missing. */
  function ValidateCell(classId: Option<nat>, form: CellForm): (msg: string)
    ensures classId.None? ==> msg == "Select class first"
    ensures classId.Some? && form.entryType == "lecture" && form.subjectId.None? ==> msg == "Select subject"
    ensures classId.Some? && form.entryType == "lecture" && form.subjectId.Some? && form.teacherId.None? ==>
              msg == "Select teacher"
    ensures classId.Some? && form.entryType == "break" && Trim(form.title) == "" ==> msg == "Enter break title"
    ensures msg == "" <==> CellComplete(classId, form)
  {
    if classId.None? then "Select class first"
    else if form.entryType == "lecture" && form.subjectId.None? then "Select subject"
    else if form.entryType == "lecture" && form.teacherId.None? then "Select teacher"
    else if form.entryType == "break" && Trim(form.title) == "" then "Enter break title"
    else ""
  }

  /** The body `saveCell` sends. */
  datatype Payload = Payload(
    classId: nat, sectionId: Option<nat>, dayOfWeek: string, startTime: Time, endTime: Time,
    entryType: string, title: Option<string>, subjectId: Option<nat>, teacherId: Option<nat>, room: string)

  /** What `saveCell` does: show the validation message, or send the body by POST (a new
      period) or PUT (the edited period's id). */
  datatype Save = Invalid(message: string) | Post(payload: Payload) | Put(id: nat, payload: Payload)

  /** `saveCell`: the title travels only with a break, subject and teacher only with a
      lecture; an unselected section is sent as null. */
  function SaveCell(classId: Option<nat>, sectionId: Option<nat>, day: string, slot: Slot,
                    entry: Option<Entry>, form: CellForm): (r: Save)
    ensures r.Invalid? <==> !CellComplete(classId, form)
    ensures r.Invalid? ==> r.message == ValidateCell(classId, form) && r.message != ""
    ensures r.Put? <==> CellComplete(classId, form) && entry.Some? && Truthy(entry.value.id)
    ensures r.Put? ==> r.id == entry.value.id.value
    ensures !r.Invalid? ==>
              var p := r.payload;
              && p.classId == classId.value && p.sectionId == sectionId && p.dayOfWeek == day
              && p.startTime == slot.start && p.endTime == slot.end && p.entryType == form.entryType
              && (p.title.Some? <==> form.entryType == "break")
              && (p.title.Some? ==> p.title.value == form.title && Trim(p.title.value) != "")
              && (p.subjectId.Some? <==> form.entryType == "lecture")
              && (p.teacherId.Some? <==> form.entryType == "lecture")
              && (form.entryType == "lecture" ==> p.subjectId == form.subjectId && p.teacherId == form.teacherId)
              && p.room == form.room
  {
    var msg := ValidateCell(classId, form);
    if msg != "" then Invalid(msg)
    else
      var lecture := form.entryType == "lecture";
      var payload := Payload(
        classId.value, sectionId, day, slot.start, slot.end, form.entryType,
        if form.entryType == "break" then Some(form.title) else None,
        if lecture then form.subjectId else None,
        if lecture then form.teacherId else None,
        form.room);
      if entry.Some? && Truthy(entry.value.id) then Put(entry.value.id.value, payload) else Post(payload)
  }
}
