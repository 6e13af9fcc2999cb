/** The admin timetable handlers: validation of a period, the class and teacher
    overlap checks, and the writes. The invariant they keep is `Consistent`: no
    class and no teacher is booked twice at the same moment. */
module TimetableAdmin {
  import opened Common
  import opened TimetableModel

  /** A create or update request body. Numeric fields are taken after JSON decoding;
      `None` is a field left out. `sectionId` and `room` also distinguish an explicit `null`. */
  datatype TimetableBody = TimetableBody(
    classId: Option<nat>,
    sectionId: Field<nat>,
    day: Option<string>,
    start: Option<nat>,
    end: Option<nat>,
    entryType: Option<string>,
    title: Option<string>,
    subjectId: Option<nat>,
    teacherId: Option<nat>,
    room: Field<string>)

  /** What the handlers decide before writing: a rejection, or the entry type and the
      forced title/subject/teacher columns to store. */
  datatype Verdict =
    | Reject(reply: Reply)
    | Accept(kind: EntryType, title: Option<string>, subjectId: Option<nat>, teacherId: Option<nat>)

  /** `req.body.entryType || 'lecture'`. */
  function EntryTypeText(body: TimetableBody): string {
    if TruthyText(body.entryType) then body.entryType.value else "lecture"
  }

  /** The three 400 checks pass: a known entry type, a lecture with a subject and a
      teacher, a break with a title. */
  predicate WellFormed(body: TimetableBody) {
    var t := EntryTypeText(body);
    && (t == "lecture" || t == "break")
    && (t == "lecture" ==> Truthy(body.subjectId) && Truthy(body.teacherId))
    && (t == "break" ==> TruthyText(body.title))
  }

  /** The body names the four columns the overlap queries bind. A query bound to a
      missing one compares with NULL and finds nothing. */
  predicate Placed(body: TimetableBody) {
    body.classId.Some? && body.day.Some? && body.start.Some? && body.end.Some?
  }

  predicate ClassConflictFor(rows: seq<Period>, body: TimetableBody, excludeId: Option<nat>) {
    Placed(body)
    && HasClassConflict(rows, body.classId.value, body.day.value, body.start.value, body.end.value, excludeId)
  }

  predicate TeacherConflictFor(rows: seq<Period>, body: TimetableBody, excludeId: Option<nat>) {
    Placed(body) && body.teacherId.Some?
    && HasTeacherConflict(rows, body.teacherId.value, body.day.value, body.start.value, body.end.value, excludeId)
  }

  /** The checks shared by `createTimetable` and `updateTimetable`, in their order. */
  function Decide(rows: seq<Period>, body: TimetableBody, excludeId: Option<nat>): (v: Verdict)
    ensures EntryTypeText(body) != "lecture" && EntryTypeText(body) != "break" ==>
              v == Reject(Reply(400, "Invalid entry type"))
    ensures EntryTypeText(body) == "lecture" && !(Truthy(body.subjectId) && Truthy(body.teacherId)) ==>
              v == Reject(Reply(400, "Lecture requires subject and teacher"))
    ensures EntryTypeText(body) == "break" && !TruthyText(body.title) ==>
              v == Reject(Reply(400, "Break requires title"))
    ensures WellFormed(body) && ClassConflictFor(rows, body, excludeId) ==>
              v == Reject(Reply(409, "Class has an overlapping timetable period"))
    ensures (WellFormed(body) && !ClassConflictFor(rows, body, excludeId)
             && EntryTypeText(body) == "lecture" && TeacherConflictFor(rows, body, excludeId)) ==>
              v == Reject(Reply(409, "Teacher has an overlapping timetable period"))
    ensures v.Accept? <==>
              && WellFormed(body) && !ClassConflictFor(rows, body, excludeId)
              && !(EntryTypeText(body) == "lecture" && TeacherConflictFor(rows, body, excludeId))
    ensures v.Accept? && v.kind == Lecture ==>
              EntryTypeText(body) == "lecture" && v.title.None? && v.subjectId == body.subjectId
              && v.teacherId == body.teacherId && Truthy(v.subjectId) && Truthy(v.teacherId)
    ensures v.Accept? && v.kind == Break ==>
              EntryTypeText(body) == "break" && v.title == body.title && TruthyText(v.title)
              && v.subjectId.None? && v.teacherId.None?
  {
    var t := EntryTypeText(body);
    if t != "lecture" && t != "break" then Reject(Reply(400, "Invalid entry type"))
    else if t == "lecture" && (!Truthy(body.subjectId) || !Truthy(body.teacherId)) then
      Reject(Reply(400, "Lecture requires subject and teacher"))
    else if t == "break" && !TruthyText(body.title) then Reject(Reply(400, "Break requires title"))
    else if ClassConflictFor(rows, body, excludeId) then
      Reject(Reply(409, "Class has an overlapping timetable period"))
    else if t == "lecture" && TeacherConflictFor(rows, body, excludeId) then
      Reject(Reply(409, "Teacher has an overlapping timetable period"))
    else if t == "lecture" then Accept(Lecture, None, body.subjectId, body.teacherId)
    else Accept(Break, body.title, None, None)
  }

  /** A nullable column in an INSERT: a field left out binds as NULL. */
  function InsertValue<T>(f: Field<T>): Option<T> {
    if f.Given? then Some(f.value) else None
  }

  /** A nullable column in the update mapper: a field left out is dropped, `null` is stored. */
  function PatchValue<T>(f: Field<T>): Option<Option<T>> {
    match f
    case Absent => None
    case Null => Some(None)
    case Given(x) => Some(Some(x))
  }

  /** What `createTimetable` hands to the table once the checks pass. */
  function CreatePayload(body: TimetableBody, v: Verdict): NewPeriod
    requires Placed(body) && v.Accept?
  {
    NewPeriod(body.classId.value, InsertValue(body.sectionId), body.day.value, body.start.value,
              body.end.value, Some(v.kind), v.title, v.subjectId, v.teacherId, InsertValue(body.room))
  }

  /** The update mapper: entry type, title, subject and teacher are always written;
      every other field only when the body has it. */
  function UpdatePatch(body: TimetableBody, v: Verdict): (patch: PeriodPatch)
    requires v.Accept?
    ensures !EmptyPatch(patch)
    ensures patch.entryType == Some(v.kind) && patch.title == Some(v.title)
    ensures patch.subjectId == Some(v.subjectId) && patch.teacherId == Some(v.teacherId)
    ensures body.classId.None? ==> patch.classId.None?
    ensures body.sectionId.Absent? ==> patch.sectionId.None?
    ensures body.day.None? ==> patch.day.None?
    ensures body.start.None? ==> patch.start.None?
    ensures body.end.None? ==> patch.end.None?
    ensures body.room.Absent? ==> patch.room.None?
  {
    PeriodPatch(body.classId, PatchValue(body.sectionId), body.day, body.start, body.end,
                Some(v.kind), Some(v.title), Some(v.subjectId), Some(v.teacherId), PatchValue(body.room))
  }

  /** An accepted update keeps the id, keeps every column the body leaves out, stores
      `null` for a section or room sent as null, stores every column the body gives, and
      always writes the verdict's entry type, title, subject and teacher. */
  lemma UpdateKeepsOmittedColumns(p: Period, body: TimetableBody, v: Verdict)
    requires v.Accept?
    ensures var q := ApplyPatch(p, UpdatePatch(body, v));
      && q.id == p.id
      && q.classId == (if body.classId.Some? then body.classId.value else p.classId)
      && q.day == (if body.day.Some? then body.day.value else p.day)
      && q.start == (if body.start.Some? then body.start.value else p.start)
      && q.end == (if body.end.Some? then body.end.value else p.end)
      && (body.sectionId.Absent? ==> q.sectionId == p.sectionId)
      && (body.sectionId.Null? ==> q.sectionId.None?)
      && (body.sectionId.Given? ==> q.sectionId == Some(body.sectionId.value))
      && (body.room.Absent? ==> q.room == p.room)
      && (body.room.Null? ==> q.room.None?)
      && (body.room.Given? ==> q.room == Some(body.room.value))
      && q.entryType == v.kind && q.title == v.title && q.subjectId == v.subjectId && q.teacherId == v.teacherId
  {
  }

  /** No two distinct periods of the same class on the same day overlap, and no two
      distinct periods of the same teacher on the same day overlap. */
  ghost predicate Consistent(rows: seq<Period>) {
    && (forall p, q :: p in rows && q in rows && p.id != q.id && p.classId == q.classId && p.day == q.day
          ==> !Overlaps(p.start, p.end, q.start, q.end))
    && (forall p, q :: p in rows && q in rows && p.id != q.id && p.teacherId.Some? && p.teacherId == q.teacherId && p.day == q.day
          ==> !Overlaps(p.start, p.end, q.start, q.end))
  }

  /** Removing periods cannot create a double booking. */
  lemma SubsetKeepsConsistent(rows: seq<Period>, after: seq<Period>)
    requires Consistent(rows)
    requires forall q :: q in after ==> q in rows
    ensures Consistent(after)
  {
  }

  /** Writing a period with id `id` whose placement passed both overlap checks (with `id`
      excluded) keeps the timetable consistent, whatever else of that row changes. */
  lemma PlaceKeepsConsistent(rows: seq<Period>, after: seq<Period>, id: nat, classId: nat, day: string,
                             start: nat, end: nat, teacherId: Option<nat>)
    requires Consistent(rows)
    requires forall q :: q in after ==>
               || (q.id != id && q in rows)
               || (q.id == id && q.classId == classId && q.day == day && q.start == start
                   && q.end == end && q.teacherId == teacherId)
    requires !HasClassConflict(rows, classId, day, start, end, Some(id))
    requires teacherId.Some? ==> !HasTeacherConflict(rows, teacherId.value, day, start, end, Some(id))
    ensures Consistent(after)
  {
    forall p, q | p in after && q in after && p.id != q.id && p.classId == q.classId && p.day == q.day
      ensures !Overlaps(p.start, p.end, q.start, q.end)
    {
      if p.id == id {
        assert !ClassClash(q, classId, day, start, end, Some(id));
      } else if q.id == id {
        assert !ClassClash(p, classId, day, start, end, Some(id));
      }
    }
    forall p, q | p in after && q in after && p.id != q.id && p.teacherId.Some? && p.teacherId == q.teacherId && p.day == q.day
      ensures !Overlaps(p.start, p.end, q.start, q.end)
    {
      if p.id == id {
        assert !TeacherClash(q, teacherId.value, day, start, end, Some(id));
      } else if q.id == id {
        assert !TeacherClash(p, teacherId.value, day, start, end, Some(id));
      }
    }
  }

  /** The body that re-submits a stored period unchanged. */
  function ResubmitBody(p: Period): TimetableBody {
    TimetableBody(Some(p.classId), if p.sectionId.Some? then Given(p.sectionId.value) else Null,
                  Some(p.day), Some(p.start), Some(p.end),
                  Some(if p.entryType == Lecture then "lecture" else "break"),
                  p.title, p.subjectId, p.teacherId,
                  if p.room.Some? then Given(p.room.value) else Null)
  }

  /** In a consistent timetable, saving a stored, well-formed period again without changes
      is accepted: the update checks exclude the period itself. */
  lemma ResubmitAccepted(rows: seq<Period>, p: Period)
    requires Consistent(rows) && p in rows
    requires p.entryType == Lecture ==> Truthy(p.subjectId) && Truthy(p.teacherId)
    requires p.entryType == Break ==> TruthyText(p.title)
    ensures Decide(rows, ResubmitBody(p), Some(p.id)).Accept?
  {
  }

  /** `createTimetable`. The route's validator has already demanded a class, a day and
      both times. */
  method CreateTimetable(table: TimetableTable, body: TimetableBody) returns (reply: Reply, id: Option<nat>)
    requires table.Valid()
    requires Placed(body)
    modifies table
    ensures table.Valid()
    ensures var v := Decide(old(table.rows), body, None);
      if v.Reject? then
        reply == v.reply && id.None? && table.rows == old(table.rows) && table.nextId == old(table.nextId)
      else
        reply.status == 201 && id == Some(old(table.nextId))
        && table.rows == old(table.rows) + [Stored(CreatePayload(body, v), old(table.nextId))]
    ensures Consistent(old(table.rows)) ==> Consistent(table.rows)
  {
    var v := Decide(table.rows, body, None);
    if v.Reject? {
      return v.reply, None;
    }
    ghost var before := table.rows;
    var newId := table.Create(CreatePayload(body, v));
    reply, id := Reply(201, ""), Some(newId);
    if Consistent(before) {
      ExcludingNarrows(before, body.classId.value, if v.teacherId.Some? then v.teacherId.value else 0,
                       body.day.value, body.start.value, body.end.value, newId);
      PlaceKeepsConsistent(before, table.rows, newId, body.classId.value, body.day.value,
                           body.start.value, body.end.value, v.teacherId);
    }
  }

  /** `updateTimetable`: the same checks with the period's own id excluded, then the
      mapped columns of that row are written. */
  method UpdateTimetable(table: TimetableTable, id: nat, body: TimetableBody) returns (reply: Reply)
    requires table.Valid()
    modifies table`rows
    ensures table.Valid()
    ensures var v := Decide(old(table.rows), body, Some(id));
      if v.Reject? then
        reply == v.reply && table.rows == old(table.rows)
      else
        reply == Reply(200, "Timetable updated") && |table.rows| == |old(table.rows)|
        && forall i :: 0 <= i < |table.rows| ==>
             table.rows[i] == if old(table.rows)[i].id == id then ApplyPatch(old(table.rows)[i], UpdatePatch(body, v))
                              else old(table.rows)[i]
    ensures Placed(body) && Consistent(old(table.rows)) ==> Consistent(table.rows)
  {
    var v := Decide(table.rows, body, Some(id));
    if v.Reject? {
      return v.reply;
    }
    ghost var before := table.rows;
    var _ := table.Update(id, UpdatePatch(body, v));
    reply := Reply(200, "Timetable updated");
    if Placed(body) && Consistent(before) {
      forall q | q in table.rows
        ensures (q.id != id && q in before)
             || (q.id == id && q.classId == body.classId.value && q.day == body.day.value
                 && q.start == body.start.value && q.end == body.end.value && q.teacherId == v.teacherId)
      {
        var i :| 0 <= i < |table.rows| && table.rows[i] == q;
        assert before[i] in before;
      }
      PlaceKeepsConsistent(before, table.rows, id, body.classId.value, body.day.value,
                           body.start.value, body.end.value, v.teacherId);
    }
  }

  /** `deleteTimetable`. */
  method DeleteTimetable(table: TimetableTable, id: nat) returns (reply: Reply)
    requires table.Valid()
    modifies table`rows
    ensures table.Valid() && reply == Reply(200, "Timetable deleted")
    ensures forall p :: multiset(table.rows)[p] == if p.id == id then 0 else multiset(old(table.rows))[p]
    ensures Consistent(old(table.rows)) ==> Consistent(table.rows)
  {
    table.Delete(id);
    reply := Reply(200, "Timetable deleted");
    forall q | q in table.rows ensures q in old(table.rows) {
      assert q in multiset(table.rows);
    }
  }

  /** `deleteTimetableGroup`: `sectionQuery` is the query's section converted with
      `Number` (`None` when the query has none); a falsy one selects the all-sections group. */
  method DeleteTimetableGroup(table: TimetableTable, classId: nat, sectionQuery: Option<nat>) returns (reply: Reply)
    requires table.Valid()
    modifies table`rows
    ensures table.Valid() && reply == Reply(200, "Timetable group deleted")
    ensures forall p :: multiset(table.rows)[p] ==
              if InGroup(p, classId, OrNull(sectionQuery)) then 0 else multiset(old(table.rows))[p]
    ensures Consistent(old(table.rows)) ==> Consistent(table.rows)
  {
    table.DeleteGroup(classId, OrNull(sectionQuery));
    reply := Reply(200, "Timetable group deleted");
    forall q | q in table.rows ensures q in old(table.rows) {
      assert q in multiset(table.rows);
    }
  }
}
