/** The `notifications` table: creation with optional targets, the list a user sees, and
    the patch and delete of one row. `created_at` is filled by the database clock, which
    the model takes as a parameter. */
module Notifications {
  import opened Common
  import opened Sorting

  datatype Notification = Notification(
    id: nat, title: string, message: string, targetRole: Option<string>, targetUserId: Option<nat>, createdAt: nat)

  /** The payload of `createNotification`. */
  datatype NewNotification = NewNotification(title: string, message: string, targetRole: Option<string>, targetUserId: Option<nat>)

  /** The columns an `updateNotification` payload may assign; the targets may be set to NULL. */
  datatype NotificationPatch = NotificationPatch(
    title: Option<string>, message: Option<string>, targetRole: Option<Option<string>>, targetUserId: Option<Option<nat>>)

  /** The WHERE clause of `listNotificationsForUser`: a NULL target admits everyone. */
  predicate Visible(n: Notification, userId: nat, role: string) {
    (n.targetUserId.None? || n.targetUserId == Some(userId)) && (n.targetRole.None? || n.targetRole == Some(role))
  }

  /** A notification with neither target is a broadcast: every user of every role sees it. */
  lemma BroadcastVisibleToAll(n: Notification)
    requires n.targetUserId.None? && n.targetRole.None?
    ensures forall userId: nat, role: string :: Visible(n, userId, role)
  {
  }

  /** A notification aimed at one user is seen by no other user, whatever the role. */
  lemma TargetedHiddenFromOthers(n: Notification, userId: nat, role: string)
    requires n.targetUserId.Some? && n.targetUserId.value != userId
    ensures !Visible(n, userId, role)
  {
  }

  /** `ORDER BY created_at DESC`. */
  predicate NewestFirst(a: Notification, b: Notification) {
    a.createdAt >= b.createdAt
  }

  /** `listNotificationsForUser`: exactly the visible notifications, newest first. */
  function ListForUser(rows: seq<Notification>, userId: nat, role: string): (r: seq<Notification>)
    ensures forall n :: multiset(r)[n] == if Visible(n, userId, role) then multiset(rows)[n] else 0
    ensures forall n :: n in r <==> n in rows && Visible(n, userId, role)
    ensures forall i, j :: 0 <= i < j < |r| ==> r[i].createdAt >= r[j].createdAt
  {
    assert TotalPreorder(NewestFirst);
    var r := SortedFilter(rows, (n: Notification) => Visible(n, userId, role), NewestFirst);
    assert SortedBy(r, NewestFirst);
    r
  }

  /** The row `createNotification` inserts: a falsy target becomes NULL. */
  function Created(payload: NewNotification, id: nat, now: nat): (n: Notification)
    ensures n.targetRole.Some? <==> TruthyText(payload.targetRole)
    ensures n.targetUserId.Some? <==> Truthy(payload.targetUserId)
    ensures n.targetRole.Some? ==> n.targetRole == payload.targetRole
    ensures n.targetUserId.Some? ==> n.targetUserId == payload.targetUserId
    ensures n.id == id && n.title == payload.title && n.message == payload.message && n.createdAt == now
  {
    Notification(id, payload.title, payload.message, TextOrNull(payload.targetRole), OrNull(payload.targetUserId), now)
  }

  predicate EmptyNotificationPatch(p: NotificationPatch) {
    p.title.None? && p.message.None? && p.targetRole.None? && p.targetUserId.None?
  }

  function Pick<T>(update: Option<T>, current: T): T {
    if update.Some? then update.value else current
  }

  /** The row after `UPDATE notifications SET ...`: the listed columns take their new
      values, every other column keeps its own. */
  function PatchNotification(n: Notification, p: NotificationPatch): (m: Notification)
    ensures m.id == n.id && m.createdAt == n.createdAt
    ensures p.title.Some? ==> m.title == p.title.value
    ensures p.title.None? ==> m.title == n.title
    ensures p.message.Some? ==> m.message == p.message.value
    ensures p.message.None? ==> m.message == n.message
    ensures p.targetRole.Some? ==> m.targetRole == p.targetRole.value
    ensures p.targetRole.None? ==> m.targetRole == n.targetRole
    ensures p.targetUserId.Some? ==> m.targetUserId == p.targetUserId.value
    ensures p.targetUserId.None? ==> m.targetUserId == n.targetUserId
    ensures EmptyNotificationPatch(p) ==> m == n
  {
    Notification(n.id, Pick(p.title, n.title), Pick(p.message, n.message),
                 Pick(p.targetRole, n.targetRole), Pick(p.targetUserId, n.targetUserId), n.createdAt)
  }

  class NotificationTable {
    var rows: seq<Notification>
    var nextId: nat

    ghost predicate Valid()
      reads this
    {
      0 < nextId && forall n :: n in rows ==> 0 < n.id < nextId
    }

    constructor ()
      ensures Valid() && rows == [] && nextId == 1
    {
      rows := [];
      nextId := 1;
    }

    /** `createNotification`: inserts one row and returns its fresh id. */
    method Create(payload: NewNotification, now: nat) returns (id: nat)
      requires Valid()
      modifies this
      ensures Valid()
      ensures id == old(nextId) && nextId == id + 1
      ensures forall n :: n in old(rows) ==> n.id != id
      ensures rows == old(rows) + [Created(payload, id, now)]
    {
      id := nextId;
      rows := rows + [Created(payload, id, now)];
      nextId := nextId + 1;
    }

    /** `updateNotification`: false and no write for an empty patch; otherwise the row with
        that id is patched and every other row is left alone. */
    method Update(id: nat, patch: NotificationPatch) returns (updated: bool)
      requires Valid()
      modifies this`rows
      ensures Valid()
      ensures updated <==> !EmptyNotificationPatch(patch)
      ensures !updated ==> rows == old(rows)
      ensures |rows| == |old(rows)|
      ensures forall i :: 0 <= i < |rows| ==>
                rows[i] == if old(rows)[i].id == id then PatchNotification(old(rows)[i], patch) else old(rows)[i]
    {
      if EmptyNotificationPatch(patch) {
        return false;
      }
      rows := seq(|rows|, i requires 0 <= i < |rows| reads this =>
                  if rows[i].id == id then PatchNotification(rows[i], patch) else rows[i]);
      updated := true;
    }

    /** `deleteNotification`: removes the row with that id and nothing else. */
    method Delete(id: nat)
      requires Valid()
      modifies this`rows
      ensures Valid()
      ensures forall n :: multiset(rows)[n] == if n.id == id then 0 else multiset(old(rows))[n]
    {
      var keep := (n: Notification) => n.id != id;
      ghost var before := rows;
      rows := Filter(rows, keep);
      forall n ensures multiset(rows)[n] == if n.id == id then 0 else multiset(before)[n] {
        FilterMultiset(before, keep, n);
      }
    }
  }
}
