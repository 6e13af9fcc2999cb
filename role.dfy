/** The `role(...allowed)` middleware: the gate in front of every route of a role. */
module RoleGate {
  import opened Common

  /** The authenticated user the token middleware attaches, if any. */
  datatype Caller = Caller(role: Option<string>)

  /** What the gate does: answer the request itself, or pass it on to the handler. */
  datatype Gate = Refuse(reply: Reply) | Next

  /** No caller or a falsy role: 403 'Access denied'; a role outside the list: 403
      'Insufficient permissions'; otherwise the handler runs and the gate writes nothing. */
  function Check(caller: Option<Caller>, allowed: seq<string>): (g: Gate)
    ensures (caller.None? || !TruthyText(caller.value.role)) ==> g == Refuse(Reply(403, "Access denied"))
    ensures caller.Some? && TruthyText(caller.value.role) && caller.value.role.value !in allowed ==>
              g == Refuse(Reply(403, "Insufficient permissions"))
    ensures g.Next? <==> caller.Some? && TruthyText(caller.value.role) && caller.value.role.value in allowed
    ensures g.Refuse? ==> g.reply.status == 403
  {
    if caller.None? || !TruthyText(caller.value.role) then Refuse(Reply(403, "Access denied"))
    else if caller.value.role.value !in allowed then Refuse(Reply(403, "Insufficient permissions"))
    else Next
  }

  /** A gate with an empty list lets no one through. */
  lemma EmptyListRejectsAll(caller: Option<Caller>)
    ensures Check(caller, []).Refuse?
  {
  }

  /** Widening the list never turns away a caller the narrower list admitted. */
  lemma WiderListAdmitsMore(caller: Option<Caller>, allowed: seq<string>, more: seq<string>)
    requires Check(caller, allowed).Next?
    ensures Check(caller, allowed + more).Next?
  {
  }
}
