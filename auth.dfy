/** Sign-in and password reset of the main backend. bcrypt, SHA-256, the token signer,
    the random token and the clock are parameters: `matches(password, hash)` stands for
    `bcrypt.compare`, `hashPassword` for `bcrypt.hash`, `sha` for the SHA-256 hex digest,
    `sign` for the JWT signer, and `now` is in seconds. */
module Auth {
  import opened Common
  import opened Keyed

  /** A `users` row joined with its role's name. */
  datatype Account = Account(id: nat, name: string, email: string, roleName: string, status: string, passwordHash: string)

  /** The payload of the signed token. */
  datatype Claims = Claims(id: nat, role: string, name: string)

  /** The `user` object of a successful sign-in. */
  datatype PublicUser = PublicUser(id: nat, name: string, email: string, role: string)

  datatype LoginResult = Denied(reply: Reply) | Granted(token: string, user: PublicUser)

  /** `findByEmail`: the first account with that email. */
  function FindByEmail(accounts: seq<Account>, email: string): (r: Option<Account>)
    ensures r.Some? ==> r.value in accounts && r.value.email == email
    ensures r.None? ==> forall a :: a in accounts ==> a.email != email
  {
    Lookup(accounts, (a: Account) => a.email, email)
  }

  /** `login`: unknown email 401, a given role that differs 403, an inactive account 403,
      a wrong password 401; otherwise a token and the user, carrying the same identity. */
  function Login(accounts: seq<Account>, email: string, password: string, role: Option<string>,
                 matches: (string, string) -> bool, sign: Claims -> string): (r: LoginResult)
    ensures FindByEmail(accounts, email).None? ==> r == Denied(Reply(401, "Invalid credentials"))
    ensures var a := FindByEmail(accounts, email);
      a.Some? && TruthyText(role) && a.value.roleName != role.value ==> r == Denied(Reply(403, "Role mismatch"))
    ensures !TruthyText(role) ==> r != Denied(Reply(403, "Role mismatch"))
    ensures var a := FindByEmail(accounts, email);
      a.Some? && (TruthyText(role) ==> a.value.roleName == role.value) && a.value.status != "active" ==>
        r == Denied(Reply(403, "Account inactive"))
    ensures var a := FindByEmail(accounts, email);
      a.Some? && (TruthyText(role) ==> a.value.roleName == role.value) && a.value.status == "active"
      && !matches(password, a.value.passwordHash) ==>
        r == Denied(Reply(401, "Invalid credentials"))
    ensures r.Granted? ==>
              var a := FindByEmail(accounts, email);
              && a.Some? && a.value.status == "active" && matches(password, a.value.passwordHash)
              && (TruthyText(role) ==> a.value.roleName == role.value)
              && r.user == PublicUser(a.value.id, a.value.name, a.value.email, a.value.roleName)
              && r.token == sign(Claims(r.user.id, r.user.role, r.user.name))
    ensures r.Denied? ==> r.reply.status == 401 || r.reply.status == 403
  {
    var found := FindByEmail(accounts, email);
    if found.None? then Denied(Reply(401, "Invalid credentials"))
    else
      var a := found.value;
      if TruthyText(role) && a.roleName != role.value then Denied(Reply(403, "Role mismatch"))
      else if a.status != "active" then Denied(Reply(403, "Account inactive"))
      else if !matches(password, a.passwordHash) then Denied(Reply(401, "Invalid credentials"))
      else Granted(sign(Claims(a.id, a.roleName, a.name)), PublicUser(a.id, a.name, a.email, a.roleName))
  }

  /** The checks run in order: for an existing, active account of the right role, only the
      password decides. */
  lemma LoginPasswordDecides(accounts: seq<Account>, email: string, password: string, role: Option<string>,
                             matches: (string, string) -> bool, sign: Claims -> string)
    requires var a := FindByEmail(accounts, email);
      a.Some? && a.value.status == "active" && (TruthyText(role) ==> a.value.roleName == role.value)
    ensures Login(accounts, email, password, role, matches, sign).Granted?
            <==> matches(password, FindByEmail(accounts, email).value.passwordHash)
  {
  }

  /** A row of `password_resets`. */
  datatype ResetRow = ResetRow(id: nat, userId: nat, tokenHash: string, expiresAt: nat, usedAt: Option<nat>)

  /** The WHERE clause of the reset lookup. */
  predicate Usable(r: ResetRow, userId: nat, tokenHash: string, now: nat) {
    r.userId == userId && r.tokenHash == tokenHash && r.usedAt.None? && r.expiresAt > now
  }

  /** `ORDER BY id DESC LIMIT 1` over the usable rows: the one with the greatest id. */
  function NewestUsable(resets: seq<ResetRow>, userId: nat, tokenHash: string, now: nat): (r: Option<ResetRow>)
    ensures r.Some? ==> r.value in resets && Usable(r.value, userId, tokenHash, now)
    ensures r.Some? ==> forall x :: x in resets && Usable(x, userId, tokenHash, now) ==> x.id <= r.value.id
    ensures r.None? <==> forall x :: x in resets ==> !Usable(x, userId, tokenHash, now)
  {
    if resets == [] then None
    else
      var rest := NewestUsable(resets[1..], userId, tokenHash, now);
      assert resets == [resets[0]] + resets[1..];
      if !Usable(resets[0], userId, tokenHash, now) then rest
      else if rest.Some? && rest.value.id > resets[0].id then rest
      else Some(resets[0])
  }

  /** `UPDATE password_resets SET used_at = NOW() WHERE id = ?`. */
  function Consume(resets: seq<ResetRow>, id: nat, now: nat): (out: seq<ResetRow>)
    ensures |out| == |resets|
    ensures forall i :: 0 <= i < |resets| ==>
              out[i] == if resets[i].id == id then resets[i].(usedAt := Some(now)) else resets[i]
  {
    seq(|resets|, i requires 0 <= i < |resets| => if resets[i].id == id then resets[i].(usedAt := Some(now)) else resets[i])
  }

  /** Once consumed, a reset row is never usable again, at any later time. */
  lemma ConsumedNotUsable(resets: seq<ResetRow>, id: nat, now: nat, userId: nat, tokenHash: string, later: nat)
    ensures forall x :: x in Consume(resets, id, now) && x.id == id ==> !Usable(x, userId, tokenHash, later)
  {
  }

  /** When one usable row answers the token, a successful reset leaves none: the same
      token cannot succeed twice. */
  lemma SingleUse(resets: seq<ResetRow>, userId: nat, tokenHash: string, now: nat, later: nat)
    requires NewestUsable(resets, userId, tokenHash, now).Some?
    requires forall x, y ::
               (x in resets && y in resets && Usable(x, userId, tokenHash, now) && Usable(y, userId, tokenHash, now)) ==>
               x.id == y.id
    requires later >= now
    ensures NewestUsable(Consume(resets, NewestUsable(resets, userId, tokenHash, now).value.id, now), userId, tokenHash, later).None?
  {
    var k := NewestUsable(resets, userId, tokenHash, now).value.id;
    var out := Consume(resets, k, now);
    forall x | x in out ensures !Usable(x, userId, tokenHash, later) {
      var i :| 0 <= i < |out| && out[i] == x;
      assert resets[i] in resets;
    }
  }

  const ResetSent: string := "If account exists, reset link sent"

  class AuthStore {
    var accounts: seq<Account>
    var resets: seq<ResetRow>
    var nextResetId: nat

    ghost predicate Valid()
      reads this
    {
      0 < nextResetId && forall r :: r in resets ==> 0 < r.id < nextResetId
    }

    constructor (accounts: seq<Account>)
      ensures Valid() && this.accounts == accounts && resets == [] && nextResetId == 1
    {
      this.accounts := accounts;
      resets := [];
      nextResetId := 1;
    }

    /** `forgotPassword`: the same answer whether or not the email is known; for a known one,
        a reset row holding only the token's digest, valid for one hour. */
    method ForgotPassword(email: string, token: string, sha: string -> string, now: nat) returns (reply: Reply)
      requires Valid()
      modifies this
      ensures Valid() && accounts == old(accounts)
      ensures reply == Reply(200, ResetSent)
      ensures var a := FindByEmail(accounts, email);
        if a.None? then resets == old(resets) && nextResetId == old(nextResetId)
        else resets == old(resets) + [ResetRow(old(nextResetId), a.value.id, sha(token), now + 3600, None)]
             && nextResetId == old(nextResetId) + 1
    {
      var found := FindByEmail(accounts, email);
      if found.None? {
        return Reply(200, ResetSent);
      }
      resets := resets + [ResetRow(nextResetId, found.value.id, sha(token), now + 60 * 60, None)];
      nextResetId := nextResetId + 1;
      reply := Reply(200, ResetSent);
    }

    /** `resetPassword`: for a known email and a usable row of that user matching the token's
        digest, the newest such row is consumed and the password replaced; otherwise 400 and
        nothing changes. */
    method ResetPassword(token: string, email: string, password: string, sha: string -> string,
                         hashPassword: string -> string, now: nat) returns (reply: Reply)
      requires Valid()
      modifies this
      ensures Valid() && nextResetId == old(nextResetId)
      ensures var a := FindByEmail(old(accounts), email);
        if a.None? then
          reply == Reply(400, "Invalid token") && accounts == old(accounts) && resets == old(resets)
        else if NewestUsable(old(resets), a.value.id, sha(token), now).None? then
          reply == Reply(400, "Invalid or expired token") && accounts == old(accounts) && resets == old(resets)
        else
          reply == Reply(200, "Password updated")
          && resets == Consume(old(resets), NewestUsable(old(resets), a.value.id, sha(token), now).value.id, now)
          && |accounts| == |old(accounts)|
          && forall i :: 0 <= i < |accounts| ==>
               accounts[i] == if old(accounts)[i].id == a.value.id
                              then old(accounts)[i].(passwordHash := hashPassword(password)) else old(accounts)[i]
    {
      var found := FindByEmail(accounts, email);
      if found.None? {
        return Reply(400, "Invalid token");
      }
      var user := found.value;
      var row := NewestUsable(resets, user.id, sha(token), now);
      if row.None? {
        return Reply(400, "Invalid or expired token");
      }
      var newHash := hashPassword(password);
      accounts := seq(|accounts|, i requires 0 <= i < |accounts| reads this =>
                      if accounts[i].id == user.id then accounts[i].(passwordHash := newHash) else accounts[i]);
      resets := Consume(resets, row.value.id, now);
      reply := Reply(200, "Password updated");
    }
  }
}
