/** Sign-in and account creation of the older `server/` backend. bcrypt and the token signer
    are parameters: `matches(password, hash)` stands for `bcrypt.compare`, `hashPassword`
    for `bcrypt.hash` and `sign` for `jwt.sign` (its seven-day expiry is not modelled). */
module LegacyAuth {
  import opened Common
  import opened Keyed
  import opened LegacySchool

  /** A row of `users`; the role is a plain text column here. */
  datatype LegacyUser = LegacyUser(id: nat, name: string, email: string, passwordHash: string, role: string)

  datatype LegacyTeacher = LegacyTeacher(id: nat, name: string, email: string)

  datatype EmailRole = EmailRole(email: string, role: string)

  function EmailRoleOf(u: LegacyUser): EmailRole {
    EmailRole(u.email, u.role)
  }

  function UserEmail(u: LegacyUser): string {
    u.email
  }

  function StudentEmail(s: LegacyStudent): string {
    s.email
  }

  function TeacherEmail(t: LegacyTeacher): string {
    t.email
  }

  /** The payload of the signed token. */
  datatype LegacyClaims = LegacyClaims(id: nat, name: string, email: string, role: string)

  datatype LegacyLogin =
    | LoginRefused(reply: Reply)
    | LoggedIn(token: string, id: nat, name: string, email: string, role: string,
               studentId: Option<nat>, teacherId: Option<nat>)

  /** `SELECT * FROM users WHERE email = ? AND role = ?`, first row. */
  function FindUser(users: seq<LegacyUser>, email: string, role: string): (r: Option<LegacyUser>)
    ensures r.Some? ==> r.value in users && r.value.email == email && r.value.role == role
    ensures r.None? <==> forall u :: u in users ==> !(u.email == email && u.role == role)
  {
    Lookup(users, EmailRoleOf, EmailRole(email, role))
  }

  /** `login`: 400 when a field is missing; 401 when no user has that email with that role
      or the password does not match; otherwise the token and the user, with the id of the
      student profile for a student and of the teacher profile for a teacher. */
  function Login(users: seq<LegacyUser>, students: seq<LegacyStudent>, teachers: seq<LegacyTeacher>,
                 email: Option<string>, password: Option<string>, role: Option<string>,
                 matches: (string, string) -> bool, sign: LegacyClaims -> string): (r: LegacyLogin)
    ensures !TruthyText(email) || !TruthyText(password) || !TruthyText(role) ==>
              r == LoginRefused(Reply(400, "Email, password and role are required"))
    ensures TruthyText(email) && TruthyText(password) && TruthyText(role) &&
            FindUser(users, email.value, role.value).None? ==>
              r == LoginRefused(Reply(401, "Invalid credentials"))
    ensures TruthyText(email) && TruthyText(password) && TruthyText(role) &&
            FindUser(users, email.value, role.value).Some? &&
            !matches(password.value, FindUser(users, email.value, role.value).value.passwordHash) ==>
              r == LoginRefused(Reply(401, "Invalid credentials"))
    ensures r.LoginRefused? ==> r.reply.status == 400 || r.reply == Reply(401, "Invalid credentials")
    ensures r.LoggedIn? ==>
              var u := FindUser(users, email.value, role.value);
              && TruthyText(email) && TruthyText(password) && TruthyText(role)
              && u.Some? && matches(password.value, u.value.passwordHash)
              && r.id == u.value.id && r.name == u.value.name && r.email == email.value && r.role == role.value
              && r.token == sign(LegacyClaims(r.id, r.name, r.email, r.role))
    ensures r.LoggedIn? ==>
              && (r.studentId.Some? <==> r.role == "student" && exists s :: s in students && s.email == r.email)
              && (r.studentId.Some? ==> r.studentId == Some(Lookup(students, StudentEmail, r.email).value.id))
              && (r.teacherId.Some? <==> r.role == "teacher" && exists t :: t in teachers && t.email == r.email)
              && (r.teacherId.Some? ==> r.teacherId == Some(Lookup(teachers, TeacherEmail, r.email).value.id))
  {
    if !TruthyText(email) || !TruthyText(password) || !TruthyText(role) then
      LoginRefused(Reply(400, "Email, password and role are required"))
    else
      var found := FindUser(users, email.value, role.value);
      if found.None? || !matches(password.value, found.value.passwordHash) then
        LoginRefused(Reply(401, "Invalid credentials"))
      else
        var u := found.value;
        var student := if u.role == "student" then Lookup(students, StudentEmail, u.email) else None;
        var teacher := if u.role == "teacher" then Lookup(teachers, TeacherEmail, u.email) else None;
        LoggedIn(sign(LegacyClaims(u.id, u.name, u.email, u.role)), u.id, u.name, u.email, u.role,
                 if student.Some? then Some(student.value.id) else None,
                 if teacher.Some? then Some(teacher.value.id) else None)
  }

  /** For a user holding that email and role, only the password decides. */
  lemma LoginPasswordDecides(users: seq<LegacyUser>, students: seq<LegacyStudent>, teachers: seq<LegacyTeacher>,
                             email: string, password: string, role: string,
                             matches: (string, string) -> bool, sign: LegacyClaims -> string)
    requires email != "" && password != "" && role != ""
    requires FindUser(users, email, role).Some?
    ensures Login(users, students, teachers, Some(email), Some(password), Some(role), matches, sign).LoggedIn?
            <==> matches(password, FindUser(users, email, role).value.passwordHash)
  {
  }

  /** At most one of the two profile ids is set, and neither for an admin or a parent. */
  lemma LoginProfileIds(users: seq<LegacyUser>, students: seq<LegacyStudent>, teachers: seq<LegacyTeacher>,
                        email: Option<string>, password: Option<string>, role: Option<string>,
                        matches: (string, string) -> bool, sign: LegacyClaims -> string)
    ensures var r := Login(users, students, teachers, email, password, role, matches, sign);
      r.LoggedIn? ==> !(r.studentId.Some? && r.teacherId.Some?)
                      && (r.role != "student" && r.role != "teacher" ==> r.studentId.None? && r.teacherId.None?)
  {
  }

  datatype CreateUserResult = CreateRefused(reply: Reply) | UserCreated(id: nat, name: string, email: string, role: string)

  const AdminName: string := "Super Admin"
  const AdminEmail: string := "admin@example.com"
  const AdminPassword: string := "admin123"

  predicate IsAdmin(u: LegacyUser) {
    u.role == "admin"
  }

  class UserStore {
    var users: seq<LegacyUser>
    var students: seq<LegacyStudent>
    var teachers: seq<LegacyTeacher>
    var nextUserId: nat
    var nextStudentId: nat
    var nextTeacherId: nat

    /** Emails are unique among users (the index behind `ER_DUP_ENTRY`), and each table's
        next id is above its ids. */
    ghost predicate Valid()
      reads this
    {
      && UniqueKeys(users, UserEmail)
      && 0 < nextUserId && (forall u :: u in users ==> 0 < u.id < nextUserId)
      && 0 < nextStudentId && (forall s :: s in students ==> 0 < s.id < nextStudentId)
      && 0 < nextTeacherId && (forall t :: t in teachers ==> 0 < t.id < nextTeacherId)
    }

    constructor ()
      ensures Valid() && users == [] && students == [] && teachers == []
      ensures nextUserId == 1 && nextStudentId == 1 && nextTeacherId == 1
    {
      users, students, teachers := [], [], [];
      nextUserId, nextStudentId, nextTeacherId := 1, 1, 1;
    }

    /** Inserts a user whose email is free. */
    method AddUser(name: string, email: string, passwordHash: string, role: string) returns (id: nat)
      requires Valid() && Lookup(users, UserEmail, email).None?
      modifies this`users, this`nextUserId
      ensures Valid()
      ensures id == old(nextUserId) && nextUserId == old(nextUserId) + 1
      ensures users == old(users) + [LegacyUser(id, name, email, passwordHash, role)]
    {
      id := nextUserId;
      forall m | 0 <= m < |users| ensures users[m].email != email {
        assert users[m] in users;
      }
      users := users + [LegacyUser(id, name, email, passwordHash, role)];
      nextUserId := nextUserId + 1;
    }

    /** `adminCreateUser`: 400 when a field is missing, 400 when the email is taken, and no
        row written in either case; otherwise the user, and a students row for a student or a
        teachers row for a teacher, and 201. */
    method AdminCreateUser(name: Option<string>, email: Option<string>, password: Option<string>,
                           role: Option<string>, hashPassword: string -> string) returns (result: CreateUserResult)
      requires Valid()
      modifies this
      ensures Valid()
      ensures !TruthyText(name) || !TruthyText(email) || !TruthyText(password) || !TruthyText(role) ==>
                result == CreateRefused(Reply(400, "All fields are required"))
      ensures TruthyText(name) && TruthyText(email) && TruthyText(password) && TruthyText(role) &&
              Lookup(old(users), UserEmail, email.value).Some? ==>
                result == CreateRefused(Reply(400, "Email already exists"))
      ensures result.CreateRefused? ==>
                && users == old(users) && students == old(students) && teachers == old(teachers)
                && nextUserId == old(nextUserId) && nextStudentId == old(nextStudentId)
                && nextTeacherId == old(nextTeacherId)
      ensures result.UserCreated? ==>
                && TruthyText(name) && TruthyText(email) && TruthyText(password) && TruthyText(role)
                && Lookup(old(users), UserEmail, email.value).None?
                && result == UserCreated(old(nextUserId), name.value, email.value, role.value)
                && users == old(users) + [LegacyUser(old(nextUserId), name.value, email.value, hashPassword(password.value), role.value)]
                && students == (if role.value == "student"
                                then old(students) + [LegacyStudent(old(nextStudentId), name.value, email.value, None, None)]
                                else old(students))
                && teachers == (if role.value == "teacher"
                                then old(teachers) + [LegacyTeacher(old(nextTeacherId), name.value, email.value)]
                                else old(teachers))
    {
      if !TruthyText(name) || !TruthyText(email) || !TruthyText(password) || !TruthyText(role) {
        return CreateRefused(Reply(400, "All fields are required"));
      }
      if Lookup(users, UserEmail, email.value).Some? {
        return CreateRefused(Reply(400, "Email already exists"));
      }
      var id := AddUser(name.value, email.value, hashPassword(password.value), role.value);
      if role.value == "student" {
        students := students + [LegacyStudent(nextStudentId, name.value, email.value, None, None)];
        nextStudentId := nextStudentId + 1;
      } else if role.value == "teacher" {
        teachers := teachers + [LegacyTeacher(nextTeacherId, name.value, email.value)];
        nextTeacherId := nextTeacherId + 1;
      }
      result := UserCreated(id, name.value, email.value, role.value);
    }

    /** `ensureAdmin`: with no admin user, the default admin is inserted, unless its email is
        already taken (the insert then fails and nothing changes); with an admin, nothing
        changes. */
    method EnsureAdmin(hashPassword: string -> string)
      requires Valid()
      modifies this`users, this`nextUserId
      ensures Valid()
      ensures Count(old(users), IsAdmin) > 0 || Lookup(old(users), UserEmail, AdminEmail).Some? ==>
                users == old(users) && nextUserId == old(nextUserId)
      ensures Count(old(users), IsAdmin) == 0 && Lookup(old(users), UserEmail, AdminEmail).None? ==>
                && users == old(users) + [LegacyUser(old(nextUserId), AdminName, AdminEmail, hashPassword(AdminPassword), "admin")]
                && nextUserId == old(nextUserId) + 1
      ensures Count(users, IsAdmin) > 0 || Lookup(users, UserEmail, AdminEmail).Some?
    {
      if Count(users, IsAdmin) != 0 {
        return;
      }
      if Lookup(users, UserEmail, AdminEmail).Some? {
        return;
      }
      var id := AddUser(AdminName, AdminEmail, hashPassword(AdminPassword), "admin");
      assert users[|users| - 1] in users;
    }
  }

  /** The seeded row is one more admin, so a second `ensureAdmin` finds one and does nothing. */
  lemma SeedAddsOneAdmin(users: seq<LegacyUser>, id: nat, hash: string)
    ensures Count(users + [LegacyUser(id, AdminName, AdminEmail, hash, "admin")], IsAdmin) == Count(users, IsAdmin) + 1
  {
    CountAppend(users, LegacyUser(id, AdminName, AdminEmail, hash, "admin"), IsAdmin);
  }

  /** Counting over a sequence with one more element. */
  lemma {:induction false} CountAppend<T(!new)>(s: seq<T>, x: T, p: T -> bool)
    ensures Count(s + [x], p) == Count(s, p) + if p(x) then 1 else 0
  {
    if s != [] {
      CountAppend(s[1..], x, p);
      assert (s + [x])[1..] == s[1..] + [x];
    }
  }
}
