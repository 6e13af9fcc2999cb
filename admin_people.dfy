/** The admin's student writes: `createStudent`, which inserts a user, a student and an
    optional parent link in one transaction, and `updateStudent`, whose mapper drops the
    fields the body leaves out. */
module AdminPeople {
  import opened Common
  import opened School

  datatype User = User(id: nat, roleId: nat, name: string, email: string, passwordHash: string, phone: Option<string>)

  /** A row of `student_parents`. */
  datatype ParentLink = ParentLink(parentId: nat, studentId: nat, relationship: string)

  /** The fields of a `createStudent` body. */
  datatype NewStudentBody = NewStudentBody(
    name: string, email: string, phone: Option<string>, admissionNo: string,
    classId: nat, sectionId: Option<nat>, dob: Option<string>, gender: Option<string>, address: Option<string>,
    parentId: Option<nat>, relationship: Option<string>)

  /** The statements of the transaction, in order. */
  datatype Step = InsertUser | InsertStudent | InsertLink

  /** How the database answers: every statement succeeds, or the given one raises an error
      with that message. */
  datatype DbOutcome = AllSucceed | FailsAt(step: Step, message: string)

  /** The outcome makes a statement that actually runs fail; the link is inserted only for
      a truthy parent id. */
  predicate Aborts(outcome: DbOutcome, body: NewStudentBody) {
    outcome.FailsAt? && (outcome.step != InsertLink || Truthy(body.parentId))
  }

  function NewUser(id: nat, roleId: nat, body: NewStudentBody, passwordHash: string): User {
    User(id, roleId, body.name, body.email, passwordHash, TextOrNull(body.phone))
  }

  /** The student row: a falsy section stored as NULL. */
  function NewStudent(id: nat, userId: nat, body: NewStudentBody): (s: Student)
    ensures s.sectionId.Some? <==> Truthy(body.sectionId)
    ensures s.sectionId.Some? ==> s.sectionId == body.sectionId
    ensures s.id == id && s.userId == userId && s.classId == body.classId
  {
    Student(id, userId, body.name, body.admissionNo, body.classId, OrNull(body.sectionId), body.dob, body.gender, body.address)
  }

  /** The link rows: one for a truthy parent id, with 'Parent' when no relationship is given. */
  function NewLinks(studentId: nat, body: NewStudentBody): (links: seq<ParentLink>)
    ensures |links| == (if Truthy(body.parentId) then 1 else 0)
    ensures forall l :: l in links ==> l.studentId == studentId && Some(l.parentId) == body.parentId
                                       && l.relationship != ""
  {
    if Truthy(body.parentId) then [ParentLink(body.parentId.value, studentId, if TruthyText(body.relationship) then body.relationship.value else "Parent")]
    else []
  }

  /** The columns an `UPDATE students SET ...` may assign. */
  datatype StudentPatch = StudentPatch(
    admissionNo: Option<string>, classId: Option<nat>, sectionId: Option<Option<nat>>,
    dob: Option<Option<string>>, gender: Option<Option<string>>, address: Option<Option<string>>)

  /** An `updateStudent` body: each field left out, sent as null, or given. */
  datatype StudentUpdateBody = StudentUpdateBody(
    admissionNo: Option<string>, classId: Option<nat>, sectionId: Field<nat>,
    dob: Field<string>, gender: Field<string>, address: Field<string>)

  function Column<T>(f: Field<T>): Option<Option<T>> {
    match f
    case Absent => None
    case Null => Some(None)
    case Given(x) => Some(Some(x))
  }

  /** The mapper of `updateStudent`, with its undefined keys deleted. */
  function MapStudentBody(body: StudentUpdateBody): StudentPatch {
    StudentPatch(body.admissionNo, body.classId, Column(body.sectionId), Column(body.dob),
                 Column(body.gender), Column(body.address))
  }

  predicate EmptyStudentPatch(p: StudentPatch) {
    p.admissionNo.None? && p.classId.None? && p.sectionId.None? && p.dob.None? && p.gender.None? && p.address.None?
  }

  function Pick<T>(update: Option<T>, current: T): T {
    if update.Some? then update.value else current
  }

  function PatchStudent(s: Student, p: StudentPatch): Student {
    Student(s.id, s.userId, s.name, Pick(p.admissionNo, s.admissionNo), Pick(p.classId, s.classId),
            Pick(p.sectionId, s.sectionId), Pick(p.dob, s.dob), Pick(p.gender, s.gender), Pick(p.address, s.address))
  }

  /** A field the body leaves out keeps its stored value; one sent as null is cleared; one
      given is stored. Identity and name never change. */
  lemma UpdateKeepsOmittedFields(s: Student, body: StudentUpdateBody)
    ensures var t := PatchStudent(s, MapStudentBody(body));
      && t.id == s.id && t.userId == s.userId && t.name == s.name
      && (body.admissionNo.None? ==> t.admissionNo == s.admissionNo)
      && (body.admissionNo.Some? ==> t.admissionNo == body.admissionNo.value)
      && (body.classId.None? ==> t.classId == s.classId)
      && (body.classId.Some? ==> t.classId == body.classId.value)
      && (body.sectionId.Absent? ==> t.sectionId == s.sectionId)
      && (body.sectionId.Null? ==> t.sectionId.None?)
      && (body.sectionId.Given? ==> t.sectionId == Some(body.sectionId.value))
      && (body.dob.Absent? ==> t.dob == s.dob)
      && (body.dob.Null? ==> t.dob.None?)
      && (body.dob.Given? ==> t.dob == Some(body.dob.value))
      && (body.gender.Absent? ==> t.gender == s.gender)
      && (body.gender.Null? ==> t.gender.None?)
      && (body.gender.Given? ==> t.gender == Some(body.gender.value))
      && (body.address.Absent? ==> t.address == s.address)
      && (body.address.Null? ==> t.address.None?)
      && (body.address.Given? ==> t.address == Some(body.address.value))
  {
  }

  /** A body that gives no field maps to an empty patch, which writes nothing. */
  lemma EmptyBodyEmptyPatch(body: StudentUpdateBody)
    ensures EmptyStudentPatch(MapStudentBody(body)) <==>
              body.admissionNo.None? && body.classId.None? && body.sectionId.Absent?
              && body.dob.Absent? && body.gender.Absent? && body.address.Absent?
  {
  }

  class People {
    var users: seq<User>
    var students: seq<Student>
    var links: seq<ParentLink>
    var nextUserId: nat
    var nextStudentId: nat

    constructor ()
      ensures users == [] && students == [] && links == [] && nextUserId == 1 && nextStudentId == 1
    {
      users, students, links := [], [], [];
      nextUserId, nextStudentId := 1, 1;
    }

    /** `createStudent`: inside one transaction, the user, the student and (for a truthy
        parent id) the link are inserted; an error in any of them rolls back all three
        tables and is answered by the error handler. */
    method CreateStudent(body: NewStudentBody, roleId: nat, passwordHash: string, outcome: DbOutcome)
      returns (reply: Reply, id: Option<nat>)
      modifies this
      ensures Aborts(outcome, body) ==>
                && reply == Reply(500, outcome.message) && id.None?
                && users == old(users) && students == old(students) && links == old(links)
                && nextUserId == old(nextUserId) && nextStudentId == old(nextStudentId)
      ensures !Aborts(outcome, body) ==>
                && reply.status == 201 && id == Some(old(nextStudentId))
                && users == old(users) + [NewUser(old(nextUserId), roleId, body, passwordHash)]
                && students == old(students) + [NewStudent(old(nextStudentId), old(nextUserId), body)]
                && links == old(links) + NewLinks(old(nextStudentId), body)
                && nextUserId == old(nextUserId) + 1 && nextStudentId == old(nextStudentId) + 1
    {
      ghost var u0, s0, l0 := users, students, links;
      var savedUserId, savedStudentId := nextUserId, nextStudentId;
      // BEGIN
      if outcome.FailsAt? && outcome.step == InsertUser {
        return Reply(500, outcome.message), None;
      }
      var userId := nextUserId;
      users := users + [NewUser(userId, roleId, body, passwordHash)];
      nextUserId := nextUserId + 1;
      if outcome.FailsAt? && outcome.step == InsertStudent {
        users := users[..|users| - 1];
        nextUserId := savedUserId;
        return Reply(500, outcome.message), None;
      }
      var studentId := nextStudentId;
      students := students + [NewStudent(studentId, userId, body)];
      nextStudentId := nextStudentId + 1;
      if Truthy(body.parentId) {
        if outcome.FailsAt? && outcome.step == InsertLink {
          users := users[..|users| - 1];
          students := students[..|students| - 1];
          nextUserId, nextStudentId := savedUserId, savedStudentId;
          assert users == u0 && students == s0;
          return Reply(500, outcome.message), None;
        }
        links := links + NewLinks(studentId, body);
      }
      // COMMIT
      reply, id := Reply(201, ""), Some(studentId);
    }

    /** `updateStudent` (the student columns): the mapped patch is applied to the row with
        that id; an empty one writes nothing. */
    method UpdateStudent(id: nat, body: StudentUpdateBody) returns (reply: Reply)
      modifies this`students
      ensures reply == Reply(200, "Student updated")
      ensures |students| == |old(students)|
      ensures forall i :: 0 <= i < |students| ==>
                students[i] == if old(students)[i].id == id then PatchStudent(old(students)[i], MapStudentBody(body))
                               else old(students)[i]
    {
      var patch := MapStudentBody(body);
      reply := Reply(200, "Student updated");
      if EmptyStudentPatch(patch) {
        forall i | 0 <= i < |students| ensures PatchStudent(students[i], patch) == students[i] { }
        return;
      }
      students := seq(|students|, i requires 0 <= i < |students| reads this =>
                      if students[i].id == id then PatchStudent(students[i], patch) else students[i]);
    }
  }
}
