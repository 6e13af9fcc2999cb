/** The rows of the tables the core reads but does not own: students (joined with
    their user's name, as every query that lists them does) and teachers. */
module School {
  import opened Common
  import opened Sorting

  datatype Student = Student(
    id: nat,
    userId: nat,
    name: string,            // `users.name` of the student's account
    admissionNo: string,
    classId: nat,
    sectionId: Option<nat>,
    dob: Option<string>,
    gender: Option<string>,
    address: Option<string>)

  /** A row of `teachers`: the teacher profile of a user account. */
  datatype Teacher = Teacher(id: nat, userId: nat)

  /** `ORDER BY u.name`. */
  predicate NameLe(a: Student, b: Student) {
    LexLe(a.name, b.name)
  }

  lemma NameLeTotal()
    ensures TotalPreorder(NameLe)
  {
    forall a: Student, b: Student ensures NameLe(a, b) || NameLe(b, a) {
      LexLeTotal(a.name, b.name);
    }
    forall a: Student, b: Student, c: Student | NameLe(a, b) && NameLe(b, c) ensures NameLe(a, c) {
      LexLeTransitive(a.name, b.name, c.name);
    }
  }
}
