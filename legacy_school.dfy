/** The `students` table of the older `server/` backend: a profile row with its own name,
    email and roll number, and an optional class. */
module LegacySchool {
  import opened Common
  import opened Keyed
  import opened Sorting

  datatype LegacyStudent = LegacyStudent(id: nat, name: string, email: string, rollNumber: Option<string>, classId: Option<nat>)

  /** `ORDER BY s.name`. */
  predicate ByName(a: LegacyStudent, b: LegacyStudent) {
    LexLe(a.name, b.name)
  }

  lemma ByNameTotal()
    ensures TotalPreorder(ByName)
  {
    forall a: LegacyStudent, b: LegacyStudent ensures ByName(a, b) || ByName(b, a) {
      LexLeTotal(a.name, b.name);
    }
    forall a: LegacyStudent, b: LegacyStudent, c: LegacyStudent | ByName(a, b) && ByName(b, c) ensures ByName(a, c) {
      LexLeTransitive(a.name, b.name, c.name);
    }
  }

  predicate InClass(s: LegacyStudent, classId: nat) {
    s.classId == Some(classId)
  }

  /** `FROM students s WHERE s.class_id = ? ORDER BY s.name`. */
  function ClassRoster(students: seq<LegacyStudent>, classId: nat): (r: seq<LegacyStudent>)
    ensures forall s :: multiset(r)[s] == if InClass(s, classId) then multiset(students)[s] else 0
    ensures forall s :: s in r <==> s in students && InClass(s, classId)
    ensures SortedBy(r, ByName)
  {
    ByNameTotal();
    SortedFilter(students, (s: LegacyStudent) => InClass(s, classId), ByName)
  }

  function StudentId(s: LegacyStudent): nat {
    s.id
  }

  /** With distinct student ids, the roster lists each id once. */
  lemma ClassRosterUniqueIds(students: seq<LegacyStudent>, classId: nat)
    requires UniqueKeys(students, StudentId)
    ensures UniqueKeys(ClassRoster(students, classId), StudentId)
  {
    var keep := (s: LegacyStudent) => InClass(s, classId);
    var picked := Filter(students, keep);
    forall s ensures multiset(picked)[s] == multiset(ClassRoster(students, classId))[s] {
      FilterMultiset(students, keep, s);
    }
    assert multiset(picked) == multiset(ClassRoster(students, classId));
    FilterKeepsUniqueKeys(students, keep, StudentId);
    PermutationKeepsUniqueKeys(picked, ClassRoster(students, classId), StudentId);
  }
}
