/** Values shared by every part of the model: optional values (SQL NULL and
    JavaScript `undefined`), JavaScript truthiness of request fields, the
    `{status, message}` replies the HTTP handlers send, and sequence filtering
    (the shape of every SQL `WHERE`). */
module Common {

  datatype Option<+T> = None | Some(value: T)

  /** A request field that the update mappers distinguish three ways: left out of
      the body (`undefined`, the key is dropped), sent as `null`, or given. */
  datatype Field<+T> = Absent | Null | Given(value: T)

  /** What a handler sends back: an HTTP status and the `message` of its JSON body. */
  datatype Reply = Reply(status: nat, message: string)

  /** JavaScript truthiness of a numeric id taken from a request after `Number(...)`:
      a missing value, `null`, `NaN` and `0` are all falsy. `None` stands for the
      first three. */
  predicate Truthy(id: Option<nat>) {
    id.Some? && id.value != 0
  }

  /** JavaScript truthiness of a text field: missing, `null` and `''` are falsy. */
  predicate TruthyText(s: Option<string>) {
    s.Some? && s.value != ""
  }

  /** `x || null` on an id: the value when it is truthy, SQL NULL otherwise. */
  function OrNull(id: Option<nat>): (r: Option<nat>)
    ensures r.Some? <==> Truthy(id)
    ensures r.Some? ==> r == id && r.value != 0
  {
    if Truthy(id) then id else None
  }

  /** `s || null` on a text field. */
  function TextOrNull(s: Option<string>): (r: Option<string>)
    ensures r.Some? <==> TruthyText(s)
    ensures r.Some? ==> r == s && r.value != ""
  {
    if TruthyText(s) then s else None
  }

  /** The elements of `s` that satisfy `p`, in their original order. */
  function Filter<T(!new)>(s: seq<T>, p: T -> bool): (r: seq<T>)
    ensures |r| <= |s|
    ensures forall x :: x in r <==> x in s && p(x)
    ensures forall i :: 0 <= i < |r| ==> p(r[i])
    ensures multiset(r) <= multiset(s)
  {
    if s == [] then []
    else
      var rest := Filter(s[1..], p);
      assert s == [s[0]] + s[1..];
      if p(s[0]) then [s[0]] + rest else rest
  }

  /** Filtering keeps exactly the elements that satisfy the predicate, counted
      with their multiplicity. */
  lemma {:induction false} FilterMultiset<T(!new)>(s: seq<T>, p: T -> bool, x: T)
    ensures multiset(Filter(s, p))[x] == if p(x) then multiset(s)[x] else 0
  {
    if s != [] {
      FilterMultiset(s[1..], p, x);
      var rest := Filter(s[1..], p);
      assert s == [s[0]] + s[1..];
      assert multiset(s) == multiset{s[0]} + multiset(s[1..]);
      if p(s[0]) {
        assert Filter(s, p) == [s[0]] + rest;
        assert multiset(Filter(s, p)) == multiset{s[0]} + multiset(rest);
      } else {
        assert Filter(s, p) == rest;
      }
    }
  }

  /** A filter that every element passes keeps the whole sequence. */
  lemma {:induction false} FilterAllPass<T(!new)>(s: seq<T>, p: T -> bool)
    requires forall x :: x in s ==> p(x)
    ensures Filter(s, p) == s
  {
    if s != [] {
      FilterAllPass(s[1..], p);
      assert s == [s[0]] + s[1..];
    }
  }

  /** How many elements of `s` satisfy `p`: SQL `COUNT(*) ... WHERE p` or
      JavaScript `filter(p).length`. */
  function Count<T(!new)>(s: seq<T>, p: T -> bool): (n: nat)
    ensures n <= |s|
    ensures n == |Filter(s, p)|
    ensures n == 0 <==> forall x :: x in s ==> !p(x)
  {
    if s == [] then 0
    else
      assert s == [s[0]] + s[1..];
      (if p(s[0]) then 1 else 0) + Count(s[1..], p)
  }

  /** A count under a stronger predicate never exceeds the count under a weaker one. */
  lemma {:induction false} CountMonotone<T(!new)>(s: seq<T>, p: T -> bool, q: T -> bool)
    requires forall x :: p(x) ==> q(x)
    ensures Count(s, p) <= Count(s, q)
  {
    if s != [] {
      CountMonotone(s[1..], p, q);
    }
  }

  /** Two disjoint predicates never count more together than their union does. */
  lemma {:induction false} CountDisjoint<T(!new)>(s: seq<T>, p: T -> bool, q: T -> bool)
    requires forall x :: !(p(x) && q(x))
    ensures Count(s, p) + Count(s, q) <= |s|
  {
    if s != [] {
      CountDisjoint(s[1..], p, q);
    }
  }
}
