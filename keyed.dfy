/** A table with a unique key, written through MySQL's
    `INSERT ... VALUES ? ON DUPLICATE KEY UPDATE`: each row of the batch is
    inserted, or replaces the stored row with the same key, in batch order. */
module Keyed {
  import opened Common

  /** No two rows share a key (the table's UNIQUE index). */
  predicate UniqueKeys<R, K(==)>(rows: seq<R>, key: R -> K) {
    forall i, j :: 0 <= i < j < |rows| ==> key(rows[i]) != key(rows[j])
  }

  /** The position of the first row whose key is `k`, or -1. */
  function IndexOf<R, K(==)>(rows: seq<R>, key: R -> K, k: K): (i: int)
    ensures -1 <= i < |rows|
    ensures 0 <= i ==> key(rows[i]) == k && forall j :: 0 <= j < i ==> key(rows[j]) != k
    ensures i == -1 ==> forall j :: 0 <= j < |rows| ==> key(rows[j]) != k
  {
    if rows == [] then -1
    else if key(rows[0]) == k then 0
    else
      var i := IndexOf(rows[1..], key, k);
      if i < 0 then -1 else i + 1
  }

  /** The stored row with key `k` (the first one, should there be several). */
  function Lookup<R, K(==)>(rows: seq<R>, key: R -> K, k: K): (r: Option<R>)
    ensures r.Some? ==> r.value in rows && key(r.value) == k
    ensures r.None? ==> forall x :: x in rows ==> key(x) != k
  {
    var i := IndexOf(rows, key, k);
    if i < 0 then None else Some(rows[i])
  }

  /** One row of the batch: insert it, or overwrite the row holding its key. */
  function Upsert<R, K(==)>(rows: seq<R>, r: R, key: R -> K): (out: seq<R>)
  {
    var i := IndexOf(rows, key, key(r));
    if i < 0 then rows + [r] else rows[i := r]
  }

  /** The whole batch, row by row in batch order. */
  function UpsertAll<R, K(==)>(rows: seq<R>, batch: seq<R>, key: R -> K): (out: seq<R>)
    decreases |batch|
  {
    if batch == [] then rows
    else UpsertAll(Upsert(rows, batch[0], key), batch[1..], key)
  }

  /** The last record of the batch whose key is `k`, if any. */
  function LastWith<R, K(==)>(batch: seq<R>, key: R -> K, k: K): (r: Option<R>)
    ensures r.Some? ==> r.value in batch && key(r.value) == k
    ensures r.None? <==> forall x :: x in batch ==> key(x) != k
  {
    if batch == [] then None
    else
      var later := LastWith(batch[1..], key, k);
      if later.Some? then later
      else if key(batch[0]) == k then Some(batch[0])
      else None
  }

  /** Upserting one row keeps the keys unique. */
  lemma UpsertUnique<R, K>(rows: seq<R>, r: R, key: R -> K)
    requires UniqueKeys(rows, key)
    ensures UniqueKeys(Upsert(rows, r, key), key)
  {
  }

  /** After one upsert, the key of `r` holds `r` and every other key is read as before. */
  lemma UpsertLookup<R, K>(rows: seq<R>, r: R, key: R -> K, k: K)
    ensures Lookup(Upsert(rows, r, key), key, k) == if key(r) == k then Some(r) else Lookup(rows, key, k)
  {
    var i := IndexOf(rows, key, key(r));
    var out := Upsert(rows, r, key);
    var j := IndexOf(out, key, k);
    var j0 := IndexOf(rows, key, k);
    if key(r) == k {
      if i < 0 {
        assert out[|rows|] == r;
        assert j == |rows|;
      } else {
        assert forall m :: 0 <= m < i ==> out[m] == rows[m];
        assert out[i] == r;
        assert j == i;
      }
    } else {
      if i < 0 {
        assert forall m :: 0 <= m < |rows| ==> out[m] == rows[m];
        if j0 < 0 {
          assert j < 0;
        } else {
          assert j == j0;
        }
      } else {
        assert forall m :: 0 <= m < |rows| && m != i ==> out[m] == rows[m];
        if j0 < 0 {
          assert j < 0;
        } else {
          assert j == j0;
        }
      }
    }
  }

  /** Upserting `r` leaves the rows under every other key as they were. */
  lemma UpsertOthers<R, K>(rows: seq<R>, r: R, key: R -> K, x: R)
    requires key(x) != key(r)
    ensures x in Upsert(rows, r, key) <==> x in rows
  {
    var i := IndexOf(rows, key, key(r));
    var out := Upsert(rows, r, key);
    if i >= 0 {
      if x in rows {
        var m :| 0 <= m < |rows| && rows[m] == x;
        assert m != i;
        assert out[m] == x;
      }
      if x in out {
        var m :| 0 <= m < |out| && out[m] == x;
        assert m != i;
        assert rows[m] == x;
      }
    }
  }

  /** A batch upsert keeps the table's keys unique. */
  lemma {:induction false} UpsertAllUnique<R, K>(rows: seq<R>, batch: seq<R>, key: R -> K)
    requires UniqueKeys(rows, key)
    ensures UniqueKeys(UpsertAll(rows, batch, key), key)
    decreases |batch|
  {
    if batch != [] {
      UpsertUnique(rows, batch[0], key);
      UpsertAllUnique(Upsert(rows, batch[0], key), batch[1..], key);
    }
  }

  /** After a batch upsert, every key of the batch holds the last batch record with
      that key; every other key is read as before. */
  lemma {:induction false} UpsertAllLookup<R, K>(rows: seq<R>, batch: seq<R>, key: R -> K, k: K)
    ensures Lookup(UpsertAll(rows, batch, key), key, k)
         == if LastWith(batch, key, k).Some? then LastWith(batch, key, k) else Lookup(rows, key, k)
    decreases |batch|
  {
    if batch != [] {
      UpsertAllLookup(Upsert(rows, batch[0], key), batch[1..], key, k);
      UpsertLookup(rows, batch[0], key, k);
    }
  }

  /** A batch upsert leaves every row whose key the batch does not mention where it was,
      and adds no row under such a key. */
  lemma {:induction false} UpsertAllOthers<R, K>(rows: seq<R>, batch: seq<R>, key: R -> K, x: R)
    requires forall b :: b in batch ==> key(b) != key(x)
    ensures x in UpsertAll(rows, batch, key) <==> x in rows
    decreases |batch|
  {
    if batch != [] {
      assert batch[0] in batch;
      UpsertOthers(rows, batch[0], key, x);
      UpsertAllOthers(Upsert(rows, batch[0], key), batch[1..], key, x);
    }
  }

  /** In a table with unique keys, a row is stored exactly when the lookup of its key finds it. */
  lemma UniqueLookup<R, K>(rows: seq<R>, key: R -> K, x: R)
    requires UniqueKeys(rows, key)
    ensures x in rows <==> Lookup(rows, key, key(x)) == Some(x)
  {
    if x in rows {
      var m :| 0 <= m < |rows| && rows[m] == x;
      var i := IndexOf(rows, key, key(x));
      assert i == m;
    }
  }

  /** Appending a row whose key the table does not hold makes the lookup of that key find it,
      and leaves the lookup of every other key unchanged. */
  lemma {:induction false} LookupAppend<R, K>(rows: seq<R>, key: R -> K, x: R, k: K)
    requires Lookup(rows, key, key(x)).None?
    ensures Lookup(rows + [x], key, k) == if k == key(x) then Some(x) else Lookup(rows, key, k)
  {
    var out := rows + [x];
    assert forall m :: 0 <= m < |rows| ==> out[m] == rows[m];
    var i := IndexOf(rows, key, k);
    var j := IndexOf(out, key, k);
    if k == key(x) {
      assert out[|rows|] == x;
      assert j == |rows|;
    } else if i < 0 {
      assert j < 0;
    } else {
      assert j == i;
    }
  }

  /** Every row after a batch upsert was either stored before or sent in the batch. */
  lemma {:induction false} UpsertAllFrom<R, K>(rows: seq<R>, batch: seq<R>, key: R -> K, x: R)
    requires x in UpsertAll(rows, batch, key)
    ensures x in rows || x in batch
    decreases |batch|
  {
    if batch != [] {
      var next := Upsert(rows, batch[0], key);
      UpsertAllFrom(next, batch[1..], key, x);
      if x in next && x != batch[0] {
        var i := IndexOf(rows, key, key(batch[0]));
        var m :| 0 <= m < |next| && next[m] == x;
        assert rows[m] == x;
      }
    }
  }

  /** The last element of a sequence with a given key is what `LastWith` finds. */
  lemma {:induction false} LastWithIsLast<R, K>(batch: seq<R>, key: R -> K, i: nat)
    requires i < |batch|
    requires forall j :: i < j < |batch| ==> key(batch[j]) != key(batch[i])
    ensures LastWith(batch, key, key(batch[i])) == Some(batch[i])
  {
    if i == 0 {
      var later := LastWith(batch[1..], key, key(batch[0]));
      assert forall x :: x in batch[1..] ==> key(x) != key(batch[0]) by {
        forall x | x in batch[1..] ensures key(x) != key(batch[0]) {
          var j :| 0 <= j < |batch[1..]| && batch[1..][j] == x;
          assert batch[j + 1] == x;
        }
      }
      assert later.None?;
    } else {
      LastWithIsLast(batch[1..], key, i - 1);
    }
  }

  /** What `LastWith` finds sits at a position after which no element has that key. */
  lemma {:induction false} LastWithPosition<R, K>(batch: seq<R>, key: R -> K, k: K)
    ensures LastWith(batch, key, k).Some? ==>
              exists i :: 0 <= i < |batch| && batch[i] == LastWith(batch, key, k).value && key(batch[i]) == k
                          && forall j :: i < j < |batch| ==> key(batch[j]) != k
  {
    if batch != [] {
      var later := LastWith(batch[1..], key, k);
      LastWithPosition(batch[1..], key, k);
      if later.Some? {
        var i :| 0 <= i < |batch[1..]| && batch[1..][i] == later.value && key(batch[1..][i]) == k
                 && forall j :: i < j < |batch[1..]| ==> key(batch[1..][j]) != k;
        assert batch[i + 1] == later.value;
        assert forall j :: i + 1 < j < |batch| ==> key(batch[j]) != k by {
          forall j | i + 1 < j < |batch| ensures key(batch[j]) != k {
            assert batch[j] == batch[1..][j - 1];
          }
        }
      } else {
        assert forall j :: 0 < j < |batch| ==> key(batch[j]) != k by {
          forall j | 0 < j < |batch| ensures key(batch[j]) != k {
            assert batch[j] in batch[1..];
          }
        }
      }
    }
  }

  /** An element that occurs twice is counted twice, and the other way round. */
  lemma {:induction false} TwiceCounted<R>(s: seq<R>, x: R)
    ensures multiset(s)[x] >= 2 <==> exists p, q :: 0 <= p < q < |s| && s[p] == x && s[q] == x
  {
    if s != [] {
      TwiceCounted(s[1..], x);
      assert s == [s[0]] + s[1..];
      if exists p, q :: 0 <= p < q < |s| && s[p] == x && s[q] == x {
        var p, q :| 0 <= p < q < |s| && s[p] == x && s[q] == x;
        if p == 0 {
          assert s[1..][q - 1] == x;
        } else {
          assert s[1..][p - 1] == x && s[1..][q - 1] == x;
        }
      }
      if multiset(s)[x] >= 2 {
        if s[0] == x {
          assert x in multiset(s[1..]);
          var q :| 0 <= q < |s[1..]| && s[1..][q] == x;
          assert s[q + 1] == x;
        } else {
          var p, q :| 0 <= p < q < |s[1..]| && s[1..][p] == x && s[1..][q] == x;
          assert s[p + 1] == x && s[q + 1] == x;
        }
      }
    }
  }

  /** Reordering a table whose keys are unique keeps them unique. */
  lemma PermutationKeepsUniqueKeys<R, K>(a: seq<R>, b: seq<R>, key: R -> K)
    requires UniqueKeys(a, key) && multiset(a) == multiset(b)
    ensures UniqueKeys(b, key)
  {
    forall i, j | 0 <= i < j < |b| ensures key(b[i]) != key(b[j]) {
      assert b[i] in multiset(a) && b[j] in multiset(a);
      var p :| 0 <= p < |a| && a[p] == b[i];
      var q :| 0 <= q < |a| && a[q] == b[j];
      if key(b[i]) == key(b[j]) {
        assert p == q;
        TwiceCounted(b, b[i]);
        TwiceCounted(a, b[i]);
      }
    }
  }

  /** Dropping rows keeps the remaining keys unique. */
  lemma {:induction false} FilterKeepsUniqueKeys<R(!new), K>(rows: seq<R>, p: R -> bool, key: R -> K)
    requires UniqueKeys(rows, key)
    ensures UniqueKeys(Filter(rows, p), key)
  {
    if rows != [] {
      FilterKeepsUniqueKeys(rows[1..], p, key);
      var rest := Filter(rows[1..], p);
      forall x | x in rest ensures key(x) != key(rows[0]) {
        var j :| 0 <= j < |rows[1..]| && rows[1..][j] == x;
        assert rows[j + 1] == x;
      }
    }
  }
}
