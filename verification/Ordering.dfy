/** Rows listed by a number each carries, ties going to the lower id: what the queries and the
    stable sorts of the application answer. */
module Ordering {
  type Keys = map<nat, int>

  predicate Before(keys: Keys, a: nat, b: nat)
    requires a in keys && b in keys
  {
    keys[a] < keys[b] || (keys[a] == keys[b] && a < b)
  }

  ghost predicate Sorted(keys: Keys, ids: seq<nat>) {
    && (forall k :: 0 <= k < |ids| ==> ids[k] in keys)
    && (forall j, k :: 0 <= j < k < |ids| ==> Before(keys, ids[j], ids[k]))
  }

  ghost predicate Distinct<T>(ids: seq<T>) {
    forall j, k :: 0 <= j < k < |ids| ==> ids[j] != ids[k]
  }

  ghost predicate Permuted(a: seq<nat>, b: seq<nat>) {
    |a| == |b| && Distinct(a) && forall x :: x in a <==> x in b
  }

  function IndexOf<T(==)>(ids: seq<T>, x: T): (k: nat)
    requires x in ids
    ensures k < |ids| && ids[k] == x && x !in ids[..k]
  {
    if ids[0] == x then 0 else 1 + IndexOf(ids[1..], x)
  }

  function Insert(keys: Keys, ids: seq<nat>, x: nat): seq<nat>
    requires x in keys && forall k :: 0 <= k < |ids| ==> ids[k] in keys
  {
    if ids == [] then [x]
    else if Before(keys, x, ids[0]) then [x] + ids
    else [ids[0]] + Insert(keys, ids[1..], x)
  }

  lemma {:induction false} InsertAdds(keys: Keys, ids: seq<nat>, x: nat)
    requires x in keys && forall k :: 0 <= k < |ids| ==> ids[k] in keys
    ensures |Insert(keys, ids, x)| == |ids| + 1
    ensures forall y :: y in Insert(keys, ids, x) <==> y == x || y in ids
  {
    if ids != [] && !Before(keys, x, ids[0]) { InsertAdds(keys, ids[1..], x); }
  }

  lemma {:induction false} InsertHolds(keys: Keys, ids: seq<nat>, x: nat)
    requires Sorted(keys, ids) && x in keys && x !in ids
    ensures Sorted(keys, Insert(keys, ids, x))
  {
    if ids != [] && !Before(keys, x, ids[0]) {
      InsertHolds(keys, ids[1..], x);
      InsertAdds(keys, ids[1..], x);
      FirstStaysFirst(keys, ids, Insert(keys, ids[1..], x), x);
    }
  }

  lemma FirstStaysFirst(keys: Keys, ids: seq<nat>, rest: seq<nat>, x: nat)
    requires Sorted(keys, ids) && ids != [] && x in keys && x != ids[0] && !Before(keys, x, ids[0])
    requires Sorted(keys, rest) && forall y :: y in rest <==> y == x || y in ids[1..]
    ensures Sorted(keys, [ids[0]] + rest)
  {
    forall k | 0 <= k < |rest| ensures Before(keys, ids[0], rest[k]) {
      assert rest[k] in rest;
    }
  }

  function Sort(keys: Keys, ids: seq<nat>): (r: seq<nat>)
    requires Distinct(ids) && forall k :: 0 <= k < |ids| ==> ids[k] in keys
    ensures |r| == |ids| && Sorted(keys, r)
    ensures forall x :: x in r <==> x in ids
  {
    if ids == [] then []
    else
      var n := |ids| - 1;
      var rest := Sort(keys, ids[..n]);
      InsertHolds(keys, rest, ids[n]);
      InsertAdds(keys, rest, ids[n]);
      Insert(keys, rest, ids[n])
  }

  lemma SortedIsDistinct(keys: Keys, ids: seq<nat>)
    requires Sorted(keys, ids)
    ensures Distinct(ids)
  {
    forall j, k | 0 <= j < k < |ids| ensures ids[j] != ids[k] { assert Before(keys, ids[j], ids[k]); }
  }

  /** There is one sorted list of the same rows. */
  lemma {:induction false} SortedIsUnique(keys: Keys, a: seq<nat>, b: seq<nat>)
    requires Sorted(keys, a) && Sorted(keys, b) && forall x :: x in a <==> x in b
    ensures a == b
  {
    assert b == [] || b[0] in b;
    if a != [] {
      assert a[0] in b && b[0] in a;
      FirstIsLeast(keys, a, b[0]);
      FirstIsLeast(keys, b, a[0]);
      forall x ensures x in a[1..] <==> x in b[1..] {
        TailIs(keys, a, x);
        TailIs(keys, b, x);
      }
      SortedIsUnique(keys, a[1..], b[1..]);
    }
  }

  lemma FirstIsLeast(keys: Keys, ids: seq<nat>, x: nat)
    requires Sorted(keys, ids) && x in ids
    ensures x in keys && (ids[0] == x || Before(keys, ids[0], x))
  {
  }

  lemma TailIs(keys: Keys, ids: seq<nat>, x: nat)
    requires Sorted(keys, ids) && ids != []
    ensures x in ids[1..] <==> x in ids && x != ids[0]
  {
    if x in ids[1..] {
      var k :| 0 <= k < |ids[1..]| && ids[1..][k] == x;
      assert Before(keys, ids[0], ids[k + 1]);
    }
  }
}
