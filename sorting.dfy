/**
 * Ordering by a real-valued key.  pandas `sort_values` is not stable, so the
 * source fixes no order among equal keys; `SortBy` is one sorted permutation,
 * and the properties the rest of the model relies on hold for every sorted
 * permutation (they are stated through `SortedBy` and `multiset`).
 */
module Sorting {

  /** `s` is ascending in `key`. */
  ghost predicate SortedBy<T>(s: seq<T>, key: T -> real) {
    forall i, j :: 0 <= i < j < |s| ==> key(s[i]) <= key(s[j])
  }

  /** Inserts `x` into an ascending sequence, after every element with a smaller key. */
  function Insert<T>(x: T, s: seq<T>, key: T -> real): (r: seq<T>)
    requires SortedBy(s, key)
    ensures SortedBy(r, key)
    ensures multiset(r) == multiset(s) + multiset{x}
    ensures |r| == |s| + 1
  {
    if s == [] then [x]
    else if key(x) <= key(s[0]) then
      assert forall k :: 0 <= k < |s| ==> key(s[0]) <= key(s[k]);
      ConsSorted(x, s, key);
      [x] + s
    else
      var rest := Insert(x, s[1..], key);
      assert s == [s[0]] + s[1..];
      LowerBound(rest, s[1..], x, key, key(s[0]));
      ConsSorted(s[0], rest, key);
      [s[0]] + rest
  }

  /** A head no larger than any element keeps an ascending sequence ascending. */
  lemma ConsSorted<T>(h: T, rest: seq<T>, key: T -> real)
    requires SortedBy(rest, key)
    requires forall k :: 0 <= k < |rest| ==> key(h) <= key(rest[k])
    ensures SortedBy([h] + rest, key)
  {
    var s := [h] + rest;
    forall i, j | 0 <= i < j < |s| ensures key(s[i]) <= key(s[j]) {
      assert s[j] == rest[j - 1];
      if i > 0 {
        assert s[i] == rest[i - 1];
      }
    }
  }

  /** A bound on the keys of `tail` and of `x` bounds the keys of any permutation of them. */
  lemma LowerBound<T>(r: seq<T>, tail: seq<T>, x: T, key: T -> real, c: real)
    requires multiset(r) == multiset(tail) + multiset{x}
    requires c <= key(x) && forall k :: 0 <= k < |tail| ==> c <= key(tail[k])
    ensures forall k :: 0 <= k < |r| ==> c <= key(r[k])
  {
    forall k | 0 <= k < |r| ensures c <= key(r[k]) {
      assert r[k] in multiset(r);
      if r[k] != x {
        assert r[k] in multiset(tail);
        var j :| 0 <= j < |tail| && tail[j] == r[k];
      }
    }
  }

  /** Ascending sort of `s` by `key`: a permutation of `s` whose keys never decrease. */
  function SortBy<T>(s: seq<T>, key: T -> real): (r: seq<T>)
    ensures SortedBy(r, key)
    ensures multiset(r) == multiset(s)
    ensures |r| == |s|
  {
    if s == [] then []
    else
      assert s == [s[0]] + s[1..];
      Insert(s[0], SortBy(s[1..], key), key)
  }

  /** In an ascending sequence, a strictly smaller key sits at a strictly smaller position. */
  lemma SmallerKeyEarlier<T>(s: seq<T>, key: T -> real, i: nat, j: nat)
    requires SortedBy(s, key)
    requires i < |s| && j < |s| && key(s[i]) < key(s[j])
    ensures i < j
  {
  }
}
