/** Counting the entries of a sequence that satisfy a test, and mapping a sequence entry by entry. */
module Counting {

  function Count<T>(s: seq<T>, p: T -> bool): (r: nat)
    ensures r <= |s|
  {
    if s == [] then 0 else (if p(s[0]) then 1 else 0) + Count(s[1..], p)
  }

  lemma {:induction false} CountConcat<T>(a: seq<T>, b: seq<T>, p: T -> bool)
    ensures Count(a + b, p) == Count(a, p) + Count(b, p)
  {
    if a == [] {
      assert a + b == b;
    } else {
      assert (a + b)[0] == a[0];
      assert (a + b)[1..] == a[1..] + b;
      CountConcat(a[1..], b, p);
    }
  }

  /** Removing the entry at position k lowers the count by that entry's contribution. */
  lemma CountRemoveAt<T>(s: seq<T>, k: nat, p: T -> bool)
    requires k < |s|
    ensures Count(s, p) == Count(s[..k] + s[k + 1..], p) + (if p(s[k]) then 1 else 0)
  {
    assert s == s[..k] + s[k..];
    assert s[k..][0] == s[k] && s[k..][1..] == s[k + 1..];
    CountConcat(s[..k], s[k..], p);
    CountConcat(s[..k], s[k + 1..], p);
  }

  /** Taking a[0] out of a permutation b of a, wherever it sits in b, leaves a permutation of a[1..]. */
  lemma RemoveMatching<T>(a: seq<T>, b: seq<T>, k: nat)
    requires multiset(a) == multiset(b) && a != [] && k < |b| && b[k] == a[0]
    ensures multiset(a[1..]) == multiset(b[..k] + b[k + 1..])
  {
    var rest := b[..k] + b[k + 1..];
    assert a == [a[0]] + a[1..];
    assert b == b[..k] + [b[k]] + b[k + 1..];
    assert multiset(b) == multiset(rest) + multiset{a[0]};
    forall x ensures multiset(a[1..])[x] == multiset(rest)[x] {
      assert multiset(a)[x] == multiset{a[0]}[x] + multiset(a[1..])[x];
    }
  }

  /** A count depends only on the multiset of entries, not on their order. */
  lemma {:induction false} CountPermutation<T>(a: seq<T>, b: seq<T>, p: T -> bool)
    requires multiset(a) == multiset(b)
    ensures Count(a, p) == Count(b, p)
  {
    if a != [] {
      assert a[0] in multiset(b);
      var k :| 0 <= k < |b| && b[k] == a[0];
      RemoveMatching(a, b, k);
      CountPermutation(a[1..], b[..k] + b[k + 1..], p);
      CountRemoveAt(b, k, p);
    }
  }

  /** When exactly the first r entries pass the test, the count is r. */
  lemma {:induction false} CountPrefix<T>(s: seq<T>, r: nat, p: T -> bool)
    requires r <= |s|
    requires forall i :: 0 <= i < |s| ==> (p(s[i]) <==> i < r)
    ensures Count(s, p) == r
  {
    if s != [] {
      CountPrefix(s[1..], if r == 0 then 0 else r - 1, p);
    }
  }

  /** Two position-wise corresponding sequences have the same count. */
  lemma {:induction false} CountCorresponding<T, U>(s: seq<T>, p: T -> bool, t: seq<U>, q: U -> bool)
    requires |s| == |t|
    requires forall i :: 0 <= i < |s| ==> (p(s[i]) <==> q(t[i]))
    ensures Count(s, p) == Count(t, q)
  {
    if s != [] {
      CountCorresponding(s[1..], p, t[1..], q);
    }
  }

  /** `f(s[i])` for every i: the image of a sequence under `f`. */
  function Map<A, B>(s: seq<A>, f: A -> B): (r: seq<B>)
    ensures |r| == |s|
  {
    seq(|s|, i requires 0 <= i < |s| => f(s[i]))
  }

  /** Permuting a sequence permutes its image. */
  lemma {:induction false} MapPermutation<A, B>(a: seq<A>, b: seq<A>, f: A -> B)
    requires multiset(a) == multiset(b)
    ensures multiset(Map(a, f)) == multiset(Map(b, f))
  {
    if a != [] {
      assert a[0] in multiset(b);
      var k :| 0 <= k < |b| && b[k] == a[0];
      var rest := b[..k] + b[k + 1..];
      RemoveMatching(a, b, k);
      MapPermutation(a[1..], rest, f);
      assert Map(a, f) == [f(a[0])] + Map(a[1..], f);
      assert Map(b, f) == Map(b[..k], f) + [f(b[k])] + Map(b[k + 1..], f);
      assert Map(rest, f) == Map(b[..k], f) + Map(b[k + 1..], f);
    }
  }
}
