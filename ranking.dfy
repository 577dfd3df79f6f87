/**
 * pandas `Series.rank()` with its default tie method 'average', as
 * singleton_test applies it to the mHG and t-test p-value columns: an entry's
 * rank is the mean of the 1-based positions its tied group would occupy in an
 * ascending order.  For v with `b` entries below it and `e` entries equal to
 * it, the group occupies positions b+1 .. b+e, whose mean is b + (e+1)/2.
 */
module Ranking {

  /** Number of entries of `s` strictly below `v`. */
  function CountBelow(s: seq<real>, v: real): (r: nat)
    ensures r <= |s|
  {
    if s == [] then 0 else CountBelow(s[..|s| - 1], v) + (if s[|s| - 1] < v then 1 else 0)
  }

  /** Number of entries of `s` equal to `v`. */
  function CountEqual(s: seq<real>, v: real): (r: nat)
    ensures r <= |s|
  {
    if s == [] then 0 else CountEqual(s[..|s| - 1], v) + (if s[|s| - 1] == v then 1 else 0)
  }

  /** Number of entries of `s` strictly above `v`. */
  function CountAbove(s: seq<real>, v: real): (r: nat)
    ensures r <= |s|
  {
    if s == [] then 0 else CountAbove(s[..|s| - 1], v) + (if s[|s| - 1] > v then 1 else 0)
  }

  /** Twice the average rank of value `v` among `s`, kept integral for the counting proofs. */
  function TwiceRank(s: seq<real>, v: real): int {
    2 * CountBelow(s, v) + CountEqual(s, v) + 1
  }

  /** The average rank of value `v` among the entries of `s`. */
  function AverageRank(s: seq<real>, v: real): real {
    TwiceRank(s, v) as real / 2.0
  }

  /** The column of average ranks, entry by entry (`Series.rank()`). */
  function Ranks(s: seq<real>): (r: seq<real>)
    ensures |r| == |s|
  {
    seq(|s|, i requires 0 <= i < |s| => AverageRank(s, s[i]))
  }

  function SumReal(s: seq<real>): real {
    if s == [] then 0.0 else SumReal(s[..|s| - 1]) + s[|s| - 1]
  }

  /** Entry-by-entry sum of two columns of the same length. */
  function AddPointwise(a: seq<real>, b: seq<real>): (c: seq<real>)
    requires |a| == |b|
    ensures |c| == |a|
  {
    seq(|a|, i requires 0 <= i < |a| => a[i] + b[i])
  }

  /** Summing two columns entry by entry and then down adds their sums. */
  lemma {:induction false} SumRealAdd(a: seq<real>, b: seq<real>)
    requires |a| == |b|
    ensures SumReal(AddPointwise(a, b)) == SumReal(a) + SumReal(b)
  {
    if a != [] {
      var n := |a| - 1;
      SumRealAdd(a[..n], b[..n]);
      assert AddPointwise(a, b)[..n] == AddPointwise(a[..n], b[..n]);
    }
  }

  /** Every entry is below, equal to or above `v`. */
  lemma {:induction false} Trichotomy(s: seq<real>, v: real)
    ensures CountBelow(s, v) + CountEqual(s, v) + CountAbove(s, v) == |s|
  {
    if s != [] {
      Trichotomy(s[..|s| - 1], v);
    }
  }

  /** A value that occurs in `s` is counted as equal at least once. */
  lemma {:induction false} PresentCounted(s: seq<real>, i: nat)
    requires i < |s|
    ensures CountEqual(s, s[i]) >= 1
  {
    if i < |s| - 1 {
      PresentCounted(s[..|s| - 1], i);
    }
  }

  /** For a < b, everything below a or equal to a is below b. */
  lemma {:induction false} BelowGrows(s: seq<real>, a: real, b: real)
    requires a < b
    ensures CountBelow(s, b) >= CountBelow(s, a) + CountEqual(s, a)
  {
    if s != [] {
      BelowGrows(s[..|s| - 1], a, b);
    }
  }

  /** Average ranks lie between 1 and the number of entries. */
  lemma RankBounds(s: seq<real>, i: nat)
    requires i < |s|
    ensures 1.0 <= Ranks(s)[i] <= |s| as real
  {
    Trichotomy(s, s[i]);
    PresentCounted(s, i);
  }

  /**
   * Ranks follow the values: equal values share a rank, and a strictly
   * smaller value has a strictly smaller rank.
   */
  lemma RankOrder(s: seq<real>, i: nat, j: nat)
    requires i < |s| && j < |s|
    ensures s[i] == s[j] ==> Ranks(s)[i] == Ranks(s)[j]
    ensures s[i] < s[j] ==> Ranks(s)[i] < Ranks(s)[j]
  {
    if s[i] < s[j] {
      BelowGrows(s, s[i], s[j]);
      PresentCounted(s, i);
      PresentCounted(s, j);
    }
  }

  /** Sum of TwiceRank(s, t[k]) over the entries of `t`. */
  function SumTwice(s: seq<real>, t: seq<real>): int {
    if t == [] then 0 else SumTwice(s, t[..|t| - 1]) + TwiceRank(s, t[|t| - 1])
  }

  /** Adding an entry x to the ranked column shifts every larger value by 2 and every equal one by 1. */
  lemma {:induction false} SumTwiceExtend(s: seq<real>, x: real, t: seq<real>)
    ensures SumTwice(s + [x], t) == SumTwice(s, t) + 2 * CountAbove(t, x) + CountEqual(t, x)
  {
    var sx := s + [x];
    assert sx[..|sx| - 1] == s;
    if t != [] {
      SumTwiceExtend(s, x, t[..|t| - 1]);
    }
  }

  /** The twice-rank of the last entry among the whole column. */
  lemma LastTwiceRank(p: seq<real>, x: real)
    ensures TwiceRank(p + [x], x) == 2 * CountBelow(p, x) + CountEqual(p, x) + 2
  {
    assert (p + [x])[..|p|] == p;
  }

  /** Twice the ranks of a column, summed over the column itself, is n(n+1). */
  lemma {:induction false} SumTwiceSelf(s: seq<real>)
    ensures SumTwice(s, s) == |s| * (|s| + 1)
  {
    if s != [] {
      var p, x := s[..|s| - 1], s[|s| - 1];
      var n := |p|;
      assert s == p + [x];
      SumTwiceSelf(p);
      SumTwiceExtend(p, x, p);
      Trichotomy(p, x);
      LastTwiceRank(p, x);
      assert SumTwice(s, s) == SumTwice(s, p) + TwiceRank(s, x);
      NextProduct(n);
    }
  }

  lemma NextProduct(n: int)
    ensures (n + 1) * (n + 2) == n * (n + 1) + 2 * n + 2
  {
  }

  lemma {:induction false} SumRanksOf(s: seq<real>, t: seq<real>)
    ensures SumReal(seq(|t|, i requires 0 <= i < |t| => AverageRank(s, t[i]))) == SumTwice(s, t) as real / 2.0
  {
    var r := seq(|t|, i requires 0 <= i < |t| => AverageRank(s, t[i]));
    if t != [] {
      var p := t[..|t| - 1];
      SumRanksOf(s, p);
      assert r[..|r| - 1] == seq(|p|, i requires 0 <= i < |p| => AverageRank(s, p[i]));
    }
  }

  /** The ranks of n entries add up to n(n+1)/2, however many ties there are. */
  lemma RankSum(s: seq<real>)
    ensures SumReal(Ranks(s)) == (|s| * (|s| + 1)) as real / 2.0
  {
    SumRanksOf(s, s);
    SumTwiceSelf(s);
  }
}
