/**
 * The ordering steps of process() (hgmd/__main__.py): the shortlist of
 * genes for an abbreviated run, the rank column and `head(Trim)` of the
 * pair, triple and quad tables, the singleton table's fused rank, and its
 * Plot marks.  The tests that produce the tables' statistics are not part
 * of this model; their values enter as given.
 *
 * pandas `sort_values` is not stable, so the order among equal keys is not
 * fixed.  The functions here fix one order, that of SortBy; the lemmas about
 * the shortlist and the exported tables take any sorted permutation, so
 * they state only what every order pandas may pick shares.
 */
module Ordering {
  import opened Common
  import opened Sorting
  import opened Counting

  // ---------------------------------------------------------------- abbreviation

  /** A row of the slid XL-mHG table: the gene and its mHG statistic. */
  datatype MhgRow = MhgRow(gene: string, stat: real)

  function MhgStat(r: MhgRow): real { r.stat }
  function GeneOf(r: MhgRow): string { r.gene }

  /** `len(None)` raises TypeError: `-Abbrev` given without a value. */
  datatype AbbrevError = NoLength

  /**
   * The abbreviation step: the XL-mHG table sorted by ascending mHG_stat,
   * and, when an abbreviation is requested, the genes of its first 150 rows
   * (all rows when there are fewer); None otherwise.  `abbrev` is the
   * option's value: None for a bare `-Abbrev`, whose `len` raises
   * TypeError, else the given string, with "" standing for the default
   * `[]`, since only its length matters.
   */
  method Abbreviate(abbrev: Option<string>, xlmhg: seq<MhgRow>)
    returns (sorted: seq<MhgRow>, trips: Result<Option<seq<string>>, AbbrevError>)
    ensures SortedBy(sorted, MhgStat) && multiset(sorted) == multiset(xlmhg)
    ensures abbrev.None? <==> trips.Failure?
    ensures abbrev.Some? && |abbrev.value| == 0 ==> trips == Success(None)
    ensures abbrev.Some? && |abbrev.value| > 0 ==> trips == Success(Some(Map(sorted[..Min(150, |sorted|)], GeneOf)))
  {
    sorted := SortBy(xlmhg, MhgStat);
    if abbrev.None? {
      return sorted, Failure(NoLength);
    }
    if |abbrev.value| == 0 {
      return sorted, Success(None);
    }
    var list := [];
    var count := 0;
    while count < |sorted|
      invariant count <= |sorted| && count <= 150
      invariant list == Map(sorted[..count], GeneOf)
    {
      if count == 150 {
        break;
      }
      MapExtend(sorted, count, GeneOf);
      list := list + [sorted[count].gene];
      count := count + 1;
    }
    trips := Success(Some(list));
  }

  lemma MapExtend<A, B>(s: seq<A>, k: nat, f: A -> B)
    requires k < |s|
    ensures Map(s[..k + 1], f) == Map(s[..k], f) + [f(s[k])]
  {
    assert s[..k + 1] == s[..k] + [s[k]];
    var m := Map(s[..k + 1], f);
    assert forall i :: 0 <= i < k ==> m[i] == Map(s[..k], f)[i];
  }

  /**
   * The shortlist is the best of the table: any row whose mHG statistic is
   * strictly below that of a shortlisted row is itself shortlisted.
   */
  lemma ShortlistBest(xlmhg: seq<MhgRow>, sorted: seq<MhgRow>, k: nat, r: MhgRow)
    requires SortedBy(sorted, MhgStat) && multiset(sorted) == multiset(xlmhg)
    requires 0 < k <= |sorted|
    requires r in xlmhg && r.stat < sorted[k - 1].stat
    ensures r in sorted[..k]
  {
    assert r in multiset(sorted);
    var j :| 0 <= j < |sorted| && sorted[j] == r;
    SmallerKeyEarlier(sorted, MhgStat, j, k - 1);
    assert sorted[..k][j] == r;
  }

  // ---------------------------------------------------------------- rank and Trim

  /** A row of an exported table with its rank column. */
  datatype Ranked<T> = Ranked(row: T, rank: nat)

  /** `df['rank'] = df.reset_index().index + 1` on a sorted table: rank = position + 1. */
  function RankColumn<T>(sorted: seq<T>): (r: seq<Ranked<T>>)
    ensures |r| == |sorted|
  {
    seq(|sorted|, i requires 0 <= i < |sorted| => Ranked(sorted[i], i + 1))
  }

  /** The number of rows `head(n)` keeps: n of them, or all but the last -n when n is negative. */
  function HeadLength(len: nat, n: int): (k: nat)
    ensures k <= len
  {
    if n >= 0 then Min(n, len) else if len + n >= 0 then len + n else 0
  }

  /**
   * `df.head(n)`: the first n rows (all of them when there are fewer), or
   * with a negative n every row but the last -n; always a prefix.
   */
  function Head<T>(s: seq<T>, n: int): (h: seq<T>)
    ensures n >= 0 ==> |h| == Min(n, |s|)
    ensures n < 0 ==> |h| == Max(|s| + n, 0)
    ensures forall i :: 0 <= i < |h| ==> h[i] == s[i]
  {
    s[..HeadLength(|s|, n)]
  }

  /**
   * The exported pair, triple or quad table: sorted ascending by its
   * p-value or statistic, ranked, then cut to `head(Trim)`.  Among rows of
   * equal key at the cut, which are exported is SortBy's choice; the lemmas
   * below hold for `Head(RankColumn(sorted), trim)` with any sorted
   * permutation `sorted`, of which this is one.
   */
  function RankedTable<T>(rows: seq<T>, key: T -> real, trim: int): (out: seq<Ranked<T>>)
    ensures |out| == HeadLength(|rows|, trim)
    ensures forall i :: 0 <= i < |out| ==> out[i].rank == i + 1
  {
    Head(RankColumn(SortBy(rows, key)), trim)
  }

  /**
   * The exported table, cut from any sorted permutation of the rows, keeps
   * HeadLength rows, ranked 1, 2, ... in order, with keys that never decrease.
   */
  lemma RankedTableShape<T>(rows: seq<T>, sorted: seq<T>, key: T -> real, trim: int)
    requires SortedBy(sorted, key) && multiset(sorted) == multiset(rows)
    ensures var out := Head(RankColumn(sorted), trim);
            && |out| == HeadLength(|rows|, trim)
            && (forall i :: 0 <= i < |out| ==> out[i].rank == i + 1)
            && (forall i, j :: 0 <= i < j < |out| ==> key(out[i].row) <= key(out[j].row))
  {
    var out := Head(RankColumn(sorted), trim);
    assert |sorted| == |multiset(sorted)| == |multiset(rows)| == |rows|;
    forall i, j | 0 <= i < j < |out| ensures key(out[i].row) <= key(out[j].row) {
      assert out[i].row == sorted[i] && out[j].row == sorted[j];
    }
  }

  /**
   * The exported table, cut from any sorted permutation of the rows, holds
   * input rows only, and it is the top of the table: a row whose key is
   * strictly below a kept row's key is kept too, ahead of it.
   */
  lemma RankedTableTop<T>(rows: seq<T>, sorted: seq<T>, key: T -> real, trim: int)
    requires SortedBy(sorted, key) && multiset(sorted) == multiset(rows)
    ensures var out := Head(RankColumn(sorted), trim);
            && (forall i :: 0 <= i < |out| ==> out[i].row in rows)
            && (forall x, i :: x in rows && 0 <= i < |out| && key(x) < key(out[i].row) ==>
                  exists j :: 0 <= j < i && out[j].row == x)
  {
    var out := Head(RankColumn(sorted), trim);
    forall i | 0 <= i < |out| ensures out[i].row in rows {
      assert out[i].row == sorted[i];
      assert sorted[i] in multiset(rows);
    }
    forall x, i | x in rows && 0 <= i < |out| && key(x) < key(out[i].row)
      ensures exists j :: 0 <= j < i && out[j].row == x
    {
      assert x in multiset(sorted);
      var j :| 0 <= j < |sorted| && sorted[j] == x;
      assert out[i].row == sorted[i];
      SmallerKeyEarlier(sorted, key, j, i);
      assert out[j].row == x;
    }
  }

  // ---------------------------------------------------------------- singleton rank

  /** A row of the singleton table: the gene, its mHG statistic and its log2 fold change. */
  datatype SingleRow = SingleRow(gene: string, mhgStat: real, log2fc: real)

  /** The singleton table after `hgrank`. */
  datatype HgRanked = HgRanked(row: SingleRow, hgrank: nat)

  /** The singleton table after `fcrank`. */
  datatype FcRanked = FcRanked(row: SingleRow, hgrank: nat, fcrank: nat)

  /** The exported singleton row: both partial ranks, the final rank and the Plot mark. */
  datatype SingleRank = SingleRank(row: SingleRow, hgrank: nat, fcrank: nat, rank: nat, plot: bool)

  function ByMhgStat(r: SingleRow): real { r.mhgStat }
  function ByFoldChangeDescending(r: HgRanked): real { -r.row.log2fc }
  /**
   * `finrank`, the mean of the two partial ranks: `hgrank`, the 1-based
   * position after the mHG_stat sort, and `fcrank`, the 1-based position
   * after the descending fold-change sort (HgRanks and FcRanks).
   */
  function FinRank(r: FcRanked): real { (r.hgrank + r.fcrank) as real / 2.0 }

  /**
   * Sort by ascending mHG_stat and number the rows: `hgrank` is the row's
   * 1-based position in mHG_stat order.
   */
  function HgRanks(rows: seq<SingleRow>): (t: seq<HgRanked>)
    ensures |t| == |rows|
    ensures forall i :: 0 <= i < |t| ==> t[i].hgrank == i + 1
    ensures forall i, j :: 0 <= i < j < |t| ==> t[i].row.mhgStat <= t[j].row.mhgStat
  {
    var s := SortBy(rows, ByMhgStat);
    assert forall i, j :: 0 <= i < j < |s| ==> ByMhgStat(s[i]) <= ByMhgStat(s[j]);
    seq(|s|, i requires 0 <= i < |s| => HgRanked(s[i], i + 1))
  }

  /**
   * Sort by descending Log2FoldChange and number the rows: `fcrank` is the
   * row's 1-based position in descending fold-change order; each row keeps
   * its `hgrank` (FcRanksRows).
   */
  function FcRanks(t: seq<HgRanked>): (u: seq<FcRanked>)
    ensures |u| == |t|
    ensures forall i :: 0 <= i < |u| ==> u[i].fcrank == i + 1
    ensures forall i, j :: 0 <= i < j < |u| ==> u[i].row.log2fc >= u[j].row.log2fc
  {
    var s := SortBy(t, ByFoldChangeDescending);
    assert forall i, j :: 0 <= i < j < |s| ==> ByFoldChangeDescending(s[i]) <= ByFoldChangeDescending(s[j]);
    seq(|s|, i requires 0 <= i < |s| => FcRanked(s[i].row, s[i].hgrank, i + 1))
  }

  /** Sort by ascending finrank and number the rows: the final `rank`. */
  function FinalRanks(u: seq<FcRanked>): (v: seq<SingleRank>)
    ensures |v| == |u|
  {
    var s := SortBy(u, FinRank);
    seq(|s|, i requires 0 <= i < |s| => SingleRank(s[i].row, s[i].hgrank, s[i].fcrank, i + 1, false))
  }

  /** The singleton table's rank fusion, before the Plot marks. */
  function FuseRanks(rows: seq<SingleRow>): (v: seq<SingleRank>)
    ensures |v| == |rows|
  {
    FinalRanks(FcRanks(HgRanks(rows)))
  }

  function RowOfHg(r: HgRanked): SingleRow { r.row }
  function RowOfFc(r: FcRanked): SingleRow { r.row }
  function RowOfRank(r: SingleRank): SingleRow { r.row }
  function HgOfFc(r: FcRanked): HgRanked { HgRanked(r.row, r.hgrank) }
  function FcOfRank(r: SingleRank): FcRanked { FcRanked(r.row, r.hgrank, r.fcrank) }
  function HgrankOfHg(r: HgRanked): nat { r.hgrank }
  function HgrankOfFc(r: FcRanked): nat { r.hgrank }
  function FcrankOfFc(r: FcRanked): nat { r.fcrank }
  function HgrankOf(r: SingleRank): nat { r.hgrank }
  function FcrankOf(r: SingleRank): nat { r.fcrank }

  /** The positions 1, 2, ..., n. */
  function Positions(n: nat): (p: seq<nat>)
    ensures |p| == n
  {
    seq(n, i requires 0 <= i < n => i + 1)
  }

  lemma HgRanksRows(rows: seq<SingleRow>)
    ensures multiset(Map(HgRanks(rows), RowOfHg)) == multiset(rows)
  {
    var s := SortBy(rows, ByMhgStat);
    var t := HgRanks(rows);
    forall i | 0 <= i < |t| ensures Map(t, RowOfHg)[i] == s[i] {
      assert t[i] == HgRanked(s[i], i + 1);
      assert Map(t, RowOfHg)[i] == RowOfHg(t[i]);
    }
    assert Map(t, RowOfHg) == s;
  }

  /** Re-sorting by fold change keeps each row together with its hgrank. */
  lemma FcRanksRows(t: seq<HgRanked>)
    ensures multiset(Map(FcRanks(t), HgOfFc)) == multiset(t)
    ensures multiset(Map(FcRanks(t), RowOfFc)) == multiset(Map(t, RowOfHg))
  {
    var s := SortBy(t, ByFoldChangeDescending);
    assert Map(FcRanks(t), HgOfFc) == s;
    MapPermutation(s, t, RowOfHg);
    assert Map(FcRanks(t), RowOfFc) == Map(s, RowOfHg);
  }

  /** Re-sorting by finrank keeps each row together with both partial ranks. */
  lemma FinalRanksRows(u: seq<FcRanked>)
    ensures multiset(Map(FinalRanks(u), FcOfRank)) == multiset(u)
    ensures multiset(Map(FinalRanks(u), RowOfRank)) == multiset(Map(u, RowOfFc))
  {
    var s := SortBy(u, FinRank);
    assert Map(FinalRanks(u), FcOfRank) == s;
    MapPermutation(s, u, RowOfFc);
    assert Map(FinalRanks(u), RowOfRank) == Map(s, RowOfFc);
  }

  /** The fusion keeps the rows, only reordering them. */
  lemma FuseRanksPermutation(rows: seq<SingleRow>)
    ensures multiset(Map(FuseRanks(rows), RowOfRank)) == multiset(rows)
  {
    HgRanksRows(rows);
    FcRanksRows(HgRanks(rows));
    FinalRanksRows(FcRanks(HgRanks(rows)));
  }

  /** Re-sorting by fold change permutes the hgrank column. */
  lemma FcRanksKeepHgrank(t: seq<HgRanked>)
    ensures multiset(Map(FcRanks(t), HgrankOfFc)) == multiset(Map(t, HgrankOfHg))
  {
    var u := FcRanks(t);
    FcRanksRows(t);
    assert Map(u, HgrankOfFc) == Map(Map(u, HgOfFc), HgrankOfHg);
    MapPermutation(Map(u, HgOfFc), t, HgrankOfHg);
  }

  /** Re-sorting by finrank permutes the hgrank column and the fcrank column. */
  lemma FinalRanksKeepRanks(u: seq<FcRanked>)
    ensures multiset(Map(FinalRanks(u), HgrankOf)) == multiset(Map(u, HgrankOfFc))
    ensures multiset(Map(FinalRanks(u), FcrankOf)) == multiset(Map(u, FcrankOfFc))
  {
    var v := FinalRanks(u);
    FinalRanksRows(u);
    assert Map(v, HgrankOf) == Map(Map(v, FcOfRank), HgrankOfFc);
    assert Map(v, FcrankOf) == Map(Map(v, FcOfRank), FcrankOfFc);
    MapPermutation(Map(v, FcOfRank), u, HgrankOfFc);
    MapPermutation(Map(v, FcOfRank), u, FcrankOfFc);
  }

  /**
   * In the fused table the hgrank column and the fcrank column are each a
   * permutation of 1..n: every position of both sorts is some row's rank.
   */
  lemma FuseRankColumns(rows: seq<SingleRow>)
    ensures multiset(Map(FuseRanks(rows), HgrankOf)) == multiset(Positions(|rows|))
    ensures multiset(Map(FuseRanks(rows), FcrankOf)) == multiset(Positions(|rows|))
  {
    var t := HgRanks(rows);
    var u := FcRanks(t);
    HgrankPositions(rows);
    FcrankPositions(t);
    FcRanksKeepHgrank(t);
    FinalRanksKeepRanks(u);
  }

  /** The hgrank column, in mHG_stat order, is 1, 2, ..., n. */
  lemma HgrankPositions(rows: seq<SingleRow>)
    ensures Map(HgRanks(rows), HgrankOfHg) == Positions(|rows|)
  {
    var t := HgRanks(rows);
    var m := Map(t, HgrankOfHg);
    forall i | 0 <= i < |t| ensures m[i] == Positions(|rows|)[i] {
      assert m[i] == HgrankOfHg(t[i]);
    }
  }

  /** The fcrank column, in fold-change order, is 1, 2, ..., n. */
  lemma FcrankPositions(t: seq<HgRanked>)
    ensures Map(FcRanks(t), FcrankOfFc) == Positions(|t|)
  {
    var u := FcRanks(t);
    var m := Map(u, FcrankOfFc);
    forall i | 0 <= i < |u| ensures m[i] == Positions(|t|)[i] {
      assert m[i] == FcrankOfFc(u[i]);
    }
  }

  /** A strictly smaller mHG statistic carries a strictly smaller hgrank. */
  ghost predicate HgConsistent(t: seq<HgRanked>) {
    forall x, y :: x in t && y in t && x.row.mhgStat < y.row.mhgStat ==> x.hgrank < y.hgrank
  }

  /** Both partial ranks follow their statistics. */
  ghost predicate FcConsistent(u: seq<FcRanked>) {
    && (forall x, y :: x in u && y in u && x.row.mhgStat < y.row.mhgStat ==> x.hgrank < y.hgrank)
    && (forall x, y :: x in u && y in u && x.row.log2fc > y.row.log2fc ==> x.fcrank < y.fcrank)
  }

  lemma HgRanksConsistent(rows: seq<SingleRow>)
    ensures HgConsistent(HgRanks(rows))
  {
    var s := SortBy(rows, ByMhgStat);
    var t := HgRanks(rows);
    forall x, y | x in t && y in t && x.row.mhgStat < y.row.mhgStat ensures x.hgrank < y.hgrank {
      var i :| 0 <= i < |t| && t[i] == x;
      var j :| 0 <= j < |t| && t[j] == y;
      SmallerKeyEarlier(s, ByMhgStat, i, j);
    }
  }

  lemma FcRanksConsistent(t: seq<HgRanked>)
    requires HgConsistent(t)
    ensures FcConsistent(FcRanks(t))
  {
    var s := SortBy(t, ByFoldChangeDescending);
    var u := FcRanks(t);
    forall x, y | x in u && y in u
      ensures x.row.mhgStat < y.row.mhgStat ==> x.hgrank < y.hgrank
      ensures x.row.log2fc > y.row.log2fc ==> x.fcrank < y.fcrank
    {
      var i :| 0 <= i < |u| && u[i] == x;
      var j :| 0 <= j < |u| && u[j] == y;
      assert s[i] in multiset(t) && s[j] in multiset(t);
      if x.row.log2fc > y.row.log2fc {
        SmallerKeyEarlier(s, ByFoldChangeDescending, i, j);
      }
    }
  }

  /**
   * The fused ranking: the final ranks are 1..n in order, finrank never
   * decreases along the table, and a gene better on both counts (strictly
   * smaller mHG statistic and strictly larger fold change) than another is
   * ranked strictly before it.
   */
  lemma FuseRanksOrder(rows: seq<SingleRow>)
    ensures var v := FuseRanks(rows);
            && (forall i :: 0 <= i < |v| ==> v[i].rank == i + 1)
            && (forall i, j :: 0 <= i < j < |v| ==>
                  v[i].hgrank + v[i].fcrank <= v[j].hgrank + v[j].fcrank)
            && (forall i, j :: 0 <= i < |v| && 0 <= j < |v| &&
                  v[i].row.mhgStat < v[j].row.mhgStat && v[i].row.log2fc > v[j].row.log2fc
                  ==> i < j)
  {
    HgRanksConsistent(rows);
    FcRanksConsistent(HgRanks(rows));
    FinalRanksOrder(FcRanks(HgRanks(rows)));
  }

  /** The final numbering follows finrank, and finrank follows both partial ranks. */
  lemma FinalRanksOrder(u: seq<FcRanked>)
    requires FcConsistent(u)
    ensures var v := FinalRanks(u);
            && (forall i :: 0 <= i < |v| ==> v[i].rank == i + 1)
            && (forall i, j :: 0 <= i < j < |v| ==>
                  v[i].hgrank + v[i].fcrank <= v[j].hgrank + v[j].fcrank)
            && (forall i, j :: 0 <= i < |v| && 0 <= j < |v| &&
                  v[i].row.mhgStat < v[j].row.mhgStat && v[i].row.log2fc > v[j].row.log2fc
                  ==> i < j)
  {
    var s := SortBy(u, FinRank);
    var v := FinalRanks(u);
    forall i, j | 0 <= i < j < |v| ensures v[i].hgrank + v[i].fcrank <= v[j].hgrank + v[j].fcrank {
      assert FinRank(s[i]) <= FinRank(s[j]);
    }
    forall i, j | 0 <= i < |v| && 0 <= j < |v| &&
        v[i].row.mhgStat < v[j].row.mhgStat && v[i].row.log2fc > v[j].row.log2fc
      ensures i < j
    {
      assert s[i] in multiset(u) && s[j] in multiset(u);
      SmallerKeyEarlier(s, FinRank, i, j);
    }
  }

  /**
   * The Plot loop: a counter starting at 1 marks rows until it reaches 100,
   * so the first 99 rows of the final ranking are marked.  The Plot column
   * does not exist before the loop: no row is marked yet.
   */
  method MarkPlot(table: seq<SingleRank>) returns (out: seq<SingleRank>)
    requires forall k :: 0 <= k < |table| ==> !table[k].plot
    ensures |out| == |table|
    ensures forall k :: 0 <= k < |out| ==> out[k] == table[k].(plot := k < 99)
  {
    out := table;
    var count := 1;
    var i := 0;
    while i < |table|
      invariant i <= |table| && count == i + 1 && i <= 99
      invariant |out| == |table|
      invariant forall k :: 0 <= k < |out| ==> out[k] == table[k].(plot := k < i)
    {
      if count == 100 {
        break;
      }
      out := out[i := table[i].(plot := true)];
      count := count + 1;
      i := i + 1;
    }
  }

  function Plotted(r: SingleRank): bool { r.plot }

  /** Exactly min(99, n) rows are marked, and they are the first ones. */
  lemma PlotCount(table: seq<SingleRank>, out: seq<SingleRank>)
    requires |out| == |table|
    requires forall k :: 0 <= k < |out| ==> out[k] == table[k].(plot := k < 99)
    ensures Count(out, Plotted) == Min(99, |out|)
  {
    CountPrefix(out, Min(99, |out|), Plotted);
  }
}
