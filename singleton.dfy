/**
 * singleton_test (hgmd/hgmd.py): for every gene column, sort the cells by
 * expression (descending), build the 0/1 cluster-membership vector in that
 * order, let the XL-mHG test choose a cutoff index, slide that index to the
 * first cell holding the cutoff value, run the t-test, and finally rank the
 * genes by the sum of their mHG p-value rank and t-test p-value rank.
 *
 * The XL-mHG test and the t-test are library calls with floating-point
 * results; they enter as the parameters `xlmhg` and `ttest`.
 */
module Singleton {
  import opened Common
  import opened Sorting
  import opened Counting
  import opened Ranking

  type Label = int

  /**
   * The table singleton_test reads: per cell a cluster label and two tSNE
   * scores (the first three columns), then one expression column per gene.
   * `expr[g][c]` is the expression of gene `genes[g]` in cell `c`.
   */
  datatype Cells = Cells(cluster: seq<Label>, tsne1: seq<real>, tsne2: seq<real>,
                         genes: seq<string>, expr: seq<seq<real>>)
  {
    ghost predicate Valid() {
      && |tsne1| == |cluster| && |tsne2| == |cluster|
      && |expr| == |genes|
      && forall g :: 0 <= g < |expr| ==> |expr[g]| == |cluster|
    }
  }

  /** One row of `cells[['cluster', gene]]`. */
  datatype Obs = Obs(cluster: Label, value: real)

  /** What `hg.xlmhg_test` returns: statistic, cutoff index, p-value. */
  datatype Mhg = Mhg(stat: real, cutoffIndex: nat, pval: real)

  /** The two samples `ss.ttest_ind` compares: in-cluster and out-of-cluster expression. */
  datatype Samples = Samples(sample: seq<real>, population: seq<real>)

  /** What `ss.ttest_ind` returns: statistic and p-value. */
  datatype TTest = TTest(stat: real, pval: real)

  /** One row of singleton_test's output before ranking. */
  datatype GeneRow = GeneRow(gene: string, hgStat: real, mhgPval: real, cutoffIndex: nat,
                             cutoffValue: real, tStat: real, tPval: real)

  /** A row with its combined rank column. */
  datatype RankedGene = RankedGene(row: GeneRow, rank: real)

  /** `exp.iloc[index]` with an index past the last cell raises IndexError. */
  datatype TestError = CutoffOutOfRange(gene: string, index: nat)

  ghost predicate Descending(v: seq<real>) {
    forall i, j :: 0 <= i < j < |v| ==> v[i] >= v[j]
  }

  ghost predicate Ascending(a: seq<real>) {
    forall i, j :: 0 <= i < j < |a| ==> a[i] <= a[j]
  }

  /** `cells[['cluster', gene]]` for gene number g. */
  function Column(cells: Cells, g: nat): (col: seq<Obs>)
    requires cells.Valid() && g < |cells.genes|
    ensures |col| == |cells.cluster|
  {
    seq(|cells.cluster|, c requires 0 <= c < |cells.cluster| => Obs(cells.cluster[c], cells.expr[g][c]))
  }

  function Values(s: seq<Obs>): (v: seq<real>)
    ensures |v| == |s|
  {
    seq(|s|, i requires 0 <= i < |s| => s[i].value)
  }

  /** `exp.sort_values(by=gene, ascending=False)`: one descending permutation. */
  function SortDescending(col: seq<Obs>): (r: seq<Obs>)
    ensures multiset(r) == multiset(col)
    ensures Descending(Values(r))
  {
    var r := SortBy(col, (o: Obs) => -o.value);
    assert forall i, j :: 0 <= i < j < |r| ==> -r[i].value <= -r[j].value;
    r
  }

  /** `(exp['cluster'] == cluster)` as 0/1, in the order of `s`. */
  function Membership(s: seq<Obs>, cluster: Label): (v: seq<int>)
    ensures |v| == |s|
  {
    seq(|s|, i requires 0 <= i < |s| => if s[i].cluster == cluster then 1 else 0)
  }

  function SumInt(v: seq<int>): int {
    if v == [] then 0 else v[0] + SumInt(v[1..])
  }

  lemma {:induction false} SumMembership(s: seq<Obs>, cluster: Label)
    ensures SumInt(Membership(s, cluster)) == Count(s, (o: Obs) => o.cluster == cluster)
  {
    if s != [] {
      assert Membership(s, cluster)[1..] == Membership(s[1..], cluster);
      SumMembership(s[1..], cluster);
    }
  }

  /**
   * The membership vector has one 0/1 entry per cell, in descending
   * expression order, and its ones are exactly the cells of the cluster of
   * interest: it holds as many ones as the cluster has cells.
   */
  lemma MembershipVector(cells: Cells, g: nat, cluster: Label)
    requires cells.Valid() && g < |cells.genes|
    ensures var exp := SortDescending(Column(cells, g));
            var v := Membership(exp, cluster);
            && |v| == |cells.cluster|
            && Descending(Values(exp))
            && (forall i :: 0 <= i < |v| ==> (v[i] == 1 <==> exp[i].cluster == cluster) && (v[i] == 0 || v[i] == 1))
            && SumInt(v) == Count(cells.cluster, (l: Label) => l == cluster)
  {
    var col := Column(cells, g);
    var exp := SortDescending(col);
    SumMembership(exp, cluster);
    CountPermutation(exp, col, (o: Obs) => o.cluster == cluster);
    CountCorresponding(col, (o: Obs) => o.cluster == cluster, cells.cluster, (l: Label) => l == cluster);
  }

  /**
   * `numpy.searchsorted(a, x, side='left')` restricted to [lo, hi): a binary
   * search for the first position whose entry is not below `x`.
   */
  function SearchLeft(a: seq<real>, x: real, lo: nat, hi: nat): (r: nat)
    requires lo <= hi <= |a|
    requires Ascending(a)
    requires forall i :: 0 <= i < lo ==> a[i] < x
    requires forall i :: hi <= i < |a| ==> a[i] >= x
    ensures lo <= r <= hi
    ensures forall i :: 0 <= i < |a| ==> (i < r <==> a[i] < x)
    decreases hi - lo
  {
    if lo == hi then lo
    else
      var mid := (lo + hi) / 2;
      if a[mid] < x then SearchLeft(a, x, mid + 1, hi) else SearchLeft(a, x, lo, mid)
  }

  /** `numpy.searchsorted(a, x, side='left')` on an ascending `a`. */
  function SearchSorted(a: seq<real>, x: real): (r: nat)
    requires Ascending(a)
    ensures r <= |a|
  {
    SearchLeft(a, x, 0, |a|)
  }

  /** The insertion point splits `a` into the entries below `x` and the rest. */
  lemma SearchSortedSplits(a: seq<real>, x: real)
    requires Ascending(a)
    ensures forall i :: 0 <= i < |a| ==> (i < SearchSorted(a, x) <==> a[i] < x)
  {
  }

  function Negate(v: seq<real>): (w: seq<real>)
    ensures |w| == |v|
  {
    seq(|v|, i requires 0 <= i < |v| => -v[i])
  }

  /**
   * The cutoff slide: search the negated descending expression values for
   * the negated cutoff value `values[k]`.  The slid index is never past `k`
   * and holds the cutoff value itself.
   */
  function Slide(values: seq<real>, k: nat): (r: nat)
    requires Descending(values) && k < |values|
    ensures r <= k && values[r] == values[k]
  {
    var neg := Negate(values);
    assert Ascending(neg);
    var r := SearchSorted(neg, -values[k]);
    SearchSortedSplits(neg, -values[k]);
    assert forall i :: 0 <= i < |values| ==> (neg[i] < -values[k] <==> values[i] > values[k]);
    r
  }

  /**
   * The slid index separates the cells strictly above the cutoff value
   * (before it) from the rest (at or after it).
   */
  lemma SlideSplits(values: seq<real>, k: nat)
    requires Descending(values) && k < |values|
    ensures forall i :: 0 <= i < |values| ==> (i < Slide(values, k) <==> values[i] > values[k])
  {
    var neg := Negate(values);
    assert Ascending(neg);
    SearchSortedSplits(neg, -values[k]);
    assert forall i :: 0 <= i < |values| ==> (neg[i] < -values[k] <==> values[i] > values[k]);
  }

  /** The slid index is the number of cells whose expression is strictly above the cutoff value. */
  lemma SlideCountsGreater(values: seq<real>, k: nat)
    requires Descending(values) && k < |values|
    ensures Slide(values, k) == Count(values, (x: real) => x > values[k])
  {
    SlideSplits(values, k);
    CountPrefix(values, Slide(values, k), (x: real) => x > values[k]);
  }

  /** Sliding an already slid index leaves it where it is. */
  lemma SlideIdempotent(values: seq<real>, k: nat)
    requires Descending(values) && k < |values|
    ensures Slide(values, Slide(values, k)) == Slide(values, k)
  {
    SlideSplits(values, k);
    SlideSplits(values, Slide(values, k));
  }

  /** The example of hgmd/hgmd.py:127-128: [5.3, 1.2, 0, 0, 0, 0] with index 4 slides to 2. */
  lemma SlideExample()
    ensures Slide([5.3, 1.2, 0.0, 0.0, 0.0, 0.0], 4) == 2
  {
    var v := [5.3, 1.2, 0.0, 0.0, 0.0, 0.0];
    SlideSplits(v, 4);
    assert v[1] > v[4] && !(v[2] > v[4]);
  }

  /**
   * Expression values, in order, of the rows of `s` from position `i` on
   * whose cluster is (or, with `inside` false, is not) `cluster`.
   */
  function ValuesWhere(s: seq<Obs>, cluster: Label, inside: bool, i: nat := 0): (r: seq<real>)
    requires i <= |s|
    ensures |r| <= |s| - i
    decreases |s| - i
  {
    if i == |s| then []
    else (if (s[i].cluster == cluster) == inside then [s[i].value] else []) + ValuesWhere(s, cluster, inside, i + 1)
  }

  /**
   * The t-test's two samples split the column: together they hold every
   * expression value of the cells from position `i` on, each once.
   */
  lemma {:induction false} ValuesWherePartition(s: seq<Obs>, cluster: Label, i: nat)
    requires i <= |s|
    ensures multiset(ValuesWhere(s, cluster, true, i)) + multiset(ValuesWhere(s, cluster, false, i))
            == multiset(Values(s)[i..])
    decreases |s| - i
  {
    if i < |s| {
      ValuesWherePartition(s, cluster, i + 1);
      ValuesFrom(s, i);
    }
  }

  function ObsValue(o: Obs): real { o.value }

  /** Reordering the cells reorders their expression values. */
  lemma ValuesPermutation(a: seq<Obs>, b: seq<Obs>)
    requires multiset(a) == multiset(b)
    ensures multiset(Values(a)) == multiset(Values(b))
  {
    MapPermutation(a, b, ObsValue);
    assert Values(a) == Map(a, ObsValue);
    assert Values(b) == Map(b, ObsValue);
  }

  lemma ValuesFrom(s: seq<Obs>, i: nat)
    requires i < |s|
    ensures Values(s)[i..] == [s[i].value] + Values(s)[i + 1..]
  {
  }

  /**
   * The output row of a gene whose descending column is `exp` and whose
   * XL-mHG result is `mhg`: the mHG statistic and p-value are the test's,
   * and the t statistic and p-value are those of the t-test of the
   * in-cluster expression against the out-of-cluster expression.
   */
  function GeneRowOf(gene: string, exp: seq<Obs>, cluster: Label, mhg: Mhg,
                     ttest: Samples -> TTest): (row: GeneRow)
    requires Descending(Values(exp)) && mhg.cutoffIndex < |exp|
    ensures row.gene == gene
    ensures row.hgStat == mhg.stat && row.mhgPval == mhg.pval
    ensures var t := ttest(Samples(ValuesWhere(exp, cluster, true), ValuesWhere(exp, cluster, false)));
            row.tStat == t.stat && row.tPval == t.pval
  {
    var values := Values(exp);
    var t := ttest(Samples(ValuesWhere(exp, cluster, true), ValuesWhere(exp, cluster, false)));
    GeneRow(gene, mhg.stat, mhg.pval, Slide(values, mhg.cutoffIndex), values[mhg.cutoffIndex], t.stat, t.pval)
  }

  /**
   * One iteration of the gene loop on the descending column `exp`: fails
   * exactly when the proposed cutoff index lies past the last cell
   * (`exp.iloc` raises), otherwise yields the gene's row with the slid
   * cutoff index.
   */
  function TestGene(gene: string, exp: seq<Obs>, cluster: Label, xlmhg: seq<int> -> Mhg,
                    ttest: Samples -> TTest): (r: Result<GeneRow, TestError>)
    requires Descending(Values(exp))
    ensures r.Failure? <==> xlmhg(Membership(exp, cluster)).cutoffIndex >= |exp|
    ensures r.Failure? ==> r.error == CutoffOutOfRange(gene, xlmhg(Membership(exp, cluster)).cutoffIndex)
    ensures r.Success? ==> r.value.gene == gene
  {
    var mhg := xlmhg(Membership(exp, cluster));
    if mhg.cutoffIndex >= |exp| then Failure(CutoffOutOfRange(gene, mhg.cutoffIndex))
    else Success(GeneRowOf(gene, exp, cluster, mhg, ttest))
  }

  /**
   * `sorted` holds, for each of the first |sorted| genes in column order, a
   * descending ordering of that gene's column: what `exp.sort_values(by=gene,
   * ascending=False)` may return, the order among tied cells being left to
   * the sort.
   */
  ghost predicate SortsColumns(cells: Cells, sorted: seq<seq<Obs>>)
    requires cells.Valid()
  {
    && |sorted| <= |cells.genes|
    && forall g :: 0 <= g < |sorted| ==>
         multiset(sorted[g]) == multiset(Column(cells, g)) && Descending(Values(sorted[g]))
  }

  /** A descending ordering of the next gene's column extends the sorted columns. */
  lemma SortsColumnsExtend(cells: Cells, sorted: seq<seq<Obs>>, exp: seq<Obs>)
    requires cells.Valid() && SortsColumns(cells, sorted) && |sorted| < |cells.genes|
    requires multiset(exp) == multiset(Column(cells, |sorted|)) && Descending(Values(exp))
    ensures SortsColumns(cells, sorted + [exp])
  {
    forall g | 0 <= g < |sorted| + 1
      ensures multiset((sorted + [exp])[g]) == multiset(Column(cells, g))
      ensures Descending(Values((sorted + [exp])[g]))
    {
      if g < |sorted| {
        assert (sorted + [exp])[g] == sorted[g];
      }
    }
  }

  /** The outcome of the gene loop's iteration for each sorted column, in column order. */
  function Outcomes(genes: seq<string>, sorted: seq<seq<Obs>>, cluster: Label, xlmhg: seq<int> -> Mhg,
                    ttest: Samples -> TTest): (o: seq<Result<GeneRow, TestError>>)
    requires |sorted| <= |genes|
    requires forall g :: 0 <= g < |sorted| ==> Descending(Values(sorted[g]))
    ensures |o| == |sorted|
  {
    if sorted == [] then []
    else
      var k := |sorted| - 1;
      Outcomes(genes, sorted[..k], cluster, xlmhg, ttest) + [TestGene(genes[k], sorted[k], cluster, xlmhg, ttest)]
  }

  /** Iteration g of the loop is the test of gene g on its sorted column. */
  lemma {:induction false} OutcomeAt(genes: seq<string>, sorted: seq<seq<Obs>>, cluster: Label,
                                     xlmhg: seq<int> -> Mhg, ttest: Samples -> TTest, g: nat)
    requires g < |sorted| <= |genes|
    requires forall i :: 0 <= i < |sorted| ==> Descending(Values(sorted[i]))
    ensures Outcomes(genes, sorted, cluster, xlmhg, ttest)[g] == TestGene(genes[g], sorted[g], cluster, xlmhg, ttest)
  {
    var k := |sorted| - 1;
    if g < k {
      OutcomeAt(genes, sorted[..k], cluster, xlmhg, ttest, g);
    }
  }

  /**
   * A gene's row carries as cutoff value the expression at the index the
   * XL-mHG test proposed, which is one of the gene's expression values, and
   * as cutoff index that index slid up, no later than the proposed one and
   * counting the cells whose expression is strictly above the cutoff value.
   */
  lemma GeneRowCutoff(cells: Cells, sorted: seq<seq<Obs>>, cluster: Label, g: nat,
                      xlmhg: seq<int> -> Mhg, ttest: Samples -> TTest)
    requires cells.Valid() && SortsColumns(cells, sorted) && g < |sorted|
    requires Outcomes(cells.genes, sorted, cluster, xlmhg, ttest)[g].Success?
    ensures var row := Outcomes(cells.genes, sorted, cluster, xlmhg, ttest)[g].value;
            && row.cutoffIndex <= xlmhg(Membership(sorted[g], cluster)).cutoffIndex
            && row.cutoffValue in cells.expr[g]
            && row.cutoffIndex == Count(cells.expr[g], (x: real) => x > row.cutoffValue)
            && var k := xlmhg(Membership(sorted[g], cluster)).cutoffIndex;
            && k < |sorted[g]|
            && row.cutoffValue == Values(sorted[g])[k]
            && row.cutoffIndex == Slide(Values(sorted[g]), k)
  {
    OutcomeAt(cells.genes, sorted, cluster, xlmhg, ttest, g);
    var col := Column(cells, g);
    var exp := sorted[g];
    var k := xlmhg(Membership(exp, cluster)).cutoffIndex;
    var values := Values(exp);
    var v := values[k];
    SlideCountsGreater(values, k);
    CountCorresponding(values, (x: real) => x > v, exp, (o: Obs) => o.value > v);
    CountPermutation(exp, col, (o: Obs) => o.value > v);
    CountCorresponding(col, (o: Obs) => o.value > v, cells.expr[g], (x: real) => x > v);
    assert exp[k] in multiset(col);
    var c :| 0 <= c < |col| && col[c] == exp[k];
    assert cells.expr[g][c] == v;
  }

  /**
   * A gene's row carries the XL-mHG statistic and p-value of its membership
   * vector, and the t-test of its in-cluster against its out-of-cluster
   * expression; these two samples together hold the gene's expression in
   * every cell, each value once.
   */
  lemma GeneRowStats(cells: Cells, sorted: seq<seq<Obs>>, cluster: Label, g: nat,
                     xlmhg: seq<int> -> Mhg, ttest: Samples -> TTest)
    requires cells.Valid() && SortsColumns(cells, sorted) && g < |sorted|
    requires Outcomes(cells.genes, sorted, cluster, xlmhg, ttest)[g].Success?
    ensures var row := Outcomes(cells.genes, sorted, cluster, xlmhg, ttest)[g].value;
            var mhg := xlmhg(Membership(sorted[g], cluster));
            var inside := ValuesWhere(sorted[g], cluster, true);
            var outside := ValuesWhere(sorted[g], cluster, false);
            && row.hgStat == mhg.stat && row.mhgPval == mhg.pval
            && row.tStat == ttest(Samples(inside, outside)).stat
            && row.tPval == ttest(Samples(inside, outside)).pval
            && multiset(inside) + multiset(outside) == multiset(cells.expr[g])
  {
    OutcomeAt(cells.genes, sorted, cluster, xlmhg, ttest, g);
    ValuesWherePartition(sorted[g], cluster, 0);
    assert Values(sorted[g])[0..] == Values(sorted[g]);
    ValuesPermutation(sorted[g], Column(cells, g));
    assert Values(Column(cells, g)) == cells.expr[g];
  }

  /** The values of the first k outcomes, or the error of the first of them that failed. */
  function Collect<T, E>(outcomes: seq<Result<T, E>>, k: nat): Result<seq<T>, E>
    requires k <= |outcomes|
  {
    if k == 0 then Success([])
    else
      match Collect(outcomes, k - 1)
      case Failure(e) => Failure(e)
      case Success(values) =>
        match outcomes[k - 1]
        case Failure(e) => Failure(e)
        case Success(v) => Success(values + [v])
  }

  /**
   * Collecting succeeds exactly when every outcome does; its values are the
   * outcomes' values in order, one per outcome.  Otherwise it reports the
   * error of the first failed outcome.
   */
  lemma {:induction false} CollectSpec<T, E>(outcomes: seq<Result<T, E>>, k: nat)
    requires k <= |outcomes|
    ensures Collect(outcomes, k).Success? <==> forall i :: 0 <= i < k ==> outcomes[i].Success?
    ensures Collect(outcomes, k).Success? ==>
            && |Collect(outcomes, k).value| == k
            && forall i :: 0 <= i < k ==> Collect(outcomes, k).value[i] == outcomes[i].value
    ensures Collect(outcomes, k).Failure? ==>
            exists i :: 0 <= i < k && outcomes[i] == Failure(Collect(outcomes, k).error) &&
                        forall j :: 0 <= j < i ==> outcomes[j].Success?
  {
    if k > 0 {
      CollectSpec(outcomes, k - 1);
      if Collect(outcomes, k - 1).Success? && outcomes[k - 1].Failure? {
        assert outcomes[k - 1] == Failure(Collect(outcomes, k).error);
      }
    }
  }

  /** One more outcome: its value is appended, or its error becomes the result. */
  lemma CollectStep<T, E>(outcomes: seq<Result<T, E>>, k: nat, values: seq<T>)
    requires k < |outcomes| && Collect(outcomes, k) == Success(values)
    ensures Collect(outcomes, k + 1) ==
            match outcomes[k]
            case Failure(e) => Failure(e)
            case Success(v) => Success(values + [v])
  {
  }

  /** Collecting the first k outcomes reads nothing past them. */
  lemma {:induction false} CollectPrefix<T, E>(a: seq<Result<T, E>>, b: seq<Result<T, E>>, k: nat)
    requires k <= |a| && k <= |b| && a[..k] == b[..k]
    ensures Collect(a, k) == Collect(b, k)
  {
    if k > 0 {
      assert a[..k - 1] == a[..k][..k - 1] && b[..k - 1] == b[..k][..k - 1];
      assert a[k - 1] == a[..k][k - 1];
      CollectPrefix(a, b, k - 1);
    }
  }

  /** Once an outcome fails, every longer prefix fails with the same error. */
  lemma {:induction false} FailureSticks<T, E>(outcomes: seq<Result<T, E>>, k: nat, m: nat)
    requires k <= m <= |outcomes|
    requires Collect(outcomes, k).Failure?
    ensures Collect(outcomes, m) == Collect(outcomes, k)
    decreases m - k
  {
    if k < m {
      FailureSticks(outcomes, k, m - 1);
    }
  }

  function MhgPvals(rows: seq<GeneRow>): (p: seq<real>)
    ensures |p| == |rows|
  {
    seq(|rows|, i requires 0 <= i < |rows| => rows[i].mhgPval)
  }

  function TPvals(rows: seq<GeneRow>): (p: seq<real>)
    ensures |p| == |rows|
  {
    seq(|rows|, i requires 0 <= i < |rows| => rows[i].tPval)
  }

  /** `output.join(HG_rank + t_rank)`: each row with the sum of its two average ranks. */
  function CombinedRanks(rows: seq<GeneRow>): (r: seq<RankedGene>)
    ensures |r| == |rows|
    ensures forall i :: 0 <= i < |rows| ==> r[i].row == rows[i]
  {
    seq(|rows|, i requires 0 <= i < |rows| =>
      RankedGene(rows[i], Ranks(MhgPvals(rows))[i] + Ranks(TPvals(rows))[i]))
  }

  /**
   * The combined rank lies in [2, 2n], and a gene at least as significant
   * on both tests, and strictly more on one, ranks strictly before.
   */
  lemma CombinedRankFacts(rows: seq<GeneRow>, i: nat, j: nat)
    requires i < |rows| && j < |rows|
    ensures var c := CombinedRanks(rows);
            && 2.0 <= c[i].rank <= 2.0 * |rows| as real
            && (rows[i].mhgPval <= rows[j].mhgPval && rows[i].tPval <= rows[j].tPval &&
                (rows[i].mhgPval < rows[j].mhgPval || rows[i].tPval < rows[j].tPval)
                ==> c[i].rank < c[j].rank)
  {
    RankBounds(MhgPvals(rows), i);
    RankBounds(TPvals(rows), i);
    RankOrder(MhgPvals(rows), i, j);
    RankOrder(TPvals(rows), i, j);
  }

  /** The combined rank column, in row order. */
  function RankValues(c: seq<RankedGene>): (v: seq<real>)
    ensures |v| == |c|
  {
    seq(|c|, i requires 0 <= i < |c| => c[i].rank)
  }

  /** However many p-values tie, the combined ranks of n genes add up to n(n+1). */
  lemma CombinedRankSum(rows: seq<GeneRow>)
    ensures SumReal(RankValues(CombinedRanks(rows))) == (|rows| * (|rows| + 1)) as real
  {
    var a, b := Ranks(MhgPvals(rows)), Ranks(TPvals(rows));
    assert RankValues(CombinedRanks(rows)) == AddPointwise(a, b);
    SumRealAdd(a, b);
    RankSum(MhgPvals(rows));
    RankSum(TPvals(rows));
  }

  /** `output.sort_values(by='rank', ascending=True)`. */
  function RankAndSort(rows: seq<GeneRow>): (r: seq<RankedGene>)
    ensures |r| == |rows|
    ensures SortedBy(r, (x: RankedGene) => x.rank)
    ensures multiset(r) == multiset(CombinedRanks(rows))
  {
    SortBy(CombinedRanks(rows), (x: RankedGene) => x.rank)
  }

  /** One more outcome after a run without failure: its row is appended, or its error ends the run. */
  lemma CollectAppend<T, E>(outcomes: seq<Result<T, E>>, o: Result<T, E>, values: seq<T>)
    requires Collect(outcomes, |outcomes|) == Success(values)
    ensures Collect(outcomes + [o], |outcomes| + 1) ==
            match o
            case Failure(e) => Failure(e)
            case Success(v) => Success(values + [v])
  {
    var after := outcomes + [o];
    assert after[..|outcomes|] == outcomes[..|outcomes|];
    CollectPrefix(after, outcomes, |outcomes|);
    CollectStep(after, |outcomes|, values);
  }

  /** Outcomes that are, one by one, the tests of the sorted columns are the loop's outcomes. */
  lemma OutcomesOf(genes: seq<string>, sorted: seq<seq<Obs>>, cluster: Label, xlmhg: seq<int> -> Mhg,
                   ttest: Samples -> TTest, outs: seq<Result<GeneRow, TestError>>)
    requires |sorted| <= |genes| && |outs| == |sorted|
    requires forall g :: 0 <= g < |sorted| ==> Descending(Values(sorted[g]))
    requires forall g :: 0 <= g < |sorted| ==> outs[g] == TestGene(genes[g], sorted[g], cluster, xlmhg, ttest)
    ensures outs == Outcomes(genes, sorted, cluster, xlmhg, ttest)
  {
    forall g | 0 <= g < |sorted|
      ensures outs[g] == Outcomes(genes, sorted, cluster, xlmhg, ttest)[g]
    {
      OutcomeAt(genes, sorted, cluster, xlmhg, ttest, g);
    }
  }

  /** The sorted columns and the outcomes each grow by one matching entry. */
  lemma TestedStep(cells: Cells, sorted: seq<seq<Obs>>, exp: seq<Obs>, cluster: Label, xlmhg: seq<int> -> Mhg,
                   ttest: Samples -> TTest, outs: seq<Result<GeneRow, TestError>>, outcome: Result<GeneRow, TestError>)
    requires cells.Valid() && SortsColumns(cells, sorted) && |sorted| < |cells.genes| && |outs| == |sorted|
    requires multiset(exp) == multiset(Column(cells, |sorted|)) && Descending(Values(exp))
    requires forall g :: 0 <= g < |sorted| ==> outs[g] == TestGene(cells.genes[g], sorted[g], cluster, xlmhg, ttest)
    requires outcome == TestGene(cells.genes[|sorted|], exp, cluster, xlmhg, ttest)
    ensures SortsColumns(cells, sorted + [exp])
    ensures forall g :: 0 <= g < |sorted| + 1 ==>
              (outs + [outcome])[g] == TestGene(cells.genes[g], (sorted + [exp])[g], cluster, xlmhg, ttest)
  {
    SortsColumnsExtend(cells, sorted, exp);
    forall g | 0 <= g < |sorted| + 1
      ensures (outs + [outcome])[g] == TestGene(cells.genes[g], (sorted + [exp])[g], cluster, xlmhg, ttest)
    {
      if g < |sorted| {
        assert (outs + [outcome])[g] == outs[g] && (sorted + [exp])[g] == sorted[g];
      }
    }
  }

  /**
   * singleton_test's gene loop: one row per gene column, in column order,
   * stopping at the first gene whose cutoff index is out of range.
   * `sorted` returns the descending columns the loop worked on, one per
   * gene it reached.
   */
  method TestGenes(cells: Cells, cluster: Label, xlmhg: seq<int> -> Mhg, ttest: Samples -> TTest)
    returns (rows: Result<seq<GeneRow>, TestError>, sorted: seq<seq<Obs>>)
    requires cells.Valid()
    ensures SortsColumns(cells, sorted)
    ensures rows == Collect(Outcomes(cells.genes, sorted, cluster, xlmhg, ttest), |sorted|)
    ensures rows.Success? ==> |sorted| == |cells.genes|
  {
    var output: seq<GeneRow> := [];
    sorted := [];
    ghost var outs: seq<Result<GeneRow, TestError>> := [];
    var g := 0;
    while g < |cells.genes|
      invariant g == |sorted| == |outs| <= |cells.genes|
      invariant SortsColumns(cells, sorted)
      invariant forall i :: 0 <= i < g ==> outs[i] == TestGene(cells.genes[i], sorted[i], cluster, xlmhg, ttest)
      invariant Collect(outs, g) == Success(output)
    {
      var exp := SortDescending(Column(cells, g));
      var outcome := TestGene(cells.genes[g], exp, cluster, xlmhg, ttest);
      TestedStep(cells, sorted, exp, cluster, xlmhg, ttest, outs, outcome);
      CollectAppend(outs, outcome, output);
      sorted, outs := sorted + [exp], outs + [outcome];
      if outcome.Failure? {
        OutcomesOf(cells.genes, sorted, cluster, xlmhg, ttest, outs);
        rows := Failure(outcome.error);
        return;
      }
      output := output + [outcome.value];
      g := g + 1;
    }
    OutcomesOf(cells.genes, sorted, cluster, xlmhg, ttest, outs);
    rows := Success(output);
  }

  /**
   * singleton_test: the gene loop, then the rows ranked and sorted; an
   * error of the loop is passed on.
   */
  method SingletonTest(cells: Cells, cluster: Label, xlmhg: seq<int> -> Mhg, ttest: Samples -> TTest)
    returns (r: Result<seq<RankedGene>, TestError>, sorted: seq<seq<Obs>>)
    requires cells.Valid()
    ensures SortsColumns(cells, sorted)
    ensures match Collect(Outcomes(cells.genes, sorted, cluster, xlmhg, ttest), |sorted|)
            case Failure(e) => r == Failure(e)
            case Success(rows) => |sorted| == |cells.genes| && r == Success(RankAndSort(rows))
  {
    var rows;
    rows, sorted := TestGenes(cells, cluster, xlmhg, ttest);
    if rows.Failure? {
      r := Failure(rows.error);
    } else {
      r := Success(RankAndSort(rows.value));
    }
  }
}
