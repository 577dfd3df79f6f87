/**
 * read_data's handling of the cluster series (hgmd/__main__.py): the series
 * maps each cell to its cluster; cells absent from the expression matrix
 * are dropped, and with a downsampling target each cluster keeps a share
 * of its cells proportional to the target.
 */
module ClusterSeries {
  import opened Common

  /** One entry of the cluster series: the cell's name and its cluster. */
  datatype Cell = Cell(id: string, cluster: int)

  /** The error downsampling raises: an empty series has no first cell to drop. */
  datatype DownsampleError = NoFirstCell

  // ---------------------------------------------------------------- cell filter

  /** The cells whose name is a column of the expression matrix, in series order. */
  function Listed(cells: seq<Cell>, columns: seq<string>): (kept: seq<Cell>)
    ensures |kept| <= |cells|
    ensures forall x :: x in kept ==> x.id in columns
  {
    if cells == [] then []
    else
      var last := cells[|cells| - 1];
      Listed(cells[..|cells| - 1], columns) + (if last.id in columns then [last] else [])
  }

  /** A cell survives the filter exactly when its name is a column, and the survivors are among the cells. */
  lemma {:induction false} ListedMembers(cells: seq<Cell>, columns: seq<string>)
    ensures forall x :: x in Listed(cells, columns) <==> x in cells && x.id in columns
    ensures multiset(Listed(cells, columns)) <= multiset(cells)
  {
    if cells != [] {
      var init := cells[..|cells| - 1];
      ListedMembers(init, columns);
      assert cells == init + [cells[|cells| - 1]];
    }
  }

  /** When every cell is a column nothing is dropped. */
  lemma {:induction false} ListedAll(cells: seq<Cell>, columns: seq<string>)
    requires forall i :: 0 <= i < |cells| ==> cells[i].id in columns
    ensures Listed(cells, columns) == cells
  {
    if cells != [] {
      ListedAll(cells[..|cells| - 1], columns);
    }
  }

  /** Filtering twice drops nothing more. */
  lemma ListedIdempotent(cells: seq<Cell>, columns: seq<string>)
    ensures Listed(Listed(cells, columns), columns) == Listed(cells, columns)
  {
    var once := Listed(cells, columns);
    ListedMembers(cells, columns);
    forall i | 0 <= i < |once| ensures once[i].id in columns {
      assert once[i] in once;
    }
    ListedAll(once, columns);
  }

  /** The error the cell filter raises: `drop` of a name no longer in the series. */
  datatype FilterError = KeyError(name: string)

  /** Some cell of `s` has the name `name`. */
  predicate Named(s: seq<Cell>, name: string) {
    exists j :: 0 <= j < |s| && s[j].id == name
  }

  /** Two cells share a name that is not a column. */
  predicate RepeatedUnlisted(cells: seq<Cell>, columns: seq<string>) {
    exists i, j :: 0 <= i < j < |cells| && cells[i].id == cells[j].id && cells[j].id !in columns
  }

  /**
   * The drop loop over the original series: an unlisted cell is dropped
   * together with every other cell of its name, so a later cell of an
   * already dropped name is no longer there and its `drop` raises KeyError.
   */
  function Filtered(cells: seq<Cell>, columns: seq<string>): Result<seq<Cell>, FilterError> {
    if cells == [] then Success([])
    else
      var init := cells[..|cells| - 1];
      var last := cells[|cells| - 1];
      match Filtered(init, columns)
      case Failure(e) => Failure(e)
      case Success(kept) =>
        if last.id in columns then Success(kept + [last])
        else if Named(init, last.id) then Failure(KeyError(last.id))
        else Success(kept)
  }

  /**
   * The drop loop fails exactly when an unlisted name occurs twice, naming
   * such a name; otherwise it keeps exactly the cells named by a column.
   */
  lemma {:induction false} FilteredSpec(cells: seq<Cell>, columns: seq<string>)
    ensures Filtered(cells, columns).Success? <==> !RepeatedUnlisted(cells, columns)
    ensures Filtered(cells, columns).Success? ==> Filtered(cells, columns).value == Listed(cells, columns)
    ensures Filtered(cells, columns).Failure? ==>
      var name := Filtered(cells, columns).error.name;
      name !in columns && exists i, j :: 0 <= i < j < |cells| && cells[i].id == name && cells[j].id == name
  {
    if cells != [] {
      var init := cells[..|cells| - 1];
      var last := cells[|cells| - 1];
      FilteredSpec(init, columns);
      RepeatedUnlistedStep(cells, columns);
      if Filtered(init, columns).Failure? {
        var name := Filtered(init, columns).error.name;
        var i, j :| 0 <= i < j < |init| && init[i].id == name && init[j].id == name;
        assert cells[i] == init[i] && cells[j] == init[j];
      } else if last.id !in columns && Named(init, last.id) {
        var i :| 0 <= i < |init| && init[i].id == last.id;
        assert cells[i] == init[i];
      }
    }
  }

  /** A repeated unlisted name lies in the prefix, or is the last cell's name met earlier. */
  lemma RepeatedUnlistedStep(cells: seq<Cell>, columns: seq<string>)
    requires cells != []
    ensures RepeatedUnlisted(cells, columns) <==>
      RepeatedUnlisted(cells[..|cells| - 1], columns)
      || (cells[|cells| - 1].id !in columns && Named(cells[..|cells| - 1], cells[|cells| - 1].id))
  {
    var init := cells[..|cells| - 1];
    var n := |cells| - 1;
    if RepeatedUnlisted(cells, columns) {
      var i, j :| 0 <= i < j < |cells| && cells[i].id == cells[j].id && cells[j].id !in columns;
      assert init[i] == cells[i];
      if j < n {
        assert init[j] == cells[j];
      }
    }
    if RepeatedUnlisted(init, columns) {
      var i, j :| 0 <= i < j < |init| && init[i].id == init[j].id && init[j].id !in columns;
      assert cells[i] == init[i] && cells[j] == init[j];
    }
    if cells[n].id !in columns && Named(init, cells[n].id) {
      var i :| 0 <= i < |init| && init[i].id == cells[n].id;
      assert cells[i] == init[i];
    }
  }

  /** Once a prefix fails, every longer prefix fails with the same error. */
  lemma {:induction false} FilteredFailureSticks(cells: seq<Cell>, columns: seq<string>, k: nat)
    requires k <= |cells| && Filtered(cells[..k], columns).Failure?
    ensures Filtered(cells, columns) == Filtered(cells[..k], columns)
  {
    if k < |cells| {
      var init := cells[..|cells| - 1];
      assert init[..k] == cells[..k];
      FilteredFailureSticks(init, columns, k);
    } else {
      assert cells[..k] == cells;
    }
  }

  /**
   * The cell filter of read_data: a matrix with as many cells as the series
   * leaves the series alone; otherwise the loop over the original series
   * drops each cell whose name is not a column, and raises KeyError at a
   * cell whose name was dropped before.
   */
  method FilterCells(cells: seq<Cell>, columns: seq<string>) returns (r: Result<seq<Cell>, FilterError>)
    ensures r == if |columns| == |cells| then Success(cells) else Filtered(cells, columns)
  {
    if |columns| == |cells| {
      return Success(cells);
    }
    var kept := [];
    var i := 0;
    while i < |cells|
      invariant i <= |cells|
      invariant Filtered(cells[..i], columns) == Success(kept)
    {
      assert cells[..i + 1][..i] == cells[..i];
      if cells[i].id !in columns {
        if Named(cells[..i], cells[i].id) {
          r := Failure(KeyError(cells[i].id));
          FilteredFailureSticks(cells, columns, i + 1);
          return;
        }
      } else {
        kept := kept + [cells[i]];
      }
      i := i + 1;
    }
    assert cells[..i] == cells;
    r := Success(kept);
  }

  // ---------------------------------------------------------------- downsampling

  /** The number of cells of cluster `c`. */
  function InCluster(s: seq<Cell>, c: int): nat {
    if s == [] then 0 else InCluster(s[..|s| - 1], c) + (if s[|s| - 1].cluster == c then 1 else 0)
  }

  lemma {:induction false} InClusterConcat(a: seq<Cell>, b: seq<Cell>, c: int)
    ensures InCluster(a + b, c) == InCluster(a, c) + InCluster(b, c)
  {
    if b == [] {
      assert a + b == a;
    } else {
      var init := b[..|b| - 1];
      InClusterConcat(a, init, c);
      assert (a + b)[..|a + b| - 1] == a + init;
    }
  }

  lemma InClusterAppend(s: seq<Cell>, x: Cell, c: int)
    ensures InCluster(s + [x], c) == InCluster(s, c) + (if x.cluster == c then 1 else 0)
  {
    assert (s + [x])[..|s|] == s;
  }

  lemma InClusterAppendAll(s: seq<Cell>, x: Cell)
    ensures forall c :: InCluster(s + [x], c) == InCluster(s, c) + (if x.cluster == c then 1 else 0)
  {
    forall c ensures InCluster(s + [x], c) == InCluster(s, c) + (if x.cluster == c then 1 else 0) {
      InClusterAppend(s, x, c);
    }
  }

  /** The first cell's contribution to its cluster. */
  lemma InClusterFront(cells: seq<Cell>, c: int)
    requires cells != []
    ensures InCluster(cells, c) == InCluster(cells[1..], c) + FirstCount(cells, c)
  {
    assert cells == [cells[0]] + cells[1..];
    InClusterConcat([cells[0]], cells[1..], c);
    assert [cells[0]][..0] == [];
  }

  /** Taking out the cell at position i lowers its cluster's count by one. */
  lemma InClusterRemoveAt(s: seq<Cell>, i: nat, c: int)
    requires i < |s|
    ensures InCluster(s, c) == InCluster(s[..i] + s[i + 1..], c) + (if s[i].cluster == c then 1 else 0)
  {
    assert s == s[..i] + [s[i]] + s[i + 1..];
    InClusterConcat(s[..i] + [s[i]], s[i + 1..], c);
    InClusterAppend(s[..i], s[i], c);
    InClusterConcat(s[..i], s[i + 1..], c);
  }

  /** A cluster without cells counts zero in anything drawn from the cells. */
  lemma {:induction false} InClusterAbsent(s: seq<Cell>, cells: seq<Cell>, c: int)
    requires multiset(s) <= multiset(cells) && c !in Clusters(cells)
    ensures InCluster(s, c) == 0
  {
    if s != [] {
      var init := s[..|s| - 1];
      var x := s[|s| - 1];
      assert s == init + [x];
      assert x in multiset(cells);
      assert multiset(init) <= multiset(s);
      InClusterAbsent(init, cells, c);
    }
  }

  /** The set of clusters in the series (the keys of the `counts` dict). */
  function Clusters(cells: seq<Cell>): set<int> {
    set x | x in cells :: x.cluster
  }

  /**
   * The downsampling target: more than 3000 genes lowers a target of 2500
   * or more to 2500.
   */
  function Target(down: int, geneCount: nat): (m: int)
    ensures geneCount > 3000 ==> m == Min(down, 2500)
    ensures geneCount <= 3000 ==> m == down
  {
    if geneCount > 3000 && down >= 2500 then 2500 else down
  }

  /** The quota `ceil(count[c] * (M / N))` of cluster c, computed exactly. */
  function Quota(cells: seq<Cell>, c: int, m: int): (q: int)
    requires cells != []
    ensures q * |cells| >= InCluster(cells, c) * m
    ensures (q - 1) * |cells| < InCluster(cells, c) * m
  {
    CeilDivSpec(InCluster(cells, c) * m, |cells|);
    CeilDiv(InCluster(cells, c) * m, |cells|)
  }

  /** 1 for the cluster of the first cell, which is always kept; 0 for the others. */
  function FirstCount(cells: seq<Cell>, c: int): nat
    requires cells != []
  {
    if cells[0].cluster == c then 1 else 0
  }

  /**
   * What downsampling keeps of a series larger than the target m: the first
   * cell, a sub-multiset of the cells, and per cluster the larger of the
   * quota and the first-cell count.
   */
  ghost predicate Downsampled(cells: seq<Cell>, m: int, kept: seq<Cell>)
    requires cells != []
  {
    && kept != [] && kept[0] == cells[0]
    && multiset(kept) <= multiset(cells)
    && forall c :: InCluster(kept, c) == Max(FirstCount(cells, c), Quota(cells, c, m))
  }

  /** The random index stream: at visit k, `randint(0, N-k-2)` is a position of the N-1-k unvisited cells. */
  predicate ValidPicks(cells: seq<Cell>, picks: seq<int>) {
    && |picks| + 1 >= |cells|
    && forall k :: 0 <= k < |picks| && k + 1 < |cells| ==> 0 <= picks[k] <= |cells| - k - 2
  }

  /** With m below the series length, no quota exceeds its cluster's size. */
  lemma QuotaBound(cells: seq<Cell>, c: int, m: int)
    requires cells != [] && m < |cells|
    ensures Quota(cells, c, m) <= InCluster(cells, c)
    ensures FirstCount(cells, c) <= InCluster(cells, c)
  {
    var n, k := |cells|, InCluster(cells, c);
    CeilDivSpec(k * m, n);
    ProductBound(Quota(cells, c, m), k, m, n);
    InClusterFront(cells, c);
  }

  lemma ProductBound(q: int, k: nat, m: int, n: int)
    requires 0 < n && m < n && (q - 1) * n < k * m
    ensures q <= k
  {
    MulMono(n, m, k);
    LessCancel(q - 1, k, n);
  }

  lemma MulMono(a: int, b: int, c: int)
    requires a >= b && c >= 0
    ensures a * c >= b * c
  {
  }

  lemma LessCancel(a: int, b: int, n: int)
    requires n > 0 && a * n < b * n
    ensures a < b
  {
  }

  /** `take_nums[c]` for a key, 0 for a cluster that is not one. */
  function Get(take: map<int, int>, c: int): int {
    if c in take then take[c] else 0
  }

  /**
   * The state of the visiting loop: `kept` and the unvisited `rest` are
   * drawn from the cells; and per cluster the kept count is what visiting
   * all but the unvisited cells leaves, capped by the larger of the quota
   * and the first-cell count.
   */
  ghost predicate Visiting(cells: seq<Cell>, take: map<int, int>, kept: seq<Cell>, rest: seq<Cell>)
    requires cells != []
  {
    Drawn(cells, kept, rest) && Counted(cells, take, kept, rest)
  }

  ghost predicate Drawn(cells: seq<Cell>, kept: seq<Cell>, rest: seq<Cell>)
    requires cells != []
  {
    && kept != [] && kept[0] == cells[0]
    && multiset(kept) + multiset(rest) <= multiset(cells)
  }

  ghost predicate Counted(cells: seq<Cell>, take: map<int, int>, kept: seq<Cell>, rest: seq<Cell>)
    requires cells != []
  {
    && (forall c :: InCluster(rest, c) + FirstCount(cells, c) <= InCluster(cells, c))
    && (forall c :: InCluster(kept, c) ==
          Min(InCluster(cells, c) - InCluster(rest, c), Max(FirstCount(cells, c), Get(take, c))))
  }

  /** Before the first visit: the first cell kept, every other cell unvisited. */
  lemma VisitStart(cells: seq<Cell>, take: map<int, int>)
    requires cells != []
    ensures Visiting(cells, take, [cells[0]], cells[1..])
  {
    assert cells == [cells[0]] + cells[1..];
    forall c ensures InCluster(cells, c) == InCluster(cells[1..], c) + FirstCount(cells, c) {
      InClusterFront(cells, c);
    }
    forall c ensures InCluster([cells[0]], c) == FirstCount(cells, c) {
      InClusterAppend([], cells[0], c);
      assert [] + [cells[0]] == [cells[0]];
    }
  }

  /**
   * One visit: cell `rest[i]` leaves the unvisited cells and is kept exactly
   * when its cluster's kept count is below its quota.
   */
  lemma VisitStep(cells: seq<Cell>, take: map<int, int>, kept: seq<Cell>, rest: seq<Cell>, i: nat, accept: bool)
    requires cells != [] && Visiting(cells, take, kept, rest) && i < |rest|
    requires accept <==> InCluster(kept, rest[i].cluster) < Get(take, rest[i].cluster)
    ensures Visiting(cells, take, if accept then kept + [rest[i]] else kept, rest[..i] + rest[i + 1..])
  {
    DrawnStep(cells, kept, rest, i, accept);
    CountedStep(cells, take, kept, rest, i, accept);
  }

  lemma DrawnStep(cells: seq<Cell>, kept: seq<Cell>, rest: seq<Cell>, i: nat, accept: bool)
    requires cells != [] && Drawn(cells, kept, rest) && i < |rest|
    ensures Drawn(cells, if accept then kept + [rest[i]] else kept, rest[..i] + rest[i + 1..])
  {
    RemoveAtMultiset(rest, i);
    if accept {
      assert (kept + [rest[i]])[0] == kept[0];
    }
  }

  lemma CountedStep(cells: seq<Cell>, take: map<int, int>, kept: seq<Cell>, rest: seq<Cell>, i: nat, accept: bool)
    requires cells != [] && Counted(cells, take, kept, rest) && i < |rest|
    requires accept <==> InCluster(kept, rest[i].cluster) < Get(take, rest[i].cluster)
    ensures Counted(cells, take, if accept then kept + [rest[i]] else kept, rest[..i] + rest[i + 1..])
  {
    forall c
      ensures InCluster(rest[..i] + rest[i + 1..], c) + FirstCount(cells, c) <= InCluster(cells, c)
      ensures InCluster(if accept then kept + [rest[i]] else kept, c) ==
                Min(InCluster(cells, c) - InCluster(rest[..i] + rest[i + 1..], c), Max(FirstCount(cells, c), Get(take, c)))
    {
      VisitCluster(cells, take, kept, rest, i, accept, c);
    }
  }

  lemma RemoveAtMultiset(s: seq<Cell>, i: nat)
    requires i < |s|
    ensures multiset(s) == multiset(s[..i] + s[i + 1..]) + multiset{s[i]}
  {
    assert s == s[..i] + [s[i]] + s[i + 1..];
  }

  /** One visit, seen from cluster c. */
  lemma VisitCluster(cells: seq<Cell>, take: map<int, int>, kept: seq<Cell>, rest: seq<Cell>, i: nat, accept: bool, c: int)
    requires cells != [] && i < |rest|
    requires InCluster(rest, c) + FirstCount(cells, c) <= InCluster(cells, c)
    requires InCluster(kept, c) == Min(InCluster(cells, c) - InCluster(rest, c), Max(FirstCount(cells, c), Get(take, c)))
    requires accept <==> InCluster(kept, rest[i].cluster) < Get(take, rest[i].cluster)
    ensures InCluster(rest[..i] + rest[i + 1..], c) + FirstCount(cells, c) <= InCluster(cells, c)
    ensures InCluster(if accept then kept + [rest[i]] else kept, c) ==
              Min(InCluster(cells, c) - InCluster(rest[..i] + rest[i + 1..], c), Max(FirstCount(cells, c), Get(take, c)))
  {
    var x := rest[i];
    InClusterRemoveAt(rest, i, c);
    if accept {
      InClusterAppend(kept, x, c);
    }
    if x.cluster == c {
      CountStep(InCluster(cells, c) - InCluster(rest, c), FirstCount(cells, c), Get(take, c), InCluster(kept, c));
    }
  }

  /**
   * The count arithmetic of one visit to a cell of cluster c, with v cells of
   * c visited so far (the first included), first-cell count f, quota t and
   * kept count k.
   */
  lemma CountStep(v: int, f: int, t: int, k: int)
    requires v >= f && k == Min(v, Max(f, t))
    ensures k < t ==> k + 1 == Min(v + 1, Max(f, t))
    ensures k >= t ==> k == Min(v + 1, Max(f, t))
  {
  }

  /** The `take_nums` dict holds every cluster's quota. */
  ghost predicate Quotas(cells: seq<Cell>, m: int, take: map<int, int>)
    requires cells != []
  {
    take.Keys == Clusters(cells) && forall c :: c in take ==> take[c] == Quota(cells, c, m)
  }

  /** After the last visit the kept counts are the quotas (or the first-cell count). */
  lemma VisitEnd(cells: seq<Cell>, m: int, take: map<int, int>, kept: seq<Cell>)
    requires cells != [] && m < |cells| && Quotas(cells, m, take) && Visiting(cells, take, kept, [])
    ensures Downsampled(cells, m, kept)
  {
    forall c ensures InCluster(kept, c) == Max(FirstCount(cells, c), Quota(cells, c, m)) {
      QuotaBound(cells, c, m);
      if c !in take {
        InClusterAbsent(cells, cells, c);
        InClusterAbsent(kept, cells, c);
        assert Quota(cells, c, m) == 0;
      }
    }
  }

  /**
   * The downsampling of read_data.  `down` is the `-D` option (None when it
   * is absent); `picks` stands for the `random.randint` calls.
   */
  method Downsample(cells: seq<Cell>, down: Option<int>, geneCount: nat, picks: seq<int>)
    returns (r: Result<seq<Cell>, DownsampleError>)
    requires ValidPicks(cells, picks)
    ensures down.None? ==> r == Success(cells)
    ensures down.Some? && |cells| <= Target(down.value, geneCount) ==> r == Success(cells)
    ensures down.Some? && |cells| > Target(down.value, geneCount) ==>
              if cells == [] then r == Failure(NoFirstCell)
              else r.Success? && Downsampled(cells, Target(down.value, geneCount), r.value)
  {
    if down.None? {
      return Success(cells);
    }
    var m := Target(down.value, geneCount);
    if |cells| <= m {
      return Success(cells);
    }
    if |cells| == 0 {
      // `cls_ser.index[0]` of an empty series
      return Failure(NoFirstCell);
    }
    var kept := KeepQuotas(cells, m, picks);
    r := Success(kept);
  }

  /**
   * The quotas, then the visits: the first cell is kept and every other
   * cell, in the order the picks choose, is kept while its cluster is
   * below its quota.
   */
  method KeepQuotas(cells: seq<Cell>, m: int, picks: seq<int>) returns (kept: seq<Cell>)
    requires cells != [] && m < |cells| && ValidPicks(cells, picks)
    ensures Downsampled(cells, m, kept)
  {
    var n := |cells|;
    var take := QuotaTable(cells, m);
    var counts := FirstTallies(cells, take);
    kept := [cells[0]];
    var rest := cells[1..];
    VisitStart(cells, take);
    var num := 0;
    while num < n - 1
      invariant num <= n - 1 && |rest| == n - 1 - num
      invariant Visiting(cells, take, kept, rest)
      invariant Tallies(cells, take, kept, counts)
    {
      var i := picks[num];
      var x := rest[i];
      TallyStep(cells, take, kept, rest, counts, i);
      VisitStep(cells, take, kept, rest, i, counts[x.cluster] < take[x.cluster]);
      if counts[x.cluster] < take[x.cluster] {
        kept := kept + [x];
        counts := counts[x.cluster := counts[x.cluster] + 1];
      }
      rest := rest[..i] + rest[i + 1..];
      num := num + 1;
    }
    VisitEnd(cells, m, take, kept);
  }

  /** `take_nums`: the quota of every cluster, from the cluster sizes. */
  method QuotaTable(cells: seq<Cell>, m: int) returns (take: map<int, int>)
    requires cells != []
    ensures Quotas(cells, m, take)
  {
    var counts := CountClusters(cells);
    take := map c | c in counts :: CeilDiv(counts[c] * m, |cells|);
  }

  /** `counts` reset to zero for every cluster, then one for the first cell's. */
  method FirstTallies(cells: seq<Cell>, take: map<int, int>) returns (counts: map<int, int>)
    requires cells != [] && take.Keys == Clusters(cells)
    ensures Tallies(cells, take, [cells[0]], counts)
  {
    counts := map c | c in take :: 0;
    counts := counts[cells[0].cluster := 1];
    InClusterAppendAll([], cells[0]);
    assert [] + [cells[0]] == [cells[0]];
  }

  /** The `counts` dict: per cluster, the kept count. */
  ghost predicate Tallies(cells: seq<Cell>, take: map<int, int>, kept: seq<Cell>, counts: map<int, int>)
  {
    && counts.Keys == take.Keys == Clusters(cells)
    && (forall c :: c in counts ==> counts[c] == InCluster(kept, c))
  }

  /** The dict follows a visit: the visited cell's cluster is a key, and its count grows when the cell is kept. */
  lemma TallyStep(cells: seq<Cell>, take: map<int, int>, kept: seq<Cell>, rest: seq<Cell>,
                  counts: map<int, int>, i: nat)
    requires cells != [] && Visiting(cells, take, kept, rest) && Tallies(cells, take, kept, counts)
    requires i < |rest|
    ensures rest[i].cluster in counts && rest[i].cluster in take
    ensures counts[rest[i].cluster] == InCluster(kept, rest[i].cluster)
    ensures take[rest[i].cluster] == Get(take, rest[i].cluster)
    ensures Tallies(cells, take, kept + [rest[i]], counts[rest[i].cluster := counts[rest[i].cluster] + 1])
  {
    var x := rest[i];
    assert x in multiset(cells) by {
      assert x in multiset(rest);
    }
    InClusterAppendAll(kept, x);
  }

  /** The counting loop: `counts[clus] += 1` for every cell, from zero for every cluster. */
  method CountClusters(cells: seq<Cell>) returns (counts: map<int, int>)
    ensures counts.Keys == Clusters(cells)
    ensures forall c :: c in counts ==> counts[c] == InCluster(cells, c)
  {
    counts := map c | c in Clusters(cells) :: 0;
    var i := 0;
    while i < |cells|
      invariant i <= |cells|
      invariant counts.Keys == Clusters(cells)
      invariant forall c :: c in counts ==> counts[c] == InCluster(cells[..i], c)
    {
      var x := cells[i];
      assert cells[..i + 1] == cells[..i] + [x];
      InClusterAppendAll(cells[..i], x);
      counts := counts[x.cluster := counts[x.cluster] + 1];
      i := i + 1;
    }
    assert cells[..i] == cells;
  }

  /**
   * With a positive target below the series length, each cluster keeps
   * exactly min(count, ceil(count * M / N)) of its cells: the first cell's
   * cluster has a quota of at least one, so keeping the first cell costs
   * no cluster anything beyond its quota.
   */
  lemma KeptQuota(cells: seq<Cell>, m: int, kept: seq<Cell>, c: int)
    requires cells != [] && 0 < m < |cells| && Downsampled(cells, m, kept)
    ensures InCluster(kept, c) == Min(InCluster(cells, c), Quota(cells, c, m))
  {
    QuotaBound(cells, c, m);
    assert InCluster(kept, c) == Max(FirstCount(cells, c), Quota(cells, c, m));
    FirstWithinQuota(InCluster(cells, c), FirstCount(cells, c), m, |cells|);
  }

  /** The ceiling quota of a non-empty cluster is at least one; of an empty one, zero. */
  lemma FirstWithinQuota(k: nat, f: nat, m: int, n: int)
    requires 0 < m < n && f <= 1 && f <= k
    ensures Max(f, CeilDiv(k * m, n)) == Min(k, CeilDiv(k * m, n))
  {
    var q := CeilDiv(k * m, n);
    CeilDivSpec(k * m, n);
    ProductBound(q, k, m, n);
    if k > 0 {
      MulMono(k, 1, m);
      PositiveFactor(q, n);
    } else {
      assert k * m == 0;
    }
  }

  lemma PositiveFactor(q: int, n: int)
    requires n > 0 && q * n > 0
    ensures q > 0
  {
  }

  /** Distinct cells stay distinct: downsampling never keeps a cell twice. */
  lemma KeptDistinct(cells: seq<Cell>, m: int, kept: seq<Cell>)
    requires cells != [] && Downsampled(cells, m, kept)
    requires forall i, j :: 0 <= i < j < |cells| ==> cells[i] != cells[j]
    ensures forall i, j :: 0 <= i < j < |kept| ==> kept[i] != kept[j]
  {
    forall i, j | 0 <= i < j < |kept| ensures kept[i] != kept[j] {
      if kept[i] == kept[j] {
        var x := kept[i];
        assert kept == kept[..j] + [x] + kept[j + 1..];
        assert kept[..j][i] == x;
        assert multiset(kept)[x] >= 2;
        DistinctOnce(cells, x);
        assert false;
      }
    }
  }

  lemma DistinctOnce(cells: seq<Cell>, x: Cell)
    requires forall i, j :: 0 <= i < j < |cells| ==> cells[i] != cells[j]
    ensures multiset(cells)[x] <= 1
  {
    if cells != [] {
      var tail := cells[1..];
      assert cells == [cells[0]] + tail;
      DistinctOnce(tail, x);
      if cells[0] == x {
        assert x !in tail;
      }
    }
  }

  /**
   * The total kept can exceed the target: three cells in three clusters
   * with target 1 each have quota ceil(1/3) = 1, so all three are kept.
   */
  lemma TotalCanExceedTarget(cells: seq<Cell>, kept: seq<Cell>)
    requires cells == [Cell("a", 1), Cell("b", 2), Cell("c", 3)]
    requires Downsampled(cells, 1, kept)
    ensures |kept| == 3
  {
    forall c | c in {1, 2, 3} ensures InCluster(kept, c) == 1 {
      assert InCluster(cells, c) == 1 by {
        var a, b := [Cell("a", 1)], [Cell("a", 1), Cell("b", 2)];
        InClusterAppend([], Cell("a", 1), c);
        assert [] + [Cell("a", 1)] == a;
        InClusterAppend(a, Cell("b", 2), c);
        assert a + [Cell("b", 2)] == b;
        InClusterAppend(b, Cell("c", 3), c);
        assert b + [Cell("c", 3)] == cells;
      }
      assert Quota(cells, c, 1) == 1;
    }
    assert multiset(kept) == multiset(cells) by {
      KeptAll(cells, kept);
    }
  }

  lemma KeptAll(cells: seq<Cell>, kept: seq<Cell>)
    requires cells == [Cell("a", 1), Cell("b", 2), Cell("c", 3)]
    requires multiset(kept) <= multiset(cells)
    requires forall c | c in {1, 2, 3} :: InCluster(kept, c) == 1
    ensures multiset(kept) == multiset(cells)
  {
    forall x | x in cells ensures x in multiset(kept) {
      var c := x.cluster;
      assert InCluster(kept, c) == 1;
      if x !in kept {
        NoneOfCluster(kept, cells, x);
      }
    }
  }

  lemma {:induction false} NoneOfCluster(kept: seq<Cell>, cells: seq<Cell>, x: Cell)
    requires cells == [Cell("a", 1), Cell("b", 2), Cell("c", 3)]
    requires multiset(kept) <= multiset(cells) && x in cells && x !in kept
    ensures InCluster(kept, x.cluster) == 0
  {
    if kept != [] {
      var init := kept[..|kept| - 1];
      var last := kept[|kept| - 1];
      assert kept == init + [last];
      assert last in multiset(cells);
      assert last != x;
      assert multiset(init) <= multiset(kept);
      assert x !in init;
      NoneOfCluster(init, cells, x);
    }
  }
}
