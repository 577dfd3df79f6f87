/**
 * main() (hgmd/__main__.py): the command-line options get their defaults
 * and bounds, and the sorted list of clusters is cut into consecutive
 * batches of `cores` clusters, one worker process per cluster of a batch.
 * Parsing the option strings, creating the output directories and running
 * the workers are not part of this model.
 */
module Launch {
  import opened Common

  /** The options as given on the command line, each possibly absent. */
  datatype Options = Options(trim: Option<int>, c: Option<int>, x: Option<int>, l: Option<int>, k: Option<int>)

  /** The options after main() has filled in defaults and bounds. */
  datatype Settings = Settings(trim: int, cores: nat, x: Option<int>, l: Option<int>, k: int)

  /** The error main() raises while planning the batches. */
  datatype LaunchError = ZeroDivision

  function Abs(n: int): nat { if n < 0 then -n else n }

  /**
   * Trim defaults to 2000; C becomes its absolute value, 1 when absent;
   * X and L stay optional; K defaults to 2 and is lowered to 4 when larger.
   */
  function Normalise(o: Options): (s: Settings)
    ensures s.k <= 4
    ensures s.x == o.x && s.l == o.l
  {
    var trim := if o.trim.Some? then o.trim.value else 2000;
    var c := if o.c.Some? then Abs(o.c.value) else 1;
    var k := if o.k.Some? then o.k.value else 2;
    Settings(trim, c, o.x, o.l, if k > 4 then 4 else k)
  }

  /** The settings given back as explicit options. */
  function Reissue(s: Settings): Options {
    Options(Some(s.trim), Some(s.cores), s.x, s.l, Some(s.k))
  }

  /** Normalising settings that are already normal changes nothing. */
  lemma NormaliseIdempotent(o: Options)
    ensures Normalise(Reissue(Normalise(o))) == Normalise(o)
  {
  }

  /** With no option given: Trim 2000, one core, no X or L, pairs (K = 2). */
  lemma NormaliseDefaults()
    ensures Normalise(Options(None, None, None, None, None)) == Settings(2000, 1, None, None, 2)
  {
  }

  /**
   * Each option on its own: an absent Trim becomes 2000 and a given one is
   * kept; an absent C becomes 1 and a given one loses its sign; an absent K
   * becomes 2, a given K above 4 is lowered to 4 and any other is kept.
   */
  lemma NormaliseBounds(o: Options)
    ensures o.trim.None? ==> Normalise(o).trim == 2000
    ensures o.trim.Some? ==> Normalise(o).trim == o.trim.value
    ensures o.c.None? ==> Normalise(o).cores == 1
    ensures o.k.None? ==> Normalise(o).k == 2
    ensures o.k.Some? && o.k.value > 4 ==> Normalise(o).k == 4
    ensures o.k.Some? && o.k.value <= 4 ==> Normalise(o).k == o.k.value
    ensures o.c.Some? ==> Normalise(o).cores == Abs(o.c.value) && Abs(o.c.value) >= o.c.value
  {
  }

  // ---------------------------------------------------------------- cluster list

  predicate StrictlyIncreasing(s: seq<int>) {
    forall i, j :: 0 <= i < j < |s| ==> s[i] < s[j]
  }

  /** Puts `x` into a strictly increasing list unless it is already there. */
  function InsertUnique(x: int, s: seq<int>): (r: seq<int>)
    requires StrictlyIncreasing(s)
    ensures StrictlyIncreasing(r)
    ensures forall y :: y in r <==> y == x || y in s
  {
    if s == [] then [x]
    else if x < s[0] then [x] + s
    else if x == s[0] then s
    else
      var rest := InsertUnique(x, s[1..]);
      assert forall k :: 0 <= k < |rest| ==> rest[k] in rest;
      [s[0]] + rest
  }

  /** `cls_ser.unique()` then `sort()`: each cluster label once, ascending. */
  function ClusterList(labels: seq<int>): (r: seq<int>)
    ensures StrictlyIncreasing(r)
    ensures forall y :: y in r <==> y in labels
  {
    if labels == [] then []
    else
      var rest := ClusterList(labels[1..]);
      assert labels == [labels[0]] + labels[1..];
      InsertUnique(labels[0], rest)
  }

  // ---------------------------------------------------------------- batches

  function Flatten(batches: seq<seq<int>>): seq<int> {
    if batches == [] then [] else Flatten(batches[..|batches| - 1]) + batches[|batches| - 1]
  }

  /**
   * A batch plan: ceil(n / cores) batches that put back together give the
   * cluster list; every batch but the last holds `cores` clusters, the last
   * between 1 and `cores`.
   */
  ghost predicate Batched(clusters: seq<int>, cores: nat, batches: seq<seq<int>>)
    requires cores > 0
  {
    && |batches| == CeilDiv(|clusters|, cores)
    && Flatten(batches) == clusters
    && (forall i :: 0 <= i < |batches| - 1 ==> |batches[i]| == cores)
    && (forall i :: 0 <= i < |batches| ==> 0 < |batches[i]| <= cores)
  }

  /**
   * The batching of main(): `cores` is C lowered to the number of clusters;
   * `group_num = ceil(len(clusters) / cores)` divides by zero when there is
   * no core or no cluster; otherwise each round takes `clusters[:cores]`
   * and keeps `clusters[cores:]` for the next.
   */
  method PlanBatches(clusters: seq<int>, c: nat) returns (r: Result<seq<seq<int>>, LaunchError>)
    ensures r.Failure? <==> Min(c, |clusters|) == 0
    ensures r.Failure? ==> r.error == ZeroDivision
    ensures r.Success? ==> Batched(clusters, Min(c, |clusters|), r.value)
  {
    var cores := c;
    if cores > |clusters| {
      cores := |clusters|;
    }
    if cores == 0 {
      return Failure(ZeroDivision);
    }
    var n := |clusters|;
    var groups := CeilDiv(n, cores);
    CeilDivSpec(n, cores);
    GroupsPositive(n, cores);
    var rest := clusters;
    var batches: seq<seq<int>> := [];
    var element := 0;
    ghost var taken := 0;
    while element < groups
      invariant element <= groups && |batches| == element && taken == element * cores
      invariant Flatten(batches) + rest == clusters
      invariant element < groups ==> |rest| == n - taken
      invariant element == groups ==> rest == []
      invariant forall i :: 0 <= i < element ==> 0 < |batches[i]| <= cores
      invariant forall i :: 0 <= i < element && i + 1 < groups ==> |batches[i]| == cores
    {
      RestBound(n, cores, groups, element, taken);
      var batch := rest[..Min(cores, |rest|)];
      assert Flatten(batches + [batch]) == Flatten(batches) + batch;
      assert batch + rest[Min(cores, |rest|)..] == rest;
      batches := batches + [batch];
      rest := rest[Min(cores, |rest|)..];
      element := element + 1;
      taken := taken + cores;
    }
    r := Success(batches);
  }

  lemma GroupsPositive(n: nat, cores: nat)
    requires 0 < cores <= n
    ensures CeilDiv(n, cores) >= 1
  {
    CeilDivSpec(n, cores);
  }

  /** Before the last round more than `cores` clusters are left; at the last round between 1 and `cores`. */
  lemma RestBound(n: nat, cores: nat, groups: nat, element: nat, taken: int)
    requires cores > 0 && groups == CeilDiv(n, cores) && element < groups && taken == element * cores
    ensures element + 1 < groups ==> n - taken > cores
    ensures element + 1 == groups ==> 0 < n - taken <= cores
    ensures taken + cores == (element + 1) * cores
  {
    CeilDivSpec(n, cores);
    if element + 1 < groups {
      assert (element + 1) * cores <= (groups - 1) * cores;
    } else {
      assert element * cores == (groups - 1) * cores;
    }
  }
}
