/**
 * The brute-force index of `Bruteforce.hpp`: every stored observation is
 * offered to a bounded neighbour queue, which therefore ends up holding the
 * nearest candidates of the whole dataset. This is the reference answer the
 * other indices are measured against.
 */
module Bruteforce {
  import opened Wrappers
  import opened Pairs
  import opened Metric
  import Queue
  import Mock
  import FindNN

  /** The `k` nearest of all stored observations to `query`, ascending, with raw distances. */
  function NearestTo(m: Metric, data: seq<real>, dim: nat, n: nat, query: seq<real>, k: nat): (r: seq<Pair>)
    requires n * dim <= |data|
    ensures |r| == Min(k, n)
    ensures forall j :: 0 <= j < |r| ==> 0 <= r[j].index < n
  {
    SortedInRange(Candidates(m, data, dim, n, query), n);
    Sort(Candidates(m, data, dim, n, query))[..Min(k, n)]
  }

  /** Sorting keeps the indices within the range they had. */
  lemma SortedInRange(c: seq<Pair>, n: int)
    requires forall x :: 0 <= x < |c| ==> 0 <= c[x].index < n
    ensures forall j :: 0 <= j < |c| ==> 0 <= Sort(c)[j].index < n
  {
    var sorted := Sort(c);
    forall j | 0 <= j < |c| ensures 0 <= sorted[j].index < n {
      assert sorted[j] in multiset(c) by { assert sorted[j] in multiset(sorted); }
      var x :| 0 <= x < |c| && c[x] == sorted[j];
    }
  }

  /** What `search(i, k)` reports: the `k + 1` nearest to observation `i`, less `i` itself, normalized. */
  function IndexResult(m: Metric, data: seq<real>, dim: nat, n: nat, i: nat, k: nat): (r: seq<(int, real)>)
    requires i < n && n * dim <= |data|
    ensures forall j :: 0 <= j < |r| ==> 0 <= r[j].0 < n
  {
    RowFits(n, dim, i);
    Queue.WithoutSelfInRange(NearestTo(m, data, dim, n, Row(data, dim, i), k + 1), i, n);
    Normalized(m, Queue.WithoutSelf(NearestTo(m, data, dim, n, Row(data, dim, i), k + 1), i))
  }

  /** What `search(query, k)` reports: the `k` nearest to `query`, normalized. */
  function QueryResult(m: Metric, data: seq<real>, dim: nat, n: nat, query: seq<real>, k: nat): (r: seq<(int, real)>)
    requires n * dim <= |data|
    ensures forall j :: 0 <= j < |r| ==> 0 <= r[j].0 < n
  {
    Normalized(m, NearestTo(m, data, dim, n, query, k))
  }

  /** Pairs the outputs of a report back up, as `report(output, ...)` does. */
  function Zipped(s: seq<Pair>): (r: seq<(int, real)>)
    ensures |r| == |s| && forall j :: 0 <= j < |s| ==> r[j] == (s[j].index, s[j].dist)
  {
    seq(|s|, j requires 0 <= j < |s| => (s[j].index, s[j].dist))
  }

  /** The candidates an index search keeps, before self is dropped: sorted, distinct, non-negative. */
  lemma NearestToFacts(m: Metric, data: seq<real>, dim: nat, n: nat, query: seq<real>, k: nat)
    requires n * dim <= |data| && NonNegative(m)
    ensures Sorted(NearestTo(m, data, dim, n, query, k))
    ensures DistinctIndices(NearestTo(m, data, dim, n, query, k))
    ensures NonNegativeDistances(NearestTo(m, data, dim, n, query, k))
  {
    var c := Candidates(m, data, dim, n, query);
    var sorted := Sort(c);
    var s := NearestTo(m, data, dim, n, query, k);
    CandidatesDistinct(m, data, dim, n, query);
    DistinctIndicesPermutation(sorted, c);
    forall j | 0 <= j < |s| ensures s[j].dist >= 0.0 {
      assert s[j] == sorted[j];
      assert sorted[j] in multiset(c) by { assert sorted[j] in multiset(sorted); }
      var x :| 0 <= x < n && c[x] == sorted[j];
    }
  }

  /**
   * A search by index reports `min(k, n - 1)` neighbours, none of them the
   * observation itself, no index twice, all in range, by increasing distance.
   */
  lemma IndexResultProperties(m: Metric, data: seq<real>, dim: nat, n: nat, i: nat, k: nat)
    requires i < n && n * dim <= |data| && NonNegative(m) && StrictlyMonotone(m)
    ensures var r := IndexResult(m, data, dim, n, i, k);
      && |r| == Min(k, n - 1)
      && (forall j :: 0 <= j < |r| ==> r[j].0 != i && 0 <= r[j].0 < n)
      && (forall j, l :: 0 <= j < l < |r| ==> r[j].0 != r[l].0 && r[j].1 <= r[l].1)
  {
    RowFits(n, dim, i);
    var q := Row(data, dim, i);
    var s := NearestTo(m, data, dim, n, q, k + 1);
    NearestToFacts(m, data, dim, n, q, k + 1);
    var w := Queue.WithoutSelf(s, i);
    Queue.WithoutSelfDropsOne(s, i);
    Queue.WithoutSelfSorted(s, i);
    Queue.WithoutSelfExcludes(s, i);
    var r := IndexResult(m, data, dim, n, i, k);
    assert r == Normalized(m, w);
    forall j | 0 <= j < |w| ensures w[j].dist >= 0.0 && 0 <= w[j].index < n && w[j].index != i {
      assert w[j] in multiset(s) by {
        assert w[j] in multiset(w);
      }
      assert Indices(w)[j] == w[j].index;
    }
    forall j, l | 0 <= j < l < |r| ensures r[j].1 <= r[l].1 {
      assert Le(w[j], w[l]);
      MonotoneLe(m, w[j].dist, w[l].dist);
    }
  }

  /** No observation other than `i` sits at raw distance zero from the row of `i`. */
  ghost predicate Isolated(m: Metric, data: seq<real>, dim: nat, n: nat, i: nat) {
    && (i + 1) * dim <= |data|
    && forall x :: 0 <= x < n && x != i ==>
         ((x + 1) * dim <= |data| && m.raw(Row(data, dim, i), Row(data, dim, x)) > 0.0)
  }

  /**
   * Querying with the row of observation `i`, when no other observation sits
   * at distance zero from it, finds `i` first at distance zero; the rest is
   * the search by index.
   */
  lemma SelfQueryFirst(m: Metric, data: seq<real>, dim: nat, n: nat, i: nat, k: nat)
    requires i < n && n * dim <= |data| && ZeroOnSelf(m) && NonNegative(m) && Isolated(m, data, dim, n, i)
    ensures QueryResult(m, data, dim, n, Row(data, dim, i), k + 1)
      == [(i, m.normalize(0.0))] + IndexResult(m, data, dim, n, i, k)
  {
    var q := Row(data, dim, i);
    var s := NearestTo(m, data, dim, n, q, k + 1);
    SelfNearestFirst(m, data, dim, n, i, k);
    NearestToFacts(m, data, dim, n, q, k + 1);
    Queue.WithoutSelfWhenSelfFirst(s, i);
    NormalizedHead(m, s);
    assert QueryResult(m, data, dim, n, q, k + 1) == Normalized(m, s);
    assert IndexResult(m, data, dim, n, i, k) == Normalized(m, s[1..]);
  }

  /** Normalizing a non-empty list reports its head first, then the rest. */
  lemma NormalizedHead(m: Metric, s: seq<Pair>)
    requires s != []
    ensures Normalized(m, s) == [(s[0].index, m.normalize(s[0].dist))] + Normalized(m, s[1..])
  {
    assert Normalized(m, s)[1..] == Normalized(m, s[1..]);
  }

  /** Under the same conditions, observation `i` heads the candidates nearest to its own row, at distance zero. */
  lemma SelfNearestFirst(m: Metric, data: seq<real>, dim: nat, n: nat, i: nat, k: nat)
    requires i < n && n * dim <= |data| && ZeroOnSelf(m) && Isolated(m, data, dim, n, i)
    ensures var s := NearestTo(m, data, dim, n, Row(data, dim, i), k + 1); s != [] && s[0] == Pair(0.0, i)
  {
    var q := Row(data, dim, i);
    var c := Candidates(m, data, dim, n, q);
    forall x | 0 <= x < |c| && x != i ensures c[i].dist < c[x].dist {
      assert c[x].dist == m.raw(q, Row(data, dim, x));
    }
    LeastHeadsSort(c, i);
  }

  /** A candidate strictly closer than all others comes first after sorting. */
  lemma LeastHeadsSort(c: seq<Pair>, i: nat)
    requires i < |c| && forall x :: 0 <= x < |c| && x != i ==> c[i].dist < c[x].dist
    ensures Sort(c)[0] == c[i]
  {
    var sorted := Sort(c);
    assert c[i] in multiset(sorted) by { assert c[i] in multiset(c); }
    SortedHeadIsLeast(sorted, c[i]);
    assert sorted[0] in multiset(c) by { assert sorted[0] in multiset(sorted); }
    var x :| 0 <= x < |c| && c[x] == sorted[0];
  }

  /**
   * In a neighbour list built over the brute-force index, entry `i` has
   * `min(k, n - 1)` neighbours and never lists `i` itself.
   */
  lemma NeighborListEntry(m: Metric, data: seq<real>, dim: nat, n: nat, i: nat, k: nat)
    requires i < n && n * dim <= |data| && NonNegative(m) && StrictlyMonotone(m)
    ensures var r := IndexResult(m, data, dim, n, i, FindNN.CapK(k, n));
      |r| == Min(k, n - 1) && forall j :: 0 <= j < |r| ==> r[j].0 != i
  {
    IndexResultProperties(m, data, dim, n, i, FindNN.CapK(k, n));
  }

  class BruteforcePrebuilt {
    const dim: nat
    const obs: nat
    const longNdim: nat := dim
    const data: seq<real>
    const metric: Metric

    constructor (numDim: nat, numObs: nat, data: seq<real>, metric: Metric)
      ensures dim == numDim && obs == numObs && this.data == data && this.metric == metric
    {
      dim := numDim;
      obs := numObs;
      this.data := data;
      this.metric := metric;
    }

    function NumDimensions(): (r: nat)
      ensures r == dim
    {
      dim
    }

    function NumObservations(): (r: nat)
      ensures r == obs
    {
      obs
    }

    /** The private scan: every observation, once each and in index order, is offered to the queue. */
    method Scan(query: seq<real>, nearest: Queue.NeighborQueue)
      requires obs * dim <= |data| && nearest.Valid()
      modifies nearest
      ensures nearest.Valid() && nearest.neighbors == old(nearest.neighbors)
      ensures nearest.added == old(nearest.added) + multiset(Candidates(metric, data, dim, obs, query))
    {
      ghost var c := Candidates(metric, data, dim, obs, query);
      for x := 0 to obs
        invariant nearest.Valid() && nearest.neighbors == old(nearest.neighbors)
        invariant nearest.added == old(nearest.added) + multiset(c[..x])
      {
        RowFits(obs, dim, x);
        ScanStep(old(nearest.added), c, x);
        nearest.Add(x, metric.raw(query, Row(data, dim, x)));
      }
      assert c[..obs] == c;
    }

    /** Only the distances are rewritten, each by `normalize`; indices and order stay. */
    static method Normalize(metric: Metric, results: seq<(int, real)>) returns (r: seq<(int, real)>)
      ensures |r| == |results|
      ensures forall j :: 0 <= j < |r| ==> r[j] == (results[j].0, metric.normalize(results[j].1))
    {
      r := results;
      for j := 0 to |r|
        invariant |r| == |results|
        invariant forall l :: 0 <= l < j ==> r[l] == (results[l].0, metric.normalize(results[l].1))
        invariant forall l :: j <= l < |r| ==> r[l] == results[l]
      {
        r := r[j := (r[j].0, metric.normalize(r[j].1))];
      }
    }

    /** Neighbours of observation `i`: a queue of `k + 1`, reported without `i`. */
    method SearchIndex(i: nat, k: nat) returns (output: seq<(int, real)>)
      requires i < obs && obs * dim <= |data|
      ensures output == IndexResult(metric, data, dim, obs, i, k)
    {
      var nearest := new Queue.NeighborQueue();
      nearest.Reset(k + 1);
      RowFits(obs, dim, i);
      var query := Row(data, dim, i);
      Scan(query, nearest);
      ghost var c := Candidates(metric, data, dim, obs, query);
      assert nearest.added == multiset(c);
      KSmallestIsSortPrefix(nearest.nearest, c, k + 1);
      ghost var s := nearest.nearest;
      var ids, ds := nearest.ReportSelf(Some([]), Some([]), i);
      ghost var w := Queue.WithoutSelf(s, i);
      output := FindNN.Zip((ids.value, ds.value));
      assert output == Zipped(w);
      output := Normalize(metric, output);
    }

    /** Neighbours of an arbitrary query vector: a queue of `k`, reported in full. */
    method SearchQuery(query: seq<real>, k: nat) returns (output: seq<(int, real)>)
      requires k > 0 && obs * dim <= |data|
      ensures output == QueryResult(metric, data, dim, obs, query, k)
    {
      var nearest := new Queue.NeighborQueue();
      nearest.Reset(k);
      Scan(query, nearest);
      ghost var c := Candidates(metric, data, dim, obs, query);
      KSmallestIsSortPrefix(nearest.nearest, c, k);
      ghost var s := nearest.nearest;
      var ids, ds := nearest.Report(Some([]), Some([]));
      output := FindNN.Zip((ids.value, ds.value));
      assert output == Zipped(s);
      output := Normalize(metric, output);
    }
  }

  /** The builder: copies the observations of the matrix, one after another, into a fresh store. */
  class BruteforceBuilder {
    const metric: Metric

    constructor (metric: Metric)
      ensures this.metric == metric
    {
      this.metric := metric;
    }

    method BuildRaw(mat: Mock.SimpleMatrix) returns (p: BruteforcePrebuilt)
      requires mat.numDim * mat.numObs <= |mat.data|
      ensures p.dim == mat.numDim && p.obs == mat.numObs && p.metric == metric
      ensures p.data == mat.data[..mat.numDim * mat.numObs]
    {
      var store := CopyObservations(mat);
      p := new BruteforcePrebuilt(mat.NumDimensions(), mat.NumObservations(), store, metric);
    }

    /** The copy loop: the `o`-th observation the workspace hands out goes to `[o * ndim, (o + 1) * ndim)`. */
    static method CopyObservations(mat: Mock.SimpleMatrix) returns (store: seq<real>)
      requires mat.numDim * mat.numObs <= |mat.data|
      ensures store == mat.data[..mat.numDim * mat.numObs]
    {
      var ndim := mat.NumDimensions();
      var nobs := mat.NumObservations();
      store := seq(ndim * nobs, _ => 0.0);
      var work := mat.CreateWorkspace();
      var at := 0;
      for o := 0 to nobs
        invariant at == o * ndim && work.at == o
        invariant |store| == ndim * nobs && store[..at] == mat.data[..at]
      {
        RowFits(nobs, ndim, o);
        var ptr := mat.GetObservation(work);
        store := store[..at] + mat.data[ptr..ptr + ndim] + store[at + ndim..];
        at := at + ndim;
      }
      assert store == store[..at];
    }
  }
}
