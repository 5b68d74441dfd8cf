/**
 * The brute-force index of the older interface (`BruteForce/BruteForce.hpp`):
 * the data are copied once, and a search offers every observation, in
 * index order, to the older neighbour queue. That queue refuses a candidate
 * tied with its current furthest one; as the candidates arrive in
 * increasing index order, the refused one is always the greater pair, so
 * the queue ends with exactly the k smallest (distance, index) pairs and a
 * result is the one the newer brute-force index reports.
 */
module LegacyBruteforce {
  import opened Pairs
  import opened Metric
  import LegacyQueue
  import Queue
  import FindNN
  import Bruteforce

  class BruteForce {
    const numDim: nat
    const numObs: nat
    const store: seq<real>
    const metric: Metric

    /** Stores the first `ndim * nobs` input values, exactly. */
    constructor (ndim: nat, nobs: nat, vals: seq<real>, metric: Metric)
      requires ndim * nobs <= |vals|
      ensures numDim == ndim && numObs == nobs && store == vals[..ndim * nobs] && this.metric == metric
    {
      numDim := ndim;
      numObs := nobs;
      store := vals[..ndim * nobs];
      this.metric := metric;
    }

    function Nobs(): (r: nat)
      ensures r == numObs
    {
      numObs
    }

    function Ndim(): (r: nat)
      ensures r == numDim
    {
      numDim
    }

    ghost predicate Valid() {
      numObs * numDim == |store|
    }

    /** Row `index` of the data as given to the constructor. */
    function Observation(index: nat): (r: seq<real>)
      requires Valid() && index < numObs
      ensures |r| == numDim
      ensures (index + 1) * numDim <= |store| && r == Row(store, numDim, index)
    {
      RowFits(numObs, numDim, index);
      Row(store, numDim, index)
    }

    /**
     * Offers every observation, once each and in index order, to the queue;
     * a queue that starts empty ends with the k smallest candidates.
     */
    method SearchNn(query: seq<real>, nearest: LegacyQueue.NeighborQueue)
      requires numObs * numDim <= |store| && nearest.Valid()
      modifies nearest`nearest, nearest`full, nearest`added
      ensures nearest.Valid()
      ensures nearest.added == old(nearest.added) + multiset(Candidates(metric, store, numDim, numObs, query))
      ensures old(nearest.added) == multiset{} ==> IsKSmallest(nearest.nearest, nearest.added, nearest.checkK)
    {
      ghost var c := Candidates(metric, store, numDim, numObs, query);
      ghost var empty := nearest.added == multiset{};
      for i := 0 to numObs
        invariant nearest.Valid()
        invariant nearest.added == old(nearest.added) + multiset(c[..i])
        invariant empty ==> IsKSmallest(nearest.nearest, nearest.added, nearest.checkK)
      {
        RowFits(numObs, numDim, i);
        ScanStep(old(nearest.added), c, i);
        if empty {
          OfferedNext(c, i, nearest.nearest, nearest.added, nearest.checkK, nearest.full);
        }
        nearest.Add(i, metric.raw(query, Row(store, numDim, i)));
      }
      assert c[..numObs] == c;
    }

    /** Rewrites each distance by `normalize`, leaving the indices and their order alone. */
    method Normalize(results: seq<(int, real)>) returns (r: seq<(int, real)>)
      ensures |r| == |results|
      ensures forall j :: 0 <= j < |r| ==> r[j] == (results[j].0, metric.normalize(results[j].1))
    {
      r := results;
      for j := 0 to |r|
        invariant |r| == |results|
        invariant forall l :: 0 <= l < j ==> r[l] == (results[l].0, metric.normalize(results[l].1))
        invariant forall l :: j <= l < |r| ==> r[l] == results[l]
      {
        r := r[j := (r[j].0, metric.normalize(r[j].1))];
      }
    }

    /** Neighbours of observation `index`: the queue looks for `index` itself and drops it. */
    method FindNearestNeighborsIndex(index: nat, k: nat) returns (output: seq<(int, real)>)
      requires Valid() && index < numObs
      ensures output == Bruteforce.IndexResult(metric, store, numDim, numObs, index, k)
    {
      var nearest := new LegacyQueue.NeighborQueue.WithSelf(index, k, false);
      var query := Observation(index);
      SearchNn(query, nearest);
      ghost var s := nearest.nearest;
      KeptIsNearestTo(metric, store, numDim, numObs, query, k + 1, s, nearest.added);
      assert s != [] && nearest.self && nearest.selfDex == index && !nearest.ties;
      var ids, ds, _ := nearest.Report(true, true);
      assert ids == Indices(Queue.WithoutSelf(s, index)) && ds == Distances(Queue.WithoutSelf(s, index));
      output := Normalize(FindNN.Zip((ids, ds)));
      IndexOutput(metric, store, numDim, numObs, index, k, s, ids, ds, output);
    }

    /** Neighbours of an arbitrary query vector. */
    method FindNearestNeighborsQuery(query: seq<real>, k: nat) returns (output: seq<(int, real)>)
      requires Valid()
      ensures output == Bruteforce.QueryResult(metric, store, numDim, numObs, query, k)
    {
      var nearest := new LegacyQueue.NeighborQueue(k, false);
      SearchNn(query, nearest);
      ghost var s := nearest.nearest;
      KeptIsNearestTo(metric, store, numDim, numObs, query, k, s, nearest.added);
      var ids, ds, _ := nearest.Report(true, true);
      output := Normalize(FindNN.Zip((ids, ds)));
      ZipNormalized(metric, s, output);
    }
  }

  /** The next candidate has a larger index than all before it, so offering it keeps the k smallest. */
  lemma OfferedNext(c: seq<Pair>, i: nat, s: seq<Pair>, added: multiset<Pair>, k: nat, full: bool)
    requires i < |c| && forall x :: 0 <= x < |c| ==> c[x].index == x
    requires added == multiset{} + multiset(c[..i])
    requires IsKSmallest(s, added, k) && (full <==> |s| == k)
    ensures IsKSmallest(LegacyQueue.Offered(s, full, c[i]), added + multiset{c[i]}, k)
  {
    forall b | b in added ensures b.index < c[i].index {
      var x :| 0 <= x < i && c[..i][x] == b;
    }
    LegacyQueue.OfferedInOrder(s, added, k, full, c[i]);
  }

  /**
   * The k smallest of all candidates are the head of their sorted order,
   * and there is at least one when some are wanted and there are any.
   */
  lemma KeptIsNearestTo(m: Metric, data: seq<real>, dim: nat, n: nat, query: seq<real>, k: nat,
                        s: seq<Pair>, added: multiset<Pair>)
    requires n * dim <= |data| && added == multiset{} + multiset(Candidates(m, data, dim, n, query))
    requires IsKSmallest(s, added, k)
    ensures s == Bruteforce.NearestTo(m, data, dim, n, query, k)
    ensures k > 0 && n > 0 ==> s != []
  {
    assert added == multiset(Candidates(m, data, dim, n, query));
    KSmallestIsSortPrefix(s, Candidates(m, data, dim, n, query), k);
  }

  /** The normalized report of the k + 1 nearest to observation `i`, without `i`, is its index result. */
  lemma IndexOutput(m: Metric, data: seq<real>, dim: nat, n: nat, i: nat, k: nat, s: seq<Pair>,
                    ids: seq<int>, ds: seq<real>, output: seq<(int, real)>)
    requires i < n && n * dim <= |data| && (i + 1) * dim <= |data|
    requires s == Bruteforce.NearestTo(m, data, dim, n, Row(data, dim, i), k + 1) && s != []
    requires ids == Indices(Queue.WithoutSelf(s, i)) && ds == Distances(Queue.WithoutSelf(s, i))
    requires |output| == |FindNN.Zip((ids, ds))|
    requires forall j :: 0 <= j < |output| ==>
      output[j] == (FindNN.Zip((ids, ds))[j].0, m.normalize(FindNN.Zip((ids, ds))[j].1))
    ensures output == Bruteforce.IndexResult(m, data, dim, n, i, k)
  {
    ZipNormalized(m, Queue.WithoutSelf(s, i), output);
  }

  /** Normalizing the zipped indices and distances of `s` gives the reported form of `s`. */
  lemma ZipNormalized(m: Metric, s: seq<Pair>, output: seq<(int, real)>)
    requires |output| == |s|
    requires forall j :: 0 <= j < |output| ==>
      output[j] == (FindNN.Zip((Indices(s), Distances(s)))[j].0, m.normalize(FindNN.Zip((Indices(s), Distances(s)))[j].1))
    ensures output == Normalized(m, s)
  {
  }
}
