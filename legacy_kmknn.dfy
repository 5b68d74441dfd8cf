/**
 * The KMKNN index of the older interface (`Kmknn/Kmknn.hpp`). Construction
 * lays out the k-means clusters as the newer index does, but keeps every
 * cluster k-means reports, empty ones included, and copies each input row
 * into its place while recording where it went. The search is the same
 * cluster-by-cluster scan with triangle-inequality pruning, fed to the
 * older neighbour queue, which keeps the first of several candidates tied
 * at its limit; a result is therefore a set of nearest neighbours up to
 * ties.
 *
 * The k-means computation is an input, as for the newer index.
 */
module LegacyKmknn {
  import opened Pairs
  import opened Metric
  import opened Nearest
  import Permute
  import opened KmShape
  import opened KmBuild
  import opened KmSearch
  import LegacyQueue
  import Queue
  import FindNN
  import Bruteforce
  import K = Kmknn

  /** The threshold `search_nn` keeps: the queue's limit once it is full, -1 before. */
  ghost function LegacyThr(full: bool, nearest: seq<Pair>): real {
    if full && nearest != [] then nearest[|nearest| - 1].dist else -1.0
  }

  class Kmknn {
    const dim: nat
    const obs: nat
    const metric: Metric
    /** The rows, in segment order. */
    const data: seq<real>
    /** One entry per cluster k-means reported: its size, where its segment starts, its centre. */
    const sizes: seq<int>
    const offsets: seq<int>
    const centers: seq<real>
    /** The observation stored at each position, and the position of each observation. */
    const observationId: seq<int>
    const newLocation: seq<int>
    /** The distance from the row at each position to its cluster's centre. */
    const distToCentroid: seq<real>
    /** The data as passed in. */
    ghost const original: seq<real>

    /** The layout after construction (see `Kmknn.Layout`); a cluster may be empty. */
    ghost predicate Valid() {
      K.Layout(dim, obs, metric, data, original, sizes, offsets, centers, observationId, newLocation, distToCentroid)
    }

    /**
     * Builds the index over `numObs` observations of `numDim` values each,
     * given the k-means result for them: `ncenters` centres, the cluster of
     * each observation and the size of each cluster. When k-means reports
     * fewer clusters than centres were asked for, only the leading centres
     * are kept.
     */
    constructor (numDim: nat, numObs: nat, vals: seq<real>, metric: Metric,
                 ncenters: nat, kmCenters: seq<real>, clusters: seq<int>, kmSizes: seq<int>)
      requires |vals| == numObs * numDim
      requires |kmCenters| == ncenters * numDim && |kmSizes| <= ncenters && |clusters| == numObs
      requires Counted(clusters, kmSizes)
      ensures dim == numDim && obs == numObs && this.metric == metric && original == vals
      ensures Valid()
      ensures sizes == kmSizes
      ensures Permute.Rows(centers, dim, |sizes|) == Permute.Rows(kmCenters, numDim, ncenters)[..|kmSizes|]
      ensures forall o :: 0 <= o < obs ==> InSegment(offsets, sizes, clusters[o], newLocation[o])
    {
      var nc := |kmSizes|;
      RowsPrefix(kmCenters, numDim, ncenters, nc);
      var kept := kmCenters;
      if ncenters != nc {
        kept := kmCenters[..nc * numDim];
      } else {
        assert kmCenters[..nc * numDim] == kmCenters;
      }
      var offs := Offsets(kmSizes);
      K.SizesTile(offs, kmSizes, clusters);
      var bd := Bucket(metric, vals, numDim, numObs, kept, nc, clusters, offs, kmSizes);
      ghost var rows, centerRows := Permute.Rows(vals, numDim, numObs), Permute.Rows(kept, numDim, nc);
      bd := SortSegments(metric, rows, centerRows, clusters, offs, kmSizes, bd);
      Permute.PermutationFacts(Indices(bd));
      var st, ids, locations, dtc := CopyOver(vals, numDim, numObs, bd);
      K.LayoutDistances(metric, vals, numDim, numObs, kept, nc, clusters, offs, kmSizes, bd, st, dtc);
      K.LayoutAscending(offs, kmSizes, numObs, bd, dtc);
      K.LayoutLocations(metric, rows, centerRows, clusters, offs, kmSizes, bd, locations);
      K.LocationsInverse(ids, locations);
      assert K.Layout(numDim, numObs, metric, st, vals, kmSizes, offs, kept, ids, locations, dtc);
      this.dim, obs, this.metric := numDim, numObs, metric;
      data, original := st, vals;
      sizes, offsets, centers := kmSizes, offs, kept;
      observationId, newLocation, distToCentroid := ids, locations, dtc;
    }

    /** Observation `i` is stored at `newLocation[i]`, in the row it was given. */
    lemma LocationOf(i: nat)
      requires Valid() && i < obs
      ensures 0 <= newLocation[i] < obs && observationId[newLocation[i]] == i
      ensures Permute.NthRow(data, dim, obs, newLocation[i]) == Permute.Rows(original, dim, obs)[i]
    {
      var p := newLocation[i];
      assert Permute.Rows(data, dim, obs)[p] == Permute.Pick(Permute.Rows(original, dim, obs), observationId)[p];
    }

    /** `observation(index)`: the stored row of observation `index` is the row it was given. */
    function Observation(index: nat): (row: seq<real>)
      reads this
      requires Valid() && index < obs
      ensures row == Permute.Rows(original, dim, obs)[index]
    {
      LocationOf(index);
      Permute.NthRow(data, dim, obs, newLocation[index])
    }

    /**
     * The centre loop of `search_nn`: the raw distance from `target` to each
     * centre, paired with the cluster, sorted.
     */
    method CenterOrder(target: seq<real>) returns (order: seq<Pair>)
      requires Valid()
      ensures order == Sort(Candidates(metric, centers, dim, |sizes|, target))
    {
      var nc := |sizes|;
      ghost var all := Candidates(metric, centers, dim, nc, target);
      var centerOrder := [];
      for c := 0 to nc
        invariant centerOrder == all[..c]
      {
        var clustPtr := Permute.NthRow(centers, dim, nc, c);
        assert all[..c + 1] == all[..c] + [all[c]];
        centerOrder := centerOrder + [Pair(metric.raw(target, clustPtr), c)];
      }
      assert all[..nc] == all;
      order := Sort(centerOrder);
    }

    /**
     * Passing over positions `[lo, hi)` of the segment of `center` that are
     * closer to the centre than the target's distance to it less the
     * threshold: the triangle inequality puts them beyond the threshold.
     */
    lemma SkipCells(target: seq<real>, cands: seq<Pair>, center: nat, lo: int, hi: int, dist2center: real, thr: real,
                    done: set<int>, added: multiset<Pair>)
      requires Valid() && center < |sizes| && thr >= 0.0
      requires cands == Candidates(metric, data, dim, obs, target)
      requires dist2center == Dist(metric, target, Permute.NthRow(centers, dim, |sizes|, center))
      requires offsets[center] <= lo <= hi <= offsets[center] + sizes[center]
      requires forall p :: lo <= p < hi ==> 0 <= p < obs && distToCentroid[p] < dist2center - metric.normalize(thr)
      requires Dealt(metric, cands, done, added, true, thr)
      ensures Dealt(metric, cands, done + Span(lo, hi), added, true, thr)
    {
      SegmentEnd(offsets, sizes, obs, center);
      if IsMetric(metric) {
        forall p | lo <= p < hi ensures cands[p].dist > thr {
          assert InSegment(offsets, sizes, center, p);
          PruneCell(metric, target, Permute.NthRow(data, dim, obs, p), Permute.NthRow(centers, dim, |sizes|, center), thr);
        }
      }
      DealtSkip(metric, cands, done, added, true, thr, lo, hi);
    }

    /**
     * One cluster of `search_nn`. An empty cluster holds nothing to scan.
     * With a threshold in force (the queue is full), the cluster is passed
     * over when even its furthest observation is closer to the centre than
     * `dist2center - threshold`; otherwise the scan starts at the first
     * observation not closer than that. Each scanned observation is offered
     * to the queue, and the threshold follows the queue's limit.
     */
    method ScanCluster(center: nat, target: seq<real>, dist2center: real, thresholdRaw: real,
                       nearest: LegacyQueue.NeighborQueue, ghost cands: seq<Pair>, ghost done: set<int>)
      returns (thr: real, ghost done': set<int>)
      requires Valid() && center < |sizes|
      requires nearest.Valid() && nearest.checkK > 0 && thresholdRaw == LegacyThr(nearest.full, nearest.nearest)
      requires cands == Candidates(metric, data, dim, obs, target)
      requires dist2center == Dist(metric, target, Permute.NthRow(centers, dim, |sizes|, center))
      requires Dealt(metric, cands, done, nearest.added, nearest.full, thresholdRaw)
      requires forall p :: InSegment(offsets, sizes, center, p) ==> p !in done
      modifies nearest`nearest, nearest`full, nearest`added
      ensures nearest.Valid() && thr == LegacyThr(nearest.full, nearest.nearest)
      ensures done' == done + Span(offsets[center], offsets[center] + sizes[center])
      ensures Dealt(metric, cands, done', nearest.added, nearest.full, thr)
    {
      SegmentEnd(offsets, sizes, obs, center);
      var curStart := offsets[center];
      var curNobs := sizes[center];
      if curNobs == 0 {
        thr, done' := thresholdRaw, done;
        assert done + Span(curStart, curStart) == done;
        return;
      }
      var firstcell := 0;
      if thresholdRaw >= 0.0 {
        assert nearest.IsFull();
        firstcell := FirstCell(center, dist2center, thresholdRaw, target, cands, done, nearest.added);
      } else {
        assert done + Span(curStart, curStart) == done;
      }
      thr := ScanFrom(center, curStart + firstcell, target, nearest, thresholdRaw, cands, done);
      done' := done + Span(curStart, curStart + curNobs);
    }

    /**
     * Where the scan of the non-empty segment of `center` starts once a
     * threshold is in force: past its end when even the furthest observation
     * is closer to the centre than `dist2center - threshold`, otherwise at
     * the first observation not closer than that. Everything before is
     * passed over.
     */
    method FirstCell(center: nat, dist2center: real, thresholdRaw: real, ghost target: seq<real>,
                     ghost cands: seq<Pair>, ghost done: set<int>, ghost added: multiset<Pair>)
      returns (firstcell: int)
      requires Valid() && center < |sizes| && sizes[center] > 0 && thresholdRaw >= 0.0
      requires cands == Candidates(metric, data, dim, obs, target)
      requires dist2center == Dist(metric, target, Permute.NthRow(centers, dim, |sizes|, center))
      requires Dealt(metric, cands, done, added, true, thresholdRaw)
      ensures 0 <= firstcell <= sizes[center]
      ensures Dealt(metric, cands, done + Span(offsets[center], offsets[center] + firstcell), added, true, thresholdRaw)
    {
      SegmentEnd(offsets, sizes, obs, center);
      var curStart := offsets[center];
      var curNobs := sizes[center];
      var maxdist := distToCentroid[curStart + curNobs - 1];
      var threshold := metric.normalize(thresholdRaw);
      var lowerBd := dist2center - threshold;
      if maxdist < lowerBd {
        forall p | curStart <= p < curStart + curNobs ensures distToCentroid[p] <= maxdist {
          assert Ascending(distToCentroid, curStart, curStart + curNobs);
        }
        firstcell := curNobs;
      } else {
        firstcell := LowerBound(distToCentroid, curStart, curStart + curNobs, lowerBd) - curStart;
      }
      SkipCells(target, cands, center, curStart, curStart + firstcell, dist2center, thresholdRaw, done, added);
    }

    /** The scan of the segment of `center` from position `first` to its end. */
    method ScanFrom(center: nat, first: int, target: seq<real>, nearest: LegacyQueue.NeighborQueue, thresholdRaw: real,
                    ghost cands: seq<Pair>, ghost done: set<int>) returns (thr: real)
      requires Valid() && center < |sizes| && offsets[center] <= first <= offsets[center] + sizes[center]
      requires nearest.Valid() && nearest.checkK > 0 && thresholdRaw == LegacyThr(nearest.full, nearest.nearest)
      requires cands == Candidates(metric, data, dim, obs, target)
      requires Dealt(metric, cands, done + Span(offsets[center], first), nearest.added, nearest.full, thresholdRaw)
      requires forall p :: InSegment(offsets, sizes, center, p) ==> p !in done
      modifies nearest`nearest, nearest`full, nearest`added
      ensures nearest.Valid() && thr == LegacyThr(nearest.full, nearest.nearest)
      ensures Dealt(metric, cands, done + Span(offsets[center], offsets[center] + sizes[center]),
                    nearest.added, nearest.full, thr)
    {
      var curStart := offsets[center];
      var curEnd := curStart + sizes[center];
      thr := thresholdRaw;
      for p := first to curEnd
        invariant nearest.Valid() && thr == LegacyThr(nearest.full, nearest.nearest)
        invariant Dealt(metric, cands, done + Span(curStart, p), nearest.added, nearest.full, thr)
      {
        assert InSegment(offsets, sizes, center, p) && p !in done + Span(curStart, p);
        thr := OfferCell(center, p, target, nearest, thr, cands, done + Span(curStart, p));
        SpanExtend(done, curStart, p);
      }
    }

    /**
     * One scanned observation: the one stored at position `p` of the
     * segment of `center` is offered to the queue with its raw distance
     * from `target`, and the threshold becomes the queue's limit once the
     * queue is full.
     */
    method OfferCell(center: nat, p: int, target: seq<real>, nearest: LegacyQueue.NeighborQueue, thr: real,
                     ghost cands: seq<Pair>, ghost handled: set<int>) returns (thr': real)
      requires Valid() && InSegment(offsets, sizes, center, p) && p !in handled
      requires nearest.Valid() && nearest.checkK > 0 && thr == LegacyThr(nearest.full, nearest.nearest)
      requires cands == Candidates(metric, data, dim, obs, target)
      requires Dealt(metric, cands, handled, nearest.added, nearest.full, thr)
      modifies nearest`nearest, nearest`full, nearest`added
      ensures nearest.Valid() && thr' == LegacyThr(nearest.full, nearest.nearest)
      ensures Dealt(metric, cands, handled + {p}, nearest.added, nearest.full, thr')
    {
      SegmentEnd(offsets, sizes, obs, center);
      var otherCell := Permute.NthRow(data, dim, obs, p);
      ghost var full0, added0 := nearest.full, nearest.added;
      nearest.Add(p, metric.raw(target, otherCell));
      thr' := thr;
      if nearest.IsFull() {
        thr' := nearest.Limit();
      }
      assert cands[p] == Pair(metric.raw(target, otherCell), p);
      assert full0 ==> nearest.full && thr' <= thr;
      DealtAdd(metric, cands, handled, added0, full0, thr, p, nearest.full, thr');
    }

    /**
     * `search_nn`: every cluster in order of its centre's distance to
     * `target`. The queue ends up holding only candidates of the store and,
     * for a true metric, a k-nearest selection of all of them.
     */
    method SearchNn(target: seq<real>, nearest: LegacyQueue.NeighborQueue)
      requires Valid() && nearest.Valid() && nearest.checkK > 0 && nearest.added == multiset{}
      modifies nearest`nearest, nearest`full, nearest`added
      ensures nearest.Valid()
      ensures nearest.added <= multiset(Candidates(metric, data, dim, obs, target))
      ensures IsMetric(metric) ==>
        IsKNearest(nearest.nearest, multiset(Candidates(metric, data, dim, obs, target)), nearest.checkK)
    {
      var order := CenterOrder(target);
      K.CenterOrderFacts(metric, centers, dim, |sizes|, target, order);
      var thresholdRaw := -1.0;
      ghost var cands := Candidates(metric, data, dim, obs, target);
      ghost var done: set<int> := {};
      ghost var visited: seq<int> := [];
      DealtEmpty(metric, cands, nearest.full, thresholdRaw);
      assert K.Covers(offsets, sizes, done, visited);
      for t := 0 to |order|
        invariant nearest.Valid()
        invariant thresholdRaw == LegacyThr(nearest.full, nearest.nearest)
        invariant Dealt(metric, cands, done, nearest.added, nearest.full, thresholdRaw)
        invariant visited == Indices(order)[..t]
        invariant K.Covers(offsets, sizes, done, visited)
      {
        var center := order[t].index;
        var dist2center := metric.normalize(order[t].dist);
        K.NotVisited(order, t);
        ghost var done0 := done;
        thresholdRaw, done := ScanCluster(center, target, dist2center, thresholdRaw, nearest, cands, done);
        K.CoversStep(offsets, sizes, obs, done0, visited, center);
        K.PrefixGrow(Indices(order), t);
        visited := visited + [center];
      }
      assert visited == Indices(order);
      K.CoversAll(offsets, sizes, obs, done, visited);
      SearchFinish(metric, cands, done, nearest.nearest, nearest.added, nearest.checkK, nearest.full, thresholdRaw);
    }

    /**
     * `report`: the queue's pairs, without the self-match, with each
     * position mapped to the observation stored there and each distance
     * normalized; the order stays.
     */
    method Report(nearest: LegacyQueue.NeighborQueue) returns (output: seq<(int, real)>)
      requires Valid() && nearest.Valid() && !nearest.ties
      requires forall j :: 0 <= j < |nearest.nearest| ==> 0 <= nearest.nearest[j].index < obs
      modifies nearest`nearest
      ensures nearest.nearest == []
      ensures old(nearest.nearest) == [] ==> output == []
      ensures old(nearest.nearest) != [] ==>
        var w := LegacyQueue.Reported(old(nearest.nearest), nearest.self, nearest.selfDex);
        && (forall j :: 0 <= j < |w| ==> 0 <= w[j].index < obs)
        && output == K.Translated(observationId, Normalized(metric, w))
    {
      ghost var s := nearest.nearest;
      var ids, ds, _ := nearest.Report(true, true);
      ghost var w := if s == [] then [] else LegacyQueue.Reported(s, nearest.self, nearest.selfDex);
      if s != [] && nearest.self {
        Queue.WithoutSelfInRange(s, nearest.selfDex, obs);
      }
      output := FindNN.Zip((ids, ds));
      for j := 0 to |output|
        modifies {}
        invariant |output| == |w|
        invariant forall l :: 0 <= l < j ==> output[l] == (observationId[w[l].index], metric.normalize(w[l].dist))
        invariant forall l :: j <= l < |output| ==> output[l] == (w[l].index, w[l].dist)
      {
        output := output[j := (observationId[output[j].0], metric.normalize(output[j].1))];
      }
    }

    /**
     * `find_nearest_neighbors(index, k)`: a queue of `k` that expects the
     * stored position of observation `index` among its neighbours, searched
     * from that stored row. For a true metric this is a k-nearest selection
     * of that row's stored candidates without the self-match, mapped back to
     * observations.
     */
    method FindNearestNeighborsIndex(index: nat, k: nat) returns (output: seq<(int, real)>)
      requires Valid() && index < obs
      ensures 0 <= newLocation[index] < obs
      ensures IsMetric(metric) ==> IsIndexResult(output, metric, data, dim, obs, observationId, newLocation[index], k)
    {
      LocationOf(index);
      var self := newLocation[index];
      var nearest := new LegacyQueue.NeighborQueue.WithSelf(self, k, false);
      var target := Permute.NthRow(data, dim, obs, self);
      SearchNn(target, nearest);
      ghost var s := nearest.nearest;
      ghost var cands := Candidates(metric, data, dim, obs, target);
      KeptIndices(cands, s, nearest.added);
      assert nearest.self && nearest.selfDex == self && !nearest.ties;
      output := Report(nearest);
      if IsMetric(metric) {
        assert |multiset(cands)| == obs;
        assert s != [];
        Queue.WithoutSelfInRange(s, self, obs);
      }
    }

    /**
     * `find_nearest_neighbors(query, k)`: a queue of `k` searched from
     * `query`, reported in full, mapped back to observations. The search is
     * skipped when no neighbours are wanted.
     */
    method FindNearestNeighborsQuery(query: seq<real>, k: nat) returns (output: seq<(int, real)>)
      requires Valid()
      ensures IsMetric(metric) ==> IsQueryResult(output, metric, data, dim, obs, observationId, query, k)
    {
      var nearest := new LegacyQueue.NeighborQueue(k, false);
      if k > 0 {
        SearchNn(query, nearest);
      }
      ghost var s := nearest.nearest;
      ghost var cands := Candidates(metric, data, dim, obs, query);
      KeptIndices(cands, s, nearest.added);
      output := Report(nearest);
      if IsMetric(metric) {
        assert IsKNearest(s, multiset(cands), k);
        assert s == [] ==> output == K.Translated(observationId, Normalized(metric, s));
      }
    }
  }

  /**
   * The copy at the end of construction: position `o` of the store gets
   * the input row of the observation bucketed there, and records that
   * observation, its distance to the centre, and `o` as its new location.
   */
  method CopyOver(vals: seq<real>, dim: nat, n: nat, bd: seq<Pair>)
    returns (data: seq<real>, observationId: seq<int>, newLocation: seq<int>, distToCentroid: seq<real>)
    requires |vals| == n * dim && |bd| == n
    requires forall p :: 0 <= p < n ==> 0 <= bd[p].index < n
    requires Permute.IsPermutation(Indices(bd))
    ensures |data| == n * dim && Permute.Rows(data, dim, n) == Permute.Pick(Permute.Rows(vals, dim, n), Indices(bd))
    ensures observationId == Indices(bd) && distToCentroid == Distances(bd)
    ensures |newLocation| == n && forall p :: 0 <= p < n ==> newLocation[bd[p].index] == p
  {
    Permute.PermutationFacts(Indices(bd));
    ghost var rows := Permute.Rows(vals, dim, n);
    data := seq(n * dim, _ => 0.0);
    observationId := seq(n, _ => 0);
    newLocation := seq(n, _ => 0);
    distToCentroid := seq(n, _ => 0.0);
    for o := 0 to n
      invariant |data| == n * dim && |observationId| == n && |newLocation| == n && |distToCentroid| == n
      invariant forall q :: 0 <= q < o ==> Permute.Rows(data, dim, n)[q] == rows[bd[q].index]
      invariant forall q :: 0 <= q < o ==> observationId[q] == bd[q].index && distToCentroid[q] == bd[q].dist
      invariant forall q :: 0 <= q < o ==> newLocation[bd[q].index] == q
    {
      var current := bd[o];
      assert forall q :: 0 <= q < o ==> Indices(bd)[q] != Indices(bd)[o];
      var source := Permute.NthRow(vals, dim, n, current.index);
      Permute.WithRowRows(data, dim, n, o, source);
      data := Permute.WithRow(data, dim, o, source);
      observationId := observationId[o := current.index];
      newLocation := newLocation[current.index := o];
      distToCentroid := distToCentroid[o := current.dist];
    }
  }

  /**
   * The end of `search_nn`, once every position is handled: only
   * candidates were offered, and for a true metric every candidate the
   * queue did not take lies beyond its final limit, so the queue holds a
   * k-nearest selection of all of them.
   */
  lemma SearchFinish(m: Metric, cands: seq<Pair>, done: set<int>, s: seq<Pair>, added: multiset<Pair>,
                     k: nat, full: bool, thr: real)
    requires forall x :: 0 <= x < |cands| ==> cands[x].index == x
    requires IsKNearest(s, added, k) && k > 0 && (full <==> |s| == k) && thr == LegacyThr(full, s)
    requires Dealt(m, cands, done, added, full, thr)
    requires forall p :: 0 <= p < |cands| ==> p in done
    ensures added <= multiset(cands)
    ensures IsMetric(m) ==> IsKNearest(s, multiset(cands), k)
  {
    DealtWithin(m, cands, done, added, full, thr);
    if IsMetric(m) {
      var rest := multiset(cands) - added;
      assert added + rest == multiset(cands);
      forall x | x in rest ensures |s| == k && s != [] && s[|s| - 1].dist <= x.dist {
        assert x in multiset(cands);
        var j :| 0 <= j < |cands| && cands[j] == x;
        Permute.DistinctCount(cands, x);
        assert x !in added;
        assert j in done;
      }
      KNearestExtend(s, added, rest, k);
    }
  }

  /** The pairs a queue keeps from store candidates name positions of the store. */
  lemma KeptIndices(cands: seq<Pair>, s: seq<Pair>, added: multiset<Pair>)
    requires forall x :: 0 <= x < |cands| ==> cands[x].index == x
    requires multiset(s) <= added && added <= multiset(cands)
    ensures forall j :: 0 <= j < |s| ==> 0 <= s[j].index < |cands|
  {
    forall j | 0 <= j < |s| ensures 0 <= s[j].index < |cands| {
      assert s[j] in multiset(s);
      assert s[j] in multiset(cands);
      var x :| 0 <= x < |cands| && cands[x] == s[j];
    }
  }

  /** `output` reports the pairs `s`: positions mapped through `ids`, distances normalized. */
  ghost predicate ReportsAs(output: seq<(int, real)>, m: Metric, ids: seq<int>, s: seq<Pair>) {
    && (forall j :: 0 <= j < |s| ==> 0 <= s[j].index < |ids|)
    && output == K.Translated(ids, Normalized(m, s))
  }

  /**
   * A result of a search for `query` over the stored rows: some k-nearest
   * selection of the stored candidates, mapped back through `ids`, with
   * distances normalized.
   */
  ghost predicate IsQueryResult(output: seq<(int, real)>, m: Metric, data: seq<real>, dim: nat, n: nat,
                                ids: seq<int>, query: seq<real>, k: nat)
    requires n * dim <= |data|
  {
    exists s: seq<Pair> :: IsKNearest(s, multiset(Candidates(m, data, dim, n, query)), k) && ReportsAs(output, m, ids, s)
  }

  /**
   * A result of a search from stored position `p`: as for its row, with
   * one more slot and the self-match at `p` removed.
   */
  ghost predicate IsIndexResult(output: seq<(int, real)>, m: Metric, data: seq<real>, dim: nat, n: nat,
                                ids: seq<int>, p: nat, k: nat)
    requires n * dim <= |data| && p < n
  {
    exists s :: IsKNearest(s, multiset(Candidates(m, data, dim, n, Permute.NthRow(data, dim, n, p))), k + 1) &&
      s != [] && ReportsAs(output, m, ids, Queue.WithoutSelf(s, p))
  }

  /**
   * For a true metric, any result of a query search lists exactly the
   * distances the brute-force indexes report over the stored rows, and
   * their number, whichever of several tied candidates it kept.
   */
  lemma QueryMatchesBruteforce(output: seq<(int, real)>, m: Metric, data: seq<real>, dim: nat, n: nat,
                               ids: seq<int>, query: seq<real>, k: nat)
    requires IsMetric(m) && n * dim <= |data|
    requires IsQueryResult(output, m, data, dim, n, ids, query, k)
    ensures |output| == |Bruteforce.QueryResult(m, data, dim, n, query, k)| == Min(k, n)
    ensures forall j :: 0 <= j < |output| ==> output[j].1 == Bruteforce.QueryResult(m, data, dim, n, query, k)[j].1
  {
    var t := multiset(Candidates(m, data, dim, n, query));
    var s: seq<Pair> :| IsKNearest(s, t, k) && ReportsAs(output, m, ids, s);
    SelectionReported(m, data, dim, n, ids, query, k, s);
  }

  /** The reported form of one k-nearest selection of the stored candidates, against the brute-force one. */
  lemma SelectionReported(m: Metric, data: seq<real>, dim: nat, n: nat, ids: seq<int>, query: seq<real>, k: nat,
                          s: seq<Pair>)
    requires n * dim <= |data|
    requires IsKNearest(s, multiset(Candidates(m, data, dim, n, query)), k)
    requires forall j :: 0 <= j < |s| ==> 0 <= s[j].index < |ids|
    ensures |K.Translated(ids, Normalized(m, s))| == |Bruteforce.QueryResult(m, data, dim, n, query, k)| == Min(k, n)
    ensures forall j :: 0 <= j < |s| ==>
      K.Translated(ids, Normalized(m, s))[j].1 == Bruteforce.QueryResult(m, data, dim, n, query, k)[j].1
  {
    SelectionDistances(m, data, dim, n, query, k, s);
    SameDistancesReported(m, ids, s, Bruteforce.NearestTo(m, data, dim, n, query, k));
  }

  /** Pairs listing the same distances report the same normalized distances, whatever their indices. */
  lemma SameDistancesReported(m: Metric, ids: seq<int>, s: seq<Pair>, u: seq<Pair>)
    requires Distances(s) == Distances(u)
    requires forall j :: 0 <= j < |s| ==> 0 <= s[j].index < |ids|
    ensures |K.Translated(ids, Normalized(m, s))| == |Normalized(m, u)|
    ensures forall j :: 0 <= j < |s| ==> K.Translated(ids, Normalized(m, s))[j].1 == Normalized(m, u)[j].1
  {
    assert |s| == |Distances(s)| == |Distances(u)| == |u|;
    forall j | 0 <= j < |s| ensures K.Translated(ids, Normalized(m, s))[j].1 == Normalized(m, u)[j].1 {
      assert Distances(s)[j] == Distances(u)[j];
    }
  }

  /** Any k-nearest selection of the stored candidates lists the distances of the exact one. */
  lemma SelectionDistances(m: Metric, data: seq<real>, dim: nat, n: nat, query: seq<real>, k: nat, s: seq<Pair>)
    requires n * dim <= |data|
    requires IsKNearest(s, multiset(Candidates(m, data, dim, n, query)), k)
    ensures Distances(s) == Distances(Bruteforce.NearestTo(m, data, dim, n, query, k))
  {
    var cands := Candidates(m, data, dim, n, query);
    var exact := Bruteforce.NearestTo(m, data, dim, n, query, k);
    KSmallestIsSortedPrefix(cands, k);
    KSmallestIsKNearest(exact, multiset(cands), k);
    KNearestSameDistances(s, exact, multiset(cands), k);
  }

  /**
   * For a true metric, any result of a search from stored position `p`
   * lists exactly the distances the brute-force indexes report for it.
   */
  lemma IndexMatchesBruteforce(output: seq<(int, real)>, m: Metric, data: seq<real>, dim: nat, n: nat,
                               ids: seq<int>, p: nat, k: nat)
    requires IsMetric(m) && n * dim <= |data| && p < n
    requires IsIndexResult(output, m, data, dim, n, ids, p, k)
    ensures |output| == |Bruteforce.IndexResult(m, data, dim, n, p, k)|
    ensures forall j :: 0 <= j < |output| ==> output[j].1 == Bruteforce.IndexResult(m, data, dim, n, p, k)[j].1
  {
    var row := Permute.NthRow(data, dim, n, p);
    var t := multiset(Candidates(m, data, dim, n, row));
    var s: seq<Pair> :| IsKNearest(s, t, k + 1) && s != [] && ReportsAs(output, m, ids, Queue.WithoutSelf(s, p));
    var exact := Bruteforce.NearestTo(m, data, dim, n, row, k + 1);
    SelectionWithoutSelf(m, data, dim, n, p, k, s);
    assert Bruteforce.IndexResult(m, data, dim, n, p, k) == Normalized(m, Queue.WithoutSelf(exact, p));
    SameDistancesReported(m, ids, Queue.WithoutSelf(s, p), Queue.WithoutSelf(exact, p));
  }

  /**
   * Without stored position `p`, any selection of the k + 1 nearest to its
   * row lists the distances the exact selection lists without it.
   */
  lemma SelectionWithoutSelf(m: Metric, data: seq<real>, dim: nat, n: nat, p: nat, k: nat, s: seq<Pair>)
    requires IsMetric(m) && n * dim <= |data| && p < n
    requires IsKNearest(s, multiset(Candidates(m, data, dim, n, Permute.NthRow(data, dim, n, p))), k + 1) && s != []
    ensures Bruteforce.NearestTo(m, data, dim, n, Permute.NthRow(data, dim, n, p), k + 1) != []
    ensures |s| == |Bruteforce.NearestTo(m, data, dim, n, Permute.NthRow(data, dim, n, p), k + 1)|
    ensures Distances(Queue.WithoutSelf(s, p))
      == Distances(Queue.WithoutSelf(Bruteforce.NearestTo(m, data, dim, n, Permute.NthRow(data, dim, n, p), k + 1), p))
  {
    var row := Permute.NthRow(data, dim, n, p);
    var cands := Candidates(m, data, dim, n, row);
    var t := multiset(cands);
    var exact := Bruteforce.NearestTo(m, data, dim, n, row, k + 1);
    KSmallestIsSortedPrefix(cands, k + 1);
    KSmallestIsKNearest(exact, t, k + 1);
    SelectionDistances(m, data, dim, n, row, k + 1, s);
    SelfIsClosest(m, data, dim, n, p);
    LegacyQueue.WithoutSelfDistances(s, t, k + 1, p, 0.0);
    LegacyQueue.WithoutSelfDistances(exact, t, k + 1, p, 0.0);
  }

  /**
   * For a true metric the candidate of stored position `p` itself, at raw
   * distance 0, is the closest to its own row, and the only one with
   * index `p`.
   */
  lemma SelfIsClosest(m: Metric, data: seq<real>, dim: nat, n: nat, p: nat)
    requires IsMetric(m) && n * dim <= |data| && p < n
    ensures var t := multiset(Candidates(m, data, dim, n, Permute.NthRow(data, dim, n, p)));
      && Pair(0.0, p) in t
      && (forall b :: b in t ==> 0.0 <= b.dist)
      && (forall b :: b in t && b.index == p ==> b.dist == 0.0)
  {
    var row := Permute.NthRow(data, dim, n, p);
    var cands := Candidates(m, data, dim, n, row);
    assert cands[p] == Pair(m.raw(row, row), p);
    assert m.raw(row, row) == 0.0;
    forall b | b in multiset(cands) ensures 0.0 <= b.dist && (b.index == p ==> b.dist == 0.0) {
      var x :| 0 <= x < n && cands[x] == b;
    }
  }
}
