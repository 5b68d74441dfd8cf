/**
 * The KMKNN index of `Kmknn.hpp`. The constructor takes the k-means result
 * (centres, assignments and sizes) for the observations, drops the empty
 * clusters, gives every remaining cluster a contiguous segment of the
 * store, places each observation in its cluster's segment sorted by
 * distance to the centre, and finally moves the stored rows into that
 * order. A search visits the clusters by increasing distance of their
 * centres to the target, and in each cluster passes over the observations
 * that the triangle inequality puts beyond the current k-th distance.
 *
 * The k-means computation and the choice of the number of centres are
 * inputs; distances are an abstract metric (see `Metric`).
 */
module Kmknn {
  import opened Wrappers
  import opened Pairs
  import opened Metric
  import Permute
  import opened KmShape
  import opened KmBuild
  import opened KmSearch
  import Queue
  import Mock
  import FindNN
  import Bruteforce

  /** The threshold `search_nn` keeps: the queue's limit once it is full, -1 before. */
  ghost function Thr(full: bool, nearest: seq<Pair>, k: nat): real {
    if full && 0 < k <= |nearest| then nearest[k - 1].dist else -1.0
  }

  /** A result whose indices are positions of the store, with each index mapped to the observation stored there. */
  function Translated(ids: seq<int>, r: seq<(int, real)>): (t: seq<(int, real)>)
    requires forall j :: 0 <= j < |r| ==> 0 <= r[j].0 < |ids|
    ensures |t| == |r| && forall j :: 0 <= j < |r| ==> t[j] == (ids[r[j].0], r[j].1)
  {
    seq(|r|, j requires 0 <= j < |r| => (ids[r[j].0], r[j].1))
  }

  /**
   * The layout after construction: the segments of the clusters tile the
   * store; the stored rows are the original ones rearranged by
   * `observationId`, which `newLocation` inverts; and every position of a
   * segment holds its row's distance to that segment's centre, ascending
   * within each segment.
   */
  ghost predicate Layout(dim: nat, obs: nat, metric: Metric, data: seq<real>, original: seq<real>,
                         sizes: seq<int>, offsets: seq<int>, centers: seq<real>,
                         observationId: seq<int>, newLocation: seq<int>, distToCentroid: seq<real>) {
    && |data| == obs * dim && |original| == obs * dim
    && Tiled(offsets, sizes, obs)
    && |centers| == |sizes| * dim
    && |observationId| == obs && Permute.IsPermutation(observationId)
    && |newLocation| == obs
    && (forall p :: 0 <= p < obs ==> 0 <= observationId[p] < obs && newLocation[observationId[p]] == p)
    && (forall o :: 0 <= o < obs ==> 0 <= newLocation[o] < obs && observationId[newLocation[o]] == o)
    && Permute.Rows(data, dim, obs) == Permute.Pick(Permute.Rows(original, dim, obs), observationId)
    && |distToCentroid| == obs
    && (forall c, p :: InSegment(offsets, sizes, c, p) ==>
          0 <= p < obs && distToCentroid[p]
            == Dist(metric, Permute.NthRow(data, dim, obs, p), Permute.NthRow(centers, dim, |sizes|, c)))
    && (forall c :: 0 <= c < |sizes| ==> Ascending(distToCentroid, offsets[c], offsets[c] + sizes[c]))
  }

  class KmknnPrebuilt {
    const dim: nat
    const obs: nat
    const metric: Metric
    /** The rows, in segment order. */
    const data: seq<real>
    /** One entry per surviving cluster: its size, where its segment starts, its centre. */
    const sizes: seq<int>
    const offsets: seq<int>
    const centers: seq<real>
    /** The observation stored at each position, and the position of each observation. */
    const observationId: seq<int>
    const newLocation: seq<int>
    /** The distance from the row at each position to its cluster's centre. */
    const distToCentroid: seq<real>
    /** The data as passed in, and the cluster of each observation after relabelling. */
    ghost const original: seq<real>
    ghost const labels: seq<int>

    /** The layout after construction (see `Layout`), with no empty cluster left. */
    ghost predicate Valid() {
      && Layout(dim, obs, metric, data, original, sizes, offsets, centers, observationId, newLocation, distToCentroid)
      && forall c :: 0 <= c < |sizes| ==> sizes[c] > 0
    }

    /**
     * Builds the index over `numObs` observations of `numDim` values each,
     * given the k-means result for them: `ncenters` centres, the cluster of
     * each observation and the size of each cluster. Only the non-empty
     * clusters are kept, in their original order.
     */
    constructor (numDim: nat, numObs: nat, data: seq<real>, metric: Metric,
                 ncenters: nat, kmCenters: seq<real>, clusters: seq<int>, kmSizes: seq<int>)
      requires |data| == numObs * numDim
      requires |kmCenters| == ncenters * numDim && |kmSizes| == ncenters && |clusters| == numObs
      requires Counted(clusters, kmSizes)
      ensures dim == numDim && obs == numObs && this.metric == metric && original == data
      ensures Valid()
      ensures sizes == Permute.Pick(kmSizes, Survivors(kmSizes))
      ensures Permute.Rows(centers, dim, |sizes|) == Permute.Pick(Permute.Rows(kmCenters, numDim, ncenters), Survivors(kmSizes))
      ensures |labels| == obs
      ensures forall o :: 0 <= o < obs ==>
        && 0 <= labels[o] < |sizes| && Survivors(kmSizes)[labels[o]] == clusters[o]
        && InSegment(offsets, sizes, labels[o], newLocation[o])
    {
      var relabelled, nc, kept, keptSizes := RemoveEmptyClusters(numDim, ncenters, kmCenters, clusters, kmSizes);
      var offs := Offsets(keptSizes);
      SizesTile(offs, keptSizes, relabelled);
      var bd := Bucket(metric, data, numDim, numObs, kept, nc, relabelled, offs, keptSizes);
      ghost var rows, centerRows := Permute.Rows(data, numDim, numObs), Permute.Rows(kept, numDim, nc);
      bd := SortSegments(metric, rows, centerRows, relabelled, offs, keptSizes, bd);
      var ids := Indices(bd);
      var dtc := Distances(bd);
      var permuted, locations := Permute.PermuteRows(data, numDim, ids);
      LayoutDistances(metric, data, numDim, numObs, kept, nc, relabelled, offs, keptSizes, bd, permuted, dtc);
      LayoutAscending(offs, keptSizes, numObs, bd, dtc);
      LayoutLocations(metric, rows, centerRows, relabelled, offs, keptSizes, bd, locations);
      LocationsInverse(ids, locations);
      assert Layout(numDim, numObs, metric, permuted, data, keptSizes, offs, kept, ids, locations, dtc);
      this.dim, obs, this.metric := numDim, numObs, metric;
      this.data, original := permuted, data;
      sizes, offsets, centers := keptSizes, offs, kept;
      observationId, newLocation, distToCentroid := ids, locations, dtc;
      labels := relabelled;
    }

    function NumObservations(): (r: nat)
      ensures r == obs
    {
      obs
    }

    function NumDimensions(): (r: nat)
      ensures r == dim
    {
      dim
    }

    /** Observation `i` is stored at `newLocation[i]`, in the row it was given. */
    lemma LocationOf(i: nat)
      requires Valid() && i < obs
      ensures 0 <= newLocation[i] < obs && observationId[newLocation[i]] == i
      ensures Permute.NthRow(data, dim, obs, newLocation[i]) == Permute.Rows(original, dim, obs)[i]
    {
      var p := newLocation[i];
      assert Permute.Rows(data, dim, obs)[p] == Permute.Pick(Permute.Rows(original, dim, obs), observationId)[p];
    }

    /**
     * The centre loop of `search_nn`: the raw distance from `target` to each
     * centre, paired with the cluster, sorted.
     */
    method CenterOrder(target: seq<real>) returns (order: seq<Pair>)
      requires Valid()
      ensures order == Sort(Candidates(metric, centers, dim, |sizes|, target))
    {
      var nc := |sizes|;
      ghost var all := Candidates(metric, centers, dim, nc, target);
      var centerOrder := [];
      for c := 0 to nc
        invariant centerOrder == all[..c]
      {
        var clustPtr := Permute.NthRow(centers, dim, nc, c);
        assert all[..c + 1] == all[..c] + [all[c]];
        centerOrder := centerOrder + [Pair(metric.raw(target, clustPtr), c)];
      }
      assert all[..nc] == all;
      order := Sort(centerOrder);
    }

    /**
     * The positions `[lo, hi)` of the segment of `center` that lie closer to
     * the centre than the target's distance to it less the threshold are
     * further than the threshold from the target.
     */
    lemma Pruned(target: seq<real>, cands: seq<Pair>, center: nat, lo: int, hi: int, dist2center: real, thr: real)
      requires Valid() && IsMetric(metric) && center < |sizes| && thr >= 0.0
      requires cands == Candidates(metric, data, dim, obs, target)
      requires dist2center == Dist(metric, target, Permute.NthRow(centers, dim, |sizes|, center))
      requires offsets[center] <= lo && 0 <= lo <= hi <= obs && hi <= offsets[center] + sizes[center]
      requires forall p :: lo <= p < hi ==> distToCentroid[p] < dist2center - metric.normalize(thr)
      ensures forall p :: lo <= p < hi ==> cands[p].dist > thr
    {
      forall p | lo <= p < hi ensures cands[p].dist > thr {
        assert InSegment(offsets, sizes, center, p);
        PruneCell(metric, target, Permute.NthRow(data, dim, obs, p), Permute.NthRow(centers, dim, |sizes|, center), thr);
      }
    }

    /** Passing over positions `[lo, hi)` of the segment of `center` that `Pruned` covers. */
    lemma SkipCells(target: seq<real>, cands: seq<Pair>, center: nat, lo: int, hi: int, dist2center: real, thr: real,
                    done: set<int>, added: multiset<Pair>)
      requires Valid() && center < |sizes| && thr >= 0.0
      requires cands == Candidates(metric, data, dim, obs, target)
      requires dist2center == Dist(metric, target, Permute.NthRow(centers, dim, |sizes|, center))
      requires offsets[center] <= lo <= hi <= offsets[center] + sizes[center]
      requires forall p :: lo <= p < hi ==> 0 <= p < obs && distToCentroid[p] < dist2center - metric.normalize(thr)
      requires Dealt(metric, cands, done, added, true, thr)
      ensures Dealt(metric, cands, done + Span(lo, hi), added, true, thr)
    {
      SegmentEnd(offsets, sizes, obs, center);
      if IsMetric(metric) {
        Pruned(target, cands, center, lo, hi, dist2center, thr);
      }
      DealtSkip(metric, cands, done, added, true, thr, lo, hi);
    }

    /**
     * One cluster of `search_nn`. With a threshold in force (the queue is
     * full), the cluster is passed over when even its furthest observation
     * is closer to the centre than `dist2center - threshold`; otherwise the
     * scan starts at the first observation not closer than that. Each
     * scanned observation is offered to the queue, and the threshold
     * follows the queue's limit.
     */
    method ScanCluster(center: nat, target: seq<real>, dist2center: real, thresholdRaw: real,
                       nearest: Queue.NeighborQueue, ghost cands: seq<Pair>, ghost done: set<int>)
      returns (thr: real, ghost done': set<int>)
      requires Valid() && center < |sizes|
      requires nearest.Valid() && thresholdRaw == Thr(nearest.full, nearest.nearest, nearest.neighbors)
      requires cands == Candidates(metric, data, dim, obs, target)
      requires dist2center == Dist(metric, target, Permute.NthRow(centers, dim, |sizes|, center))
      requires Dealt(metric, cands, done, nearest.added, nearest.full, thresholdRaw)
      requires forall p :: InSegment(offsets, sizes, center, p) ==> p !in done
      modifies nearest
      ensures nearest.Valid() && nearest.neighbors == old(nearest.neighbors) && thr == Thr(nearest.full, nearest.nearest, nearest.neighbors)
      ensures done' == done + Span(offsets[center], offsets[center] + sizes[center])
      ensures Dealt(metric, cands, done', nearest.added, nearest.full, thr)
      ensures |nearest.added| > 0
    {
      SegmentEnd(offsets, sizes, obs, center);
      var curStart := offsets[center];
      var curNobs := sizes[center];
      var firstcell := 0;
      if thresholdRaw >= 0.0 {
        assert nearest.IsFull();
        firstcell := FirstCell(center, dist2center, thresholdRaw, target, cands, done, nearest.added);
      } else {
        assert done + Span(curStart, curStart) == done;
      }
      thr := ScanFrom(center, curStart + firstcell, target, nearest, thresholdRaw, cands, done);
      done' := done + Span(curStart, curStart + curNobs);
    }

    /**
     * Where the scan of the segment of `center` starts once a threshold is
     * in force: past its end when even the furthest observation is closer
     * to the centre than `dist2center - threshold`, otherwise at the first
     * observation not closer than that. Everything before is passed over.
     */
    method FirstCell(center: nat, dist2center: real, thresholdRaw: real, ghost target: seq<real>,
                     ghost cands: seq<Pair>, ghost done: set<int>, ghost added: multiset<Pair>)
      returns (firstcell: int)
      requires Valid() && center < |sizes| && thresholdRaw >= 0.0
      requires cands == Candidates(metric, data, dim, obs, target)
      requires dist2center == Dist(metric, target, Permute.NthRow(centers, dim, |sizes|, center))
      requires Dealt(metric, cands, done, added, true, thresholdRaw)
      ensures 0 <= firstcell <= sizes[center]
      ensures Dealt(metric, cands, done + Span(offsets[center], offsets[center] + firstcell), added, true, thresholdRaw)
    {
      SegmentEnd(offsets, sizes, obs, center);
      var curStart := offsets[center];
      var curNobs := sizes[center];
      var maxdist := distToCentroid[curStart + curNobs - 1];
      var threshold := metric.normalize(thresholdRaw);
      var lowerBd := dist2center - threshold;
      if maxdist < lowerBd {
        forall p | curStart <= p < curStart + curNobs ensures distToCentroid[p] <= maxdist {
          assert Ascending(distToCentroid, curStart, curStart + curNobs);
        }
        firstcell := curNobs;
      } else {
        firstcell := LowerBound(distToCentroid, curStart, curStart + curNobs, lowerBd) - curStart;
      }
      SkipCells(target, cands, center, curStart, curStart + firstcell, dist2center, thresholdRaw, done, added);
    }

    /** The scan of the segment of `center` from position `first` to its end. */
    method ScanFrom(center: nat, first: int, target: seq<real>, nearest: Queue.NeighborQueue, thresholdRaw: real,
                    ghost cands: seq<Pair>, ghost done: set<int>) returns (thr: real)
      requires Valid() && center < |sizes| && offsets[center] <= first <= offsets[center] + sizes[center]
      requires nearest.Valid() && thresholdRaw == Thr(nearest.full, nearest.nearest, nearest.neighbors)
      requires cands == Candidates(metric, data, dim, obs, target)
      requires Dealt(metric, cands, done + Span(offsets[center], first), nearest.added, nearest.full, thresholdRaw)
      requires forall p :: InSegment(offsets, sizes, center, p) ==> p !in done
      requires first > offsets[center] ==> |nearest.added| > 0
      modifies nearest
      ensures nearest.Valid() && nearest.neighbors == old(nearest.neighbors) && thr == Thr(nearest.full, nearest.nearest, nearest.neighbors)
      ensures Dealt(metric, cands, done + Span(offsets[center], offsets[center] + sizes[center]),
                    nearest.added, nearest.full, thr)
      ensures |nearest.added| > 0
    {
      var curStart := offsets[center];
      var curEnd := curStart + sizes[center];
      assert curStart < curEnd;
      thr := thresholdRaw;
      for p := first to curEnd
        invariant nearest.Valid() && nearest.neighbors == old(nearest.neighbors) && thr == Thr(nearest.full, nearest.nearest, nearest.neighbors)
        invariant Dealt(metric, cands, done + Span(curStart, p), nearest.added, nearest.full, thr)
        invariant p > curStart ==> |nearest.added| > 0
      {
        assert InSegment(offsets, sizes, center, p) && p !in done + Span(curStart, p);
        thr := OfferCell(center, p, target, nearest, thr, cands, done + Span(curStart, p));
        SpanExtend(done, curStart, p);
      }
    }

    /**
     * One scanned observation: the one stored at position `p` of the
     * segment of `center` is offered to the queue with its raw distance
     * from `target`, and the threshold follows the queue's limit once the
     * queue is full.
     */
    method OfferCell(center: nat, p: int, target: seq<real>, nearest: Queue.NeighborQueue, thr: real,
                     ghost cands: seq<Pair>, ghost handled: set<int>) returns (thr': real)
      requires Valid() && InSegment(offsets, sizes, center, p) && p !in handled
      requires nearest.Valid() && thr == Thr(nearest.full, nearest.nearest, nearest.neighbors)
      requires cands == Candidates(metric, data, dim, obs, target)
      requires Dealt(metric, cands, handled, nearest.added, nearest.full, thr)
      modifies nearest
      ensures nearest.Valid() && nearest.neighbors == old(nearest.neighbors) && thr' == Thr(nearest.full, nearest.nearest, nearest.neighbors)
      ensures Dealt(metric, cands, handled + {p}, nearest.added, nearest.full, thr')
      ensures |nearest.added| > 0
    {
      SegmentEnd(offsets, sizes, obs, center);
      var otherCell := Permute.NthRow(data, dim, obs, p);
      ghost var full0, nearest0 := nearest.full, nearest.nearest;
      nearest.Add(p, metric.raw(target, otherCell));
      assert full0 ==> nearest.full && nearest.nearest[nearest.neighbors - 1].dist <= thr;
      thr' := thr;
      if nearest.IsFull() {
        thr' := nearest.Limit();
      }
      assert forall x :: 0 <= x < |cands| ==> cands[x].index == x;
      assert Dealt(metric, cands, handled, old(nearest.added), full0, thr);
      assert 0 <= p < |cands|;
      assert p !in handled;
      assert full0 ==> nearest.full && thr' <= thr;
      DealtAdd(metric, cands, handled, old(nearest.added), full0, thr, p, nearest.full, thr');
    }

    /**
     * `search_nn`: every cluster in order of its centre's distance to
     * `target`. The queue ends up holding only candidates of the store, at
     * least one when there are observations, and, for a true metric, exactly
     * the nearest ones a brute-force scan of the store would keep.
     */
    method SearchNn(target: seq<real>, nearest: Queue.NeighborQueue)
      requires Valid() && nearest.Valid() && nearest.added == multiset{}
      modifies nearest
      ensures nearest.Valid() && nearest.neighbors == old(nearest.neighbors)
      ensures nearest.added <= multiset(Candidates(metric, data, dim, obs, target))
      ensures obs > 0 ==> nearest.nearest != []
      ensures IsMetric(metric) ==>
        nearest.nearest == Bruteforce.NearestTo(metric, data, dim, obs, target, nearest.neighbors)
    {
      var order := CenterOrder(target);
      CenterOrderFacts(metric, centers, dim, |sizes|, target, order);
      var thresholdRaw := -1.0;
      ghost var cands := Candidates(metric, data, dim, obs, target);
      ghost var done: set<int> := {};
      ghost var visited: seq<int> := [];
      DealtEmpty(metric, cands, nearest.full, thresholdRaw);
      assert Covers(offsets, sizes, done, visited);
      for t := 0 to |order|
        invariant nearest.Valid() && nearest.neighbors == old(nearest.neighbors)
        invariant thresholdRaw == Thr(nearest.full, nearest.nearest, nearest.neighbors)
        invariant Dealt(metric, cands, done, nearest.added, nearest.full, thresholdRaw)
        invariant visited == Indices(order)[..t]
        invariant Covers(offsets, sizes, done, visited)
        invariant t > 0 ==> |nearest.added| > 0
      {
        var center := order[t].index;
        var dist2center := metric.normalize(order[t].dist);
        NotVisited(order, t);
        ghost var done0 := done;
        thresholdRaw, done := ScanCluster(center, target, dist2center, thresholdRaw, nearest, cands, done);
        CoversStep(offsets, sizes, obs, done0, visited, center);
        PrefixGrow(Indices(order), t);
        visited := visited + [center];
      }
      assert visited == Indices(order);
      CoversAll(offsets, sizes, obs, done, visited);
      SearchFinish(metric, cands, done, nearest, thresholdRaw);
      assert sizes == [] ==> Sum(sizes) == 0;
    }

    /** `normalize`: indices go back to observations, distances are normalized; the order stays. */
    method Normalize(results: seq<(int, real)>) returns (r: seq<(int, real)>)
      requires Valid() && forall j :: 0 <= j < |results| ==> 0 <= results[j].0 < obs
      ensures |r| == |results|
      ensures forall j :: 0 <= j < |r| ==> r[j] == (observationId[results[j].0], metric.normalize(results[j].1))
    {
      r := results;
      for j := 0 to |r|
        invariant |r| == |results|
        invariant forall l :: 0 <= l < j ==> r[l] == (observationId[results[l].0], metric.normalize(results[l].1))
        invariant forall l :: j <= l < |r| ==> r[l] == results[l]
      {
        r := r[j := (observationId[r[j].0], metric.normalize(r[j].1))];
      }
    }

    /**
     * `search(i, k)`: a queue of `k + 1` searched from the row of
     * observation `i`, reported without its position, mapped back to
     * observations. For a true metric this is the brute-force answer over
     * the stored rows, mapped back.
     */
    method SearchIndex(i: nat, k: nat) returns (output: seq<(int, real)>)
      requires Valid() && i < obs
      ensures forall j :: 0 <= j < |output| ==> 0 <= output[j].0 < obs
      ensures IsMetric(metric) ==>
        output == Translated(observationId, Bruteforce.IndexResult(metric, data, dim, obs, newLocation[i], k))
    {
      var nearest := new Queue.NeighborQueue();
      nearest.Reset(k + 1);
      LocationOf(i);
      var newI := newLocation[i];
      var iptr := Permute.NthRow(data, dim, obs, newI);
      SearchNn(iptr, nearest);
      ghost var s := nearest.nearest;
      StoredIndices(Candidates(metric, data, dim, obs, iptr), s, nearest.added, k + 1);
      var ids, ds := nearest.ReportSelf(Some([]), Some([]), newI);
      ghost var w := Queue.WithoutSelf(s, newI);
      Queue.WithoutSelfDropsOne(s, newI);
      Queue.WithoutSelfInRange(s, newI, obs);
      var zipped := FindNN.Zip((ids.value, ds.value));
      assert zipped == Bruteforce.Zipped(w);
      output := Normalize(zipped);
    }

    /**
     * `search(query, k)`: a queue of `k` searched from `query`, reported in
     * full, mapped back to observations. For a true metric this is the
     * brute-force answer over the stored rows, mapped back.
     */
    method SearchQuery(query: seq<real>, k: nat) returns (output: seq<(int, real)>)
      requires Valid() && k > 0
      ensures forall j :: 0 <= j < |output| ==> 0 <= output[j].0 < obs
      ensures IsMetric(metric) ==>
        output == Translated(observationId, Bruteforce.QueryResult(metric, data, dim, obs, query, k))
    {
      var nearest := new Queue.NeighborQueue();
      nearest.Reset(k);
      SearchNn(query, nearest);
      ghost var s := nearest.nearest;
      StoredIndices(Candidates(metric, data, dim, obs, query), s, nearest.added, k);
      var ids, ds := nearest.Report(Some([]), Some([]));
      var zipped := FindNN.Zip((ids.value, ds.value));
      assert zipped == Bruteforce.Zipped(s);
      output := Normalize(zipped);
    }
  }

  /** The builder: copies the observations of the matrix and builds the index over the copy. */
  class KmknnBuilder {
    const metric: Metric

    constructor (metric: Metric)
      ensures this.metric == metric
    {
      this.metric := metric;
    }

    method BuildRaw(mat: Mock.SimpleMatrix, ncenters: nat, kmCenters: seq<real>, clusters: seq<int>, kmSizes: seq<int>)
      returns (p: KmknnPrebuilt)
      requires mat.numDim * mat.numObs <= |mat.data|
      requires |kmCenters| == ncenters * mat.numDim && |kmSizes| == ncenters && |clusters| == mat.numObs
      requires Counted(clusters, kmSizes)
      ensures p.Valid() && p.metric == metric
      ensures p.dim == mat.numDim && p.obs == mat.numObs && p.original == mat.data[..mat.numDim * mat.numObs]
    {
      var store := Bruteforce.BruteforceBuilder.CopyObservations(mat);
      p := new KmknnPrebuilt(mat.NumDimensions(), mat.NumObservations(), store, metric,
                             ncenters, kmCenters, clusters, kmSizes);
    }
  }

  /**
   * The block removing the empty clusters: the compaction loop, then, when
   * some cluster was empty, the relabelling loop and the shrinking of the
   * centres. The surviving clusters keep their order; their sizes count
   * the new labels.
   */
  method RemoveEmptyClusters(dim: nat, ncenters: nat, kmCenters: seq<real>, clusters: seq<int>, kmSizes: seq<int>)
    returns (labels: seq<int>, nc: nat, centers: seq<real>, sizes: seq<int>)
    requires |kmCenters| == ncenters * dim && |kmSizes| == ncenters
    requires Counted(clusters, kmSizes)
    ensures nc == |Survivors(kmSizes)| && |centers| == nc * dim
    ensures Permute.Rows(centers, dim, nc) == Permute.Pick(Permute.Rows(kmCenters, dim, ncenters), Survivors(kmSizes))
    ensures sizes == Permute.Pick(kmSizes, Survivors(kmSizes))
    ensures |labels| == |clusters| && Counted(labels, sizes)
    ensures forall o :: 0 <= o < |labels| ==> Survivors(kmSizes)[labels[o]] == clusters[o]
  {
    var survivors, compacted, newSizes, remap := CompactClusters(dim, ncenters, kmCenters, kmSizes);
    if survivors < ncenters {
      labels := Relabel(clusters, remap);
      nc := survivors;
      RowsPrefix(compacted, dim, ncenters, nc);
      centers := compacted[..nc * dim];
    } else {
      KeptAll(kmSizes, remap);
      labels := clusters;
      nc := ncenters;
      centers := compacted;
      assert Permute.Rows(compacted, dim, ncenters)[..nc] == Permute.Rows(compacted, dim, ncenters);
    }
    RelabelCounts(clusters, kmSizes, remap, labels);
    sizes := newSizes[..nc];
  }

  /**
   * The end of `search_nn`, for the state of a neighbour queue once every
   * position is handled: only candidates were offered, and for a true
   * metric the queue holds the nearest ones.
   */
  lemma SearchFinish(m: Metric, cands: seq<Pair>, done: set<int>, q: Queue.NeighborQueue, thr: real)
    requires forall x :: 0 <= x < |cands| ==> cands[x].index == x
    requires q.Valid() && thr == Thr(q.full, q.nearest, q.neighbors)
    requires Dealt(m, cands, done, q.added, q.full, thr)
    requires forall p :: 0 <= p < |cands| ==> p in done
    ensures q.added <= multiset(cands)
    ensures IsMetric(m) ==> q.nearest == Sort(cands)[..Min(q.neighbors, |cands|)]
  {
    DealtWithin(m, cands, done, q.added, q.full, thr);
    if IsMetric(m) {
      DealtIsNearest(m, cands, done, q.nearest, q.added, q.neighbors, q.full, thr);
    }
  }

  /** The positions handled are those of the segments of the clusters visited. */
  ghost predicate Covers(offsets: seq<int>, sizes: seq<int>, done: set<int>, visited: seq<int>) {
    forall c, p :: InSegment(offsets, sizes, c, p) ==> (p in done <==> c in visited)
  }

  /** Visiting one more cluster handles exactly its segment. */
  lemma CoversStep(offsets: seq<int>, sizes: seq<int>, n: int, done: set<int>, visited: seq<int>, center: nat)
    requires Tiled(offsets, sizes, n) && Covers(offsets, sizes, done, visited) && center < |sizes|
    ensures Covers(offsets, sizes, done + Span(offsets[center], offsets[center] + sizes[center]), visited + [center])
  {
    forall c, p | InSegment(offsets, sizes, c, p)
      ensures p in done + Span(offsets[center], offsets[center] + sizes[center]) <==> c in visited + [center]
    {
      if InSegment(offsets, sizes, center, p) {
        SegmentUnique(offsets, sizes, n, c, center, p);
      }
    }
  }

  /** Once every cluster is visited, every position is handled. */
  lemma CoversAll(offsets: seq<int>, sizes: seq<int>, n: int, done: set<int>, visited: seq<int>)
    requires Tiled(offsets, sizes, n) && Covers(offsets, sizes, done, visited)
    requires forall c :: 0 <= c < |sizes| ==> c in visited
    ensures forall p :: 0 <= p < n ==> p in done
  {
    forall p | 0 <= p < n ensures p in done {
      var c := SegmentOf(offsets, sizes, n, p);
    }
  }

  /** The k-means sizes of the clusters, laid end to end by their prefix sums, tile the store. */
  lemma SizesTile(offsets: seq<int>, sizes: seq<int>, labels: seq<int>)
    requires Counted(labels, sizes)
    requires |offsets| == |sizes| && forall c :: 0 <= c < |sizes| ==> offsets[c] == Sum(sizes[..c])
    ensures Tiled(offsets, sizes, |labels|)
  {
    SumOfCounts(labels, sizes);
  }

  /**
   * After the rows are moved into bucket order, each position of a segment
   * holds its row's distance to that segment's centre.
   */
  lemma LayoutDistances(m: Metric, data: seq<real>, dim: nat, n: nat, centers: seq<real>, nc: nat,
                        labels: seq<int>, offsets: seq<int>, sizes: seq<int>, bd: seq<Pair>,
                        permuted: seq<real>, dtc: seq<real>)
    requires |data| == n * dim && |centers| == nc * dim && |labels| == n && |sizes| == nc
    requires Tiled(offsets, sizes, n)
    requires Bucketed(m, Permute.Rows(data, dim, n), Permute.Rows(centers, dim, nc), labels, offsets, sizes, bd)
    requires |permuted| == |data| && Permute.IsPermutation(Indices(bd))
    requires Permute.Rows(permuted, dim, n) == Permute.Pick(Permute.Rows(data, dim, n), Indices(bd))
    requires dtc == Distances(bd)
    ensures forall c, p :: InSegment(offsets, sizes, c, p) ==>
      0 <= p < n && dtc[p] == Dist(m, Permute.NthRow(permuted, dim, n, p), Permute.NthRow(centers, dim, nc, c))
  {
    var rows, centerRows := Permute.Rows(data, dim, n), Permute.Rows(centers, dim, nc);
    forall c, p | InSegment(offsets, sizes, c, p)
      ensures 0 <= p < n && dtc[p] == Dist(m, Permute.NthRow(permuted, dim, n, p), Permute.NthRow(centers, dim, nc, c))
    {
      SegmentEnd(offsets, sizes, n, c);
      assert EntryOk(m, rows, centerRows, labels, offsets, sizes, bd[p], p);
      SegmentUnique(offsets, sizes, n, labels[bd[p].index], c, p);
      assert Permute.Rows(permuted, dim, n)[p] == rows[Indices(bd)[p]];
    }
  }

  /** Segments sorted by pair are ascending by distance. */
  lemma LayoutAscending(offsets: seq<int>, sizes: seq<int>, n: int, bd: seq<Pair>, dtc: seq<real>)
    requires Tiled(offsets, sizes, n) && |bd| == n && dtc == Distances(bd)
    requires forall c :: 0 <= c < |sizes| ==> SegmentSorted(bd, offsets, sizes, c)
    ensures forall c :: 0 <= c < |sizes| ==> Ascending(dtc, offsets[c], offsets[c] + sizes[c])
  {
    forall c | 0 <= c < |sizes| ensures Ascending(dtc, offsets[c], offsets[c] + sizes[c]) {
      SegmentEnd(offsets, sizes, n, c);
      assert SegmentSorted(bd, offsets, sizes, c);
    }
  }

  /** Every observation is stored inside its own cluster's segment. */
  lemma LayoutLocations(m: Metric, rows: seq<seq<real>>, centerRows: seq<seq<real>>, labels: seq<int>,
                        offsets: seq<int>, sizes: seq<int>, bd: seq<Pair>, newLocation: seq<int>)
    requires Bucketed(m, rows, centerRows, labels, offsets, sizes, bd)
    requires |newLocation| == |labels|
    requires forall p :: 0 <= p < |bd| ==> 0 <= bd[p].index < |labels| && newLocation[bd[p].index] == p
    ensures forall o :: 0 <= o < |labels| ==> InSegment(offsets, sizes, labels[o], newLocation[o])
  {
    var ids := Indices(bd);
    forall o | 0 <= o < |labels| ensures InSegment(offsets, sizes, labels[o], newLocation[o]) {
      assert o in multiset(Permute.Range(|labels|)) by {
        assert Permute.Range(|labels|)[o] == o;
      }
      assert o in multiset(ids);
      var p :| 0 <= p < |ids| && ids[p] == o;
      assert EntryOk(m, rows, centerRows, labels, offsets, sizes, bd[p], p);
    }
  }

  /**
   * The sorted centre distances: each entry names a distinct cluster and
   * carries the raw distance from the target to its centre, and every
   * cluster appears.
   */
  lemma CenterOrderFacts(m: Metric, centers: seq<real>, dim: nat, nc: nat, target: seq<real>, order: seq<Pair>)
    requires nc * dim <= |centers| && order == Sort(Candidates(m, centers, dim, nc, target))
    ensures |order| == nc && DistinctIndices(order)
    ensures forall t :: 0 <= t < nc ==>
      0 <= order[t].index < nc && order[t].dist == m.raw(target, Permute.NthRow(centers, dim, nc, order[t].index))
    ensures forall c :: 0 <= c < nc ==> c in Indices(order)
  {
    var cands := Candidates(m, centers, dim, nc, target);
    CandidatesDistinct(m, centers, dim, nc, target);
    DistinctIndicesPermutation(order, cands);
    forall t | 0 <= t < nc
      ensures 0 <= order[t].index < nc && order[t].dist == m.raw(target, Permute.NthRow(centers, dim, nc, order[t].index))
    {
      assert order[t] in multiset(cands) by {
        assert order[t] in multiset(order);
      }
      var x :| 0 <= x < nc && cands[x] == order[t];
    }
    forall c | 0 <= c < nc ensures c in Indices(order) {
      assert cands[c] in multiset(order) by {
        assert cands[c] in multiset(cands);
      }
      var t :| 0 <= t < nc && order[t] == cands[c];
      assert Indices(order)[t] == c;
    }
  }

  /** `newLocation` inverts the permutation `sigma`, so `sigma` inverts it too. */
  lemma LocationsInverse(sigma: seq<int>, newLocation: seq<int>)
    requires Permute.IsPermutation(sigma) && |newLocation| == |sigma|
    requires forall p :: 0 <= p < |sigma| ==> 0 <= sigma[p] < |sigma| && newLocation[sigma[p]] == p
    ensures forall o :: 0 <= o < |sigma| ==> 0 <= newLocation[o] < |sigma| && sigma[newLocation[o]] == o
  {
    forall o | 0 <= o < |sigma| ensures 0 <= newLocation[o] < |sigma| && sigma[newLocation[o]] == o {
      assert o in multiset(Permute.Range(|sigma|)) by {
        assert Permute.Range(|sigma|)[o] == o;
      }
      assert o in multiset(sigma);
      var p :| 0 <= p < |sigma| && sigma[p] == o;
    }
  }

  lemma PrefixGrow<T>(s: seq<T>, t: nat)
    requires t < |s|
    ensures s[..t + 1] == s[..t] + [s[t]]
  {
  }

  /** A cluster is reached once: the clusters before position `t` of the order are all different from it. */
  lemma NotVisited(order: seq<Pair>, t: nat)
    requires DistinctIndices(order) && t < |order|
    ensures order[t].index !in Indices(order)[..t]
  {
  }

  /** The pairs a queue keeps from store candidates name positions of the store. */
  lemma StoredIndices(cands: seq<Pair>, s: seq<Pair>, added: multiset<Pair>, k: nat)
    requires forall x :: 0 <= x < |cands| ==> cands[x].index == x
    requires IsKSmallest(s, added, k) && added <= multiset(cands)
    ensures forall j :: 0 <= j < |s| ==> 0 <= s[j].index < |cands|
  {
    forall j | 0 <= j < |s| ensures 0 <= s[j].index < |cands| {
      assert s[j] in multiset(s);
      assert s[j] in multiset(cands);
      var x :| 0 <= x < |cands| && cands[x] == s[j];
    }
  }

}
