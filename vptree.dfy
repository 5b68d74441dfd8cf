/**
 * The vantage-point tree of `Vptree.hpp`. The constructor builds the tree
 * over the observations (each node is an observation, its left subtree the
 * observations no further from it than the median one, its right subtree
 * the rest), then reorders the stored rows into node order. A search walks
 * the tree from the root, offering each node to a bounded neighbour queue
 * (or, for a range search, collecting the nodes within the threshold) and
 * skipping a subtree only when the triangle inequality rules it out.
 *
 * The random choice of each vantage point and `std::nth_element` are
 * arbitrary choices (`:|`); a missing distance bound (the largest
 * representable distance) is `None`.
 */
module Vptree {
  import opened Wrappers
  import opened Pairs
  import opened Metric
  import opened VpShape
  import Permute
  import Queue
  import ReportAll
  import Matrix
  import Bruteforce

  /** A child link that points nowhere: position 0 is the root, which is nobody's child. */
  const LEAF := 0

  class VptreePrebuilt {
    const dim: nat
    const obs: nat
    const metric: Metric
    /** The data as passed in, before the reordering, and its rows. */
    ghost const original: seq<real>
    ghost const rows: seq<seq<real>>
    var data: seq<real>
    var nodes: seq<Node>
    var newLocations: seq<int>
    /** Where the subtree of each node ends, and the median each vantage point was split against. */
    ghost var ends: seq<int>
    ghost var medPts: seq<seq<real>>

    /**
     * After construction: the nodes form one tree over all observations,
     * each observation at exactly one node; the stored rows are in node
     * order; and `newLocations` maps each observation to its node.
     */
    ghost predicate Valid()
      reads this
    {
      && |rows| == obs && |data| == obs * dim && |original| == obs * dim && |nodes| == obs
      && rows == Permute.Rows(original, dim, obs)
      && Tree(metric, rows, nodes, ends, medPts, LEAF, 0, obs)
      && (obs > 0 ==> ends[0] == obs)
      && Permute.IsPermutation(NodeIndices(nodes))
      && Permute.Rows(data, dim, obs) == Permute.Pick(rows, NodeIndices(nodes))
      && |newLocations| == obs
      && (forall q :: 0 <= q < obs ==> newLocations[nodes[q].index] == q)
    }

    /**
     * Builds the tree over `numObs` observations of `numDim` values each
     * (stored observation by observation), then moves the rows into node
     * order, following each cycle of the node order once, and records where
     * each observation went. Without observations there is nothing to build.
     */
    constructor (numDim: nat, numObs: nat, data: seq<real>, metric: Metric)
      requires |data| == numObs * numDim
      ensures dim == numDim && obs == numObs && this.metric == metric && original == data
      ensures Valid()
    {
      dim, obs, this.data, this.metric := numDim, numObs, data, metric;
      original := data;
      rows := Permute.Rows(data, numDim, numObs);
      nodes, newLocations := [], [];
      ends, medPts := [], [];
      new;
      if obs > 0 {
        var items := [];
        for i := 0 to obs
          modifies {}
          invariant |items| == i && forall j :: 0 <= j < i ==> items[j] == Pair(0.0, j)
        {
          items := items + [Pair(0.0, i)];
        }
        var root, built := Build(0, obs, items);
        AllPlaced(nodes, items, built, obs);
        var permuted, locations := Permute.PermuteRows(data, dim, NodeIndices(nodes));
        this.data, newLocations := permuted, locations;
      }
    }

    /**
     * `build`: appends the subtree of the items `[lower, upper)` to the
     * nodes and returns the position of its root. A single item makes a
     * childless node; otherwise the node is split (`Split`) and its two
     * halves are built recursively (`BuildChildren`).
     */
    method Build(lower: nat, upper: nat, items: seq<Pair>) returns (pos: nat, items': seq<Pair>)
      requires lower < upper <= |items| && ItemsIn(items, obs)
      requires |rows| == obs && obs * dim <= |data| && rows == Permute.Rows(data, dim, obs)
      requires |ends| == |nodes| == |medPts|
      modifies this
      decreases upper - lower, 2
      ensures data == old(data) && newLocations == old(newLocations)
      ensures pos == old(|nodes|) && |ends| == |nodes| == |medPts| == pos + (upper - lower)
      ensures nodes[..pos] == old(nodes) && ends[..pos] == old(ends) && medPts[..pos] == old(medPts)
      ensures Shuffled(items, items', lower, upper, obs)
      ensures Built(metric, rows, nodes, ends, medPts, LEAF, pos, items', lower, upper)
    {
      pos := |nodes|;
      nodes := nodes + [Node(0.0, 0, LEAF, LEAF)];
      ends := ends + [pos + (upper - lower)];
      medPts := medPts + [[]];
      ghost var n0, e0, m0 := nodes, ends, medPts;
      items' := items;
      var gap := upper - lower;
      if gap > 1 {
        var median, split := Split(lower, upper, items');
        nodes := nodes[pos := nodes[pos].(radius := metric.normalize(split[median].dist), index := split[lower].index)];
        medPts := medPts[pos := rows[split[median].index]];
        items' := BuildChildren(pos, lower, median, upper, split);
        ShuffledTrans(items, split, items', lower, upper, lower + 1, upper, obs);
        assert nodes[..pos] == n0[..pos] && ends[..pos] == e0[..pos] && medPts[..pos] == m0[..pos];
      } else {
        nodes := nodes[pos := nodes[pos].(index := items'[lower].index)];
        BuiltLeaf(metric, rows, nodes, ends, medPts, LEAF, pos, items', lower);
        assert nodes[..pos] == n0[..pos];
      }
    }

    /**
     * The split of a node with more than one item: an arbitrary item of the
     * range becomes the vantage point and is swapped to its front, the other
     * items get their raw distances from it, and they are partitioned
     * around the median one (whose normalized distance `build` records as
     * the node's radius, with the vantage point's index). Afterwards the items before the median are no further from the
     * vantage point than the median observation, and the rest no closer.
     */
    method Split(lower: nat, upper: nat, items: seq<Pair>) returns (median: nat, items': seq<Pair>)
      requires lower + 1 < upper <= |items| && ItemsIn(items, obs)
      requires |rows| == obs && obs * dim <= |data| && rows == Permute.Rows(data, dim, obs)
      ensures median == lower + (upper - lower) / 2
      ensures Shuffled(items, items', lower, upper, obs)
      ensures items'[median].dist == metric.raw(rows[items'[lower].index], rows[items'[median].index])
      ensures Inside(metric, rows, rows[items'[lower].index], rows[items'[median].index], items', lower + 1, median)
      ensures Outside(metric, rows, rows[items'[lower].index], rows[items'[median].index], items', median, upper)
    {
      var gap := upper - lower;
      var i :| lower <= i < upper;
      SwapShuffled(items, lower, i, upper, obs);
      items' := items[lower := items[i]][i := items[lower]];
      var vantage := items'[lower];
      var vantagePtr := Permute.NthRow(data, dim, obs, vantage.index);
      ghost var v := rows[vantage.index];
      ghost var s1 := items';

      // Compute distances to the new vantage point.
      for x := lower + 1 to upper
        invariant Measured(metric, rows, v, s1, items', lower, x)
      {
        MeasuredStep(metric, rows, v, s1, items', lower, x, obs);
        var loc := Permute.NthRow(data, dim, obs, items'[x].index);
        items' := items'[x := items'[x].(dist := metric.raw(vantagePtr, loc))];
      }

      // Partition around the median distance from the vantage point.
      median := lower + gap / 2;
      var lowerP1 := lower + 1;
      NthElementExists(items', lowerP1, median, upper);
      var parted :| NthElement(items', parted, lowerP1, median, upper);
      NthElementByDistOf(items', parted, lowerP1, median, upper);
      SplitFacts(metric, rows, v, items, s1, items', parted, lower, median, upper);
      items' := parted;
    }

    /**
     * The recursive part of `build`, left side: the items between the
     * vantage point and the median (if any) become the left subtree, linked
     * from the node at `pos`; `BuildRight` then builds the right one.
     */
    method BuildChildren(pos: nat, lower: nat, median: nat, upper: nat, items: seq<Pair>) returns (items': seq<Pair>)
      requires ItemsIn(items, obs) && |rows| == obs && obs * dim <= |data| && rows == Permute.Rows(data, dim, obs)
      requires Open(metric, rows, nodes, ends, medPts, LEAF, pos, items, lower, median, upper)
      modifies this
      decreases upper - lower, 1
      ensures data == old(data) && newLocations == old(newLocations)
      ensures |ends| == |nodes| == |medPts| == pos + (upper - lower)
      ensures nodes[..pos] == old(nodes)[..pos] && ends[..pos] == old(ends)[..pos] && medPts[..pos] == old(medPts)[..pos]
      ensures Shuffled(items, items', lower + 1, upper, obs)
      ensures Built(metric, rows, nodes, ends, medPts, LEAF, pos, items', lower, upper)
    {
      items' := items;
      var lowerP1 := lower + 1;
      if lowerP1 < median {
        ghost var n0, e0, m0 := nodes, ends, medPts;
        var left;
        left, items' := Build(lowerP1, median, items');
        LeftJoin(metric, rows, LEAF, pos, lower, median, upper, items, items', n0, e0, m0, nodes, ends, medPts);
        nodes := nodes[pos := nodes[pos].(left := left)];
      } else {
        OpenPending(metric, rows, nodes, ends, medPts, LEAF, pos, items, lower, median, upper);
      }
      ghost var s4 := items';
      ShuffledWiden(items, s4, lowerP1, upper, lowerP1, median, obs);
      items' := BuildRight(pos, lower, median, upper, items');
      ShuffledTrans(items, s4, items', lowerP1, upper, median, upper, obs);
    }

    /** The recursive part of `build`, right side: the items from the median on become the right subtree. */
    method BuildRight(pos: nat, lower: nat, median: nat, upper: nat, items: seq<Pair>) returns (items': seq<Pair>)
      requires ItemsIn(items, obs) && |rows| == obs && obs * dim <= |data| && rows == Permute.Rows(data, dim, obs)
      requires Pending(metric, rows, nodes, ends, medPts, LEAF, pos, items, lower, median, upper)
      modifies this
      decreases upper - lower, 0
      ensures data == old(data) && newLocations == old(newLocations)
      ensures |ends| == |nodes| == |medPts| == pos + (upper - lower)
      ensures nodes[..pos] == old(nodes)[..pos] && ends[..pos] == old(ends)[..pos] && medPts[..pos] == old(medPts)[..pos]
      ensures Shuffled(items, items', median, upper, obs)
      ensures Built(metric, rows, nodes, ends, medPts, LEAF, pos, items', lower, upper)
    {
      items' := items;
      if median < upper {
        ghost var n1, e1, m1 := nodes, ends, medPts;
        var right;
        right, items' := Build(median, upper, items');
        RightJoin(metric, rows, LEAF, pos, lower, median, upper, items, items', n1, e1, m1, nodes, ends, medPts);
        nodes := nodes[pos := nodes[pos].(right := right)];
      }
    }

    /** The row stored at position `q` is the observation of the node there. */
    lemma RowAt(q: nat)
      requires Valid() && q < obs
      ensures (q + 1) * dim <= |data| && Permute.NthRow(data, dim, obs, q) == Point(rows, nodes, q)
      ensures Linked(nodes, ends, LEAF, q) && ends[q] <= obs && IndicesIn(nodes, |rows|, q, ends[q])
      ensures Separated(metric, rows, nodes, ends, medPts, LEAF, q)
    {
      assert Permute.Rows(data, dim, obs)[q] == Permute.Pick(rows, NodeIndices(nodes))[q];
      assert Linked(nodes, ends, LEAF, q);
    }

    /** Observation `i` sits at position `newLocations[i]`, so the row stored there is its own. */
    lemma LocationOf(i: nat)
      requires Valid() && i < obs
      ensures 0 <= newLocations[i] < obs && nodes[newLocations[i]].index == i
      ensures Permute.NthRow(data, dim, obs, newLocations[i]) == rows[i]
    {
      var ni := NodeIndices(nodes);
      assert i in multiset(Permute.Range(obs)) by {
        assert Permute.Range(obs)[i] == i;
      }
      assert i in multiset(ni);
      var q :| 0 <= q < obs && ni[q] == i;
      RowAt(q);
    }

    /**
     * A neighbour search of the whole tree, started on an empty queue
     * without a bound, leaves the nearest observations in the queue, for a
     * true metric.
     */
    lemma SearchedIsNearest(target: seq<real>, q: Queue.NeighborQueue, bound: Option<real>)
      requires Valid() && obs > 0 && IsMetric(metric) && q.Valid() && bound == Bound(q)
      requires Explored(metric, rows, nodes, target, 0, End(0), multiset{}, q.added, None, bound, false)
      ensures q.nearest == KNearest(metric, rows, target, q.neighbors)
    {
      ExploredIsNearest(metric, rows, nodes, target, q.nearest, q.added, q.neighbors, bound);
    }

    /** The end of the subtree rooted at position `q`. */
    ghost function End(q: nat): (e: int)
      reads this
      requires Valid() && q < obs
      ensures q < e <= obs && e == ends[q] && IndicesIn(nodes, |rows|, q, e)
    {
      assert Linked(nodes, ends, LEAF, q);
      ends[q]
    }

    /** Where the right subtree of the node at `q` starts. */
    ghost function Middle(q: nat): (r: int)
      reads this
      requires Valid() && q < obs
      ensures Linked(nodes, ends, LEAF, q) && q < r <= End(q) && r == Mid(nodes, ends, LEAF, q)
    {
      assert Linked(nodes, ends, LEAF, q);
      Mid(nodes, ends, LEAF, q)
    }

    /**
     * `search_nn`: offers the node at `cur` to the queue when it is within
     * the current bound `maxDist` (tightened to the queue's limit once the
     * queue is full), then searches its children (`SearchChildren`).
     * Returns the bound as it stands afterwards.
     */
    method SearchNn(cur: nat, target: seq<real>, maxDist: Option<real>, nearest: Queue.NeighborQueue)
      returns (md: Option<real>)
      requires Valid() && cur < obs && nearest.Valid() && maxDist == Bound(nearest)
      modifies nearest
      decreases End(cur) - cur, 2
      ensures nearest.Valid() && nearest.neighbors == old(nearest.neighbors) && md == Bound(nearest)
      ensures Explored(metric, rows, nodes, target, cur, End(cur), old(nearest.added), nearest.added, maxDist, md, false)
      ensures maxDist.None? ==> nearest.added != multiset{}
    {
      RowAt(cur);
      var nptr := Permute.NthRow(data, dim, obs, cur);
      var dist := metric.normalize(metric.raw(nptr, target));
      var curnode := nodes[cur];
      ghost var added0 := nearest.added;
      md := maxDist;
      if md.None? || dist <= md.value {
        nearest.Add(curnode.index, dist);
        if nearest.IsFull() {
          md := Some(nearest.Limit());
        }
      }
      ExploredNode(metric, rows, nodes, target, cur, added0, nearest.added, maxDist, md, false);
      ghost var added1, bound1 := nearest.added, md;
      md := SearchChildren(cur, target, dist, md, nearest);
      ExploredJoin(metric, rows, nodes, target, cur, cur + 1, End(cur), true,
                   added0, added1, nearest.added, maxDist, bound1, md, false);
    }

    /**
     * The children of the node at `cur`: the one on the target's side of
     * the ball first (the left one when the target is strictly inside the
     * radius), then the other.
     */
    method SearchChildren(cur: nat, target: seq<real>, dist: real, maxDist: Option<real>, nearest: Queue.NeighborQueue)
      returns (md: Option<real>)
      requires Valid() && cur < obs && nearest.Valid() && maxDist == Bound(nearest)
      requires dist == Dist(metric, Point(rows, nodes, cur), target)
      modifies nearest
      decreases End(cur) - cur, 1
      ensures nearest.Valid() && nearest.neighbors == old(nearest.neighbors) && md == Bound(nearest)
      ensures Explored(metric, rows, nodes, target, cur + 1, End(cur), old(nearest.added), nearest.added, maxDist, md, false)
    {
      RowAt(cur);
      ghost var mid := Mid(nodes, ends, LEAF, cur);
      ghost var added0 := nearest.added;
      if dist < nodes[cur].radius {
        md := SearchLeft(cur, target, dist, maxDist, nearest);
        ghost var added1, bound1 := nearest.added, md;
        md := SearchRight(cur, target, dist, md, nearest);
        ExploredJoin(metric, rows, nodes, target, cur + 1, mid, ends[cur], true,
                     added0, added1, nearest.added, maxDist, bound1, md, false);
      } else {
        md := SearchRight(cur, target, dist, maxDist, nearest);
        ghost var added1, bound1 := nearest.added, md;
        md := SearchLeft(cur, target, dist, md, nearest);
        ExploredJoin(metric, rows, nodes, target, cur + 1, mid, ends[cur], false,
                     added0, added1, nearest.added, maxDist, bound1, md, false);
      }
    }

    /** The left child, searched unless it is missing or the ball lies wholly beyond the bound. */
    method SearchLeft(cur: nat, target: seq<real>, dist: real, maxDist: Option<real>, nearest: Queue.NeighborQueue)
      returns (md: Option<real>)
      requires Valid() && cur < obs && nearest.Valid() && maxDist == Bound(nearest)
      requires dist == Dist(metric, Point(rows, nodes, cur), target)
      modifies nearest
      decreases End(cur) - cur, 0
      ensures nearest.Valid() && nearest.neighbors == old(nearest.neighbors) && md == Bound(nearest)
      ensures Explored(metric, rows, nodes, target, cur + 1, Middle(cur),
                                    old(nearest.added), nearest.added, maxDist, md, false)
    {
      RowAt(cur);
      var curnode := nodes[cur];
      if curnode.left != LEAF && (maxDist.None? || dist - maxDist.value <= curnode.radius) {
        RowAt(cur + 1);
        md := SearchNn(curnode.left, target, maxDist, nearest);
      } else {
        md := maxDist;
        LeftBeyond(metric, rows, nodes, ends, medPts, LEAF, cur, target, dist, md, false);
        ExploredSkip(metric, rows, nodes, target, cur + 1, Middle(cur), nearest.added, md, false);
      }
    }

    /** The right child, searched unless it is missing or the target lies too deep inside the ball. */
    method SearchRight(cur: nat, target: seq<real>, dist: real, maxDist: Option<real>, nearest: Queue.NeighborQueue)
      returns (md: Option<real>)
      requires Valid() && cur < obs && nearest.Valid() && maxDist == Bound(nearest)
      requires dist == Dist(metric, Point(rows, nodes, cur), target)
      modifies nearest
      decreases End(cur) - cur, 0
      ensures nearest.Valid() && nearest.neighbors == old(nearest.neighbors) && md == Bound(nearest)
      ensures Explored(metric, rows, nodes, target, Middle(cur), End(cur),
                                    old(nearest.added), nearest.added, maxDist, md, false)
    {
      RowAt(cur);
      var curnode := nodes[cur];
      if curnode.right != LEAF && (maxDist.None? || dist + maxDist.value >= curnode.radius) {
        RowAt(curnode.right);
        md := SearchNn(curnode.right, target, maxDist, nearest);
      } else {
        md := maxDist;
        RightBeyond(metric, rows, nodes, ends, medPts, LEAF, cur, target, dist, md, false);
        ExploredSkip(metric, rows, nodes, target, Middle(cur), End(cur), nearest.added, md, false);
      }
    }

    /**
     * `search_all`: the node at `cur` is counted (`countOnly`) or appended
     * to the list when it lies within `threshold`, and its children are
     * searched like those of `search_nn`, against the fixed threshold. The
     * ghost `found` is what this call gathered.
     */
    method SearchAll(countOnly: bool, cur: nat, target: seq<real>, threshold: real, count: nat, all: seq<Pair>)
      returns (count': nat, all': seq<Pair>, ghost found: multiset<Pair>)
      requires Valid() && cur < obs
      decreases End(cur) - cur, 2
      ensures Output(countOnly, count, all, count', all', found)
      ensures Gathered(metric, rows, nodes, target, cur, End(cur), multiset{}, found, threshold)
    {
      var dist;
      dist, count', all', found := GatherNode(countOnly, cur, target, threshold, count, all);
      GatheredNode(metric, rows, nodes, target, cur, multiset{}, found, threshold);
      ghost var count1, all1, found1 := count', all', found;
      ghost var foundRest;
      count', all', foundRest := SearchAllChildren(countOnly, cur, target, dist, threshold, count', all');
      found := found + foundRest;
      Gathered0(metric, rows, nodes, target, cur + 1, End(cur), found1, foundRest, threshold);
      GatheredJoin(metric, rows, nodes, target, cur, cur + 1, End(cur), true, multiset{}, found1, found, threshold);
      OutputJoin(countOnly, count, all, count1, all1, found1, count', all', foundRest);
    }

    /** The node at `cur` on its own: counted or listed when it lies within `threshold`. */
    method GatherNode(countOnly: bool, cur: nat, target: seq<real>, threshold: real, count: nat, all: seq<Pair>)
      returns (dist: real, count': nat, all': seq<Pair>, ghost found: multiset<Pair>)
      requires Valid() && cur < obs
      ensures dist == Dist(metric, Point(rows, nodes, cur), target)
      ensures found == if dist <= threshold then multiset{Cand(metric, rows, nodes, target, cur)} else multiset{}
      ensures Output(countOnly, count, all, count', all', found)
    {
      RowAt(cur);
      var nptr := Permute.NthRow(data, dim, obs, cur);
      dist := metric.normalize(metric.raw(nptr, target));
      var curnode := nodes[cur];
      count', all' := count, all;
      found := multiset{};
      if dist <= threshold {
        if countOnly {
          count' := count' + 1;
        } else {
          all' := all' + [Pair(dist, curnode.index)];
          assert all'[|all|..] == [Pair(dist, curnode.index)];
        }
        found := multiset{Pair(dist, curnode.index)};
      }
    }

    /** The children of the node at `cur`, the one on the target's side of the ball first. */
    method SearchAllChildren(countOnly: bool, cur: nat, target: seq<real>, dist: real, threshold: real,
                             count: nat, all: seq<Pair>)
      returns (count': nat, all': seq<Pair>, ghost found: multiset<Pair>)
      requires Valid() && cur < obs && dist == Dist(metric, Point(rows, nodes, cur), target)
      decreases End(cur) - cur, 1
      ensures Output(countOnly, count, all, count', all', found)
      ensures Gathered(metric, rows, nodes, target, cur + 1, End(cur), multiset{}, found, threshold)
    {
      RowAt(cur);
      ghost var mid := Mid(nodes, ends, LEAF, cur);
      ghost var found1, found2;
      ghost var count1, all1;
      if dist < nodes[cur].radius {
        count', all', found1 := SearchAllLeft(countOnly, cur, target, dist, threshold, count, all);
        count1, all1 := count', all';
        count', all', found2 := SearchAllRight(countOnly, cur, target, dist, threshold, count', all');
        Gathered0(metric, rows, nodes, target, mid, ends[cur], found1, found2, threshold);
        GatheredJoin(metric, rows, nodes, target, cur + 1, mid, ends[cur], true,
                     multiset{}, found1, found1 + found2, threshold);
      } else {
        count', all', found1 := SearchAllRight(countOnly, cur, target, dist, threshold, count, all);
        count1, all1 := count', all';
        count', all', found2 := SearchAllLeft(countOnly, cur, target, dist, threshold, count', all');
        Gathered0(metric, rows, nodes, target, cur + 1, mid, found1, found2, threshold);
        GatheredJoin(metric, rows, nodes, target, cur + 1, mid, ends[cur], false,
                     multiset{}, found1, found1 + found2, threshold);
      }
      found := found1 + found2;
      OutputJoin(countOnly, count, all, count1, all1, found1, count', all', found2);
    }

    /** The left child, searched unless it is missing or the ball lies wholly beyond the threshold. */
    method SearchAllLeft(countOnly: bool, cur: nat, target: seq<real>, dist: real, threshold: real,
                         count: nat, all: seq<Pair>)
      returns (count': nat, all': seq<Pair>, ghost found: multiset<Pair>)
      requires Valid() && cur < obs && dist == Dist(metric, Point(rows, nodes, cur), target)
      decreases End(cur) - cur, 0
      ensures Output(countOnly, count, all, count', all', found)
      ensures Gathered(metric, rows, nodes, target, cur + 1, Middle(cur), multiset{}, found, threshold)
    {
      RowAt(cur);
      var curnode := nodes[cur];
      if curnode.left != LEAF && dist - threshold <= curnode.radius {
        RowAt(cur + 1);
        count', all', found := SearchAll(countOnly, curnode.left, target, threshold, count, all);
      } else {
        count', all', found := count, all, multiset{};
        LeftBeyond(metric, rows, nodes, ends, medPts, LEAF, cur, target, dist, Some(threshold), false);
        GatheredSkip(metric, rows, nodes, target, cur + 1, Middle(cur), found, threshold);
        assert all'[|all|..] == [];
      }
    }

    /** The right child, searched unless it is missing or the target lies too deep inside the ball. */
    method SearchAllRight(countOnly: bool, cur: nat, target: seq<real>, dist: real, threshold: real,
                          count: nat, all: seq<Pair>)
      returns (count': nat, all': seq<Pair>, ghost found: multiset<Pair>)
      requires Valid() && cur < obs && dist == Dist(metric, Point(rows, nodes, cur), target)
      decreases End(cur) - cur, 0
      ensures Output(countOnly, count, all, count', all', found)
      ensures Gathered(metric, rows, nodes, target, Middle(cur), End(cur), multiset{}, found, threshold)
    {
      RowAt(cur);
      var curnode := nodes[cur];
      if curnode.right != LEAF && dist + threshold >= curnode.radius {
        RowAt(curnode.right);
        count', all', found := SearchAll(countOnly, curnode.right, target, threshold, count, all);
      } else {
        count', all', found := count, all, multiset{};
        RightBeyond(metric, rows, nodes, ends, medPts, LEAF, cur, target, dist, Some(threshold), false);
        GatheredSkip(metric, rows, nodes, target, Middle(cur), End(cur), found, threshold);
        assert all'[|all|..] == [];
      }
    }
  }

  /**
   * A searcher over a built tree. It owns a neighbour queue and a buffer of
   * range hits, both reused from one search to the next.
   */
  class VptreeSearcher {
    const parent: VptreePrebuilt
    const nearest: Queue.NeighborQueue
    var allNeighbors: seq<Pair>

    constructor (parent: VptreePrebuilt)
      ensures this.parent == parent && fresh(nearest) && nearest.Valid() && allNeighbors == []
    {
      this.parent := parent;
      nearest := new Queue.NeighborQueue();
      allNeighbors := [];
    }

    /**
     * `search(i, k)`: the `k` nearest neighbours of observation `i` other
     * than `i` itself. The queue holds `k + 1` so that `i` can be dropped;
     * when it is not among them, the furthest is dropped instead.
     */
    method SearchIndex(i: nat, k: nat, outIdx: Option<seq<int>>, outDist: Option<seq<real>>)
      returns (idx: Option<seq<int>>, dist: Option<seq<real>>)
      requires parent.Valid() && i < parent.obs
      modifies nearest
      ensures idx.Some? == outIdx.Some? && dist.Some? == outDist.Some?
      ensures IsMetric(parent.metric) ==>
        var r := Queue.WithoutSelf(KNearest(parent.metric, parent.rows, parent.rows[i], k + 1), i);
        && idx == (if outIdx.Some? then Some(Indices(r)) else None)
        && dist == (if outDist.Some? then Some(Distances(r)) else None)
    {
      nearest.Reset(k + 1);
      parent.LocationOf(i);
      var iptr := Permute.NthRow(parent.data, parent.dim, parent.obs, parent.newLocations[i]);
      var md := parent.SearchNn(0, iptr, None, nearest);
      if IsMetric(parent.metric) {
        parent.SearchedIsNearest(iptr, nearest, md);
      }
      idx, dist := nearest.ReportSelf(outIdx, outDist, i);
    }

    /**
     * `search(query, k)`: the `k` nearest observations to `query`. With
     * `k == 0` or no observations the requested outputs are cleared
     * without searching.
     */
    method SearchQuery(query: seq<real>, k: nat, outIdx: Option<seq<int>>, outDist: Option<seq<real>>)
      returns (idx: Option<seq<int>>, dist: Option<seq<real>>)
      requires parent.Valid()
      modifies nearest
      ensures idx.Some? == outIdx.Some? && dist.Some? == outDist.Some?
      ensures IsMetric(parent.metric) ==>
        var r := KNearest(parent.metric, parent.rows, query, k);
        && idx == (if outIdx.Some? then Some(Indices(r)) else None)
        && dist == (if outDist.Some? then Some(Distances(r)) else None)
    {
      if k == 0 || |parent.nodes| == 0 {
        idx := if outIdx.Some? then Some([]) else None;
        dist := if outDist.Some? then Some([]) else None;
      } else {
        nearest.Reset(k);
        var md := parent.SearchNn(0, query, None, nearest);
        if IsMetric(parent.metric) {
          parent.SearchedIsNearest(query, nearest, md);
        }
        idx, dist := nearest.Report(outIdx, outDist);
      }
    }

    /**
     * `search_all(i, d)`: the observations within `d` of observation `i`,
     * other than `i` itself. Without requested outputs the hits are only
     * counted; otherwise they are collected, sorted and reported.
     */
    method SearchAllIndex(i: nat, d: real, outIdx: Option<seq<int>>, outDist: Option<seq<real>>)
      returns (count: nat, idx: Option<seq<int>>, dist: Option<seq<real>>)
      requires parent.Valid() && i < parent.obs
      modifies this
      ensures idx.Some? == outIdx.Some? && dist.Some? == outDist.Some?
      ensures outIdx.None? && outDist.None? ==> allNeighbors == old(allNeighbors)
      ensures outIdx.Some? || outDist.Some? ==>
        multiset(allNeighbors) <= multiset(InRange(parent.metric, parent.rows, parent.rows[i], d))
      ensures IsMetric(parent.metric) ==>
        var r := InRange(parent.metric, parent.rows, parent.rows[i], d);
        && count == ReportAll.CountWithoutSelf(|r|)
        && (outIdx.Some? || outDist.Some? ==> allNeighbors == r)
        && idx == (if outIdx.Some? then Some(Indices(ReportAll.WithoutIndex(r, i))) else None)
        && dist == (if outDist.Some? then Some(Distances(ReportAll.WithoutIndex(r, i))) else None)
    {
      parent.LocationOf(i);
      var iptr := Permute.NthRow(parent.data, parent.dim, parent.obs, parent.newLocations[i]);
      var hits, all;
      ghost var found;
      if outIdx.None? && outDist.None? {
        hits, all, found := parent.SearchAll(true, 0, iptr, d, 0, []);
        count := ReportAll.CountWithoutSelf(hits);
        idx, dist := None, None;
      } else {
        allNeighbors := [];
        hits, all, found := parent.SearchAll(false, 0, iptr, d, 0, allNeighbors);
        assert all == all[|allNeighbors|..];
        allNeighbors, idx, dist := ReportAll.ReportAllNeighborsSelf(all, outIdx, outDist, i);
        count := ReportAll.CountWithoutSelf(|allNeighbors|);
      }
      GatheredIsInRange(parent.metric, parent.rows, parent.nodes, iptr, found, d);
      if IsMetric(parent.metric) && (outIdx.Some? || outDist.Some?) {
        SortedUnique(allNeighbors, InRange(parent.metric, parent.rows, parent.rows[i], d));
      }
    }

    /**
     * `search_all(query, d)`: the observations within `d` of `query`.
     * Without observations there is no root to start from, and the
     * buffer is cleared and reported empty.
     */
    method SearchAllQuery(query: seq<real>, d: real, outIdx: Option<seq<int>>, outDist: Option<seq<real>>)
      returns (count: nat, idx: Option<seq<int>>, dist: Option<seq<real>>)
      requires parent.Valid()
      modifies this
      ensures idx.Some? == outIdx.Some? && dist.Some? == outDist.Some?
      ensures outIdx.None? && outDist.None? && parent.obs > 0 ==> allNeighbors == old(allNeighbors)
      ensures outIdx.Some? || outDist.Some? || parent.obs == 0 ==>
        multiset(allNeighbors) <= multiset(InRange(parent.metric, parent.rows, query, d))
      ensures IsMetric(parent.metric) ==>
        var r := InRange(parent.metric, parent.rows, query, d);
        && count == |r|
        && (outIdx.Some? || outDist.Some? || parent.obs == 0 ==> allNeighbors == r)
        && idx == (if outIdx.Some? then Some(Indices(r)) else None)
        && dist == (if outDist.Some? then Some(Distances(r)) else None)
    {
      if |parent.nodes| == 0 {
        allNeighbors := [];
        allNeighbors, idx, dist := ReportAll.ReportAllNeighbors(allNeighbors, outIdx, outDist);
        count := 0;
        return;
      }
      var hits, all;
      ghost var found;
      if outIdx.None? && outDist.None? {
        count, all, found := parent.SearchAll(true, 0, query, d, 0, []);
        idx, dist := None, None;
      } else {
        allNeighbors := [];
        hits, all, found := parent.SearchAll(false, 0, query, d, 0, allNeighbors);
        assert all == all[|allNeighbors|..];
        allNeighbors, idx, dist := ReportAll.ReportAllNeighbors(all, outIdx, outDist);
        count := |allNeighbors|;
      }
      GatheredIsInRange(parent.metric, parent.rows, parent.nodes, query, found, d);
      if IsMetric(parent.metric) && (outIdx.Some? || outDist.Some?) {
        SortedUnique(allNeighbors, InRange(parent.metric, parent.rows, query, d));
      }
    }
  }

  /** The builder: copies the observations of the matrix, one after another, and builds the tree over the copy. */
  class VptreeBuilder {
    const metric: Metric

    constructor (metric: Metric)
      ensures this.metric == metric
    {
      this.metric := metric;
    }

    method BuildKnownRaw(mat: Matrix.SimpleMatrix) returns (p: VptreePrebuilt)
      requires mat.numDim * mat.numObs <= |mat.data|
      ensures fresh(p) && p.Valid()
      ensures p.dim == mat.numDim && p.obs == mat.numObs && p.metric == metric
      ensures p.original == mat.data[..mat.numDim * mat.numObs]
    {
      var store := CopyObservations(mat);
      p := new VptreePrebuilt(mat.NumDimensions(), mat.NumObservations(), store, metric);
    }

    /** The copy loop: the `o`-th observation the extractor hands out goes to `[o * ndim, (o + 1) * ndim)`. */
    static method CopyObservations(mat: Matrix.SimpleMatrix) returns (store: seq<real>)
      requires mat.numDim * mat.numObs <= |mat.data|
      ensures store == mat.data[..mat.numDim * mat.numObs]
    {
      var ndim := mat.NumDimensions();
      var nobs := mat.NumObservations();
      var work := mat.NewKnownExtractor();
      store := seq(ndim * nobs, _ => 0.0);
      var at := 0;
      for o := 0 to nobs
        invariant at == o * ndim && work.at == o && work.data == mat.data && work.dim == ndim
        invariant |store| == ndim * nobs && store[..at] == mat.data[..at]
      {
        RowFits(nobs, ndim, o);
        var ptr := work.Next();
        store := store[..at] + mat.data[ptr..ptr + ndim] + store[at + ndim..];
        at := at + ndim;
      }
      assert store == store[..at];
    }
  }

  /**
   * What a range search hands back: the count grows by the number of
   * pairs found (counting), or the found pairs are appended to the list
   * (listing); the other output is left alone.
   */
  ghost predicate Output(countOnly: bool, count: nat, all: seq<Pair>, count': nat, all': seq<Pair>, found: multiset<Pair>) {
    if countOnly then count' == count + |found| && all' == all
    else count' == count && |all| <= |all'| && all'[..|all|] == all && multiset(all'[|all|..]) == found
  }

  /** Two searches one after the other hand back what both found. */
  lemma OutputJoin(countOnly: bool, count0: nat, all0: seq<Pair>, count1: nat, all1: seq<Pair>, found1: multiset<Pair>,
                   count2: nat, all2: seq<Pair>, found2: multiset<Pair>)
    requires Output(countOnly, count0, all0, count1, all1, found1)
    requires Output(countOnly, count1, all1, count2, all2, found2)
    ensures Output(countOnly, count0, all0, count2, all2, found1 + found2)
  {
    if !countOnly {
      assert all2[..|all0|] == all1[..|all0|];
      assert all2[|all0|..] == all1[|all0|..] + all2[|all1|..];
    }
  }

  /** A search gathers relative to where it started: shifting the start shifts the result. */
  lemma Gathered0(m: Metric, rows: seq<seq<real>>, nodes: seq<Node>, target: seq<real>, lo: int, hi: int,
                  found0: multiset<Pair>, found: multiset<Pair>, d: real)
    requires 0 <= lo <= hi && IndicesIn(nodes, |rows|, lo, hi)
    requires Gathered(m, rows, nodes, target, lo, hi, multiset{}, found, d)
    ensures Gathered(m, rows, nodes, target, lo, hi, found0, found0 + found, d)
  {
  }

  /** A tree built over the items `0, ..., n - 1` holds each observation at exactly one node. */
  lemma AllPlaced(nodes: seq<Node>, items: seq<Pair>, built: seq<Pair>, n: nat)
    requires |nodes| == |items| == n && forall j :: 0 <= j < n ==> items[j].index == j
    requires Shuffled(items, built, 0, n, n) && Placed(nodes, 0, built, 0, n)
    ensures Permute.IsPermutation(NodeIndices(nodes))
  {
    assert items[0..n] == items && built[0..n] == built;
    assert Indices(items) == Permute.Range(n);
    assert NodeIndices(nodes) == Indices(built);
  }

  /**
   * The search bound a queue implies: unset until the queue is full, then
   * the distance of its furthest entry.
   */
  function Bound(q: Queue.NeighborQueue): (r: Option<real>)
    reads q
    requires q.Valid()
    ensures r.Some? <==> q.full
    ensures r.Some? ==> |q.nearest| == q.neighbors && r.value == q.nearest[q.neighbors - 1].dist
    ensures r.Some? ==> forall p :: p in q.added - multiset(q.nearest) ==> r.value <= p.dist
  {
    if q.IsFull() then Some(q.Limit()) else None
  }

  /**
   * For a true metric, when the left subtree of the node at `p` is
   * non-empty and the target is further from the vantage point than the
   * radius plus the bound, everything in it lies beyond the bound.
   */
  lemma LeftBeyond(m: Metric, rows: seq<seq<real>>, nodes: seq<Node>, ends: seq<int>, medPts: seq<seq<real>>,
                   leaf: int, p: int, target: seq<real>, dist: real, bound: Option<real>, orEqual: bool)
    requires Linked(nodes, ends, leaf, p) && |medPts| == |nodes| && IndicesIn(nodes, |rows|, p, ends[p])
    requires Separated(m, rows, nodes, ends, medPts, leaf, p) && dist == Dist(m, Point(rows, nodes, p), target)
    requires nodes[p].left == leaf || (bound.Some? && dist - bound.value > nodes[p].radius)
    ensures IsMetric(m) ==> forall q :: p + 1 <= q < Mid(nodes, ends, leaf, p) ==>
      Beyond(Cand(m, rows, nodes, target, q).dist, bound, orEqual)
  {
    if nodes[p].left != leaf && IsMetric(m) {
      PruneLeft(m, rows, nodes, ends, medPts, leaf, p, target, bound.value, orEqual);
    }
  }

  /**
   * For a true metric, when the right subtree of the node at `p` is
   * non-empty and the target is closer to the vantage point than the radius
   * less the bound, everything in it lies beyond the bound.
   */
  lemma RightBeyond(m: Metric, rows: seq<seq<real>>, nodes: seq<Node>, ends: seq<int>, medPts: seq<seq<real>>,
                    leaf: int, p: int, target: seq<real>, dist: real, bound: Option<real>, orEqual: bool)
    requires Linked(nodes, ends, leaf, p) && |medPts| == |nodes| && IndicesIn(nodes, |rows|, p, ends[p])
    requires Separated(m, rows, nodes, ends, medPts, leaf, p) && dist == Dist(m, Point(rows, nodes, p), target)
    requires nodes[p].right == leaf || (bound.Some? && dist + bound.value < nodes[p].radius)
    ensures IsMetric(m) ==> forall q :: Mid(nodes, ends, leaf, p) <= q < ends[p] ==>
      Beyond(Cand(m, rows, nodes, target, q).dist, bound, orEqual)
  {
    if nodes[p].right != leaf && IsMetric(m) {
      PruneRight(m, rows, nodes, ends, medPts, leaf, p, target, bound.value, orEqual);
    }
  }

  /**
   * The node at `pos` has been split and has no children yet: its index is
   * the vantage point's, its radius the distance to the median point, and
   * the items on either side of the median are on the right side of it.
   */
  ghost predicate Open(m: Metric, rows: seq<seq<real>>, nodes: seq<Node>, ends: seq<int>, medPts: seq<seq<real>>,
                       leaf: int, pos: int, items: seq<Pair>, lower: int, median: int, upper: int) {
    && 0 <= pos && leaf <= pos && 0 <= lower < median < upper <= |items|
    && |ends| == |nodes| == |medPts| == pos + 1 && ends[pos] == pos + (upper - lower)
    && 0 <= items[lower].index < |rows|
    && nodes[pos] == Node(m.normalize(m.raw(rows[items[lower].index], medPts[pos])), items[lower].index, leaf, leaf)
    && Inside(m, rows, rows[items[lower].index], medPts[pos], items, lower + 1, median)
    && Outside(m, rows, rows[items[lower].index], medPts[pos], items, median, upper)
  }

  /** As `Open`, once the left subtree (if any) has been built after the node and linked from it. */
  ghost predicate Pending(m: Metric, rows: seq<seq<real>>, nodes: seq<Node>, ends: seq<int>, medPts: seq<seq<real>>,
                          leaf: int, pos: int, items: seq<Pair>, lower: int, median: int, upper: int) {
    && 0 <= pos && leaf <= pos && 0 <= lower < median < upper <= |items|
    && |ends| == |nodes| == |medPts| == pos + (median - lower) && ends[pos] == pos + (upper - lower)
    && 0 <= items[lower].index < |rows|
    && nodes[pos] == Node(m.normalize(m.raw(rows[items[lower].index], medPts[pos])), items[lower].index,
                          if lower + 1 < median then pos + 1 else leaf, leaf)
    && Inside(m, rows, rows[items[lower].index], medPts[pos], items, lower + 1, median)
    && Outside(m, rows, rows[items[lower].index], medPts[pos], items, median, upper)
    && (lower + 1 < median ==> Built(m, rows, nodes, ends, medPts, leaf, pos + 1, items, lower + 1, median))
  }

  /** Without items between the vantage point and the median there is no left subtree to build. */
  lemma OpenPending(m: Metric, rows: seq<seq<real>>, nodes: seq<Node>, ends: seq<int>, medPts: seq<seq<real>>,
                    leaf: int, pos: int, items: seq<Pair>, lower: int, median: int, upper: int)
    requires Open(m, rows, nodes, ends, medPts, leaf, pos, items, lower, median, upper) && lower + 1 == median
    ensures Pending(m, rows, nodes, ends, medPts, leaf, pos, items, lower, median, upper)
  {
  }

  /** The left subtree, built right after the node, joins it once linked. */
  lemma LeftJoin(m: Metric, rows: seq<seq<real>>, leaf: int, pos: nat, lower: nat, median: nat, upper: nat,
                 items: seq<Pair>, items': seq<Pair>, n0: seq<Node>, e0: seq<int>, m0: seq<seq<real>>,
                 nL: seq<Node>, eL: seq<int>, mL: seq<seq<real>>)
    requires Open(m, rows, n0, e0, m0, leaf, pos, items, lower, median, upper) && lower + 1 < median
    requires Shuffled(items, items', lower + 1, median, |rows|)
    requires |eL| == |nL| == |mL| == pos + (median - lower)
    requires nL[..pos + 1] == n0 && eL[..pos + 1] == e0 && mL[..pos + 1] == m0
    requires Built(m, rows, nL, eL, mL, leaf, pos + 1, items', lower + 1, median)
    ensures Pending(m, rows, nL[pos := nL[pos].(left := pos + 1)], eL, mL, leaf, pos, items', lower, median, upper)
    ensures nL[..pos] == n0[..pos] && eL[..pos] == e0[..pos] && mL[..pos] == m0[..pos]
  {
    var nF := nL[pos := nL[pos].(left := pos + 1)];
    assert nL[..pos + 1][pos] == nL[pos] && eL[..pos + 1][pos] == eL[pos] && mL[..pos + 1][pos] == mL[pos];
    var v, med := rows[items[lower].index], m0[pos];
    SidesRearranged(m, rows, v, med, items, items', lower + 1, median);
    SegmentKept(m, rows, v, med, [], 0, items, items', median, upper, lower + 1, median);
    BuiltFrame(m, rows, nL, eL, mL, nF, eL, mL, leaf, pos + 1, items', items', lower + 1, median);
  }

  /** The right subtree, built after the left one, completes the node once linked. */
  lemma RightJoin(m: Metric, rows: seq<seq<real>>, leaf: int, pos: nat, lower: nat, median: nat, upper: nat,
                  items: seq<Pair>, items': seq<Pair>, n1: seq<Node>, e1: seq<int>, m1: seq<seq<real>>,
                  nR: seq<Node>, eR: seq<int>, mR: seq<seq<real>>)
    requires Pending(m, rows, n1, e1, m1, leaf, pos, items, lower, median, upper)
    requires Shuffled(items, items', median, upper, |rows|)
    requires |eR| == |nR| == |mR| == pos + (upper - lower)
    requires nR[..|n1|] == n1 && eR[..|n1|] == e1 && mR[..|n1|] == m1
    requires Built(m, rows, nR, eR, mR, leaf, |n1|, items', median, upper)
    ensures Built(m, rows, nR[pos := nR[pos].(right := |n1|)], eR, mR, leaf, pos, items', lower, upper)
    ensures nR[..pos] == n1[..pos] && eR[..pos] == e1[..pos] && mR[..pos] == m1[..pos]
  {
    var nF := nR[pos := nR[pos].(right := |n1|)];
    var mid := |n1|;
    assert nR[..mid][pos] == nR[pos] && eR[..mid][pos] == eR[pos] && mR[..mid][pos] == mR[pos];
    var v, med := rows[items[lower].index], m1[pos];
    SidesRearranged(m, rows, v, med, items, items', median, upper);
    SegmentKept(m, rows, v, med, [], 0, items, items', lower + 1, median, median, upper);
    BuiltFrame(m, rows, nR, eR, mR, nF, eR, mR, leaf, mid, items', items', median, upper);
    if lower + 1 < median {
      forall q | pos + 1 <= q < mid ensures nF[q] == n1[q] && eR[q] == e1[q] && mR[q] == m1[q] {
        assert nR[..mid][q] == nR[q] && eR[..mid][q] == eR[q] && mR[..mid][q] == mR[q];
      }
      BuiltFrame(m, rows, n1, e1, m1, nF, eR, mR, leaf, pos + 1, items, items', lower + 1, median);
    }
    BuiltNode(m, rows, nF, eR, mR, leaf, pos, items', lower, median, upper, mid);
  }

  /** Swapping the vantage point to the front of the range rearranges the range. */
  lemma SwapShuffled(items: seq<Pair>, lower: nat, i: nat, upper: nat, n: int)
    requires lower <= i < upper <= |items| && ItemsIn(items, n)
    ensures Shuffled(items, items[lower := items[i]][i := items[lower]], lower, upper, n)
  {
    SwapBag(items, lower, i, upper);
  }

  /**
   * The distance loop has reached `x`: the items of `s1` are where they
   * were, and those in `[lower + 1, x)` carry their raw distances from the
   * vantage point `v`.
   */
  ghost predicate Measured(m: Metric, rows: seq<seq<real>>, v: seq<real>, s1: seq<Pair>, items: seq<Pair>, lower: nat, x: nat) {
    && |items| == |s1| && lower < x <= |s1|
    && (forall y :: 0 <= y < |s1| ==> items[y].index == s1[y].index)
    && (forall y :: 0 <= y < |s1| && (y <= lower || x <= y) ==> items[y] == s1[y])
    && DistsFrom(m, rows, v, items, lower + 1, x)
  }

  lemma MeasuredStep(m: Metric, rows: seq<seq<real>>, v: seq<real>, s1: seq<Pair>, items: seq<Pair>, lower: nat, x: nat, n: int)
    requires Measured(m, rows, v, s1, items, lower, x) && x < |s1| && ItemsIn(s1, n) && n == |rows|
    ensures 0 <= items[x].index < |rows|
    ensures Measured(m, rows, v, s1, items[x := items[x].(dist := m.raw(v, rows[items[x].index]))], lower, x + 1)
  {
  }

  /**
   * After the distances are in and the partition is made: the items are a
   * rearrangement of the range with the vantage point still in front, and
   * the median splits the rest.
   */
  lemma SplitFacts(m: Metric, rows: seq<seq<real>>, v: seq<real>, items: seq<Pair>, s1: seq<Pair>, s2: seq<Pair>,
                   parted: seq<Pair>, lower: nat, median: nat, upper: nat)
    requires lower < median < upper <= |items| && Shuffled(items, s1, lower, upper, |rows|)
    requires 0 <= s1[lower].index < |rows| && v == rows[s1[lower].index]
    requires Measured(m, rows, v, s1, s2, lower, upper)
    requires NthElementByDist(s2, parted, lower + 1, median, upper)
    ensures Shuffled(items, parted, lower, upper, |rows|) && parted[lower] == s1[lower]
    ensures 0 <= parted[median].index < |rows|
    ensures parted[median].dist == m.raw(v, rows[parted[median].index])
    ensures Inside(m, rows, v, rows[parted[median].index], parted, lower + 1, median)
    ensures Outside(m, rows, v, rows[parted[median].index], parted, median, upper)
  {
    BagFrame(s1, s2, lower + 1, upper);
    assert ItemsIn(s2, |rows|);
    PartitionFacts(m, rows, v, s2, parted, lower + 1, median, upper);
    ShuffledTrans(items, s1, s2, lower, upper, lower + 1, upper, |rows|);
    ShuffledTrans(items, s2, parted, lower, upper, lower + 1, upper, |rows|);
  }

  /** Every stored observation paired with its distance to `target`, in observation order. */
  function Scored(m: Metric, rows: seq<seq<real>>, target: seq<real>): (r: seq<Pair>)
    ensures |r| == |rows| && forall x :: 0 <= x < |rows| ==> r[x] == Pair(Dist(m, rows[x], target), x)
  {
    seq(|rows|, x requires 0 <= x < |rows| => Pair(Dist(m, rows[x], target), x))
  }

  /** The `k` observations nearest to `target`, by distance and then by index. */
  function KNearest(m: Metric, rows: seq<seq<real>>, target: seq<real>, k: nat): (r: seq<Pair>)
    ensures |r| == Min(k, |rows|)
  {
    Sort(Scored(m, rows, target))[..Min(k, |rows|)]
  }

  /** The observations within `d` of `target`, by distance and then by index. */
  function InRange(m: Metric, rows: seq<seq<real>>, target: seq<real>, d: real): (r: seq<Pair>)
    ensures Sorted(r)
  {
    Sort(WithinDistance(Scored(m, rows, target), d))
  }

  /**
   * A tree whose nodes hold every observation once holds, position by
   * position, a rearrangement of the scored observations, with no pair
   * twice.
   */
  lemma SpanIsScored(m: Metric, rows: seq<seq<real>>, nodes: seq<Node>, target: seq<real>)
    requires |nodes| == |rows| && Permute.IsPermutation(NodeIndices(nodes))
    ensures IndicesIn(nodes, |rows|, 0, |nodes|)
    ensures multiset(Span(m, rows, nodes, target, 0, |nodes|)) == multiset(Scored(m, rows, target))
    ensures Permute.Distinct(Span(m, rows, nodes, target, 0, |nodes|))
  {
    var ni := NodeIndices(nodes);
    Permute.PermutedMultiset(Scored(m, rows, target), ni);
    Permute.PermutationFacts(ni);
    assert Span(m, rows, nodes, target, 0, |nodes|) == Permute.Pick(Scored(m, rows, target), ni);
  }

  /**
   * A neighbour search of the whole tree, started without a bound, ends
   * with the `k` nearest observations in its queue, for a true metric:
   * every candidate it did not add lies beyond the final bound, which is
   * the distance of the furthest neighbour kept.
   */
  lemma ExploredIsNearest(m: Metric, rows: seq<seq<real>>, nodes: seq<Node>, target: seq<real>,
                          s: seq<Pair>, added: multiset<Pair>, k: nat, bound: Option<real>)
    requires IsMetric(m) && |nodes| == |rows| && IndicesIn(nodes, |rows|, 0, |nodes|)
    requires Permute.IsPermutation(NodeIndices(nodes))
    requires IsKSmallest(s, added, k)
    requires Explored(m, rows, nodes, target, 0, |nodes|, multiset{}, added, None, bound, false)
    requires bound.Some? ==> |s| == k > 0 && bound.value == s[k - 1].dist
    ensures s == KNearest(m, rows, target, k)
  {
    var span := Span(m, rows, nodes, target, 0, |nodes|);
    SpanIsScored(m, rows, nodes, target);
    var rest := multiset(span) - added;
    assert added + rest == multiset(span);
    forall p | p in rest ensures |s| == k && s != [] && Lt(s[|s| - 1], p) {
      var j :| 0 <= j < |span| && span[j] == p;
      Permute.DistinctCount(span, p);
      assert p !in added;
      assert Cand(m, rows, nodes, target, j) == p;
    }
    KSmallestExtend(s, added, rest, k);
    KSmallestIsSortPrefix(s, Scored(m, rows, target), k);
  }

  /**
   * A range search of the whole tree gathers only observations within the
   * threshold, and for a true metric all of them.
   */
  lemma GatheredIsInRange(m: Metric, rows: seq<seq<real>>, nodes: seq<Node>, target: seq<real>,
                          found: multiset<Pair>, d: real)
    requires |nodes| == |rows| && IndicesIn(nodes, |rows|, 0, |nodes|)
    requires Permute.IsPermutation(NodeIndices(nodes))
    requires Gathered(m, rows, nodes, target, 0, |nodes|, multiset{}, found, d)
    ensures found <= multiset(InRange(m, rows, target, d))
    ensures IsMetric(m) ==> found == multiset(InRange(m, rows, target, d))
  {
    var span := Span(m, rows, nodes, target, 0, |nodes|);
    SpanIsScored(m, rows, nodes, target);
    WithinSpan(m, rows, nodes, target, 0, |nodes|, d);
    WithinDistanceMultiset(span, Scored(m, rows, target), d);
  }

  /**
   * The scored rows of a dataset are the brute-force candidates with their
   * distances normalized, so for a symmetric metric whose normalization
   * keeps the order the `k` nearest are the brute-force ones, normalized.
   */
  lemma KNearestNormalized(m: Metric, data: seq<real>, dim: nat, n: nat, query: seq<real>, k: nat)
    requires NonNegative(m) && Symmetric(m) && StrictlyMonotone(m) && n * dim <= |data|
    ensures KNearest(m, Permute.Rows(data, dim, n), query, k)
         == NormalizePairs(m, Bruteforce.NearestTo(m, data, dim, n, query, k))
  {
    var rows := Permute.Rows(data, dim, n);
    var c := Candidates(m, data, dim, n, query);
    forall x | 0 <= x < n ensures Scored(m, rows, query)[x] == NormalizePairs(m, c)[x] {
      SymmetricAt(m, rows[x], query);
    }
    assert Scored(m, rows, query) == NormalizePairs(m, c);
    NormalizeSort(m, c);
    NormalizePrefix(m, Sort(c), Min(k, n));
  }

  /** Reporting normalized pairs is normalizing the reported pairs. */
  lemma ZippedNormalized(m: Metric, s: seq<Pair>)
    ensures Bruteforce.Zipped(NormalizePairs(m, s)) == Normalized(m, s)
  {
  }

  /** Dropping `self` only looks at the indices, which normalizing keeps. */
  lemma {:induction false} LastPosNormalized(m: Metric, s: seq<Pair>, self: int)
    ensures Queue.LastPosOf(NormalizePairs(m, s), self) == Queue.LastPosOf(s, self)
  {
    if s != [] {
      NormalizePrefix(m, s, |s| - 1);
      LastPosNormalized(m, s[..|s| - 1], self);
    }
  }

  lemma WithoutSelfNormalized(m: Metric, s: seq<Pair>, self: int)
    requires s != []
    ensures Queue.WithoutSelf(NormalizePairs(m, s), self) == NormalizePairs(m, Queue.WithoutSelf(s, self))
  {
    LastPosNormalized(m, s, self);
    var j := Queue.LastPosOf(s, self);
    if j >= 0 {
      NormalizeAppend(m, s[..j], s[j + 1..]);
      NormalizePrefix(m, s, j);
      assert NormalizePairs(m, s)[j + 1..] == NormalizePairs(m, s[j + 1..]);
    } else {
      NormalizePrefix(m, s, |s| - 1);
    }
  }

  /** For a true metric, a query search of the tree reports what the brute-force index reports. */
  lemma QueryMatchesBruteforce(m: Metric, data: seq<real>, dim: nat, n: nat, query: seq<real>, k: nat)
    requires IsMetric(m) && n * dim <= |data|
    ensures Bruteforce.Zipped(KNearest(m, Permute.Rows(data, dim, n), query, k))
         == Bruteforce.QueryResult(m, data, dim, n, query, k)
  {
    KNearestNormalized(m, data, dim, n, query, k);
    ZippedNormalized(m, Bruteforce.NearestTo(m, data, dim, n, query, k));
  }

  /** For a true metric, a search by observation reports what the brute-force index reports. */
  lemma IndexMatchesBruteforce(m: Metric, data: seq<real>, dim: nat, n: nat, i: nat, k: nat)
    requires IsMetric(m) && n * dim <= |data| && i < n
    ensures Bruteforce.Zipped(Queue.WithoutSelf(KNearest(m, Permute.Rows(data, dim, n), Permute.Rows(data, dim, n)[i], k + 1), i))
         == Bruteforce.IndexResult(m, data, dim, n, i, k)
  {
    var rows := Permute.Rows(data, dim, n);
    RowFits(n, dim, i);
    assert rows[i] == Row(data, dim, i);
    var t := Bruteforce.NearestTo(m, data, dim, n, rows[i], k + 1);
    KNearestNormalized(m, data, dim, n, rows[i], k + 1);
    WithoutSelfNormalized(m, t, i);
    ZippedNormalized(m, Queue.WithoutSelf(t, i));
  }
}
