/**
 * The vantage-point tree of the older interface (`VpTree/VpTree.hpp`). The
 * constructor builds the same median-split tree as the newer index, with -1
 * marking a missing child, then copies the input rows into node order. A
 * search starts at the root with an unbounded `tau` and offers a node to
 * the older neighbour queue only when it lies strictly within `tau`; that
 * queue keeps the first of several candidates tied at its limit, so a
 * result is a set of nearest neighbours up to ties.
 *
 * The random vantage point and `std::nth_element` are arbitrary choices
 * (`:|`); `tau` at the largest representable distance is `None`.
 */
module LegacyVpTree {
  import opened Wrappers
  import opened Pairs
  import opened Metric
  import opened Nearest
  import opened VpShape
  import Permute
  import LegacyQueue
  import LegacyBruteforce
  import Queue
  import FindNN
  import Vptree
  import Bruteforce

  /** A child link that points nowhere. */
  const LEAF := -1

  class VpTree {
    const numDim: nat
    const numObs: nat
    const metric: Metric
    /** The input values and their rows. */
    ghost const original: seq<real>
    ghost const rows: seq<seq<real>>
    var nodes: seq<Node>
    var newLocation: seq<int>
    var store: seq<real>
    /** Where the subtree of each node ends, and the median each vantage point was split against. */
    ghost var ends: seq<int>
    ghost var medPts: seq<seq<real>>

    /**
     * After construction: the nodes form one tree over all observations,
     * each observation at exactly one node; store row `i` is the input row
     * of node `i`; and `newLocation` maps each observation to its node.
     */
    ghost predicate Valid()
      reads this
    {
      && |rows| == numObs && |store| == numObs * numDim && |original| == numObs * numDim && |nodes| == numObs
      && rows == Permute.Rows(original, numDim, numObs)
      && Tree(metric, rows, nodes, ends, medPts, LEAF, 0, numObs)
      && (numObs > 0 ==> ends[0] == numObs)
      && Permute.IsPermutation(NodeIndices(nodes))
      && Permute.Rows(store, numDim, numObs) == Permute.Pick(rows, NodeIndices(nodes))
      && |newLocation| == numObs
      && (forall q :: 0 <= q < numObs ==> newLocation[nodes[q].index] == q)
    }

    /**
     * Builds the tree over the first `nobs` rows of `vals` (`ndim` values
     * each), then fills the store in node order and records where each
     * observation went.
     */
    constructor (ndim: nat, nobs: nat, vals: seq<real>, metric: Metric)
      requires nobs * ndim <= |vals|
      ensures numDim == ndim && numObs == nobs && this.metric == metric && original == vals[..nobs * ndim]
      ensures Valid()
    {
      numDim, numObs, this.metric := ndim, nobs, metric;
      original := vals[..nobs * ndim];
      rows := Permute.Rows(vals, ndim, nobs);
      nodes, ends, medPts := [], [], [];
      newLocation := seq(nobs, _ => 0);
      store := seq(ndim * nobs, _ => 0.0);
      new;
      KeptRowsPrefix(vals, ndim, nobs);
      var items := [];
      for i := 0 to nobs
        modifies {}
        invariant |items| == i && forall j :: 0 <= j < i ==> items[j] == Pair(0.0, j)
      {
        items := items + [Pair(0.0, i)];
      }
      var root, built := Build(0, nobs, vals, items);
      if nobs > 0 {
        Vptree.AllPlaced(nodes, items, built, nobs);
      }
      var st, nl := FillStore(vals);
      store, newLocation := st, nl;
    }

    /**
     * The store fill of the constructor: row `i` of the store gets the input
     * row of node `i`, and that observation's location becomes `i`.
     */
    method FillStore(vals: seq<real>) returns (st: seq<real>, nl: seq<int>)
      requires |rows| == numObs && numObs * numDim <= |vals| && rows == Permute.Rows(vals, numDim, numObs)
      requires |store| == numObs * numDim && |newLocation| == numObs && |nodes| == numObs
      requires IndicesIn(nodes, numObs, 0, numObs) && Permute.IsPermutation(NodeIndices(nodes))
      ensures |st| == numObs * numDim && Permute.Rows(st, numDim, numObs) == Permute.Pick(rows, NodeIndices(nodes))
      ensures |nl| == numObs && forall q :: 0 <= q < numObs ==> nl[nodes[q].index] == q
    {
      st, nl := store, newLocation;
      Permute.PermutationFacts(NodeIndices(nodes));
      for i := 0 to numObs
        invariant |st| == numObs * numDim && |nl| == numObs
        invariant forall q :: 0 <= q < i ==> Permute.Rows(st, numDim, numObs)[q] == rows[nodes[q].index]
        invariant forall q :: 0 <= q < i ==> nl[nodes[q].index] == q
      {
        var curnode := nodes[i];
        assert forall q :: 0 <= q < i ==> NodeIndices(nodes)[q] != NodeIndices(nodes)[i];
        nl := nl[curnode.index := i];
        var start := Permute.NthRow(vals, numDim, numObs, curnode.index);
        Permute.WithRowRows(st, numDim, numObs, i, start);
        st := Permute.WithRow(st, numDim, i, start);
      }
    }

    /**
     * `buildFromPoints`: an empty range is a missing child; otherwise one
     * node is appended for the items `[lower, upper)` and its position is
     * returned. A single item makes a childless node; otherwise the node is
     * split (`Split`) and its two halves are built (`BuildChildren`).
     */
    method Build(lower: nat, upper: nat, vals: seq<real>, items: seq<Pair>) returns (pos: int, items': seq<Pair>)
      requires lower <= upper <= |items| && ItemsIn(items, numObs)
      requires |rows| == numObs && numObs * numDim <= |vals| && rows == Permute.Rows(vals, numDim, numObs)
      requires |ends| == |nodes| == |medPts|
      modifies this
      decreases upper - lower, 2
      ensures store == old(store) && newLocation == old(newLocation)
      ensures Shuffled(items, items', lower, upper, numObs)
      ensures lower == upper ==> pos == LEAF && nodes == old(nodes) && ends == old(ends) && medPts == old(medPts)
      ensures lower < upper ==> pos == old(|nodes|) && |ends| == |nodes| == |medPts| == pos + (upper - lower)
      ensures lower < upper ==> nodes[..pos] == old(nodes) && ends[..pos] == old(ends) && medPts[..pos] == old(medPts)
      ensures lower < upper ==> Built(metric, rows, nodes, ends, medPts, LEAF, pos, items', lower, upper)
    {
      items' := items;
      if upper == lower {
        return LEAF, items';
      }
      pos := |nodes|;
      nodes := nodes + [Node(0.0, 0, LEAF, LEAF)];
      ends := ends + [pos + (upper - lower)];
      medPts := medPts + [[]];
      ghost var n0, e0, m0 := nodes, ends, medPts;
      var gap := upper - lower;
      if gap > 1 {
        var median, split := Split(lower, upper, vals, items');
        nodes := nodes[pos := nodes[pos].(radius := metric.normalize(split[median].dist), index := split[lower].index)];
        medPts := medPts[pos := rows[split[median].index]];
        items' := BuildChildren(pos, lower, median, upper, vals, split);
        ShuffledTrans(items, split, items', lower, upper, lower + 1, upper, numObs);
        assert nodes[..pos] == n0[..pos] && ends[..pos] == e0[..pos] && medPts[..pos] == m0[..pos];
      } else {
        nodes := nodes[pos := nodes[pos].(index := items'[lower].index)];
        BuiltLeaf(metric, rows, nodes, ends, medPts, LEAF, pos, items', lower);
        assert nodes[..pos] == n0[..pos];
      }
    }

    /**
     * The split of a range of more than one item: an arbitrary item becomes
     * the vantage point and is swapped to the front, the others get their
     * raw distances from it, and they are partitioned around the median one
     * by distance alone, so items tied with the median's distance may fall
     * on either side of it.
     */
    method Split(lower: nat, upper: nat, vals: seq<real>, items: seq<Pair>) returns (median: nat, items': seq<Pair>)
      requires lower + 1 < upper <= |items| && ItemsIn(items, numObs)
      requires |rows| == numObs && numObs * numDim <= |vals| && rows == Permute.Rows(vals, numDim, numObs)
      ensures median == lower + (upper - lower) / 2
      ensures Shuffled(items, items', lower, upper, numObs)
      ensures items'[median].dist == metric.raw(rows[items'[lower].index], rows[items'[median].index])
      ensures Inside(metric, rows, rows[items'[lower].index], rows[items'[median].index], items', lower + 1, median)
      ensures Outside(metric, rows, rows[items'[lower].index], rows[items'[median].index], items', median, upper)
    {
      var gap := upper - lower;
      var i :| lower <= i < upper;
      Vptree.SwapShuffled(items, lower, i, upper, numObs);
      items' := items[lower := items[i]][i := items[lower]];
      var vantage := items'[lower];
      var ref := Permute.NthRow(vals, numDim, numObs, vantage.index);
      ghost var v := rows[vantage.index];
      ghost var s1 := items';

      for x := lower + 1 to upper
        invariant Vptree.Measured(metric, rows, v, s1, items', lower, x)
      {
        Vptree.MeasuredStep(metric, rows, v, s1, items', lower, x, numObs);
        var loc := Permute.NthRow(vals, numDim, numObs, items'[x].index);
        items' := items'[x := items'[x].(dist := metric.raw(ref, loc))];
      }

      median := lower + gap / 2;
      var lowerP1 := lower + 1;
      NthElementExists(items', lowerP1, median, upper);
      NthElementByDistOf(items', Spliced(items', lowerP1, upper, Sort(items'[lowerP1..upper])), lowerP1, median, upper);
      var parted :| NthElementByDist(items', parted, lowerP1, median, upper);
      Vptree.SplitFacts(metric, rows, v, items, s1, items', parted, lower, median, upper);
      items' := parted;
    }

    /**
     * The left half of the recursion: `[lower + 1, median)` is built (a
     * missing child when empty) and linked from the node at `pos`;
     * `BuildRight` then builds `[median, upper)`.
     */
    method BuildChildren(pos: nat, lower: nat, median: nat, upper: nat, vals: seq<real>, items: seq<Pair>)
      returns (items': seq<Pair>)
      requires ItemsIn(items, numObs) && |rows| == numObs && numObs * numDim <= |vals| && rows == Permute.Rows(vals, numDim, numObs)
      requires Vptree.Open(metric, rows, nodes, ends, medPts, LEAF, pos, items, lower, median, upper)
      modifies this
      decreases upper - lower, 1
      ensures store == old(store) && newLocation == old(newLocation)
      ensures |ends| == |nodes| == |medPts| == pos + (upper - lower)
      ensures nodes[..pos] == old(nodes)[..pos] && ends[..pos] == old(ends)[..pos] && medPts[..pos] == old(medPts)[..pos]
      ensures Shuffled(items, items', lower + 1, upper, numObs)
      ensures Built(metric, rows, nodes, ends, medPts, LEAF, pos, items', lower, upper)
    {
      ghost var n0, e0, m0 := nodes, ends, medPts;
      var left;
      left, items' := Build(lower + 1, median, vals, items);
      if lower + 1 < median {
        Vptree.LeftJoin(metric, rows, LEAF, pos, lower, median, upper, items, items', n0, e0, m0, nodes, ends, medPts);
      } else {
        Vptree.OpenPending(metric, rows, nodes, ends, medPts, LEAF, pos, items, lower, median, upper);
        assert nodes[pos].(left := left) == nodes[pos];
      }
      nodes := nodes[pos := nodes[pos].(left := left)];
      ghost var s4 := items';
      ShuffledWiden(items, s4, lower + 1, upper, lower + 1, median, numObs);
      items' := BuildRight(pos, lower, median, upper, vals, items');
      ShuffledTrans(items, s4, items', lower + 1, upper, median, upper, numObs);
    }

    /** The right half of the recursion: `[median, upper)`, never empty, becomes the right subtree. */
    method BuildRight(pos: nat, lower: nat, median: nat, upper: nat, vals: seq<real>, items: seq<Pair>)
      returns (items': seq<Pair>)
      requires ItemsIn(items, numObs) && |rows| == numObs && numObs * numDim <= |vals| && rows == Permute.Rows(vals, numDim, numObs)
      requires Vptree.Pending(metric, rows, nodes, ends, medPts, LEAF, pos, items, lower, median, upper)
      modifies this
      decreases upper - lower, 0
      ensures store == old(store) && newLocation == old(newLocation)
      ensures |ends| == |nodes| == |medPts| == pos + (upper - lower)
      ensures nodes[..pos] == old(nodes)[..pos] && ends[..pos] == old(ends)[..pos] && medPts[..pos] == old(medPts)[..pos]
      ensures Shuffled(items, items', median, upper, numObs)
      ensures Built(metric, rows, nodes, ends, medPts, LEAF, pos, items', lower, upper)
    {
      ghost var n1, e1, m1 := nodes, ends, medPts;
      var right;
      right, items' := Build(median, upper, vals, items);
      Vptree.RightJoin(metric, rows, LEAF, pos, lower, median, upper, items, items', n1, e1, m1, nodes, ends, medPts);
      nodes := nodes[pos := nodes[pos].(right := right)];
    }

    function Nobs(): (r: nat)
      ensures r == numObs
    {
      numObs
    }

    function Ndim(): (r: nat)
      ensures r == numDim
    {
      numDim
    }

    /** The row stored at position `q` is the observation of the node there. */
    lemma RowAt(q: nat)
      requires Valid() && q < numObs
      ensures (q + 1) * numDim <= |store| && Permute.NthRow(store, numDim, numObs, q) == Point(rows, nodes, q)
      ensures Linked(nodes, ends, LEAF, q) && ends[q] <= numObs && IndicesIn(nodes, |rows|, q, ends[q])
      ensures Separated(metric, rows, nodes, ends, medPts, LEAF, q)
    {
      assert Permute.Rows(store, numDim, numObs)[q] == Permute.Pick(rows, NodeIndices(nodes))[q];
      assert Linked(nodes, ends, LEAF, q);
    }

    /** Observation `i` sits at position `newLocation[i]`, so the row stored there is its own. */
    lemma LocationOf(i: nat)
      requires Valid() && i < numObs
      ensures 0 <= newLocation[i] < numObs && nodes[newLocation[i]].index == i
      ensures Permute.NthRow(store, numDim, numObs, newLocation[i]) == rows[i]
    {
      var ni := NodeIndices(nodes);
      assert i in multiset(Permute.Range(numObs)) by {
        assert Permute.Range(numObs)[i] == i;
      }
      assert i in multiset(ni);
      var q :| 0 <= q < numObs && ni[q] == i;
      RowAt(q);
    }

    /** `observation(index)`: the stored copy of input row `index`. */
    function Observation(index: nat): (r: seq<real>)
      reads this
      requires Valid() && index < numObs
      ensures r == rows[index] && r == Permute.Rows(original, numDim, numObs)[index]
    {
      LocationOf(index);
      Permute.NthRow(store, numDim, numObs, newLocation[index])
    }

    /** The end of the subtree rooted at position `q`. */
    ghost function End(q: nat): (e: int)
      reads this
      requires Valid() && q < numObs
      ensures q < e <= numObs && e == ends[q] && IndicesIn(nodes, |rows|, q, e)
    {
      assert Linked(nodes, ends, LEAF, q);
      ends[q]
    }

    /** Where the right subtree of the node at `q` starts. */
    ghost function Middle(q: nat): (r: int)
      reads this
      requires Valid() && q < numObs
      ensures Linked(nodes, ends, LEAF, q) && q < r <= End(q) && r == Mid(nodes, ends, LEAF, q)
    {
      assert Linked(nodes, ends, LEAF, q);
      Mid(nodes, ends, LEAF, q)
    }

    /** The number of nodes in the subtree at `cur`: none for a missing child. */
    ghost function Height(cur: int): nat
      reads this
      requires Valid() && (cur == LEAF || 0 <= cur < numObs)
    {
      if cur == LEAF then 0 else End(cur) - cur
    }

    /**
     * `search_nn`: nothing at a missing child; otherwise the node at `cur`
     * is offered to the queue when it lies strictly within `tau` (which
     * becomes the queue's limit once the queue is full), and unless both
     * children are missing they are searched (`SearchChildren`). Returns
     * `tau` as it stands afterwards.
     */
    method SearchNn(cur: int, target: seq<real>, tau: Option<real>, nearest: LegacyQueue.NeighborQueue)
      returns (tau': Option<real>)
      requires Valid() && (cur == LEAF || 0 <= cur < numObs)
      requires nearest.Valid() && nearest.checkK > 0 && tau == Bound(nearest)
      modifies nearest`nearest, nearest`full, nearest`added
      decreases Height(cur), 5
      ensures nearest.Valid() && tau' == Bound(nearest)
      ensures cur == LEAF ==> nearest.added == old(nearest.added) && tau' == tau
      ensures cur != LEAF ==>
        Explored(metric, rows, nodes, target, cur, End(cur), old(nearest.added), nearest.added, tau, tau', true)
    {
      if cur == LEAF {
        return tau;
      }
      RowAt(cur);
      var curnode := nodes[cur];
      var dist := metric.normalize(metric.raw(Permute.NthRow(store, numDim, numObs, cur), target));
      ghost var added0 := nearest.added;
      tau' := Offer(nearest, curnode.index, dist, tau);
      assert Cand(metric, rows, nodes, target, cur) == Pair(dist, curnode.index);
      ExploredNode(metric, rows, nodes, target, cur, added0, nearest.added, tau, tau', true);
      tau' := SearchChildrenAfter(cur, target, dist, tau', nearest, added0, tau);
    }

    /** The rest of the visit of the node at `cur`, once the node itself has been offered: its children, if any. */
    method SearchChildrenAfter(cur: nat, target: seq<real>, dist: real, tau: Option<real>, nearest: LegacyQueue.NeighborQueue,
                               ghost added0: multiset<Pair>, ghost tau0: Option<real>) returns (tau': Option<real>)
      requires Valid() && cur < numObs && nearest.Valid() && nearest.checkK > 0 && tau == Bound(nearest)
      requires dist == Dist(metric, Point(rows, nodes, cur), target)
      requires Explored(metric, rows, nodes, target, cur, cur + 1, added0, nearest.added, tau0, tau, true)
      modifies nearest`nearest, nearest`full, nearest`added
      decreases Height(cur), 4
      ensures nearest.Valid() && tau' == Bound(nearest)
      ensures Explored(metric, rows, nodes, target, cur, End(cur), added0, nearest.added, tau0, tau', true)
    {
      ghost var added1 := nearest.added;
      if nodes[cur].left == LEAF && nodes[cur].right == LEAF {
        RowAt(cur);
        ExploredSkip(metric, rows, nodes, target, cur + 1, End(cur), added1, tau, true);
        tau' := tau;
      } else {
        tau' := SearchChildren(cur, target, dist, tau, nearest);
      }
      JoinVisit(cur, target, added0, added1, nearest.added, tau0, tau, tau');
    }

    /** The node at `cur` and then its subtrees: the visit of the whole subtree. */
    lemma JoinVisit(cur: nat, target: seq<real>, added0: multiset<Pair>, added1: multiset<Pair>, added2: multiset<Pair>,
                    tau0: Option<real>, tau1: Option<real>, tau2: Option<real>)
      requires Valid() && cur < numObs
      requires Explored(metric, rows, nodes, target, cur, cur + 1, added0, added1, tau0, tau1, true)
      requires Explored(metric, rows, nodes, target, cur + 1, End(cur), added1, added2, tau1, tau2, true)
      ensures Explored(metric, rows, nodes, target, cur, End(cur), added0, added2, tau0, tau2, true)
    {
      ExploredJoin(metric, rows, nodes, target, cur, cur + 1, End(cur), true, added0, added1, added2, tau0, tau1, tau2, true);
    }

    /**
     * The children of the node at `cur`: the left one first when the target
     * is strictly inside the radius, the right one first otherwise.
     */
    method SearchChildren(cur: nat, target: seq<real>, dist: real, tau: Option<real>, nearest: LegacyQueue.NeighborQueue)
      returns (tau': Option<real>)
      requires Valid() && cur < numObs && nearest.Valid() && nearest.checkK > 0 && tau == Bound(nearest)
      requires dist == Dist(metric, Point(rows, nodes, cur), target)
      modifies nearest`nearest, nearest`full, nearest`added
      decreases Height(cur), 3
      ensures nearest.Valid() && tau' == Bound(nearest)
      ensures Explored(metric, rows, nodes, target, cur + 1, End(cur), old(nearest.added), nearest.added, tau, tau', true)
    {
      if dist < nodes[cur].radius {
        tau' := SearchInside(cur, target, dist, tau, nearest);
      } else {
        tau' := SearchOutside(cur, target, dist, tau, nearest);
      }
    }

    /** The target is inside the ball: left child, then right child. */
    method SearchInside(cur: nat, target: seq<real>, dist: real, tau: Option<real>, nearest: LegacyQueue.NeighborQueue)
      returns (tau': Option<real>)
      requires Valid() && cur < numObs && nearest.Valid() && nearest.checkK > 0 && tau == Bound(nearest)
      requires dist == Dist(metric, Point(rows, nodes, cur), target)
      modifies nearest`nearest, nearest`full, nearest`added
      decreases Height(cur), 2
      ensures nearest.Valid() && tau' == Bound(nearest)
      ensures Explored(metric, rows, nodes, target, cur + 1, End(cur), old(nearest.added), nearest.added, tau, tau', true)
    {
      ghost var added0 := nearest.added;
      tau' := SearchLeft(cur, target, dist, tau, nearest);
      tau' := SearchRightAfter(cur, target, dist, tau', nearest, added0, tau);
    }

    /** The right child after the left one: together they explore both subtrees. */
    method SearchRightAfter(cur: nat, target: seq<real>, dist: real, tau: Option<real>, nearest: LegacyQueue.NeighborQueue,
                            ghost added0: multiset<Pair>, ghost tau0: Option<real>)
      returns (tau': Option<real>)
      requires Valid() && cur < numObs && nearest.Valid() && nearest.checkK > 0 && tau == Bound(nearest)
      requires dist == Dist(metric, Point(rows, nodes, cur), target)
      requires Explored(metric, rows, nodes, target, cur + 1, Middle(cur), added0, nearest.added, tau0, tau, true)
      modifies nearest`nearest, nearest`full, nearest`added
      decreases Height(cur), 1
      ensures nearest.Valid() && tau' == Bound(nearest)
      ensures Explored(metric, rows, nodes, target, cur + 1, End(cur), added0, nearest.added, tau0, tau', true)
    {
      RowAt(cur);
      ghost var added1 := nearest.added;
      tau' := SearchRight(cur, target, dist, tau, nearest);
      ExploredJoin(metric, rows, nodes, target, cur + 1, Middle(cur), End(cur), true,
                   added0, added1, nearest.added, tau0, tau, tau', true);
    }

    /** The target is on or outside the ball's surface: right child, then left child. */
    method SearchOutside(cur: nat, target: seq<real>, dist: real, tau: Option<real>, nearest: LegacyQueue.NeighborQueue)
      returns (tau': Option<real>)
      requires Valid() && cur < numObs && nearest.Valid() && nearest.checkK > 0 && tau == Bound(nearest)
      requires dist == Dist(metric, Point(rows, nodes, cur), target)
      modifies nearest`nearest, nearest`full, nearest`added
      decreases Height(cur), 2
      ensures nearest.Valid() && tau' == Bound(nearest)
      ensures Explored(metric, rows, nodes, target, cur + 1, End(cur), old(nearest.added), nearest.added, tau, tau', true)
    {
      ghost var added0 := nearest.added;
      tau' := SearchRight(cur, target, dist, tau, nearest);
      tau' := SearchLeftAfter(cur, target, dist, tau', nearest, added0, tau);
    }

    /** The left child after the right one: together they explore both subtrees. */
    method SearchLeftAfter(cur: nat, target: seq<real>, dist: real, tau: Option<real>, nearest: LegacyQueue.NeighborQueue,
                           ghost added0: multiset<Pair>, ghost tau0: Option<real>)
      returns (tau': Option<real>)
      requires Valid() && cur < numObs && nearest.Valid() && nearest.checkK > 0 && tau == Bound(nearest)
      requires dist == Dist(metric, Point(rows, nodes, cur), target)
      requires Explored(metric, rows, nodes, target, Middle(cur), End(cur), added0, nearest.added, tau0, tau, true)
      modifies nearest`nearest, nearest`full, nearest`added
      decreases Height(cur), 1
      ensures nearest.Valid() && tau' == Bound(nearest)
      ensures Explored(metric, rows, nodes, target, cur + 1, End(cur), added0, nearest.added, tau0, tau', true)
    {
      RowAt(cur);
      ghost var added1 := nearest.added;
      tau' := SearchLeft(cur, target, dist, tau, nearest);
      ExploredJoin(metric, rows, nodes, target, cur + 1, Middle(cur), End(cur), false,
                   added0, added1, nearest.added, tau0, tau, tau', true);
    }

    /** The left child, searched unless the ball lies wholly beyond `tau`. */
    method SearchLeft(cur: nat, target: seq<real>, dist: real, tau: Option<real>, nearest: LegacyQueue.NeighborQueue)
      returns (tau': Option<real>)
      requires Valid() && cur < numObs && nearest.Valid() && nearest.checkK > 0 && tau == Bound(nearest)
      requires dist == Dist(metric, Point(rows, nodes, cur), target)
      modifies nearest`nearest, nearest`full, nearest`added
      decreases Height(cur), 0
      ensures nearest.Valid() && tau' == Bound(nearest)
      ensures Explored(metric, rows, nodes, target, cur + 1, Middle(cur), old(nearest.added), nearest.added, tau, tau', true)
    {
      RowAt(cur);
      var curnode := nodes[cur];
      if tau.None? || dist - tau.value <= curnode.radius {
        if curnode.left != LEAF {
          RowAt(cur + 1);
        }
        tau' := SearchNn(curnode.left, target, tau, nearest);
        if curnode.left == LEAF {
          ExploredSkip(metric, rows, nodes, target, cur + 1, Middle(cur), nearest.added, tau', true);
        }
      } else {
        tau' := tau;
        Vptree.LeftBeyond(metric, rows, nodes, ends, medPts, LEAF, cur, target, dist, tau, true);
        ExploredSkip(metric, rows, nodes, target, cur + 1, Middle(cur), nearest.added, tau, true);
      }
    }

    /** The right child, searched unless the target lies too deep inside the ball. */
    method SearchRight(cur: nat, target: seq<real>, dist: real, tau: Option<real>, nearest: LegacyQueue.NeighborQueue)
      returns (tau': Option<real>)
      requires Valid() && cur < numObs && nearest.Valid() && nearest.checkK > 0 && tau == Bound(nearest)
      requires dist == Dist(metric, Point(rows, nodes, cur), target)
      modifies nearest`nearest, nearest`full, nearest`added
      decreases Height(cur), 0
      ensures nearest.Valid() && tau' == Bound(nearest)
      ensures Explored(metric, rows, nodes, target, Middle(cur), End(cur), old(nearest.added), nearest.added, tau, tau', true)
    {
      RowAt(cur);
      var curnode := nodes[cur];
      if tau.None? || dist + tau.value >= curnode.radius {
        tau' := SearchNn(curnode.right, target, tau, nearest);
        if curnode.right == LEAF {
          ExploredSkip(metric, rows, nodes, target, Middle(cur), End(cur), nearest.added, tau', true);
        }
      } else {
        tau' := tau;
        Vptree.RightBeyond(metric, rows, nodes, ends, medPts, LEAF, cur, target, dist, tau, true);
        ExploredSkip(metric, rows, nodes, target, Middle(cur), End(cur), nearest.added, tau, true);
      }
    }

    /**
     * `find_nearest_neighbors(index, k)`: the queue looks for `index` itself
     * among `k + 1` neighbours and drops it when reporting; the search
     * starts from the stored copy of row `index`.
     */
    method FindNearestNeighborsIndex(index: nat, k: nat) returns (output: seq<(int, real)>)
      requires Valid() && index < numObs
      ensures IsMetric(metric) ==> IsIndexResult(output, metric, rows, index, k)
    {
      var nearest := new LegacyQueue.NeighborQueue.WithSelf(index, k, false);
      LocationOf(index);
      var target := Permute.NthRow(store, numDim, numObs, newLocation[index]);
      assert target == rows[index];
      SearchFromRoot(target, nearest);
      ghost var s := nearest.nearest;
      assert nearest.self && nearest.selfDex == index && !nearest.ties;
      var ids, ds, _ := nearest.Report(true, true);
      assert s != [] ==> ids == Indices(LegacyQueue.Reported(s, true, index)) && ds == Distances(LegacyQueue.Reported(s, true, index));
      output := FindNN.Zip((ids, ds));
      if IsMetric(metric) {
        IndexReported(metric, rows, index, k, s, ids, ds);
      }
    }

    /**
     * `find_nearest_neighbors(query, k)`. The search is skipped when there
     * are no nodes or no neighbours are wanted.
     */
    method FindNearestNeighborsQuery(query: seq<real>, k: nat) returns (output: seq<(int, real)>)
      requires Valid()
      ensures IsMetric(metric) ==> IsQueryResult(output, metric, rows, query, k)
    {
      var nearest := new LegacyQueue.NeighborQueue(k, false);
      if numObs > 0 && k > 0 {
        SearchFromRoot(query, nearest);
      }
      ghost var s := nearest.nearest;
      assert IsMetric(metric) ==> IsKNearest(s, multiset(Vptree.Scored(metric, rows, query)), k);
      var ids, ds, _ := nearest.Report(true, true);
      output := FindNN.Zip((ids, ds));
      if IsMetric(metric) {
        if s == [] {
          assert output == Bruteforce.Zipped(s);
        } else {
          ZipReported(s, false, 0, ids, ds);
        }
      }
    }

    /**
     * `search_nn(0, target)` with `tau` at its largest: a search of the
     * whole tree that, for a true metric, leaves a k-nearest selection of
     * all observations in a queue that started empty.
     */
    method SearchFromRoot(target: seq<real>, nearest: LegacyQueue.NeighborQueue)
      requires Valid() && numObs > 0
      requires nearest.Valid() && nearest.checkK > 0 && nearest.added == multiset{} && !nearest.full
      modifies nearest`nearest, nearest`full, nearest`added
      ensures nearest.Valid()
      ensures IsMetric(metric) ==> IsKNearest(nearest.nearest, multiset(Vptree.Scored(metric, rows, target)), nearest.checkK)
    {
      var tau := SearchNn(0, target, None, nearest);
      if IsMetric(metric) {
        ExploredIsKNearest(metric, rows, nodes, target, nearest.nearest, nearest.added, nearest.checkK, tau);
      }
    }
  }

  /**
   * The visit of one node in `search_nn`: the candidate is added only when
   * it lies strictly within `tau`, and `tau` becomes the queue's limit once
   * the queue is full. A full queue only takes a candidate closer than its
   * furthest one, so `tau` never grows.
   */
  method Offer(nearest: LegacyQueue.NeighborQueue, index: int, dist: real, tau: Option<real>) returns (tau': Option<real>)
    requires nearest.Valid() && nearest.checkK > 0 && tau == Bound(nearest)
    modifies nearest`nearest, nearest`full, nearest`added
    ensures nearest.Valid() && tau' == Bound(nearest) && Tighter(tau', tau)
    ensures !Beyond(dist, tau, true) ==> nearest.added == old(nearest.added) + multiset{Pair(dist, index)}
    ensures Beyond(dist, tau, true) ==> nearest.added == old(nearest.added)
  {
    tau' := tau;
    if tau.None? || dist < tau.value {
      ghost var s0 := nearest.nearest;
      nearest.Add(index, dist);
      if nearest.IsFull() {
        tau' := Some(nearest.Limit());
      }
      BoundTightens(nearest, s0, tau);
    }
  }

  /** A full queue's limit never grows: the bound after an offer is at least as tight as `tau`, the bound before it. */
  lemma BoundTightens(q: LegacyQueue.NeighborQueue, s0: seq<Pair>, tau: Option<real>)
    requires q.Valid() && q.checkK > 0
    requires tau.Some? ==> q.full && |s0| == q.checkK && tau.value == s0[|s0| - 1].dist
    requires tau.Some? ==> LegacyQueue.NoFurtherLimit(q.nearest, s0)
    ensures Tighter(Bound(q), tau)
  {
  }

  /** What the queue of an index search reports, once it holds a k-nearest selection, is an index result. */
  lemma IndexReported(m: Metric, rows: seq<seq<real>>, index: nat, k: nat, s: seq<Pair>, ids: seq<int>, ds: seq<real>)
    requires index < |rows| && IsKNearest(s, multiset(Vptree.Scored(m, rows, rows[index])), k + 1)
    requires s != [] ==> ids == Indices(LegacyQueue.Reported(s, true, index)) && ds == Distances(LegacyQueue.Reported(s, true, index))
    ensures |ids| <= |ds| && IsIndexResult(FindNN.Zip((ids, ds)), m, rows, index, k)
  {
    assert |multiset(Vptree.Scored(m, rows, rows[index]))| == |rows|;
    ZipReported(s, true, index, ids, ds);
  }

  /** Pairing up the reported indices and distances gives back the reported pairs. */
  lemma ZipReported(s: seq<Pair>, self: bool, selfDex: int, ids: seq<int>, ds: seq<real>)
    requires s != []
    requires ids == Indices(LegacyQueue.Reported(s, self, selfDex))
    requires ds == Distances(LegacyQueue.Reported(s, self, selfDex))
    ensures FindNN.Zip((ids, ds)) == Bruteforce.Zipped(LegacyQueue.Reported(s, self, selfDex))
  {
  }

  /** The bound a queue implies: none until it is full, then its limit. */
  function Bound(q: LegacyQueue.NeighborQueue): (r: Option<real>)
    reads q
    requires q.Valid() && q.checkK > 0
    ensures r.Some? <==> q.full
    ensures r.Some? ==> |q.nearest| == q.checkK && r.value == q.nearest[q.checkK - 1].dist
  {
    if q.IsFull() then Some(q.Limit()) else None
  }

  /** A result of a search for `query`: the pairs of some k-nearest selection of all scored observations. */
  ghost predicate IsQueryResult(output: seq<(int, real)>, m: Metric, rows: seq<seq<real>>, query: seq<real>, k: nat) {
    exists s :: IsKNearest(s, multiset(Vptree.Scored(m, rows, query)), k) && output == Bruteforce.Zipped(s)
  }

  /** A result of a search for observation `i`: as for its row, with one more slot and `i` removed. */
  ghost predicate IsIndexResult(output: seq<(int, real)>, m: Metric, rows: seq<seq<real>>, i: nat, k: nat)
    requires i < |rows|
  {
    exists s :: IsKNearest(s, multiset(Vptree.Scored(m, rows, rows[i])), k + 1) && s != [] &&
      output == Bruteforce.Zipped(Queue.WithoutSelf(s, i))
  }

  /**
   * A search of the whole tree, started without a bound, leaves a k-nearest
   * selection of all observations in its queue, for a true metric: every
   * candidate it did not add lies on or beyond the final bound, which is
   * the distance of the furthest neighbour kept.
   */
  lemma ExploredIsKNearest(m: Metric, rows: seq<seq<real>>, nodes: seq<Node>, target: seq<real>,
                           s: seq<Pair>, added: multiset<Pair>, k: nat, bound: Option<real>)
    requires IsMetric(m) && |nodes| == |rows| && IndicesIn(nodes, |rows|, 0, |nodes|)
    requires Permute.IsPermutation(NodeIndices(nodes))
    requires IsKNearest(s, added, k)
    requires Explored(m, rows, nodes, target, 0, |nodes|, multiset{}, added, None, bound, true)
    requires bound.Some? ==> |s| == k > 0 && bound.value == s[k - 1].dist
    ensures IsKNearest(s, multiset(Vptree.Scored(m, rows, target)), k)
  {
    var span := Span(m, rows, nodes, target, 0, |nodes|);
    Vptree.SpanIsScored(m, rows, nodes, target);
    var rest := multiset(span) - added;
    assert added + rest == multiset(span);
    forall p | p in rest ensures |s| == k && s != [] && s[|s| - 1].dist <= p.dist {
      var j :| 0 <= j < |span| && span[j] == p;
      Permute.DistinctCount(span, p);
      assert p !in added;
      assert Cand(m, rows, nodes, target, j) == p;
      NotAddedIsBeyond(m, rows, nodes, target, added, bound, s, k, j);
    }
    KNearestExtend(s, added, rest, k);
  }

  /** A candidate a covering search did not add lies on or beyond the bound, the furthest distance kept. */
  lemma NotAddedIsBeyond(m: Metric, rows: seq<seq<real>>, nodes: seq<Node>, target: seq<real>,
                         added: multiset<Pair>, bound: Option<real>, s: seq<Pair>, k: nat, j: nat)
    requires j < |nodes| && IndicesIn(nodes, |rows|, 0, |nodes|)
    requires Covered(m, rows, nodes, target, 0, |nodes|, added, bound, true)
    requires Cand(m, rows, nodes, target, j) !in added
    requires bound.Some? ==> |s| == k > 0 && bound.value == s[k - 1].dist
    ensures |s| == k && s != [] && s[|s| - 1].dist <= Cand(m, rows, nodes, target, j).dist
  {
  }

  /**
   * For a true metric, any result of a query search lists exactly the
   * distances the brute-force indexes report for the same data, whichever
   * of several tied candidates it kept.
   */
  lemma QueryMatchesBruteforce(output: seq<(int, real)>, m: Metric, data: seq<real>, dim: nat, n: nat,
                               query: seq<real>, k: nat)
    requires IsMetric(m) && n * dim <= |data|
    requires IsQueryResult(output, m, Permute.Rows(data, dim, n), query, k)
    ensures |output| == |Bruteforce.QueryResult(m, data, dim, n, query, k)| == Min(k, n)
    ensures forall j :: 0 <= j < |output| ==> output[j].1 == Bruteforce.QueryResult(m, data, dim, n, query, k)[j].1
  {
    var rows := Permute.Rows(data, dim, n);
    var t := multiset(Vptree.Scored(m, rows, query));
    var s :| IsKNearest(s, t, k) && output == Bruteforce.Zipped(s);
    var exact := Vptree.KNearest(m, rows, query, k);
    KSmallestIsSortedPrefix(Vptree.Scored(m, rows, query), k);
    KSmallestIsKNearest(exact, t, k);
    KNearestSameDistances(s, exact, t, k);
    Vptree.QueryMatchesBruteforce(m, data, dim, n, query, k);
    forall j | 0 <= j < |output| ensures output[j].1 == Bruteforce.QueryResult(m, data, dim, n, query, k)[j].1 {
      assert output[j].1 == Distances(s)[j] == Distances(exact)[j];
      assert Bruteforce.Zipped(exact)[j].1 == Distances(exact)[j];
    }
  }

  /**
   * For a true metric, any result of a search by observation lists
   * exactly the distances the brute-force indexes report for it.
   */
  lemma IndexMatchesBruteforce(output: seq<(int, real)>, m: Metric, data: seq<real>, dim: nat, n: nat, i: nat, k: nat)
    requires IsMetric(m) && n * dim <= |data| && i < n
    requires IsIndexResult(output, m, Permute.Rows(data, dim, n), i, k)
    ensures |output| == |Bruteforce.IndexResult(m, data, dim, n, i, k)|
    ensures forall j :: 0 <= j < |output| ==> output[j].1 == Bruteforce.IndexResult(m, data, dim, n, i, k)[j].1
  {
    var rows := Permute.Rows(data, dim, n);
    var s :| IsKNearest(s, multiset(Vptree.Scored(m, rows, rows[i])), k + 1) && s != [] &&
      output == Bruteforce.Zipped(Queue.WithoutSelf(s, i));
    var w := Queue.WithoutSelf(Vptree.KNearest(m, rows, rows[i], k + 1), i);
    SelectionWithoutSelf(m, rows, i, k, s);
    Vptree.IndexMatchesBruteforce(m, data, dim, n, i, k);
    forall j | 0 <= j < |output| ensures output[j].1 == Bruteforce.IndexResult(m, data, dim, n, i, k)[j].1 {
      assert output[j].1 == Distances(Queue.WithoutSelf(s, i))[j] == Distances(w)[j] == Bruteforce.Zipped(w)[j].1;
    }
  }

  /**
   * Without observation `i`, any selection of the k + 1 nearest to it
   * lists the distances the exact selection lists without it.
   */
  lemma SelectionWithoutSelf(m: Metric, rows: seq<seq<real>>, i: nat, k: nat, s: seq<Pair>)
    requires IsMetric(m) && i < |rows|
    requires IsKNearest(s, multiset(Vptree.Scored(m, rows, rows[i])), k + 1) && s != []
    ensures Vptree.KNearest(m, rows, rows[i], k + 1) != []
    ensures Distances(Queue.WithoutSelf(s, i)) == Distances(Queue.WithoutSelf(Vptree.KNearest(m, rows, rows[i], k + 1), i))
  {
    var scored := Vptree.Scored(m, rows, rows[i]);
    var t := multiset(scored);
    var exact := Vptree.KNearest(m, rows, rows[i], k + 1);
    KSmallestIsSortedPrefix(scored, k + 1);
    KSmallestIsKNearest(exact, t, k + 1);
    KNearestSameDistances(s, exact, t, k + 1);
    var z := Dist(m, rows[i], rows[i]);
    SelfIsClosest(m, rows, i);
    LegacyQueue.WithoutSelfDistances(s, t, k + 1, i, z);
    LegacyQueue.WithoutSelfDistances(exact, t, k + 1, i, z);
  }

  /**
   * For a true metric the pair of observation `i` itself is at the least
   * distance of all scored pairs, and it is the only one with index `i`.
   */
  lemma SelfIsClosest(m: Metric, rows: seq<seq<real>>, i: nat)
    requires IsMetric(m) && i < |rows|
    ensures Pair(Dist(m, rows[i], rows[i]), i) in multiset(Vptree.Scored(m, rows, rows[i]))
    ensures forall b :: b in multiset(Vptree.Scored(m, rows, rows[i])) ==> Dist(m, rows[i], rows[i]) <= b.dist
    ensures forall b :: b in multiset(Vptree.Scored(m, rows, rows[i])) && b.index == i ==> b.dist == Dist(m, rows[i], rows[i])
  {
    var sc := Vptree.Scored(m, rows, rows[i]);
    assert sc[i] == Pair(Dist(m, rows[i], rows[i]), i);
    forall b | b in multiset(sc) ensures Dist(m, rows[i], rows[i]) <= b.dist {
      var x :| 0 <= x < |sc| && sc[x] == b;
      assert m.raw(rows[i], rows[i]) == 0.0;
      MonotoneLe(m, 0.0, m.raw(rows[x], rows[i]));
    }
  }

  /** The rows of the input prefix the tree keeps are the rows of the input. */
  lemma KeptRowsPrefix(vals: seq<real>, ndim: nat, nobs: nat)
    requires nobs * ndim <= |vals|
    ensures Permute.Rows(vals[..nobs * ndim], ndim, nobs) == Permute.Rows(vals, ndim, nobs)
  {
    assert forall q :: 0 <= q < nobs ==> Permute.Rows(vals[..nobs * ndim], ndim, nobs)[q] == Permute.Rows(vals, ndim, nobs)[q] by {
      forall q | 0 <= q < nobs
        ensures Permute.Rows(vals[..nobs * ndim], ndim, nobs)[q] == Permute.Rows(vals, ndim, nobs)[q]
      {
        RowFits(nobs, ndim, q);
      }
    }
  }
}
