/**
 * The layout of a vantage-point tree, shared by both generations of the
 * library. The recursive build appends nodes to a vector, so the subtree of
 * the node at position `p` occupies the positions `[p, ends[p])`: its left
 * subtree, when there is one, starts at `p + 1`, and its right subtree
 * follows the left one. `leaf` is the value a missing child holds: 0 in
 * Vptree.hpp (position 0 is the root, which no node points to) and -1 in
 * the older VpTree.
 *
 * `ends` and `medPts` (the median observation each vantage point was split
 * against) are ghost bookkeeping: the build computes them on the way but
 * does not keep them. The search side is here too: the candidate that each
 * position offers to a target, the two pruning rules and what a search of a
 * subtree has to leave behind.
 */
module VpShape {
  import opened Wrappers
  import opened Pairs
  import opened Metric
  import Permute

  datatype Node = Node(radius: real, index: int, left: int, right: int)

  /** The child links of the node at `p` agree with the spans that `ends` records. */
  ghost predicate Linked(nodes: seq<Node>, ends: seq<int>, leaf: int, p: int) {
    && 0 <= p < |nodes| == |ends|
    && p < ends[p] <= |nodes|
    && (nodes[p].left != leaf ==> nodes[p].left == p + 1 && p + 1 < ends[p] && p + 1 < ends[p + 1] <= ends[p])
    && (var mid := if nodes[p].left != leaf then ends[p + 1] else p + 1;
        && (nodes[p].right != leaf ==> nodes[p].right == mid && mid < ends[p] && ends[mid] == ends[p])
        && (nodes[p].right == leaf ==> mid == ends[p]))
  }

  /** Where the right subtree of the node at `p` starts: just after the left one. */
  ghost function Mid(nodes: seq<Node>, ends: seq<int>, leaf: int, p: int): (r: int)
    requires Linked(nodes, ends, leaf, p)
    ensures p < r <= ends[p]
    ensures nodes[p].left == leaf ==> r == p + 1
    ensures nodes[p].right == leaf <==> r == ends[p]
  {
    if nodes[p].left != leaf then ends[p + 1] else p + 1
  }

  /** The observations of the nodes, in position order. */
  function NodeIndices(nodes: seq<Node>): (r: seq<int>)
    ensures |r| == |nodes| && forall q :: 0 <= q < |nodes| ==> r[q] == nodes[q].index
  {
    seq(|nodes|, q requires 0 <= q < |nodes| => nodes[q].index)
  }

  /** The observation of every position in `[lo, hi)` is one of the `n` stored ones. */
  ghost predicate IndicesIn(nodes: seq<Node>, n: int, lo: int, hi: int) {
    0 <= lo <= hi <= |nodes| && forall q :: lo <= q < hi ==> 0 <= nodes[q].index < n
  }

  /** The coordinates of the observation at position `q`. */
  ghost function Point(rows: seq<seq<real>>, nodes: seq<Node>, q: int): seq<real>
    requires 0 <= q < |nodes| && 0 <= nodes[q].index < |rows|
  {
    rows[nodes[q].index]
  }

  /**
   * The node at `p` splits its subtree at its median: the left subtree is
   * no further (in raw distance) from the vantage point than the median
   * observation, the right subtree no closer, and the radius is the
   * normalized distance to the median.
   */
  ghost predicate Separated(m: Metric, rows: seq<seq<real>>, nodes: seq<Node>, ends: seq<int>, medPts: seq<seq<real>>,
                            leaf: int, p: int)
    requires Linked(nodes, ends, leaf, p) && |medPts| == |nodes| && IndicesIn(nodes, |rows|, p, ends[p])
  {
    var mid := Mid(nodes, ends, leaf, p);
    var v := Point(rows, nodes, p);
    && (p + 1 < ends[p] ==> nodes[p].radius == m.normalize(m.raw(v, medPts[p])))
    && (forall q :: p + 1 <= q < mid ==> m.raw(v, Point(rows, nodes, q)) <= m.raw(v, medPts[p]))
    && (forall q :: mid <= q < ends[p] ==> m.raw(v, medPts[p]) <= m.raw(v, Point(rows, nodes, q)))
  }

  /** The positions `[lo, hi)` hold well-formed subtrees that stay inside that range. */
  ghost predicate Tree(m: Metric, rows: seq<seq<real>>, nodes: seq<Node>, ends: seq<int>, medPts: seq<seq<real>>,
                       leaf: int, lo: int, hi: int) {
    && |ends| == |nodes| == |medPts| && 0 <= lo <= hi <= |nodes|
    && IndicesIn(nodes, |rows|, lo, hi)
    && forall q {:trigger Linked(nodes, ends, leaf, q)} :: lo <= q < hi ==>
      && Linked(nodes, ends, leaf, q) && ends[q] <= hi
      && Separated(m, rows, nodes, ends, medPts, leaf, q)
  }

  /** One node only looks at the positions of its own subtree. */
  lemma NodeFrame(m: Metric, rows: seq<seq<real>>, nodes: seq<Node>, ends: seq<int>, medPts: seq<seq<real>>,
                  nodes': seq<Node>, ends': seq<int>, medPts': seq<seq<real>>, leaf: int, q: int)
    requires Linked(nodes, ends, leaf, q) && |medPts| == |nodes| && IndicesIn(nodes, |rows|, q, ends[q])
    requires Separated(m, rows, nodes, ends, medPts, leaf, q)
    requires |ends'| == |nodes'| == |medPts'| && ends[q] <= |nodes'|
    requires forall x :: q <= x < ends[q] ==> nodes'[x] == nodes[x] && ends'[x] == ends[x] && medPts'[x] == medPts[x]
    ensures Linked(nodes', ends', leaf, q) && IndicesIn(nodes', |rows|, q, ends[q])
    ensures Separated(m, rows, nodes', ends', medPts', leaf, q)
  {
    if nodes[q].left != leaf {
      assert ends'[q + 1] == ends[q + 1];
    }
    var mid := Mid(nodes, ends, leaf, q);
    if mid < ends[q] {
      assert ends'[mid] == ends[mid];
    }
    assert Linked(nodes', ends', leaf, q);
    forall x | q <= x < ends[q] ensures Point(rows, nodes', x) == Point(rows, nodes, x) {
    }
  }

  /** A subtree only looks at its own positions, so rewriting other positions keeps it. */
  lemma TreeFrame(m: Metric, rows: seq<seq<real>>, nodes: seq<Node>, ends: seq<int>, medPts: seq<seq<real>>,
                  nodes': seq<Node>, ends': seq<int>, medPts': seq<seq<real>>, leaf: int, lo: int, hi: int)
    requires Tree(m, rows, nodes, ends, medPts, leaf, lo, hi)
    requires |ends'| == |nodes'| == |medPts'| && hi <= |nodes'|
    requires forall q :: lo <= q < hi ==> nodes'[q] == nodes[q] && ends'[q] == ends[q] && medPts'[q] == medPts[q]
    ensures Tree(m, rows, nodes', ends', medPts', leaf, lo, hi)
  {
    forall q | lo <= q < hi
      ensures Linked(nodes', ends', leaf, q) && ends'[q] <= hi && Separated(m, rows, nodes', ends', medPts', leaf, q)
    {
      NodeFrame(m, rows, nodes, ends, medPts, nodes', ends', medPts', leaf, q);
    }
  }

  /**
   * A node whose left subtree fills `[p + 1, mid)` and whose right subtree
   * fills `[mid, end)` roots a subtree filling `[p, end)`.
   */
  lemma TreeJoin(m: Metric, rows: seq<seq<real>>, nodes: seq<Node>, ends: seq<int>, medPts: seq<seq<real>>,
                 leaf: int, p: int, mid: int, end: int)
    requires Linked(nodes, ends, leaf, p) && ends[p] == end && Mid(nodes, ends, leaf, p) == mid
    requires Tree(m, rows, nodes, ends, medPts, leaf, p + 1, mid) && Tree(m, rows, nodes, ends, medPts, leaf, mid, end)
    requires 0 <= nodes[p].index < |rows|
    requires IndicesIn(nodes, |rows|, p, end) && Separated(m, rows, nodes, ends, medPts, leaf, p)
    ensures Tree(m, rows, nodes, ends, medPts, leaf, p, end)
  {
  }

  /** Every item in `[lo, hi)` has an observation index below `n`. */
  ghost predicate ItemsIn(items: seq<Pair>, n: int) {
    forall x :: 0 <= x < |items| ==> 0 <= items[x].index < n
  }

  /** The observation indices of the items in `[lo, hi)`, as a bag. */
  ghost function Bag(items: seq<Pair>, lo: int, hi: int): multiset<int>
    requires 0 <= lo <= hi <= |items|
  {
    multiset(Indices(items[lo..hi]))
  }

  lemma BagSplit(items: seq<Pair>, lo: int, mid: int, hi: int)
    requires 0 <= lo <= mid <= hi <= |items|
    ensures Bag(items, lo, hi) == Bag(items, lo, mid) + Bag(items, mid, hi)
  {
    assert items[lo..hi] == items[lo..mid] + items[mid..hi];
    assert Indices(items[lo..hi]) == Indices(items[lo..mid]) + Indices(items[mid..hi]);
  }

  /** Only the indices count: rewriting the distances keeps the bag. */
  lemma BagFrame(items: seq<Pair>, items': seq<Pair>, lo: int, hi: int)
    requires 0 <= lo <= hi <= |items| && hi <= |items'|
    requires forall x :: lo <= x < hi ==> items'[x].index == items[x].index
    ensures Bag(items', lo, hi) == Bag(items, lo, hi)
  {
    assert Indices(items'[lo..hi]) == Indices(items[lo..hi]);
  }

  /** Rearranging pairs rearranges their indices. */
  lemma {:induction false} IndicesRearranged(a: seq<Pair>, b: seq<Pair>)
    requires multiset(a) == multiset(b)
    ensures multiset(Indices(a)) == multiset(Indices(b))
    decreases |a|
  {
    if a != [] {
      var n := |a| - 1;
      assert a[n] in multiset(b) by { assert a[n] in multiset(a); }
      var j :| 0 <= j < |b| && b[j] == a[n];
      var a', b' := a[..n] + a[n + 1..], b[..j] + b[j + 1..];
      Permute.ErasedMultiset(a, n);
      Permute.ErasedMultiset(b, j);
      IndicesRearranged(a', b');
      IndicesErased(a, n, a');
      IndicesErased(b, j, b');
    }
  }

  /** Erasing a pair erases its index. */
  lemma IndicesErased(a: seq<Pair>, j: nat, erased: seq<Pair>)
    requires j < |a| && erased == a[..j] + a[j + 1..]
    ensures multiset(Indices(a)) == multiset(Indices(erased)) + multiset{a[j].index}
  {
    var ia := Indices(a);
    assert Indices(erased) == ia[..j] + ia[j + 1..];
    Permute.ErasedMultiset(ia, j);
  }

  /** Every item of `[lo, hi)` names an observation no further from `v` than `med`. */
  ghost predicate Inside(m: Metric, rows: seq<seq<real>>, v: seq<real>, med: seq<real>, items: seq<Pair>, lo: int, hi: int) {
    0 <= lo <= hi <= |items| && forall x :: lo <= x < hi ==> 0 <= items[x].index < |rows| && m.raw(v, rows[items[x].index]) <= m.raw(v, med)
  }

  /** Every item of `[lo, hi)` names an observation no closer to `v` than `med`. */
  ghost predicate Outside(m: Metric, rows: seq<seq<real>>, v: seq<real>, med: seq<real>, items: seq<Pair>, lo: int, hi: int) {
    0 <= lo <= hi <= |items| && forall x :: lo <= x < hi ==> 0 <= items[x].index < |rows| && m.raw(v, med) <= m.raw(v, rows[items[x].index])
  }

  /** Both sides of a split only depend on which observations the segment holds. */
  lemma SidesRearranged(m: Metric, rows: seq<seq<real>>, v: seq<real>, med: seq<real>, items: seq<Pair>, items': seq<Pair>,
                        lo: int, hi: int)
    requires 0 <= lo <= hi <= |items| && hi <= |items'| && Bag(items', lo, hi) == Bag(items, lo, hi)
    ensures Inside(m, rows, v, med, items, lo, hi) ==> Inside(m, rows, v, med, items', lo, hi)
    ensures Outside(m, rows, v, med, items, lo, hi) ==> Outside(m, rows, v, med, items', lo, hi)
  {
    forall x | lo <= x < hi ensures exists y :: lo <= y < hi && items[y].index == items'[x].index {
      assert Indices(items'[lo..hi])[x - lo] == items'[x].index;
      assert items'[x].index in Bag(items, lo, hi);
      var j :| 0 <= j < hi - lo && Indices(items[lo..hi])[j] == items'[x].index;
      assert items[lo + j].index == items'[x].index;
    }
  }

  /** The positions from `pos` on hold the observations of the items `[lo, hi)`, in order. */
  ghost predicate Placed(nodes: seq<Node>, pos: int, items: seq<Pair>, lo: int, hi: int) {
    && 0 <= lo <= hi <= |items| && 0 <= pos && pos + (hi - lo) <= |nodes|
    && forall x :: lo <= x < hi ==> nodes[pos + (x - lo)].index == items[x].index
  }

  /** The items `[lo, hi)` carry their raw distances from `v`. */
  ghost predicate DistsFrom(m: Metric, rows: seq<seq<real>>, v: seq<real>, items: seq<Pair>, lo: int, hi: int) {
    0 <= lo <= hi <= |items| && forall x :: lo <= x < hi ==> 0 <= items[x].index < |rows| && items[x].dist == m.raw(v, rows[items[x].index])
  }

  /**
   * The node at `p`, with the items `[lo + 1, median)` placed in its left
   * subtree and `[median, hi)` in its right one, is separated when the
   * former lie inside its split and the latter outside.
   */
  lemma SeparatedOf(m: Metric, rows: seq<seq<real>>, nodes: seq<Node>, ends: seq<int>, medPts: seq<seq<real>>,
                    leaf: int, p: int, items: seq<Pair>, lo: int, median: int, hi: int)
    requires Linked(nodes, ends, leaf, p) && |medPts| == |nodes| && IndicesIn(nodes, |rows|, p, ends[p])
    requires p + 1 < ends[p] ==> nodes[p].radius == m.normalize(m.raw(Point(rows, nodes, p), medPts[p]))
    requires Placed(nodes, p + 1, items, lo + 1, median) && p + 1 + (median - lo - 1) == Mid(nodes, ends, leaf, p)
    requires Placed(nodes, Mid(nodes, ends, leaf, p), items, median, hi) && Mid(nodes, ends, leaf, p) + (hi - median) == ends[p]
    requires Inside(m, rows, Point(rows, nodes, p), medPts[p], items, lo + 1, median)
    requires Outside(m, rows, Point(rows, nodes, p), medPts[p], items, median, hi)
    ensures Separated(m, rows, nodes, ends, medPts, leaf, p)
  {
    var mid := Mid(nodes, ends, leaf, p);
    forall q | p + 1 <= q < mid ensures nodes[q].index == items[q - p + lo].index {
      var x := q - p + lo;
      assert nodes[p + 1 + (x - (lo + 1))].index == items[x].index;
    }
    forall q | mid <= q < ends[p] ensures nodes[q].index == items[q - mid + median].index {
      var x := q - mid + median;
      assert nodes[mid + (x - median)].index == items[x].index;
    }
  }

  /** `std::nth_element` on `[lo, hi)`: a rearrangement of that segment with everything before `mid` no greater than the entry at `mid`, and everything after it no smaller. */
  predicate NthElement(items: seq<Pair>, items': seq<Pair>, lo: int, mid: int, hi: int) {
    && 0 <= lo <= mid < hi <= |items| == |items'|
    && items'[..lo] == items[..lo] && items'[hi..] == items[hi..]
    && multiset(items'[lo..hi]) == multiset(items[lo..hi])
    && (forall x :: lo <= x < mid ==> Le(items'[x], items'[mid]))
    && (forall x :: mid < x < hi ==> Le(items'[mid], items'[x]))
  }

  /** The same partition, comparing the distances only. */
  predicate NthElementByDist(items: seq<Pair>, items': seq<Pair>, lo: int, mid: int, hi: int) {
    && 0 <= lo <= mid < hi <= |items| == |items'|
    && items'[..lo] == items[..lo] && items'[hi..] == items[hi..]
    && multiset(items'[lo..hi]) == multiset(items[lo..hi])
    && (forall x :: lo <= x < mid ==> items'[x].dist <= items'[mid].dist)
    && (forall x :: mid < x < hi ==> items'[mid].dist <= items'[x].dist)
  }

  /** `items` with the segment `[lo, hi)` replaced by `s`. */
  function Spliced<T>(items: seq<T>, lo: int, hi: int, s: seq<T>): (r: seq<T>)
    requires 0 <= lo <= hi <= |items| && |s| == hi - lo
    ensures |r| == |items| && r[..lo] == items[..lo] && r[lo..hi] == s && r[hi..] == items[hi..]
    ensures forall x :: lo <= x < hi ==> r[x] == s[x - lo]
  {
    items[..lo] + s + items[hi..]
  }

  /** Sorting the segment is one way to partition it, so a partition always exists. */
  lemma NthElementExists(items: seq<Pair>, lo: int, mid: int, hi: int)
    requires 0 <= lo <= mid < hi <= |items|
    ensures NthElement(items, Spliced(items, lo, hi, Sort(items[lo..hi])), lo, mid, hi)
  {
    var s := Sort(items[lo..hi]);
    var w := Spliced(items, lo, hi, s);
    forall x | lo <= x < mid ensures Le(w[x], w[mid]) {
      assert Le(s[x - lo], s[mid - lo]);
    }
    forall x | mid < x < hi ensures Le(w[mid], w[x]) {
      assert Le(s[mid - lo], s[x - lo]);
    }
  }

  /** A partition on whole pairs is also one on their distances. */
  lemma NthElementByDistOf(items: seq<Pair>, items': seq<Pair>, lo: int, mid: int, hi: int)
    requires NthElement(items, items', lo, mid, hi)
    ensures NthElementByDist(items, items', lo, mid, hi)
  {
    forall x | lo <= x < mid ensures items'[x].dist <= items'[mid].dist {
      assert Le(items'[x], items'[mid]);
    }
    forall x | mid < x < hi ensures items'[mid].dist <= items'[x].dist {
      assert Le(items'[mid], items'[x]);
    }
  }

  /** Swapping two items keeps the bag of any segment holding both. */
  lemma SwapBag(items: seq<Pair>, lo: int, i: int, hi: int)
    requires 0 <= lo <= i < hi <= |items|
    ensures Bag(items[lo := items[i]][i := items[lo]], lo, hi) == Bag(items, lo, hi)
  {
    var s := items[lo := items[i]][i := items[lo]];
    if i != lo {
      assert s[lo..hi] == [items[i]] + items[lo + 1..i] + [items[lo]] + items[i + 1..hi];
      assert items[lo..hi] == [items[lo]] + items[lo + 1..i] + [items[i]] + items[i + 1..hi];
      IndicesRearranged(s[lo..hi], items[lo..hi]);
    } else {
      assert s == items;
    }
  }

  /**
   * A partition (by distance) of items carrying their distances from `v` keeps the bag
   * and the distances of the segment, and splits it at `mid`: the items
   * before `mid` lie inside the split against the observation at `mid`,
   * and the items from `mid` on outside it.
   */
  lemma PartitionFacts(m: Metric, rows: seq<seq<real>>, v: seq<real>, items: seq<Pair>, parted: seq<Pair>,
                       lo: int, mid: int, hi: int)
    requires DistsFrom(m, rows, v, items, lo, hi) && ItemsIn(items, |rows|) && NthElementByDist(items, parted, lo, mid, hi)
    ensures Shuffled(items, parted, lo, hi, |rows|) && DistsFrom(m, rows, v, parted, lo, hi)
    ensures Inside(m, rows, v, rows[parted[mid].index], parted, lo, mid)
    ensures Outside(m, rows, v, rows[parted[mid].index], parted, mid, hi)
  {
    forall x | 0 <= x < |parted|
      ensures 0 <= parted[x].index < |rows| && (x < lo || hi <= x ==> parted[x] == items[x])
      ensures lo <= x < hi ==> parted[x].dist == m.raw(v, rows[parted[x].index])
    {
      var y := PartedMember(items, parted, lo, mid, hi, x);
    }
    IndicesRearranged(parted[lo..hi], items[lo..hi]);
  }

  /** Every entry of a partition comes from the same segment of the original (or is the original entry, outside it). */
  lemma PartedMember(items: seq<Pair>, parted: seq<Pair>, lo: int, mid: int, hi: int, x: int) returns (y: int)
    requires NthElementByDist(items, parted, lo, mid, hi) && 0 <= x < |parted|
    ensures 0 <= y < |items| && parted[x] == items[y] && (lo <= x < hi <==> lo <= y < hi)
    ensures x < lo || hi <= x ==> y == x
  {
    if x < lo {
      assert parted[x] == parted[..lo][x];
      y := x;
    } else if x >= hi {
      assert parted[x] == parted[hi..][x - hi];
      y := x;
    } else {
      assert parted[x] in multiset(items[lo..hi]) by {
        assert parted[x] == parted[lo..hi][x - lo];
      }
      var j :| 0 <= j < hi - lo && items[lo..hi][j] == parted[x];
      y := lo + j;
    }
  }

  /** `items'` agrees with `items` outside the segment `[lo, hi)`. */
  ghost predicate SameOutside(items: seq<Pair>, items': seq<Pair>, lo: int, hi: int) {
    |items'| == |items| && forall x :: 0 <= x < |items| && (x < lo || hi <= x) ==> items'[x] == items[x]
  }

  /** What holds of a segment holds after any change confined to a disjoint segment. */
  lemma SegmentKept(m: Metric, rows: seq<seq<real>>, v: seq<real>, med: seq<real>, nodes: seq<Node>, pos: int,
                    items: seq<Pair>, items': seq<Pair>, lo: int, hi: int, a: int, b: int)
    requires SameOutside(items, items', a, b) && 0 <= lo <= hi <= |items| && (hi <= a || b <= lo)
    ensures Bag(items', lo, hi) == Bag(items, lo, hi)
    ensures Inside(m, rows, v, med, items, lo, hi) ==> Inside(m, rows, v, med, items', lo, hi)
    ensures Outside(m, rows, v, med, items, lo, hi) ==> Outside(m, rows, v, med, items', lo, hi)
    ensures Placed(nodes, pos, items, lo, hi) ==> Placed(nodes, pos, items', lo, hi)
  {
    BagFrame(items, items', lo, hi);
  }

  lemma SameOutsideTrans(items: seq<Pair>, items': seq<Pair>, items'': seq<Pair>, lo: int, hi: int, lo': int, hi': int)
    requires SameOutside(items, items', lo', hi') && SameOutside(items', items'', lo, hi) && lo <= lo' && hi' <= hi
    ensures SameOutside(items, items'', lo, hi)
  {
  }

  /**
   * `items'` rearranges the segment `[lo, hi)` of `items`, keeps everything
   * outside it, and names only the `n` stored observations.
   */
  ghost predicate Shuffled(items: seq<Pair>, items': seq<Pair>, lo: int, hi: int, n: int) {
    && 0 <= lo <= hi <= |items|
    && SameOutside(items, items', lo, hi) && ItemsIn(items', n)
    && Bag(items', lo, hi) == Bag(items, lo, hi)
  }

  /** A rearrangement of a sub-segment followed by one of the whole segment is one of the whole segment. */
  lemma ShuffledTrans(items: seq<Pair>, items': seq<Pair>, items'': seq<Pair>, lo: int, hi: int, lo': int, hi': int, n: int)
    requires Shuffled(items, items', lo, hi, n) && Shuffled(items', items'', lo', hi', n) && lo <= lo' && hi' <= hi
    ensures Shuffled(items, items'', lo, hi, n)
  {
    BagSplit(items', lo, lo', hi);
    BagSplit(items', lo', hi', hi);
    BagSplit(items'', lo, lo', hi);
    BagSplit(items'', lo', hi', hi);
    BagFrame(items', items'', lo, lo');
    BagFrame(items', items'', hi', hi);
  }

  /** A rearrangement of a sub-segment is one of any segment around it. */
  lemma ShuffledWiden(items: seq<Pair>, items': seq<Pair>, lo: int, hi: int, lo': int, hi': int, n: int)
    requires Shuffled(items, items', lo', hi', n) && 0 <= lo <= lo' && hi' <= hi <= |items|
    ensures Shuffled(items, items', lo, hi, n)
  {
    BagSplit(items, lo, lo', hi);
    BagSplit(items, lo', hi', hi);
    BagSplit(items', lo, lo', hi);
    BagSplit(items', lo', hi', hi);
    BagFrame(items, items', lo, lo');
    BagFrame(items, items', hi', hi);
  }

  /**
   * The build of the items `[lo, hi)` left its subtree at `pos`: the
   * positions `[pos, pos + (hi - lo))` hold those items' observations, in
   * item order, and form a tree whose root is at `pos`.
   */
  ghost predicate Built(m: Metric, rows: seq<seq<real>>, nodes: seq<Node>, ends: seq<int>, medPts: seq<seq<real>>,
                        leaf: int, pos: int, items: seq<Pair>, lo: int, hi: int) {
    && lo < hi
    && Tree(m, rows, nodes, ends, medPts, leaf, pos, pos + (hi - lo))
    && Placed(nodes, pos, items, lo, hi)
    && ends[pos] == pos + (hi - lo)
  }

  /** A built subtree survives any change outside its positions and its items. */
  lemma BuiltFrame(m: Metric, rows: seq<seq<real>>, nodes: seq<Node>, ends: seq<int>, medPts: seq<seq<real>>,
                   nodes': seq<Node>, ends': seq<int>, medPts': seq<seq<real>>, leaf: int, pos: int,
                   items: seq<Pair>, items': seq<Pair>, lo: int, hi: int)
    requires Built(m, rows, nodes, ends, medPts, leaf, pos, items, lo, hi)
    requires |ends'| == |nodes'| == |medPts'| && pos + (hi - lo) <= |nodes'| && hi <= |items'|
    requires forall q :: pos <= q < pos + (hi - lo) ==> nodes'[q] == nodes[q] && ends'[q] == ends[q] && medPts'[q] == medPts[q]
    requires forall x :: lo <= x < hi ==> items'[x] == items[x]
    ensures Built(m, rows, nodes', ends', medPts', leaf, pos, items', lo, hi)
  {
    TreeFrame(m, rows, nodes, ends, medPts, nodes', ends', medPts', leaf, pos, pos + (hi - lo));
  }

  /** A single item makes a childless node. */
  lemma BuiltLeaf(m: Metric, rows: seq<seq<real>>, nodes: seq<Node>, ends: seq<int>, medPts: seq<seq<real>>,
                  leaf: int, pos: int, items: seq<Pair>, lo: int)
    requires |ends| == |nodes| == |medPts| && 0 <= pos < |nodes| && ends[pos] == pos + 1 && 0 <= lo < |items|
    requires nodes[pos].left == leaf && nodes[pos].right == leaf
    requires nodes[pos].index == items[lo].index && 0 <= items[lo].index < |rows|
    ensures Built(m, rows, nodes, ends, medPts, leaf, pos, items, lo, lo + 1)
  {
    assert Linked(nodes, ends, leaf, pos);
  }

  /** The links of a node whose children root the subtrees `[pos + 1, mid)` (if non-empty) and `[mid, end)`. */
  lemma NodeLinked(nodes: seq<Node>, ends: seq<int>, leaf: int, pos: int, mid: int, end: int)
    requires |ends| == |nodes| && 0 <= pos && leaf <= pos < mid < end <= |nodes| && ends[pos] == end
    requires nodes[pos].left == (if pos + 1 < mid then pos + 1 else leaf) && nodes[pos].right == mid
    requires pos + 1 < mid ==> ends[pos + 1] == mid
    requires ends[mid] == end
    ensures Linked(nodes, ends, leaf, pos) && Mid(nodes, ends, leaf, pos) == mid
  {
  }

  /**
   * A vantage point whose left subtree holds the items `[lower + 1, median)`
   * (when there are any) and whose right subtree holds `[median, upper)`,
   * split at the median observation `medPts[pos]`, roots the subtree of the
   * items `[lower, upper)`.
   */
  lemma BuiltNode(m: Metric, rows: seq<seq<real>>, nodes: seq<Node>, ends: seq<int>, medPts: seq<seq<real>>,
                  leaf: int, pos: int, items: seq<Pair>, lower: int, median: int, upper: int, mid: int)
    requires |ends| == |nodes| == |medPts| && leaf <= pos && 0 <= lower < median < upper <= |items|
    requires 0 <= pos && mid == pos + (median - lower) && pos + (upper - lower) <= |nodes| && ends[pos] == pos + (upper - lower)
    requires nodes[pos].index == items[lower].index && 0 <= items[lower].index < |rows|
    requires nodes[pos].left == (if lower + 1 < median then pos + 1 else leaf)
    requires nodes[pos].right == mid
    requires lower + 1 < median ==> Built(m, rows, nodes, ends, medPts, leaf, pos + 1, items, lower + 1, median)
    requires Built(m, rows, nodes, ends, medPts, leaf, mid, items, median, upper)
    requires nodes[pos].radius == m.normalize(m.raw(rows[items[lower].index], medPts[pos]))
    requires Inside(m, rows, rows[items[lower].index], medPts[pos], items, lower + 1, median)
    requires Outside(m, rows, rows[items[lower].index], medPts[pos], items, median, upper)
    ensures Built(m, rows, nodes, ends, medPts, leaf, pos, items, lower, upper)
  {
    var end := pos + (upper - lower);
    NodeLinked(nodes, ends, leaf, pos, mid, end);
    SeparatedOf(m, rows, nodes, ends, medPts, leaf, pos, items, lower, median, upper);
    TreeJoin(m, rows, nodes, ends, medPts, leaf, pos, mid, end);
  }

  /** The candidate that position `q` offers to `target`: the normalized distance and the observation. */
  ghost function Cand(m: Metric, rows: seq<seq<real>>, nodes: seq<Node>, target: seq<real>, q: int): Pair
    requires 0 <= q < |nodes| && 0 <= nodes[q].index < |rows|
  {
    Pair(Dist(m, Point(rows, nodes, q), target), nodes[q].index)
  }

  /** The candidates of the positions `[lo, hi)`, in position order. */
  ghost function Span(m: Metric, rows: seq<seq<real>>, nodes: seq<Node>, target: seq<real>, lo: int, hi: int): (r: seq<Pair>)
    requires 0 <= lo <= hi && IndicesIn(nodes, |rows|, lo, hi)
    ensures |r| == hi - lo && forall j :: 0 <= j < hi - lo ==> r[j] == Cand(m, rows, nodes, target, lo + j)
  {
    seq(hi - lo, j requires 0 <= j < hi - lo => Cand(m, rows, nodes, target, lo + j))
  }

  lemma SpanSplit(m: Metric, rows: seq<seq<real>>, nodes: seq<Node>, target: seq<real>, lo: int, mid: int, hi: int)
    requires 0 <= lo <= mid <= hi && IndicesIn(nodes, |rows|, lo, hi)
    ensures Span(m, rows, nodes, target, lo, hi) == Span(m, rows, nodes, target, lo, mid) + Span(m, rows, nodes, target, mid, hi)
  {
  }

  /**
   * A distance bound that may be unset (the searches start from the
   * largest representable distance) and whether a distance lies beyond
   * it: strictly for the current search, or also on it for the older one,
   * which only takes candidates strictly inside its bound.
   */
  predicate Beyond(d: real, bound: Option<real>, orEqual: bool) {
    bound.Some? && (d > bound.value || (orEqual && d == bound.value))
  }

  /** `bound` is at least as tight as `earlier`. */
  predicate Tighter(bound: Option<real>, earlier: Option<real>) {
    earlier.Some? ==> bound.Some? && bound.value <= earlier.value
  }

  /** Every candidate of `[lo, hi)` has been added, or lies beyond the bound. */
  ghost predicate Covered(m: Metric, rows: seq<seq<real>>, nodes: seq<Node>, target: seq<real>, lo: int, hi: int,
                          added: multiset<Pair>, bound: Option<real>, orEqual: bool)
    requires IndicesIn(nodes, |rows|, lo, hi)
  {
    forall q :: lo <= q < hi ==>
      Cand(m, rows, nodes, target, q) in added || Beyond(Cand(m, rows, nodes, target, q).dist, bound, orEqual)
  }

  /**
   * What a search of the positions `[lo, hi)` leaves behind: it added some
   * of their candidates, each at most once, tightened the bound, and (for a
   * true metric) missed none that is within the final bound.
   */
  ghost predicate Explored(m: Metric, rows: seq<seq<real>>, nodes: seq<Node>, target: seq<real>, lo: int, hi: int,
                           added0: multiset<Pair>, added: multiset<Pair>, bound0: Option<real>, bound: Option<real>,
                           orEqual: bool)
    requires 0 <= lo <= hi && IndicesIn(nodes, |rows|, lo, hi)
  {
    && added0 <= added <= added0 + multiset(Span(m, rows, nodes, target, lo, hi))
    && Tighter(bound, bound0)
    && (IsMetric(m) ==> Covered(m, rows, nodes, target, lo, hi, added, bound, orEqual))
  }

  /** Exploring two adjacent ranges one after the other, in either order, explores both. */
  lemma ExploredJoin(m: Metric, rows: seq<seq<real>>, nodes: seq<Node>, target: seq<real>, lo: int, mid: int, hi: int,
                     firstLow: bool, added0: multiset<Pair>, added1: multiset<Pair>, added2: multiset<Pair>,
                     bound0: Option<real>, bound1: Option<real>, bound2: Option<real>, orEqual: bool)
    requires 0 <= lo <= mid <= hi && IndicesIn(nodes, |rows|, lo, hi)
    requires firstLow ==> Explored(m, rows, nodes, target, lo, mid, added0, added1, bound0, bound1, orEqual)
    requires firstLow ==> Explored(m, rows, nodes, target, mid, hi, added1, added2, bound1, bound2, orEqual)
    requires !firstLow ==> Explored(m, rows, nodes, target, mid, hi, added0, added1, bound0, bound1, orEqual)
    requires !firstLow ==> Explored(m, rows, nodes, target, lo, mid, added1, added2, bound1, bound2, orEqual)
    ensures Explored(m, rows, nodes, target, lo, hi, added0, added2, bound0, bound2, orEqual)
  {
    SpanSplit(m, rows, nodes, target, lo, mid, hi);
    var a := multiset(Span(m, rows, nodes, target, lo, mid));
    var b := multiset(Span(m, rows, nodes, target, mid, hi));
    assert multiset(Span(m, rows, nodes, target, lo, hi)) == a + b;
    if IsMetric(m) {
      forall q | lo <= q < hi
        ensures Cand(m, rows, nodes, target, q) in added2 || Beyond(Cand(m, rows, nodes, target, q).dist, bound2, orEqual)
      {
        if (firstLow && q < mid) || (!firstLow && q >= mid) {
          var c := Cand(m, rows, nodes, target, q);
          if c in added1 {
            assert c in added2;
          }
        }
      }
    }
  }

  /** The node at `p` leaves the search of its own position explored, whether or not it was added. */
  lemma ExploredNode(m: Metric, rows: seq<seq<real>>, nodes: seq<Node>, target: seq<real>, p: int,
                     added0: multiset<Pair>, added: multiset<Pair>, bound0: Option<real>, bound: Option<real>, orEqual: bool)
    requires 0 <= p < |nodes| && 0 <= nodes[p].index < |rows|
    requires var c := Cand(m, rows, nodes, target, p);
      || (added == added0 + multiset{c} && !Beyond(c.dist, bound0, orEqual))
      || (added == added0 && Beyond(c.dist, bound0, orEqual))
    requires Tighter(bound, bound0)
    ensures Explored(m, rows, nodes, target, p, p + 1, added0, added, bound0, bound, orEqual)
  {
    assert Span(m, rows, nodes, target, p, p + 1) == [Cand(m, rows, nodes, target, p)];
  }

  /** A subtree that is not visited, or is empty, is explored without adding anything. */
  lemma ExploredSkip(m: Metric, rows: seq<seq<real>>, nodes: seq<Node>, target: seq<real>, lo: int, hi: int,
                     added: multiset<Pair>, bound: Option<real>, orEqual: bool)
    requires 0 <= lo <= hi && IndicesIn(nodes, |rows|, lo, hi)
    requires IsMetric(m) ==> forall q :: lo <= q < hi ==> Beyond(Cand(m, rows, nodes, target, q).dist, bound, orEqual)
    ensures Explored(m, rows, nodes, target, lo, hi, added, added, bound, bound, orEqual)
  {
  }

  /**
   * The left subtree may be skipped once the target is further from the
   * vantage point than the radius plus the bound: by the triangle
   * inequality everything inside the ball is then beyond the bound.
   */
  lemma PruneLeft(m: Metric, rows: seq<seq<real>>, nodes: seq<Node>, ends: seq<int>, medPts: seq<seq<real>>, leaf: int,
                  p: int, target: seq<real>, bound: real, orEqual: bool)
    requires IsMetric(m) && Linked(nodes, ends, leaf, p) && |medPts| == |nodes| && IndicesIn(nodes, |rows|, p, ends[p])
    requires Separated(m, rows, nodes, ends, medPts, leaf, p) && p + 1 < ends[p]
    requires Dist(m, Point(rows, nodes, p), target) - bound > nodes[p].radius
    ensures forall q :: p + 1 <= q < Mid(nodes, ends, leaf, p) ==>
      Beyond(Cand(m, rows, nodes, target, q).dist, Some(bound), orEqual)
  {
    var v := Point(rows, nodes, p);
    forall q | p + 1 <= q < Mid(nodes, ends, leaf, p)
      ensures Dist(m, Point(rows, nodes, q), target) > bound
    {
      var x := Point(rows, nodes, q);
      TriangleAt(m, v, x, target);
      MonotoneLe(m, m.raw(v, x), m.raw(v, medPts[p]));
    }
  }

  /**
   * The right subtree may be skipped once the target is closer to the
   * vantage point than the radius less the bound: everything outside the
   * ball is then beyond the bound.
   */
  lemma PruneRight(m: Metric, rows: seq<seq<real>>, nodes: seq<Node>, ends: seq<int>, medPts: seq<seq<real>>, leaf: int,
                   p: int, target: seq<real>, bound: real, orEqual: bool)
    requires IsMetric(m) && Linked(nodes, ends, leaf, p) && |medPts| == |nodes| && IndicesIn(nodes, |rows|, p, ends[p])
    requires Separated(m, rows, nodes, ends, medPts, leaf, p) && p + 1 < ends[p]
    requires Dist(m, Point(rows, nodes, p), target) + bound < nodes[p].radius
    ensures forall q :: Mid(nodes, ends, leaf, p) <= q < ends[p] ==>
      Beyond(Cand(m, rows, nodes, target, q).dist, Some(bound), orEqual)
  {
    var v := Point(rows, nodes, p);
    forall q | Mid(nodes, ends, leaf, p) <= q < ends[p]
      ensures Dist(m, Point(rows, nodes, q), target) > bound
    {
      var x := Point(rows, nodes, q);
      TriangleAt(m, v, target, x);
      SymmetricAt(m, target, x);
      MonotoneLe(m, m.raw(v, medPts[p]), m.raw(v, x));
    }
  }

  /**
   * A queue that holds the k smallest of what it was offered also holds the
   * k smallest once the candidates it was never offered are counted, when
   * each of those lies strictly after its furthest entry.
   */
  lemma KSmallestExtend(s: seq<Pair>, t: multiset<Pair>, rest: multiset<Pair>, k: nat)
    requires IsKSmallest(s, t, k)
    requires forall p :: p in rest ==> |s| == k && s != [] && Lt(s[|s| - 1], p)
    ensures IsKSmallest(s, t + rest, k)
  {
    if rest != multiset{} {
      var p :| p in rest;
      assert |s| == k && s != [];
      assert (t + rest) - multiset(s) == (t - multiset(s)) + rest;
      forall a, b | a in s && b in (t + rest) - multiset(s) ensures Le(a, b) {
        if b in rest {
          SortedLastIsGreatest(s, a);
          LeTrans(a, s[|s| - 1], b);
        }
      }
    }
  }

  /** The pairs within distance `d`, in their order: what a range search collects. */
  function WithinDistance(s: seq<Pair>, d: real): (r: seq<Pair>)
    ensures |r| <= |s|
  {
    if s == [] then []
    else (if s[0].dist <= d then [s[0]] else []) + WithinDistance(s[1..], d)
  }

  /** A pair occurs among those within `d` as often as in the whole, if it is within `d`, and never otherwise. */
  lemma {:induction false} WithinDistanceCount(s: seq<Pair>, d: real, p: Pair)
    ensures multiset(WithinDistance(s, d))[p] == if p.dist <= d then multiset(s)[p] else 0
  {
    if s != [] {
      WithinDistanceCount(s[1..], d, p);
      assert s == [s[0]] + s[1..];
    }
  }

  /** Which pairs lie within `d` does not depend on their order. */
  lemma WithinDistanceMultiset(a: seq<Pair>, b: seq<Pair>, d: real)
    requires multiset(a) == multiset(b)
    ensures multiset(WithinDistance(a, d)) == multiset(WithinDistance(b, d))
  {
    forall p ensures multiset(WithinDistance(a, d))[p] == multiset(WithinDistance(b, d))[p] {
      WithinDistanceCount(a, d, p);
      WithinDistanceCount(b, d, p);
    }
  }

  /** The candidates of the positions `[lo, hi)` that lie within `d`, as a bag. */
  ghost function Within(m: Metric, rows: seq<seq<real>>, nodes: seq<Node>, target: seq<real>, lo: int, hi: int, d: real)
    : multiset<Pair>
    requires 0 <= lo <= hi && IndicesIn(nodes, |rows|, lo, hi)
    decreases hi - lo
  {
    if lo == hi then multiset{}
    else
      var c := Cand(m, rows, nodes, target, lo);
      (if c.dist <= d then multiset{c} else multiset{}) + Within(m, rows, nodes, target, lo + 1, hi, d)
  }

  lemma {:induction false} WithinSplit(m: Metric, rows: seq<seq<real>>, nodes: seq<Node>, target: seq<real>,
                                       lo: int, mid: int, hi: int, d: real)
    requires 0 <= lo <= mid <= hi && IndicesIn(nodes, |rows|, lo, hi)
    ensures Within(m, rows, nodes, target, lo, hi, d)
         == Within(m, rows, nodes, target, lo, mid, d) + Within(m, rows, nodes, target, mid, hi, d)
    decreases mid - lo
  {
    if lo < mid {
      WithinSplit(m, rows, nodes, target, lo + 1, mid, hi, d);
    }
  }

  /** The bag of candidates within `d` is the bag of the pairs `WithinDistance` keeps from the span. */
  lemma {:induction false} WithinSpan(m: Metric, rows: seq<seq<real>>, nodes: seq<Node>, target: seq<real>,
                                      lo: int, hi: int, d: real)
    requires 0 <= lo <= hi && IndicesIn(nodes, |rows|, lo, hi)
    ensures Within(m, rows, nodes, target, lo, hi, d) == multiset(WithinDistance(Span(m, rows, nodes, target, lo, hi), d))
    decreases hi - lo
  {
    if lo < hi {
      var s := Span(m, rows, nodes, target, lo, hi);
      WithinSpan(m, rows, nodes, target, lo + 1, hi, d);
      assert s[1..] == Span(m, rows, nodes, target, lo + 1, hi);
    }
  }

  /**
   * What a range search of the positions `[lo, hi)` leaves behind: it
   * found some of their candidates within `d`, each at most once, and (for
   * a true metric) all of them.
   */
  ghost predicate Gathered(m: Metric, rows: seq<seq<real>>, nodes: seq<Node>, target: seq<real>, lo: int, hi: int,
                           found0: multiset<Pair>, found: multiset<Pair>, d: real)
    requires 0 <= lo <= hi && IndicesIn(nodes, |rows|, lo, hi)
  {
    && found0 <= found <= found0 + Within(m, rows, nodes, target, lo, hi, d)
    && (IsMetric(m) ==> found == found0 + Within(m, rows, nodes, target, lo, hi, d))
  }

  /** Gathering two adjacent ranges one after the other, in either order, gathers both. */
  lemma GatheredJoin(m: Metric, rows: seq<seq<real>>, nodes: seq<Node>, target: seq<real>, lo: int, mid: int, hi: int,
                     firstLow: bool, found0: multiset<Pair>, found1: multiset<Pair>, found2: multiset<Pair>, d: real)
    requires 0 <= lo <= mid <= hi && IndicesIn(nodes, |rows|, lo, hi)
    requires firstLow ==> Gathered(m, rows, nodes, target, lo, mid, found0, found1, d)
    requires firstLow ==> Gathered(m, rows, nodes, target, mid, hi, found1, found2, d)
    requires !firstLow ==> Gathered(m, rows, nodes, target, mid, hi, found0, found1, d)
    requires !firstLow ==> Gathered(m, rows, nodes, target, lo, mid, found1, found2, d)
    ensures Gathered(m, rows, nodes, target, lo, hi, found0, found2, d)
  {
    WithinSplit(m, rows, nodes, target, lo, mid, hi, d);
  }

  /** The node at `p` gathers its own candidate exactly when it lies within `d`. */
  lemma GatheredNode(m: Metric, rows: seq<seq<real>>, nodes: seq<Node>, target: seq<real>, p: int,
                     found0: multiset<Pair>, found: multiset<Pair>, d: real)
    requires 0 <= p < |nodes| && 0 <= nodes[p].index < |rows|
    requires var c := Cand(m, rows, nodes, target, p);
      found == if c.dist <= d then found0 + multiset{c} else found0
    ensures Gathered(m, rows, nodes, target, p, p + 1, found0, found, d)
  {
    assert Within(m, rows, nodes, target, p + 1, p + 1, d) == multiset{};
  }

  /** A range that is not visited, or is empty, gathers nothing; for a true metric it has nothing within `d`. */
  lemma {:induction false} GatheredSkip(m: Metric, rows: seq<seq<real>>, nodes: seq<Node>, target: seq<real>, lo: int, hi: int,
                                        found: multiset<Pair>, d: real)
    requires 0 <= lo <= hi && IndicesIn(nodes, |rows|, lo, hi)
    requires IsMetric(m) ==> forall q :: lo <= q < hi ==> Beyond(Cand(m, rows, nodes, target, q).dist, Some(d), false)
    ensures Gathered(m, rows, nodes, target, lo, hi, found, found, d)
    decreases hi - lo
  {
    if IsMetric(m) && lo < hi {
      assert Beyond(Cand(m, rows, nodes, target, lo).dist, Some(d), false);
      GatheredSkip(m, rows, nodes, target, lo + 1, hi, found, d);
    }
  }
}
