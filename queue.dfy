/**
 * The bounded max-heap the searchers use to keep the k closest candidates
 * seen so far (knncolle::NeighborQueue). The `std::priority_queue` of
 * (distance, index) pairs is held as a sequence in ascending order, so the
 * top of the heap is the last element and a pop drops it.
 */
module Queue {
  import opened Wrappers
  import opened Pairs

  /** Position of the last pair of `s` with index `self`, or -1: in pop order, the first such pair. */
  function LastPosOf(s: seq<Pair>, self: int): (r: int)
    ensures -1 <= r < |s|
    ensures r >= 0 ==> s[r].index == self
    ensures forall j :: r < j < |s| ==> s[j].index != self
  {
    if s == [] then -1
    else if s[|s| - 1].index == self then |s| - 1
    else LastPosOf(s[..|s| - 1], self)
  }

  /**
   * The neighbours a self-excluding report lists, in ascending order: all
   * pairs but the first one popped whose index is `self`, or, when no pair
   * has that index, all but the furthest.
   */
  function WithoutSelf(s: seq<Pair>, self: int): (r: seq<Pair>)
    requires s != []
  {
    var j := LastPosOf(s, self);
    if j >= 0 then s[..j] + s[j + 1..] else s[..|s| - 1]
  }

  lemma WithoutSelfDropsOne(s: seq<Pair>, self: int)
    requires s != []
    ensures |WithoutSelf(s, self)| == |s| - 1
    ensures (exists j :: 0 <= j < |s| && s[j].index == self) ==>
      exists j :: 0 <= j < |s| && s[j].index == self && multiset(WithoutSelf(s, self)) + multiset{s[j]} == multiset(s)
    ensures (forall j :: 0 <= j < |s| ==> s[j].index != self) ==> WithoutSelf(s, self) == s[..|s| - 1]
  {
    var j := LastPosOf(s, self);
    if j >= 0 {
      assert s == s[..j] + [s[j]] + s[j + 1..];
    }
  }

  /** Excluding one pair keeps the order. */
  lemma WithoutSelfSorted(s: seq<Pair>, self: int)
    requires s != [] && Sorted(s)
    ensures Sorted(WithoutSelf(s, self))
  {
    var j := LastPosOf(s, self);
    var r := WithoutSelf(s, self);
    if j >= 0 {
      assert forall i :: 0 <= i < |r| ==> r[i] == (if i < j then s[i] else s[i + 1]);
    } else {
      assert forall i :: 0 <= i < |r| ==> r[i] == s[i];
    }
  }

  /** Dropping one pair keeps the remaining indices in range. */
  lemma WithoutSelfInRange(s: seq<Pair>, self: int, n: int)
    requires s != [] && forall j :: 0 <= j < |s| ==> 0 <= s[j].index < n
    ensures forall j :: 0 <= j < |WithoutSelf(s, self)| ==> 0 <= WithoutSelf(s, self)[j].index < n
  {
    var j := LastPosOf(s, self);
    var r := WithoutSelf(s, self);
    if j >= 0 {
      assert forall i :: 0 <= i < |r| ==> r[i] == (if i < j then s[i] else s[i + 1]);
    } else {
      assert forall i :: 0 <= i < |r| ==> r[i] == s[i];
    }
  }

  /** With distinct indices, `self` is gone from the report, whose indices stay distinct. */
  lemma WithoutSelfExcludes(s: seq<Pair>, self: int)
    requires s != [] && DistinctIndices(s)
    ensures DistinctIndices(WithoutSelf(s, self))
    ensures self !in Indices(WithoutSelf(s, self))
  {
    var j := LastPosOf(s, self);
    var r := WithoutSelf(s, self);
    if j >= 0 {
      assert forall i :: 0 <= i < |r| ==> r[i] == (if i < j then s[i] else s[i + 1]);
    } else {
      assert forall i :: 0 <= i < |r| ==> r[i] == s[i];
    }
  }

  /** When the observation itself is the closest candidate, the report is everything after it. */
  lemma WithoutSelfWhenSelfFirst(s: seq<Pair>, self: int)
    requires s != [] && DistinctIndices(s) && s[0].index == self
    ensures WithoutSelf(s, self) == s[1..]
  {
    var j := LastPosOf(s, self);
    assert j == 0;
  }

  /** `std::vector::resize`: keeps the first `n` elements and pads with `fill`. */
  function Resize<T>(v: seq<T>, n: nat, fill: T): (r: seq<T>)
    ensures |r| == n && forall i :: 0 <= i < Min(n, |v|) ==> r[i] == v[i]
  {
    if n <= |v| then v[..n] else v + seq(n - |v|, _ => fill)
  }

  /** The pairs of `s[n..]` that are still to be reported, when `j` is the position of `self`. */
  ghost function Kept(s: seq<Pair>, n: nat, j: int): seq<Pair>
    requires n <= |s| && -1 <= j < |s|
  {
    if j >= n then s[n..j] + s[j + 1..] else s[n..]
  }

  lemma KeptStep(s: seq<Pair>, n: nat, j: int)
    requires 0 < n <= |s| && -1 <= j < |s| && j != n - 1
    ensures Kept(s, n - 1, j) == [s[n - 1]] + Kept(s, n, j)
  {
    if j >= n {
      assert s[n - 1..j] == [s[n - 1]] + s[n..j];
    } else {
      assert s[n - 1..] == [s[n - 1]] + s[n..];
    }
  }

  /**
   * The pairs a draining loop pops from positions `|s| - 1` down
   * to `n`, furthest first, leaving out position `j` (the self-match).
   */
  ghost function Popped(s: seq<Pair>, n: nat, j: int): (r: seq<Pair>)
    requires n <= |s| && j < |s|
    ensures |r| == |s| - n - (if n <= j then 1 else 0)
    decreases |s| - n
  {
    if n == |s| then [] else Popped(s, n + 1, j) + (if n == j then [] else [s[n]])
  }

  /** Popping lists the kept pairs in reverse. */
  lemma {:induction false} PoppedIsReversedKept(s: seq<Pair>, n: nat, j: int)
    requires n <= |s| && -1 <= j < |s|
    ensures Popped(s, n, j) == Reverse(Kept(s, n, j))
    decreases |s| - n
  {
    if n < |s| {
      PoppedIsReversedKept(s, n + 1, j);
      if n == j {
        KeptSkip(s, n);
      } else {
        KeptStep(s, n + 1, j);
        ReverseCons(s[n], Kept(s, n + 1, j));
      }
    }
  }

  lemma KeptSkip(s: seq<Pair>, j: nat)
    requires j < |s|
    ensures Kept(s, j, j) == Kept(s, j + 1, j)
  {
    assert s[j..j] + s[j + 1..] == s[j + 1..];
  }

  lemma ReverseCons<T>(x: T, k: seq<T>)
    ensures Reverse([x] + k) == Reverse(k) + [x]
  {
  }

  /**
   * Reversed, a self-excluding pop lists the report in ascending order:
   * everything but the self-match, or, when there is none, everything with
   * the furthest pair still to be dropped.
   */
  lemma PoppedWithoutSelf(s: seq<Pair>, self: int)
    requires s != []
    ensures var j := LastPosOf(s, self); var p := Popped(s, 0, j);
      && (j >= 0 ==> Reverse(Indices(p)) == Indices(WithoutSelf(s, self)))
      && (j >= 0 ==> Reverse(Distances(p)) == Distances(WithoutSelf(s, self)))
      && (j < 0 ==> Reverse(Indices(p))[..|s| - 1] == Indices(WithoutSelf(s, self)))
      && (j < 0 ==> Reverse(Distances(p))[..|s| - 1] == Distances(WithoutSelf(s, self)))
  {
    var j := LastPosOf(s, self);
    PoppedIsReversedKept(s, 0, j);
    ReportFinish(Popped(s, 0, j), Kept(s, 0, j));
    if j >= 0 {
      assert s[0..j] == s[..j];
    } else {
      assert s[0..] == s;
    }
  }

  /** Reversed, a pop that skips nothing lists every pair in ascending order. */
  lemma PoppedAll(s: seq<Pair>)
    ensures Reverse(Indices(Popped(s, 0, -1))) == Indices(s)
    ensures Reverse(Distances(Popped(s, 0, -1))) == Distances(s)
  {
    PoppedIsReversedKept(s, 0, -1);
    ReportFinish(Popped(s, 0, -1), Kept(s, 0, -1));
    assert s[0..] == s;
  }

  lemma ReportStep(acc: seq<Pair>, k: seq<Pair>, x: Pair)
    requires acc == Reverse(k)
    ensures acc + [x] == Reverse([x] + k)
    ensures Indices(acc + [x]) == Indices(acc) + [x.index]
    ensures Distances(acc + [x]) == Distances(acc) + [x.dist]
  {
  }

  lemma ReportFinish(acc: seq<Pair>, k: seq<Pair>)
    requires acc == Reverse(k)
    ensures Reverse(Indices(acc)) == Indices(k) && Reverse(Distances(acc)) == Distances(k)
    ensures |k| > 0 ==> Reverse(Indices(acc))[..|k| - 1] == Indices(k[..|k| - 1])
    ensures |k| > 0 ==> Reverse(Distances(acc))[..|k| - 1] == Distances(k[..|k| - 1])
  {
  }

  /** The heap after add(): the candidate goes in, and a full heap drops its largest pair. */
  ghost function Pushed(s: seq<Pair>, full: bool, k: nat, p: Pair): seq<Pair> {
    if full && |s| == k then Insert(s, p)[..k] else Insert(s, p)
  }

  /** add() keeps the k smallest, full exactly at capacity, and a full heap's largest pair never grows. */
  lemma PushedKeepsSmallest(s: seq<Pair>, t: multiset<Pair>, k: nat, full: bool, p: Pair)
    requires k > 0 && IsKSmallest(s, t, k) && (full <==> |s| == k)
    ensures IsKSmallest(Pushed(s, full, k, p), t + multiset{p}, k)
    ensures |Pushed(s, full, k, p)| == k <==> full || |s| + 1 == k
    ensures full ==> Le(Pushed(s, full, k, p)[k - 1], s[k - 1])
  {
    if full {
      KSmallestPushPop(s, t, k, p);
    } else {
      KSmallestPush(s, t, k, p);
    }
  }

  class NeighborQueue {
    var full: bool
    var nearest: seq<Pair>
    var neighbors: nat
    /** Every candidate added since the last reset. */
    ghost var added: multiset<Pair>

    /**
     * Between a reset and a report: the queue holds, in ascending order,
     * the `neighbors` smallest candidates added so far, and it is full
     * exactly when it holds `neighbors` of them.
     */
    ghost predicate Valid()
      reads this
    {
      && neighbors > 0
      && IsKSmallest(nearest, added, neighbors)
      && (full <==> |nearest| == neighbors)
    }

    constructor ()
      ensures Valid() && nearest == [] && !full && neighbors == 1 && added == multiset{}
    {
      full := false;
      nearest := [];
      neighbors := 1;
      added := multiset{};
    }

    method Reset(k: nat)
      requires k > 0
      modifies this
      ensures Valid() && nearest == [] && !full && neighbors == k && added == multiset{}
    {
      neighbors := k;
      full := false;
      while nearest != []
        invariant neighbors == k && !full
        decreases |nearest|
      {
        nearest := nearest[..|nearest| - 1];
      }
      added := multiset{};
    }

    function IsFull(): (r: bool)
      reads this
      requires Valid()
      ensures r <==> |added| >= neighbors
    {
      full
    }

    /** The distance of the k-th nearest candidate: no kept candidate is further, no dropped one is closer. */
    function Limit(): (r: real)
      reads this
      requires Valid() && full
      ensures r == nearest[neighbors - 1].dist
      ensures forall i :: 0 <= i < |nearest| ==> nearest[i].dist <= r
      ensures forall p :: p in added - multiset(nearest) ==> r <= p.dist
    {
      assert nearest[neighbors - 1] in nearest;
      SortedAtMostLast(nearest);
      nearest[|nearest| - 1].dist
    }

    function Size(): (r: nat)
      reads this
      requires Valid()
      ensures r == Min(neighbors, |added|) && (full ==> r == neighbors)
    {
      |nearest|
    }

    method Add(i: int, d: real)
      requires Valid()
      modifies this
      ensures Valid()
      ensures added == old(added) + multiset{Pair(d, i)} && neighbors == old(neighbors)
      ensures old(full) ==> full && Le(nearest[neighbors - 1], old(nearest)[neighbors - 1])
    {
      var p := Pair(d, i);
      ghost var next := Pushed(nearest, full, neighbors, p);
      PushedKeepsSmallest(nearest, added, neighbors, full, p);
      nearest := Insert(nearest, p);
      added := added + multiset{p};
      if full {
        nearest := nearest[..|nearest| - 1];
      } else if |nearest| == neighbors {
        full := true;
      }
      assert nearest == next;
    }

    /**
     * The popping loop of a self-excluding report: the pairs in descending
     * order, skipping the first one whose index is `self`.
     */
    method PopSkippingSelf(hasIdx: bool, hasDist: bool, self: int)
      returns (ids: seq<int>, ds: seq<real>, foundSelf: bool)
      modifies this
      ensures nearest == [] && full == old(full) && neighbors == old(neighbors) && added == old(added)
      ensures foundSelf <==> LastPosOf(old(nearest), self) >= 0
      ensures hasIdx ==> ids == Indices(Popped(old(nearest), 0, LastPosOf(old(nearest), self)))
      ensures hasDist ==> ds == Distances(Popped(old(nearest), 0, LastPosOf(old(nearest), self)))
    {
      ghost var s := nearest;
      ghost var j := LastPosOf(s, self);
      ghost var acc: seq<Pair> := [];
      ids, ds := [], [];
      foundSelf := false;
      while nearest != []
        invariant |nearest| <= |s| && nearest == s[..|nearest|]
        invariant full == old(full) && neighbors == old(neighbors) && added == old(added)
        invariant foundSelf <==> j >= |nearest|
        invariant acc == Popped(s, |nearest|, j)
        invariant hasIdx ==> ids == Indices(acc)
        invariant hasDist ==> ds == Distances(acc)
        decreases |nearest|
      {
        var n := |nearest|;
        var top := nearest[n - 1];
        PrefixPop(s, n);
        if !foundSelf && top.index == self {
          foundSelf := true;
        } else {
          assert Indices(acc + [top]) == Indices(acc) + [top.index];
          assert Distances(acc + [top]) == Distances(acc) + [top.dist];
          if hasIdx {
            ids := ids + [top.index];
          }
          if hasDist {
            ds := ds + [top.dist];
          }
          acc := acc + [top];
        }
        nearest := nearest[..n - 1];
      }
    }

    /** Pops every pair, listing all but the first one with index `self` (or all but the furthest). */
    method ReportInternalSelf(outIdx: Option<seq<int>>, outDist: Option<seq<real>>, self: int)
      returns (idx: Option<seq<int>>, dist: Option<seq<real>>)
      requires nearest != []
      modifies this
      ensures nearest == [] && full == old(full) && neighbors == old(neighbors) && added == old(added)
      ensures idx == (if outIdx.Some? then Some(Indices(WithoutSelf(old(nearest), self))) else None)
      ensures dist == (if outDist.Some? then Some(Distances(WithoutSelf(old(nearest), self))) else None)
    {
      ghost var s := nearest;
      ghost var j := LastPosOf(s, self);
      var ids, ds, foundSelf := PopSkippingSelf(outIdx.Some?, outDist.Some?, self);
      PoppedWithoutSelf(s, self);
      if outIdx.Some? {
        ids := Reverse(ids);
      }
      if outDist.Some? {
        ds := Reverse(ds);
      }
      if !foundSelf {
        if outIdx.Some? {
          ids := ids[..|ids| - 1];
        }
        if outDist.Some? {
          ds := ds[..|ds| - 1];
        }
      }
      idx := if outIdx.Some? then Some(ids) else None;
      dist := if outDist.Some? then Some(ds) else None;
    }

    /**
     * Reports the neighbours of observation `self`, excluding `self`; an
     * output that is None is not computed, and with neither output the
     * queue is left as it is.
     */
    method ReportSelf(outIdx: Option<seq<int>>, outDist: Option<seq<real>>, self: int)
      returns (idx: Option<seq<int>>, dist: Option<seq<real>>)
      requires outIdx.Some? || outDist.Some? ==> nearest != []
      modifies this
      ensures full == old(full) && neighbors == old(neighbors) && added == old(added)
      ensures outIdx.None? && outDist.None? ==> nearest == old(nearest) && idx.None? && dist.None?
      ensures outIdx.Some? || outDist.Some? ==> nearest == []
      ensures idx == (if outIdx.Some? then Some(Indices(WithoutSelf(old(nearest), self))) else None)
      ensures dist == (if outDist.Some? then Some(Distances(WithoutSelf(old(nearest), self))) else None)
    {
      if outIdx.Some? || outDist.Some? {
        idx, dist := ReportInternalSelf(outIdx, outDist, self);
      } else {
        idx, dist := None, None;
      }
    }

    /** Pops every pair into the outputs, nearest first. */
    method ReportInternal(outIdx: Option<seq<int>>, outDist: Option<seq<real>>)
      returns (idx: Option<seq<int>>, dist: Option<seq<real>>)
      modifies this
      ensures nearest == [] && full == old(full) && neighbors == old(neighbors) && added == old(added)
      ensures idx == (if outIdx.Some? then Some(Indices(old(nearest))) else None)
      ensures dist == (if outDist.Some? then Some(Distances(old(nearest))) else None)
    {
      ghost var s := nearest;
      var position := |nearest|;
      var ids := if outIdx.Some? then Resize(outIdx.value, position, 0) else [];
      var ds := if outDist.Some? then Resize(outDist.value, position, 0.0) else [];
      while nearest != []
        invariant position == |nearest| && nearest == s[..position]
        invariant full == old(full) && neighbors == old(neighbors) && added == old(added)
        invariant outIdx.Some? ==> |ids| == |s| && forall q :: position <= q < |s| ==> ids[q] == s[q].index
        invariant outDist.Some? ==> |ds| == |s| && forall q :: position <= q < |s| ==> ds[q] == s[q].dist
        decreases |nearest|
      {
        var top := nearest[|nearest| - 1];
        position := position - 1;
        if outIdx.Some? {
          ids := ids[position := top.index];
        }
        if outDist.Some? {
          ds := ds[position := top.dist];
        }
        nearest := nearest[..|nearest| - 1];
      }
      assert outIdx.Some? ==> ids == Indices(s);
      assert outDist.Some? ==> ds == Distances(s);
      idx := if outIdx.Some? then Some(ids) else None;
      dist := if outDist.Some? then Some(ds) else None;
    }

    /** Reports every neighbour in the queue, nearest first; with neither output the queue is left as it is. */
    method Report(outIdx: Option<seq<int>>, outDist: Option<seq<real>>)
      returns (idx: Option<seq<int>>, dist: Option<seq<real>>)
      modifies this
      ensures full == old(full) && neighbors == old(neighbors) && added == old(added)
      ensures outIdx.None? && outDist.None? ==> nearest == old(nearest)
      ensures outIdx.Some? || outDist.Some? ==> nearest == []
      ensures idx == (if outIdx.Some? then Some(Indices(old(nearest))) else None)
      ensures dist == (if outDist.Some? then Some(Distances(old(nearest))) else None)
    {
      if outIdx.Some? || outDist.Some? {
        idx, dist := ReportInternal(outIdx, outDist);
      } else {
        idx, dist := None, None;
      }
    }
  }
}
