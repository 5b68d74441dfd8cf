/**
 * The older bounded neighbour queue (knncolle::NeighborQueue in utils/).
 * Its capacity counts one extra slot when the observation itself may turn
 * up among its own neighbours and one more when ties are to be detected;
 * once full, a candidate only gets in when it is strictly closer than the
 * current furthest one. The heap is again a sequence in ascending order.
 */
module LegacyQueue {
  import opened Pairs
  import opened Nearest
  import Queue

  function Flag(b: bool): nat { if b then 1 else 0 }

  /** The capacity computed by base_setup: the neighbours, plus one for self, plus one for ties. */
  function CheckK(k: nat, self: bool, ties: bool): (r: nat)
    ensures r >= k && (r == 0 <==> k == 0 && !self && !ties)
  {
    k + Flag(self) + Flag(ties)
  }

  /** As written, base_setup marks a queue full from the start when its capacity is zero. */
  function StartsFull(k: nat, self: bool, ties: bool): (r: bool)
    ensures r <==> k == 0 && !self && !ties
  {
    CheckK(k, self, ties) == 0
  }

  /** The pairs report() lists before trimming: everything, less self when the queue looks for it. */
  function Reported(s: seq<Pair>, self: bool, selfDex: int): (r: seq<Pair>)
    requires s != []
  {
    if self then Queue.WithoutSelf(s, selfDex) else s
  }

  /** With tie detection on, the extra neighbour at the end is dropped once there are more than `n`. */
  function Trim<T>(v: seq<T>, ties: bool, n: nat): (r: seq<T>)
    ensures r == v || (ties && |v| > n && r == v[..|v| - 1])
    ensures ties ==> |r| <= n || |r| == |v| - 1
  {
    if ties && |v| > n then v[..|v| - 1] else v
  }

  /** Some distance is no smaller than the one after it. */
  predicate HasTies(ds: seq<real>) {
    exists d :: 1 <= d < |ds| && ds[d - 1] >= ds[d]
  }

  /** The tie scan of report(): stops at the first distance not smaller than its successor. */
  method ScanForTies(ds: seq<real>) returns (hasTies: bool)
    ensures hasTies <==> HasTies(ds)
  {
    hasTies := false;
    var d := 1;
    while d < |ds|
      invariant 1 <= d
      invariant forall e :: 1 <= e < d && e < |ds| ==> ds[e - 1] < ds[e]
    {
      if ds[d - 1] >= ds[d] {
        hasTies := true;
        break;
      }
      d := d + 1;
    }
  }

  /** In a sorted sequence, a distance no smaller than the next one equals it. */
  lemma TieAt(w: seq<Pair>, d: int)
    requires Sorted(w) && 1 <= d < |w| && w[d - 1].dist >= w[d].dist
    ensures w[d - 1].dist == w[d].dist
  {
    assert Le(w[d - 1], w[d]);
  }

  /** Where every out-of-order neighbour ties with its successor, the tie scan finds exactly the equal distances. */
  lemma TiesOfAdjacent(w: seq<Pair>)
    requires forall d :: 1 <= d < |w| && w[d - 1].dist >= w[d].dist ==> w[d - 1].dist == w[d].dist
    ensures HasTies(Distances(w)) <==> exists d :: 1 <= d < |w| && w[d - 1].dist == w[d].dist
  {
    var ds := Distances(w);
    if exists d :: 1 <= d < |w| && w[d - 1].dist == w[d].dist {
      var d :| 1 <= d < |w| && w[d - 1].dist == w[d].dist;
      assert ds[d - 1] >= ds[d];
    }
  }

  /** On distances reported in ascending order, a tie is two neighbours at exactly the same distance. */
  lemma TiesAreEqualDistances(w: seq<Pair>)
    requires Sorted(w)
    ensures HasTies(Distances(w)) <==> exists d :: 1 <= d < |w| && w[d - 1].dist == w[d].dist
  {
    forall d | 1 <= d < |w| && w[d - 1].dist >= w[d].dist ensures w[d - 1].dist == w[d].dist {
      TieAt(w, d);
    }
    TiesOfAdjacent(w);
  }

  /**
   * The heap after add(): a queue that is not full takes every candidate;
   * a full one takes it, dropping its furthest, only when it is strictly
   * closer than that furthest one.
   */
  ghost function Offered(s: seq<Pair>, full: bool, p: Pair): seq<Pair> {
    if !full then Insert(s, p)
    else if s != [] && p.dist < s[|s| - 1].dist then Insert(s, p)[..|s|]
    else s
  }

  /**
   * Offered one at a time in increasing index order, candidates leave the
   * queue holding exactly the k smallest pairs: a candidate refused at a
   * tie has a larger index than the furthest pair kept, so it is the
   * greater pair.
   */
  lemma OfferedInOrder(s: seq<Pair>, t: multiset<Pair>, k: nat, full: bool, p: Pair)
    requires IsKSmallest(s, t, k) && (full <==> |s| == k)
    requires forall b :: b in t ==> b.index < p.index
    ensures IsKSmallest(Offered(s, full, p), t + multiset{p}, k)
  {
    if !full {
      KSmallestPush(s, t, k, p);
    } else if s != [] && p.dist < s[|s| - 1].dist {
      KSmallestPushPop(s, t, k, p);
    } else if s != [] {
      var last := s[|s| - 1];
      assert last in multiset(s);
      assert Lt(last, p);
      assert t + multiset{p} - multiset(s) == (t - multiset(s)) + multiset{p};
      forall a, b | a in s && b in t + multiset{p} - multiset(s) ensures Le(a, b) {
        if b == p {
          SortedLastIsGreatest(s, a);
          LeTrans(a, last, p);
        }
      }
    }
  }

  /** A full queue refuses a candidate no closer than its furthest member, even at equal distance. */
  lemma OfferedRejectsTies(s: seq<Pair>, k: nat, p: Pair)
    requires s != [] && s[|s| - 1].dist <= p.dist
    ensures Offered(s, true, p) == s
  {
  }

  /** A full queue takes a strictly closer candidate and drops exactly its furthest member. */
  lemma OfferedDisplacesFurthest(s: seq<Pair>, k: nat, p: Pair)
    requires Sorted(s) && |s| == k > 0 && p.dist < s[k - 1].dist
    ensures |Offered(s, true, p)| == k
    ensures multiset(Offered(s, true, p)) == multiset(s) - multiset{s[k - 1]} + multiset{p}
  {
    var r := Insert(s, p);
    InsertCloserKeepsLast(s, p);
    assert r == r[..k] + [r[k]];
    assert multiset(r) == multiset(r[..k]) + multiset{s[k - 1]};
    assert multiset(r[..k]) == multiset(s) + multiset{p} - multiset{s[k - 1]};
    assert s[k - 1] in multiset(s);
  }

  /** A full queue's furthest distance never grows, whatever is offered. */
  predicate NoFurtherLimit(s': seq<Pair>, s: seq<Pair>) {
    s != [] ==> |s'| == |s| && s'[|s| - 1].dist <= s[|s| - 1].dist
  }

  lemma OfferedTighter(s: seq<Pair>, s': seq<Pair>, p: Pair)
    requires Sorted(s) && s' == Offered(s, true, p)
    ensures NoFurtherLimit(s', s)
  {
    var k := |s|;
    if s != [] && p.dist < s[k - 1].dist {
      var r := Insert(s, p);
      InsertCloserKeepsLast(s, p);
      InsertSorted(s, p);
      assert Le(r[k - 1], r[k]);
    }
  }

  /** add() keeps the queue's characterisation: the result is a k-nearest selection, full exactly at capacity. */
  lemma OfferedKeepsNearest(s: seq<Pair>, t: multiset<Pair>, k: nat, full: bool, p: Pair)
    requires IsKNearest(s, t, k) && (full <==> |s| == k)
    ensures IsKNearest(Offered(s, full, p), t + multiset{p}, k)
    ensures |Offered(s, full, p)| == k <==> full || |s| + 1 == k
  {
    if !full {
      KNearestPush(s, t, k, p);
    } else if s != [] && p.dist < s[|s| - 1].dist {
      KNearestPushPop(s, t, k, p);
    } else if s != [] {
      KNearestReject(s, t, k, p);
    } else {
      assert t + multiset{p} - multiset(s) == t + multiset{p};
    }
  }

  /**
   * The state of report()'s draining loop once the top `|s| - n` pairs of
   * `s` have been popped: `acc` holds the popped pairs but the skipped
   * self-match at `j`, and the outputs list them when requested.
   */
  ghost predicate Draining(s: seq<Pair>, n: nat, self: bool, selfDex: int, j: int, foundSelf: bool, acc: seq<Pair>,
                           reportIndices: bool, ids: seq<int>, wantDist: bool, ds: seq<real>)
  {
    && n <= |s|
    && j == (if self then Queue.LastPosOf(s, selfDex) else -1)
    && (foundSelf <==> !self || j >= n)
    && acc == Queue.Popped(s, n, j)
    && ids == (if reportIndices then Indices(acc) else [])
    && ds == (if wantDist then Distances(acc) else [])
  }

  /** Popping the self-match, the first time it comes up, only records that it was found. */
  lemma DrainSkip(s: seq<Pair>, n: nat, self: bool, selfDex: int, j: int, acc: seq<Pair>,
                  reportIndices: bool, ids: seq<int>, wantDist: bool, ds: seq<real>)
    requires Draining(s, n, self, selfDex, j, false, acc, reportIndices, ids, wantDist, ds)
    requires 0 < n && s[n - 1].index == selfDex
    ensures Draining(s, n - 1, self, selfDex, j, true, acc, reportIndices, ids, wantDist, ds)
  {
    assert j == n - 1;
  }

  /** Popping any other pair appends it to what was popped and to the requested outputs. */
  lemma DrainKeep(s: seq<Pair>, n: nat, self: bool, selfDex: int, j: int, foundSelf: bool, acc: seq<Pair>,
                  reportIndices: bool, ids: seq<int>, wantDist: bool, ds: seq<real>)
    requires Draining(s, n, self, selfDex, j, foundSelf, acc, reportIndices, ids, wantDist, ds)
    requires 0 < n && (foundSelf || s[n - 1].index != selfDex)
    ensures var top := s[n - 1];
      Draining(s, n - 1, self, selfDex, j, foundSelf, acc + [top], reportIndices,
               if reportIndices then ids + [top.index] else ids, wantDist, if wantDist then ds + [top.dist] else ds)
  {
    assert j != n - 1;
    assert Indices(acc + [s[n - 1]]) == Indices(acc) + [s[n - 1].index];
    assert Distances(acc + [s[n - 1]]) == Distances(acc) + [s[n - 1].dist];
  }

  /** The popped outputs in ascending order, less the furthest entry when requested. */
  function Arranged<T>(popped: seq<T>, dropLast: bool): seq<T> {
    if dropLast && popped != [] then Reverse(popped)[..|popped| - 1] else Reverse(popped)
  }

  /** The reversal and the trimming of report(): `Arranged`, done in place. */
  method Arrange<T>(popped: seq<T>, dropLast: bool) returns (r: seq<T>)
    ensures r == Arranged(popped, dropLast)
  {
    r := popped;
    if r != [] {
      r := Reverse(r);
    }
    if dropLast && r != [] {
      r := r[..|r| - 1];
    }
  }

  /** Arranged, what the draining loop pops lists the reported pairs. */
  lemma ArrangedIsReported(s: seq<Pair>, self: bool, selfDex: int, foundSelf: bool)
    requires s != []
    requires foundSelf <==> !self || Queue.LastPosOf(s, selfDex) >= 0
    ensures var p := Queue.Popped(s, 0, if self then Queue.LastPosOf(s, selfDex) else -1);
      && Arranged(Indices(p), self && !foundSelf) == Indices(Reported(s, self, selfDex))
      && Arranged(Distances(p), self && !foundSelf) == Distances(Reported(s, self, selfDex))
  {
    if self {
      Queue.PoppedWithoutSelf(s, selfDex);
    } else {
      Queue.PoppedAll(s);
    }
  }

  class NeighborQueue {
    var ties: bool
    var self: bool
    var selfDex: int
    var nNeighbors: nat
    var checkK: nat
    var full: bool
    var nearest: seq<Pair>
    /** Every candidate added since construction. */
    ghost var added: multiset<Pair>

    /**
     * The queue holds, in ascending order, `checkK` nearest of the
     * candidates added so far, and it is full exactly when it holds
     * `checkK` of them.
     */
    ghost predicate Valid()
      reads this
    {
      && checkK == CheckK(nNeighbors, self, ties)
      && IsKNearest(nearest, added, checkK)
      && (full <==> |nearest| == checkK)
    }

    /** A queue for a query point: no self-match to remove. */
    constructor (k: nat, t: bool)
      ensures Valid() && nearest == [] && added == multiset{}
      ensures ties == t && !self && selfDex == 0 && nNeighbors == k && checkK == k + Flag(t)
      ensures full <==> StartsFull(k, false, t)
    {
      ties := t;
      self := false;
      selfDex := 0;
      nearest := [];
      added := multiset{};
      nNeighbors := k;
      checkK := CheckK(k, false, t);
      full := CheckK(k, false, t) == 0;
    }

    /** A queue for observation `s`, which is expected among its own neighbours. */
    constructor WithSelf(s: int, k: nat, t: bool)
      ensures Valid() && nearest == [] && added == multiset{}
      ensures ties == t && self && selfDex == s && nNeighbors == k && checkK == k + 1 + Flag(t)
      ensures !full
    {
      ties := t;
      self := true;
      selfDex := s;
      nearest := [];
      added := multiset{};
      nNeighbors := k;
      checkK := CheckK(k, true, t);
      full := CheckK(k, true, t) == 0;
    }

    function IsFull(): (r: bool)
      reads this
      requires Valid()
      ensures r <==> |added| >= checkK
    {
      full
    }

    /** The distance of the furthest candidate held; no dropped candidate is closer once full. */
    function Limit(): (r: real)
      reads this
      requires Valid() && nearest != []
      ensures forall i :: 0 <= i < |nearest| ==> nearest[i].dist <= r
      ensures r == nearest[|nearest| - 1].dist
    {
      SortedAtMostLast(nearest);
      nearest[|nearest| - 1].dist
    }

    /**
     * Offers a candidate. A full queue of zero capacity has no top to
     * compare with and ignores it.
     */
    method Add(i: int, d: real)
      requires Valid()
      modifies this`nearest, this`full, this`added
      ensures Valid() && added == old(added) + multiset{Pair(d, i)}
      ensures nearest == Offered(old(nearest), old(full), Pair(d, i))
      ensures old(full) ==> full
      ensures old(full) ==> NoFurtherLimit(nearest, old(nearest))
    {
      var p := Pair(d, i);
      ghost var t := added + multiset{p};
      if !full {
        Push(p, added);
      } else {
        PushPop(p, added);
      }
      added := t;
    }

    /** add() on a queue that is not full yet: the candidate goes in, and the queue may become full. */
    method Push(p: Pair, ghost t: multiset<Pair>)
      requires IsKNearest(nearest, t, checkK) && !full && |nearest| != checkK
      modifies this`nearest, this`full
      ensures IsKNearest(nearest, t + multiset{p}, checkK) && (full <==> |nearest| == checkK)
      ensures nearest == Offered(old(nearest), false, p)
    {
      OfferedKeepsNearest(nearest, t, checkK, false, p);
      nearest := Insert(nearest, p);
      if |nearest| == checkK {
        full := true;
      }
    }

    /** add() on a full queue: only a candidate strictly closer than the furthest one displaces it. */
    method PushPop(p: Pair, ghost t: multiset<Pair>)
      requires IsKNearest(nearest, t, checkK) && |nearest| == checkK
      modifies this`nearest
      ensures IsKNearest(nearest, t + multiset{p}, checkK) && |nearest| == checkK
      ensures nearest == Offered(old(nearest), true, p)
      ensures NoFurtherLimit(nearest, old(nearest))
    {
      OfferedKeepsNearest(nearest, t, checkK, true, p);
      OfferedTighter(nearest, Offered(nearest, true, p), p);
      if nearest != [] && p.dist < nearest[|nearest| - 1].dist {
        nearest := Insert(nearest, p);
        nearest := nearest[..|nearest| - 1];
      }
    }

    /**
     * The draining loop of report(): pairs in descending order, skipping
     * the first one with index `selfDex` when self-matches are removed;
     * distances are collected for tie detection too.
     */
    method Drain(reportIndices: bool, reportDistances: bool)
      returns (ids: seq<int>, ds: seq<real>, foundSelf: bool)
      modifies this`nearest
      ensures nearest == []
      ensures var j := if self then Queue.LastPosOf(old(nearest), selfDex) else -1;
        && (foundSelf <==> !self || j >= 0)
        && ids == (if reportIndices then Indices(Queue.Popped(old(nearest), 0, j)) else [])
        && ds == (if reportDistances || ties then Distances(Queue.Popped(old(nearest), 0, j)) else [])
    {
      var heap := nearest;
      ghost var s := heap;
      ghost var j := if self then Queue.LastPosOf(s, selfDex) else -1;
      ghost var acc: seq<Pair> := [];
      var wantDist := reportDistances || ties;
      ids, ds := [], [];
      foundSelf := !self;
      while heap != []
        modifies {}
        invariant |heap| <= |s| && heap == s[..|heap|]
        invariant Draining(s, |heap|, self, selfDex, j, foundSelf, acc, reportIndices, ids, wantDist, ds)
        decreases |heap|
      {
        var n := |heap|;
        var top := heap[n - 1];
        PrefixPop(s, n);
        if !foundSelf && top.index == selfDex {
          DrainSkip(s, n, self, selfDex, j, acc, reportIndices, ids, wantDist, ds);
          foundSelf := true;
        } else {
          DrainKeep(s, n, self, selfDex, j, foundSelf, acc, reportIndices, ids, wantDist, ds);
          if reportIndices {
            ids := ids + [top.index];
          }
          if wantDist {
            ds := ds + [top.dist];
          }
          acc := acc + [top];
        }
        heap := heap[..n - 1];
      }
      nearest := heap;
    }

    /**
     * Empties the queue into the outputs in ascending order, without the
     * self-match, and reports whether two of the listed neighbours tie.
     */
    method Report(reportIndices: bool, reportDistances: bool)
      returns (indices: seq<int>, distances: seq<real>, hasTies: bool)
      modifies this`nearest
      ensures nearest == []
      ensures old(nearest) == [] ==> indices == [] && distances == [] && !hasTies
      ensures old(nearest) != [] ==>
        var w := Reported(old(nearest), self, selfDex);
        && indices == Trim(if reportIndices then Indices(w) else [], ties, nNeighbors)
        && distances == Trim(if reportDistances || ties then Distances(w) else [], ties, nNeighbors)
        && hasTies == (ties && HasTies(Distances(w)))
      ensures !ties && old(nearest) != [] ==>
        var w := Reported(old(nearest), self, selfDex);
        && indices == (if reportIndices then Indices(w) else [])
        && distances == (if reportDistances then Distances(w) else [])
    {
      hasTies := false;
      indices, distances := [], [];
      if nearest == [] {
        return;
      }
      ghost var s := nearest;
      ghost var w := Reported(s, self, selfDex);
      var foundSelf;
      indices, distances, foundSelf := Drain(reportIndices, reportDistances);
      ArrangedIsReported(s, self, selfDex, foundSelf);
      indices := Arrange(indices, self && !foundSelf);
      distances := Arrange(distances, self && !foundSelf);
      assert indices == (if reportIndices then Indices(w) else []);
      assert distances == (if reportDistances || ties then Distances(w) else []);
      indices, distances, hasTies := TrimTies(indices, distances);
    }

    /**
     * The tail of report() with tie detection on: scan the listed distances
     * for ties, then drop the extra neighbour if there is one.
     */
    method TrimTies(indices: seq<int>, distances: seq<real>) returns (indices': seq<int>, distances': seq<real>, hasTies: bool)
      ensures indices' == Trim(indices, ties, nNeighbors) && distances' == Trim(distances, ties, nNeighbors)
      ensures hasTies == (ties && HasTies(distances))
    {
      indices', distances', hasTies := indices, distances, false;
      if ties {
        hasTies := ScanForTies(distances);
        if |indices'| > nNeighbors {
          indices' := indices'[..|indices'| - 1];
        }
        if |distances'| > nNeighbors {
          distances' := distances'[..|distances'| - 1];
        }
      }
    }
  }

  /** What a valid queue reports is sorted and at most the requested number of neighbours long. */
  lemma ReportedFits(s: seq<Pair>, t: multiset<Pair>, k: nat, self: bool, selfDex: int, ties: bool)
    requires IsKNearest(s, t, CheckK(k, self, ties)) && s != []
    ensures Sorted(Reported(s, self, selfDex))
    ensures |Trim(Indices(Reported(s, self, selfDex)), ties, k)| <= k
  {
    var w := Reported(s, self, selfDex);
    if self {
      Queue.WithoutSelfDropsOne(s, selfDex);
      Queue.WithoutSelfSorted(s, selfDex);
    }
  }

  /**
   * Dropping the self pair from any selection of k nearest lists the
   * distances after the first: the self distance is the least of all, so
   * the self pair, or the furthest pair when self was crowded out by ties,
   * goes with one copy of that least distance.
   */
  lemma WithoutSelfDistances(s: seq<Pair>, t: multiset<Pair>, k: nat, i: int, z: real)
    requires IsKNearest(s, t, k) && s != []
    requires Pair(z, i) in t
    requires forall b :: b in t ==> z <= b.dist
    requires forall b :: b in t && b.index == i ==> b.dist == z
    ensures Distances(Queue.WithoutSelf(s, i)) == Distances(s)[1..]
  {
    var j := Queue.LastPosOf(s, i);
    if j >= 0 {
      assert s[j] in multiset(s);
      forall l | 0 <= l <= j ensures s[l].dist == z {
        assert s[l] in multiset(s);
        if l < j {
          assert Le(s[l], s[j]);
        }
      }
      DropAtSameDistances(s, j, z);
    } else {
      var n := |s|;
      assert Pair(z, i) in t - multiset(s) by {
        assert Pair(z, i) !in multiset(s);
      }
      forall l | 0 <= l < n ensures s[l].dist == z {
        assert s[l] in multiset(s);
        SortedLastIsGreatest(s, s[l]);
      }
      DropAtSameDistances(s, n - 1, z);
      assert s[..n - 1] + s[n..] == s[..n - 1];
    }
  }

  /** Removing one of a run of equal leading distances lists the distances after the first. */
  lemma DropAtSameDistances(s: seq<Pair>, j: nat, z: real)
    requires j < |s| && forall l :: 0 <= l <= j ==> s[l].dist == z
    ensures Distances(s[..j] + s[j + 1..]) == Distances(s)[1..]
  {
    var r := s[..j] + s[j + 1..];
    forall l | 0 <= l < |r| ensures Distances(r)[l] == Distances(s)[1..][l] {
      if l < j {
        assert r[l] == s[l];
      } else {
        assert r[l] == s[l + 1];
      }
    }
  }
}
