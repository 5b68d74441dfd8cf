/**
 * The pruning argument behind the KMKNN neighbour search of `Kmknn.hpp`,
 * stated on values. The search offers the observations of each cluster to
 * a bounded neighbour queue, but passes over an observation when the
 * triangle inequality through the cluster's centre shows that it is
 * further from the target than the queue's current limit. `Dealt` is what
 * the search knows about the positions it has handled so far; once every
 * position is handled, the queue holds exactly the brute-force answer.
 */
module KmSearch {
  import opened Pairs
  import opened Metric
  import Permute
  import VpShape

  /**
   * `std::lower_bound`: the first position of `[lo, hi)` whose value is not
   * below `v`, or `hi` when there is none.
   */
  function LowerBound(d: seq<real>, lo: int, hi: int, v: real): (r: int)
    requires 0 <= lo <= hi <= |d|
    ensures lo <= r <= hi
    ensures forall p :: lo <= p < r ==> d[p] < v
    ensures r < hi ==> d[r] >= v
    decreases hi - lo
  {
    if lo == hi || d[lo] >= v then lo else LowerBound(d, lo + 1, hi, v)
  }

  /** The positions `[lo, hi)`. */
  function Span(lo: int, hi: int): (r: set<int>)
    ensures forall p :: p in r <==> lo <= p < hi
    decreases hi - lo
  {
    if lo >= hi then {} else {lo} + Span(lo + 1, hi)
  }

  /** Extending `[lo, hi)` by one position. */
  lemma SpanExtend(done: set<int>, lo: int, hi: int)
    requires lo <= hi
    ensures done + Span(lo, hi) + {hi} == done + Span(lo, hi + 1)
  {
    assert forall p :: p in Span(lo, hi + 1) <==> p in Span(lo, hi) + {hi};
  }

  /** How often candidate `x` may have been offered: once if it is the candidate of a handled position. */
  function Offered(cands: seq<Pair>, done: set<int>, x: Pair): nat {
    if 0 <= x.index < |cands| && x.index in done && x == cands[x.index] then 1 else 0
  }

  /**
   * After handling the positions in `done`: only their candidates were
   * offered, each at most once, and for a true metric each of them was
   * either offered or, with the queue full, lies beyond the threshold.
   */
  ghost predicate Dealt(m: Metric, cands: seq<Pair>, done: set<int>, added: multiset<Pair>, full: bool, thr: real) {
    && (forall x :: added[x] <= Offered(cands, done, x))
    && (IsMetric(m) ==> forall p :: p in done && 0 <= p < |cands| ==> cands[p] in added || (full && cands[p].dist > thr))
  }

  /** Nothing is handled before the search starts. */
  lemma DealtEmpty(m: Metric, cands: seq<Pair>, full: bool, thr: real)
    ensures Dealt(m, cands, {}, multiset{}, full, thr)
  {
  }

  /**
   * Offering the candidate of a position not handled yet; the queue's
   * threshold can only come down, and a full queue stays full.
   */
  lemma DealtAdd(m: Metric, cands: seq<Pair>, done: set<int>, added: multiset<Pair>, full: bool, thr: real,
                 p: int, full': bool, thr': real)
    requires forall x :: 0 <= x < |cands| ==> cands[x].index == x
    requires Dealt(m, cands, done, added, full, thr) && 0 <= p < |cands| && p !in done
    requires full ==> full' && thr' <= thr
    ensures Dealt(m, cands, done + {p}, added + multiset{cands[p]}, full', thr')
  {
    var done', added' := done + {p}, added + multiset{cands[p]};
    forall x ensures added'[x] <= Offered(cands, done', x) {
      if x == cands[p] {
        assert added[x] <= Offered(cands, done, x) == 0;
      } else {
        assert added[x] <= Offered(cands, done, x);
      }
    }
  }

  /** Passing over positions `[lo, hi)` whose candidates lie beyond the threshold of a full queue. */
  lemma DealtSkip(m: Metric, cands: seq<Pair>, done: set<int>, added: multiset<Pair>, full: bool, thr: real,
                  lo: int, hi: int)
    requires Dealt(m, cands, done, added, full, thr)
    requires IsMetric(m) ==> full && forall p :: lo <= p < hi && 0 <= p < |cands| ==> cands[p].dist > thr
    ensures Dealt(m, cands, done + Span(lo, hi), added, full, thr)
  {
    var done' := done + Span(lo, hi);
    forall x ensures added[x] <= Offered(cands, done', x) {
      assert added[x] <= Offered(cands, done, x);
    }
  }

  /**
   * The pruning test: when an observation is closer to its centre than the
   * target's distance to that centre less the (normalized) threshold, the
   * triangle inequality puts it beyond the threshold from the target.
   */
  lemma PruneCell(m: Metric, target: seq<real>, row: seq<real>, center: seq<real>, thr: real)
    requires IsMetric(m) && thr >= 0.0
    requires Dist(m, row, center) < Dist(m, target, center) - m.normalize(thr)
    ensures m.raw(target, row) > thr
  {
    TriangleAt(m, target, row, center);
    assert m.raw(target, row) >= 0.0;
    MonotoneLt(m, thr, m.raw(target, row));
  }

  /** Only candidates of handled positions were offered, each once. */
  lemma DealtWithin(m: Metric, cands: seq<Pair>, done: set<int>, added: multiset<Pair>, full: bool, thr: real)
    requires forall x :: 0 <= x < |cands| ==> cands[x].index == x
    requires Dealt(m, cands, done, added, full, thr)
    ensures added <= multiset(cands)
    ensures Permute.Distinct(cands)
  {
    assert Permute.Distinct(cands) by {
      forall i, j | 0 <= i < j < |cands| ensures cands[i] != cands[j] {
        assert cands[i].index != cands[j].index;
      }
    }
    forall x ensures added[x] <= multiset(cands)[x] {
      Permute.DistinctCount(cands, x);
      if Offered(cands, done, x) == 1 {
        assert x == cands[x.index];
      }
    }
  }

  /**
   * Once every position is handled, a queue that keeps the `k` smallest
   * of what it was offered, and whose threshold is its largest kept
   * distance when full, holds the `k` smallest candidates overall.
   */
  lemma DealtIsNearest(m: Metric, cands: seq<Pair>, done: set<int>, s: seq<Pair>, added: multiset<Pair>,
                       k: nat, full: bool, thr: real)
    requires IsMetric(m) && forall x :: 0 <= x < |cands| ==> cands[x].index == x
    requires IsKSmallest(s, added, k) && k > 0 && (full <==> |s| == k) && (full ==> thr == s[k - 1].dist)
    requires Dealt(m, cands, done, added, full, thr)
    requires forall p :: 0 <= p < |cands| ==> p in done
    ensures s == Sort(cands)[..Min(k, |cands|)]
  {
    DealtWithin(m, cands, done, added, full, thr);
    var rest := multiset(cands) - added;
    assert added + rest == multiset(cands);
    forall x | x in rest ensures |s| == k && s != [] && Lt(s[|s| - 1], x) {
      assert x in multiset(cands);
      var j :| 0 <= j < |cands| && cands[j] == x;
      Permute.DistinctCount(cands, x);
      assert x !in added;
      NotAddedIsFurther(m, cands, done, s, added, k, full, thr, j);
    }
    VpShape.KSmallestExtend(s, added, rest, k);
    KSmallestIsSortPrefix(s, cands, k);
  }

  /** A handled candidate that was not added lies beyond the threshold of a full queue, so after its furthest member. */
  lemma NotAddedIsFurther(m: Metric, cands: seq<Pair>, done: set<int>, s: seq<Pair>, added: multiset<Pair>,
                          k: nat, full: bool, thr: real, j: nat)
    requires IsMetric(m) && j < |cands| && j in done && cands[j] !in added
    requires Sorted(s) && k > 0 && (full <==> |s| == k) && (full ==> thr == s[k - 1].dist)
    requires Dealt(m, cands, done, added, full, thr)
    ensures |s| == k && s != [] && Lt(s[|s| - 1], cands[j])
  {
  }
}
