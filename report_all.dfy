/**
 * Formatting the result of a range search (`Searcher::search_all`): the
 * collected (distance, index) pairs are sorted, the observation being
 * searched is filtered out when it was found as its own neighbour, and the
 * indices and distances go to whichever of the two outputs were requested.
 */
module ReportAll {
  import opened Wrappers
  import opened Pairs

  /** Number of range neighbours once the observation itself is removed from `count` hits. */
  function CountWithoutSelf(count: nat): (r: nat)
    ensures count > 0 ==> r + 1 == count
    ensures count == 0 ==> r == 0
  {
    if count > 0 then count - 1 else 0
  }

  /** The pairs of `s` whose index is not `self`, in their original order. */
  function WithoutIndex(s: seq<Pair>, self: int): (r: seq<Pair>)
    ensures |r| <= |s|
  {
    if s == [] then []
    else if s[|s| - 1].index == self then WithoutIndex(s[..|s| - 1], self)
    else WithoutIndex(s[..|s| - 1], self) + [s[|s| - 1]]
  }

  /** The filtered pairs are those of `s` with another index. */
  lemma {:induction false} WithoutIndexMembers(s: seq<Pair>, self: int)
    ensures forall x :: x in WithoutIndex(s, self) <==> x in s && x.index != self
  {
    if s != [] {
      var init := s[..|s| - 1];
      WithoutIndexMembers(init, self);
      assert s == init + [s[|s| - 1]];
    }
  }

  /** Filtering keeps a sorted sequence sorted. */
  lemma {:induction false} WithoutIndexSorted(s: seq<Pair>, self: int)
    requires Sorted(s)
    ensures Sorted(WithoutIndex(s, self))
  {
    if s != [] {
      var init := s[..|s| - 1];
      var x := s[|s| - 1];
      assert Sorted(init);
      WithoutIndexSorted(init, self);
      if x.index != self {
        var w := WithoutIndex(init, self);
        WithoutIndexMembers(init, self);
        forall i | 0 <= i < |w| ensures Le(w[i], x) {
          assert w[i] in init;
        }
      }
    }
  }

  /** Without `self` among the pairs, nothing is filtered. */
  lemma {:induction false} WithoutIndexAbsent(s: seq<Pair>, self: int)
    requires forall j :: 0 <= j < |s| ==> s[j].index != self
    ensures WithoutIndex(s, self) == s
  {
    if s != [] {
      WithoutIndexAbsent(s[..|s| - 1], self);
      assert s[..|s| - 1] + [s[|s| - 1]] == s;
    }
  }

  /**
   * With `self` at exactly one position, exactly that pair is removed, and
   * the output holds `CountWithoutSelf` of the hits.
   */
  lemma {:induction false} WithoutIndexDropsOne(s: seq<Pair>, self: int, j: nat)
    requires j < |s| && s[j].index == self
    requires forall i :: 0 <= i < |s| && i != j ==> s[i].index != self
    ensures WithoutIndex(s, self) == s[..j] + s[j + 1..]
    ensures |WithoutIndex(s, self)| == CountWithoutSelf(|s|)
  {
    var n := |s|;
    if j == n - 1 {
      WithoutIndexAbsent(s[..n - 1], self);
    } else {
      WithoutIndexDropsOne(s[..n - 1], self, j);
      assert s[..n - 1][..j] == s[..j];
      assert s[..j] + s[j + 1..n - 1] + [s[n - 1]] == s[..j] + s[j + 1..];
    }
  }

  /** Filtering one more pair appends it to the outputs unless its index is `self`. */
  lemma FilterStep(s: seq<Pair>, j: nat, self: int)
    requires j < |s|
    ensures var w := WithoutIndex(s[..j], self);
      && WithoutIndex(s[..j + 1], self) == (if s[j].index == self then w else w + [s[j]])
      && Indices(w + [s[j]]) == Indices(w) + [s[j].index]
      && Distances(w + [s[j]]) == Distances(w) + [s[j].dist]
  {
    assert s[..j + 1][..j] == s[..j];
  }

  /**
   * The loop of `report_all_neighbors_raw` with `self`: the pairs are sorted
   * and every pair whose index is not `self` is appended, in order, to the
   * requested outputs, which start out cleared.
   */
  method ReportAllRawSelf(allNeighbors: seq<Pair>, doIndices: bool, doDistances: bool, self: int)
    returns (sorted: seq<Pair>, indices: seq<int>, distances: seq<real>)
    ensures Sorted(sorted) && multiset(sorted) == multiset(allNeighbors)
    ensures doIndices ==> indices == Indices(WithoutIndex(sorted, self))
    ensures doDistances ==> distances == Distances(WithoutIndex(sorted, self))
  {
    sorted := Sort(allNeighbors);
    indices := [];
    distances := [];
    ghost var kept: seq<Pair> := [];
    for j := 0 to |sorted|
      invariant kept == WithoutIndex(sorted[..j], self)
      invariant doIndices ==> indices == Indices(kept)
      invariant doDistances ==> distances == Distances(kept)
    {
      var an := sorted[j];
      FilterStep(sorted, j, self);
      if an.index != self {
        if doIndices {
          indices := indices + [an.index];
        }
        if doDistances {
          distances := distances + [an.dist];
        }
        kept := kept + [an];
      }
    }
    assert sorted[..|sorted|] == sorted;
  }

  /** The loop of `report_all_neighbors_raw` without `self`: every sorted pair is reported. */
  method ReportAllRaw(allNeighbors: seq<Pair>, doIndices: bool, doDistances: bool)
    returns (sorted: seq<Pair>, indices: seq<int>, distances: seq<real>)
    ensures Sorted(sorted) && multiset(sorted) == multiset(allNeighbors)
    ensures doIndices ==> indices == Indices(sorted)
    ensures doDistances ==> distances == Distances(sorted)
    ensures doIndices && doDistances ==> |indices| == |distances| == |allNeighbors|
  {
    sorted := Sort(allNeighbors);
    indices := [];
    distances := [];
    for j := 0 to |sorted|
      invariant doIndices ==> indices == Indices(sorted[..j])
      invariant doDistances ==> distances == Distances(sorted[..j])
    {
      var an := sorted[j];
      if doIndices {
        indices := indices + [an.index];
      }
      if doDistances {
        distances := distances + [an.dist];
      }
    }
  }

  /**
   * `report_all_neighbors` with `self`: sorts and reports only when at least
   * one output is requested; a missing output stays missing.
   */
  method ReportAllNeighborsSelf(allNeighbors: seq<Pair>, outIndices: Option<seq<int>>,
                                outDistances: Option<seq<real>>, self: int)
    returns (sorted: seq<Pair>, indices: Option<seq<int>>, distances: Option<seq<real>>)
    ensures outIndices.None? && outDistances.None? ==> sorted == allNeighbors
    ensures Sorted(sorted) || (outIndices.None? && outDistances.None?)
    ensures multiset(sorted) == multiset(allNeighbors)
    ensures indices == if outIndices.Some? then Some(Indices(WithoutIndex(sorted, self))) else None
    ensures distances == if outDistances.Some? then Some(Distances(WithoutIndex(sorted, self))) else None
  {
    sorted, indices, distances := allNeighbors, None, None;
    if outIndices.Some? || outDistances.Some? {
      var ids, ds;
      sorted, ids, ds := ReportAllRawSelf(allNeighbors, outIndices.Some?, outDistances.Some?, self);
      if outIndices.Some? {
        indices := Some(ids);
      }
      if outDistances.Some? {
        distances := Some(ds);
      }
    }
  }

  /** `report_all_neighbors` without `self`. */
  method ReportAllNeighbors(allNeighbors: seq<Pair>, outIndices: Option<seq<int>>, outDistances: Option<seq<real>>)
    returns (sorted: seq<Pair>, indices: Option<seq<int>>, distances: Option<seq<real>>)
    ensures outIndices.None? && outDistances.None? ==> sorted == allNeighbors
    ensures Sorted(sorted) || (outIndices.None? && outDistances.None?)
    ensures multiset(sorted) == multiset(allNeighbors)
    ensures indices == if outIndices.Some? then Some(Indices(sorted)) else None
    ensures distances == if outDistances.Some? then Some(Distances(sorted)) else None
  {
    sorted, indices, distances := allNeighbors, None, None;
    if outIndices.Some? || outDistances.Some? {
      var ids, ds;
      sorted, ids, ds := ReportAllRaw(allNeighbors, outIndices.Some?, outDistances.Some?);
      if outIndices.Some? {
        indices := Some(ids);
      }
      if outDistances.Some? {
        distances := Some(ds);
      }
    }
  }

  /**
   * What the `self` variant reports, in terms of the sorted hits: sorted,
   * free of `self`, one shorter than the hits when `self` was found once,
   * and the hits themselves when it was not found.
   */
  lemma ReportedWithoutSelf(sorted: seq<Pair>, self: int)
    requires Sorted(sorted) && DistinctIndices(sorted)
    ensures Sorted(WithoutIndex(sorted, self))
    ensures self !in Indices(WithoutIndex(sorted, self))
    ensures self in Indices(sorted) ==> |WithoutIndex(sorted, self)| == CountWithoutSelf(|sorted|)
    ensures self !in Indices(sorted) ==> WithoutIndex(sorted, self) == sorted
  {
    WithoutIndexSorted(sorted, self);
    var w := WithoutIndex(sorted, self);
    WithoutIndexMembers(sorted, self);
    forall i | 0 <= i < |w| ensures w[i].index != self {
      assert w[i] in w;
    }
    if self in Indices(sorted) {
      var j :| 0 <= j < |sorted| && sorted[j].index == self;
      WithoutIndexDropsOne(sorted, self, j);
    } else {
      forall j | 0 <= j < |sorted| ensures sorted[j].index != self {
        assert Indices(sorted)[j] == sorted[j].index;
      }
      WithoutIndexAbsent(sorted, self);
    }
  }
}
