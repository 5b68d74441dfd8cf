/**
 * The bookkeeping around the Annoy library in the older API (AnnoySearch in
 * Annoy/Annoy.hpp). Annoy does not know that a search by item should leave
 * the item out, so the wrapper asks for one neighbour more and then purges
 * the item itself from the answer. The Annoy index and its searches are a
 * foreign library: here they are function parameters that return the
 * indices and the distances Annoy appends to the (cleared) output vectors.
 */
module Annoy {
  import opened Wrappers
  import Permute

  /** The first position of `x` in `s`, or -1 when `x` does not occur. */
  function FirstPos(s: seq<int>, x: int): (r: int)
    ensures -1 <= r < |s|
    ensures r >= 0 ==> s[r] == x && forall j :: 0 <= j < r ==> s[j] != x
    ensures r < 0 ==> x !in s
  {
    FirstPosFrom(s, x, 0)
  }

  /** The first position of `x` in `s` at or after `i`, or -1. */
  function FirstPosFrom(s: seq<int>, x: int, i: nat): (r: int)
    requires i <= |s|
    ensures -1 <= r < |s|
    ensures r >= 0 ==> i <= r && s[r] == x && forall j :: i <= j < r ==> s[j] != x
    ensures r < 0 ==> forall j :: i <= j < |s| ==> s[j] != x
    decreases |s| - i
  {
    if i == |s| then -1
    else if s[i] == x then i
    else FirstPosFrom(s, x, i + 1)
  }

  /** `s` with position `pos` erased, or with its last element popped when `pos` is -1. */
  function Purged<T>(s: seq<T>, pos: int): seq<T>
    requires s != [] && -1 <= pos < |s|
  {
    if pos >= 0 then s[..pos] + s[pos + 1..] else s[..|s| - 1]
  }

  /**
   * `purge_self`: erases the first entry equal to `self` from the indices,
   * and the entry at the same position from the distances when they are
   * requested; when `self` is absent, pops the last entry of both instead.
   * Popping requires a non-empty vector, and the distances are aligned
   * with the indices.
   */
  method PurgeSelf(self: int, indices: seq<int>, distances: Option<seq<real>>)
    returns (ids: seq<int>, ds: Option<seq<real>>)
    requires indices != []
    requires distances.Some? ==> |distances.value| == |indices|
    ensures ids == Purged(indices, FirstPos(indices, self))
    ensures ds == if distances.Some? then Some(Purged(distances.value, FirstPos(indices, self))) else None
  {
    ghost var pos := FirstPos(indices, self);
    ids, ds := indices, distances;
    var selfFound := false;
    var idx := 0;
    while idx < |ids|
      invariant 0 <= idx <= |indices| && ids == indices && ds == distances && !selfFound
      invariant pos < 0 || idx <= pos
    {
      if ids[idx] == self {
        ids := ids[..idx] + ids[idx + 1..];
        if ds.Some? {
          ds := Some(ds.value[..idx] + ds.value[idx + 1..]);
        }
        selfFound := true;
        break;
      }
      idx := idx + 1;
    }
    if !selfFound {
      ids := ids[..|ids| - 1];
      if ds.Some? {
        ds := Some(ds.value[..|ds.value| - 1]);
      }
    }
  }

  /**
   * What purging leaves: one entry fewer, the rest in their original order;
   * `self` loses exactly one occurrence when present, and otherwise the
   * furthest entry is the one dropped.
   */
  lemma PurgedProperties(s: seq<int>, self: int)
    requires s != []
    ensures var r := Purged(s, FirstPos(s, self));
      && |r| == |s| - 1
      && (self in s ==> multiset(r) == multiset(s) - multiset{self})
      && (self !in s ==> r == s[..|s| - 1] && multiset(r) == multiset(s) - multiset{s[|s| - 1]})
  {
    var pos := FirstPos(s, self);
    if pos >= 0 {
      Permute.ErasedMultiset(s, pos);
    } else {
      Permute.ErasedMultiset(s, |s| - 1);
      assert s[|s|..] == [];
    }
  }

  /** Purging keeps the order of what remains: entries before the erased position stay, later ones move up by one. */
  lemma PurgedOrder<T>(s: seq<T>, pos: int)
    requires s != [] && -1 <= pos < |s|
    ensures var r := Purged(s, pos);
      forall j :: 0 <= j < |r| ==> r[j] == s[if pos < 0 || j < pos then j else j + 1]
  {
  }

  /** When `self` occurs exactly once, as for a search by item over distinct items, it is gone after purging. */
  lemma PurgedDropsSelf(s: seq<int>, self: int)
    requires s != [] && multiset(s)[self] == 1
    ensures self !in Purged(s, FirstPos(s, self))
  {
    PurgedProperties(s, self);
    var r := Purged(s, FirstPos(s, self));
    assert multiset(r)[self] == 0;
  }

  /**
   * `find_nearest_neighbors(index, k, ...)`: the outputs are cleared,
   * Annoy is asked for `k + 1` neighbours of item `index`, and `index` is
   * purged from them. A NULL index output is served by a temporary vector,
   * which still drives the purge of the distances.
   */
  method FindNearestNeighborsIndex(byItem: (int, int) -> (seq<int>, seq<real>), index: int, k: nat,
                                   wantIndices: bool, wantDistances: bool)
    returns (indices: Option<seq<int>>, distances: Option<seq<real>>)
    requires byItem(index, k + 1).0 != [] && |byItem(index, k + 1).1| == |byItem(index, k + 1).0|
    ensures var (ids, ds) := byItem(index, k + 1);
      var pos := FirstPos(ids, index);
      && indices == (if wantIndices then Some(Purged(ids, pos)) else None)
      && distances == (if wantDistances then Some(Purged(ds, pos)) else None)
  {
    var found := byItem(index, k + 1);
    var purgedIds, purgedDs := PurgeSelf(index, found.0, if wantDistances then Some(found.1) else None);
    indices := if wantIndices then Some(purgedIds) else None;
    distances := purgedDs;
  }

  /**
   * `find_nearest_neighbors(query, k, ...)`: the outputs are cleared and
   * Annoy's `k` neighbours of the query vector are returned as they are.
   */
  method FindNearestNeighborsQuery(byVector: (seq<real>, int) -> (seq<int>, seq<real>), query: seq<real>, k: nat,
                                   wantIndices: bool, wantDistances: bool)
    returns (indices: Option<seq<int>>, distances: Option<seq<real>>)
    ensures indices == (if wantIndices then Some(byVector(query, k).0) else None)
    ensures distances == (if wantDistances then Some(byVector(query, k).1) else None)
  {
    var found := byVector(query, k);
    indices := if wantIndices then Some(found.0) else None;
    distances := if wantDistances then Some(found.1) else None;
  }

  /** An index search returns one neighbour fewer than it asked Annoy for: exactly `k` when Annoy found `k + 1`. */
  lemma IndexSearchLength(byItem: (int, int) -> (seq<int>, seq<real>), index: int, k: nat)
    requires byItem(index, k + 1).0 != [] && |byItem(index, k + 1).1| == |byItem(index, k + 1).0|
    ensures var (ids, ds) := byItem(index, k + 1);
      |Purged(ids, FirstPos(ids, index))| == |Purged(ds, FirstPos(ids, index))| == |ids| - 1
  {
    var (ids, ds) := byItem(index, k + 1);
    PurgedProperties(ids, index);
  }
}
