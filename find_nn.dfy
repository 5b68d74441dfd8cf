/**
 * The convenience drivers of `find_nearest_neighbors.hpp`: capping the number
 * of neighbours to what the dataset can supply, and collecting one search per
 * observation into a neighbour list. The searcher is whatever `Prebuilt`
 * index the caller passes; here it is a function from an observation and a
 * neighbour count to the indices and distances that `search` reports.
 * The observations are visited in order (the thread split is not modelled).
 */
module FindNN {
  import opened Pairs

  /** What `Searcher::search(i, k, &indices, &distances)` reports. */
  type Searcher = (int, nat) -> (seq<int>, seq<real>)

  /**
   * Neighbour count for a search by observation index: as many as asked
   * for, but never the whole dataset, because the observation itself is
   * not its own neighbour.
   */
  function CapK(k: nat, numObservations: nat): (r: nat)
    ensures r <= k
    ensures numObservations > 0 ==> r < numObservations
    ensures r == k || r + 1 == numObservations || (numObservations == 0 && r == 0)
  {
    if k < numObservations then k
    else if numObservations > 0 then numObservations - 1
    else 0
  }

  /** Neighbour count for a search by query vector: every observation may be a neighbour. */
  function CapKQuery(k: nat, numObservations: nat): (r: nat)
    ensures r <= k && r <= numObservations
    ensures r == k || r == numObservations
  {
    if k < numObservations then k else numObservations
  }

  /** The capped count is the largest the dataset supports: `min(k, n - 1)` for a non-empty dataset. */
  lemma CapKIsLargest(k: nat, n: nat, x: nat)
    requires n > 0 && x <= k && x < n
    ensures x <= CapK(k, n) == Min(k, n - 1)
  {
  }

  /** Pairs `(indices[j], distances[j])`, one per reported index. */
  function Zip(result: (seq<int>, seq<real>)): (r: seq<(int, real)>)
    requires |result.0| <= |result.1|
    ensures |r| == |result.0|
    ensures forall j :: 0 <= j < |r| ==> r[j] == (result.0[j], result.1[j])
  {
    seq(|result.0|, j requires 0 <= j < |result.0| => (result.0[j], result.1[j]))
  }

  function Firsts(list: seq<(int, real)>): (r: seq<int>)
    ensures |r| == |list| && forall j :: 0 <= j < |r| ==> r[j] == list[j].0
  {
    seq(|list|, j requires 0 <= j < |list| => list[j].0)
  }

  /** A searcher that reports aligned outputs for every observation with count `k`. */
  ghost predicate Aligned(search: Searcher, nobs: nat, k: nat) {
    forall i :: 0 <= i < nobs ==> |search(i, k).0| == |search(i, k).1|
  }

  /**
   * `find_nearest_neighbors`: entry `i` of the list pairs up the indices
   * and distances of a search for observation `i` with the capped `k`.
   */
  method FindNearestNeighbors(search: Searcher, nobs: nat, k: nat) returns (output: seq<seq<(int, real)>>)
    requires Aligned(search, nobs, CapK(k, nobs))
    ensures |output| == nobs
    ensures forall i :: 0 <= i < nobs ==> |output[i]| == |search(i, CapK(k, nobs)).0|
    ensures forall i :: 0 <= i < nobs ==> output[i] == Zip(search(i, CapK(k, nobs)))
  {
    var capped := CapK(k, nobs);
    output := [];
    for i := 0 to nobs
      invariant |output| == i
      invariant forall o :: 0 <= o < i ==> output[o] == Zip(search(o, capped))
    {
      var (indices, distances) := search(i, capped);
      var entry := [];
      for j := 0 to |indices|
        invariant entry == Zip((indices[..j], distances[..j]))
      {
        entry := entry + [(indices[j], distances[j])];
      }
      assert indices[..|indices|] == indices;
      assert entry == Zip((indices, distances));
      output := output + [entry];
    }
  }

  /** `find_nearest_neighbors_index_only`: entry `i` is the index output of the same search. */
  method FindNearestNeighborsIndexOnly(search: Searcher, nobs: nat, k: nat) returns (output: seq<seq<int>>)
    ensures |output| == nobs
    ensures forall i :: 0 <= i < nobs ==> output[i] == search(i, CapK(k, nobs)).0
  {
    var capped := CapK(k, nobs);
    output := [];
    for i := 0 to nobs
      invariant |output| == i
      invariant forall o :: 0 <= o < i ==> output[o] == search(o, capped).0
    {
      output := output + [search(i, capped).0];
    }
  }

  /** The index-only list is the first components of the full list. */
  lemma IndexOnlyIsFirsts(search: Searcher, nobs: nat, k: nat, full: seq<seq<(int, real)>>, indexOnly: seq<seq<int>>)
    requires Aligned(search, nobs, CapK(k, nobs))
    requires |full| == |indexOnly| == nobs
    requires forall i :: 0 <= i < nobs ==> full[i] == Zip(search(i, CapK(k, nobs)))
    requires forall i :: 0 <= i < nobs ==> indexOnly[i] == search(i, CapK(k, nobs)).0
    ensures forall i :: 0 <= i < nobs ==> Firsts(full[i]) == indexOnly[i]
  {
    forall i | 0 <= i < nobs ensures Firsts(full[i]) == indexOnly[i] {
      var r := search(i, CapK(k, nobs));
      assert |Firsts(full[i])| == |r.0|;
      forall j | 0 <= j < |r.0| ensures Firsts(full[i])[j] == r.0[j] {
        assert full[i][j] == (r.0[j], r.1[j]);
      }
    }
  }
}
