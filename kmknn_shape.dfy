/**
 * The bookkeeping behind the KMKNN index of `Kmknn.hpp`, stated on values:
 * which k-means clusters survive the removal of empty ones, the prefix sums
 * that give every surviving cluster its segment of the reordered store, and
 * the invariants of the bucketing and per-segment sorting that fill those
 * segments.
 */
module KmShape {
  import opened Pairs
  import opened Metric
  import Permute
  import VpShape

  /** The clusters with a non-zero size, in their original order. */
  function Survivors(sizes: seq<int>): (r: seq<int>)
    ensures |r| <= |sizes|
    ensures forall j :: 0 <= j < |r| ==> 0 <= r[j] < |sizes| && sizes[r[j]] != 0
  {
    if sizes == [] then []
    else
      var n := |sizes| - 1;
      Survivors(sizes[..n]) + (if sizes[n] != 0 then [n] else [])
  }

  /** Taking one more cluster into account appends it when it is not empty. */
  lemma SurvivorsStep(sizes: seq<int>, c: nat)
    requires c < |sizes|
    ensures Survivors(sizes[..c + 1]) == Survivors(sizes[..c]) + (if sizes[c] != 0 then [c] else [])
  {
    assert sizes[..c + 1][..c] == sizes[..c];
  }

  /** The survivors are increasing, and every non-empty cluster is among them. */
  lemma {:induction false} SurvivorsFacts(sizes: seq<int>)
    ensures forall i, j :: 0 <= i < j < |Survivors(sizes)| ==> Survivors(sizes)[i] < Survivors(sizes)[j]
    ensures forall c :: 0 <= c < |sizes| && sizes[c] != 0 ==> c in Survivors(sizes)
    ensures Permute.Distinct(Survivors(sizes))
    decreases |sizes|
  {
    if sizes != [] {
      var n := |sizes| - 1;
      SurvivorsFacts(sizes[..n]);
      assert forall c :: 0 <= c < n ==> sizes[..n][c] == sizes[c];
    }
  }

  /** With no empty cluster every cluster survives in its own slot. */
  lemma {:induction false} SurvivorsAll(sizes: seq<int>)
    requires |Survivors(sizes)| == |sizes|
    ensures Survivors(sizes) == Permute.Range(|sizes|)
    decreases |sizes|
  {
    if sizes != [] {
      var n := |sizes| - 1;
      assert |Survivors(sizes[..n])| <= n;
      SurvivorsAll(sizes[..n]);
    }
  }

  /**
   * The sizes left by the compaction loop: the surviving sizes first, and
   * the vector keeps its full length, padded with zeros.
   */
  function CompactedSizes(sizes: seq<int>): (r: seq<int>)
    ensures |r| == |sizes|
  {
    var s := Survivors(sizes);
    Permute.Pick(sizes, s) + seq(|sizes| - |s|, _ => 0)
  }

  /** The sum of a sequence of counts. */
  function Sum(s: seq<int>): int {
    if s == [] then 0 else Sum(s[..|s| - 1]) + s[|s| - 1]
  }

  lemma SumStep(s: seq<int>, c: nat)
    requires c < |s|
    ensures Sum(s[..c + 1]) == Sum(s[..c]) + s[c]
  {
    assert s[..c + 1][..c] == s[..c];
  }

  /** Longer prefixes of non-negative counts sum to more. */
  lemma {:induction false} SumMono(s: seq<int>, i: nat, j: nat)
    requires i <= j <= |s| && forall c :: 0 <= c < |s| ==> s[c] >= 0
    ensures Sum(s[..i]) <= Sum(s[..j])
    decreases j
  {
    if i < j {
      SumStep(s, j - 1);
      SumMono(s, i, j - 1);
    }
  }

  lemma {:induction false} SumZero(s: seq<int>)
    requires forall c :: 0 <= c < |s| ==> s[c] == 0
    ensures Sum(s) == 0
    decreases |s|
  {
    if s != [] {
      SumZero(s[..|s| - 1]);
    }
  }

  lemma {:induction false} SumUpdate(s: seq<int>, x: nat, v: int)
    requires x < |s|
    ensures Sum(s[x := v]) == Sum(s) - s[x] + v
    decreases |s|
  {
    var n := |s| - 1;
    if x == n {
      assert s[x := v][..n] == s[..n];
    } else {
      assert s[x := v][..n] == s[..n][x := v];
      SumUpdate(s[..n], x, v);
    }
  }

  /** Cluster sizes that count the assignments add up to the number of observations. */
  lemma {:induction false} SumOfCounts(labels: seq<int>, sizes: seq<int>)
    requires forall o :: 0 <= o < |labels| ==> 0 <= labels[o] < |sizes|
    requires forall c :: 0 <= c < |sizes| ==> sizes[c] == multiset(labels)[c]
    ensures Sum(sizes) == |labels|
    decreases |labels|
  {
    if labels == [] {
      SumZero(sizes);
    } else {
      var n := |labels| - 1;
      var x := labels[n];
      assert labels == labels[..n] + [x];
      var fewer := sizes[x := sizes[x] - 1];
      forall c | 0 <= c < |fewer| ensures fewer[c] == multiset(labels[..n])[c] {
      }
      SumOfCounts(labels[..n], fewer);
      SumUpdate(sizes, x, sizes[x] - 1);
    }
  }

  /**
   * Relabelling through an injective map of survivors: when the survivor
   * of every new label is the old label, each new label counts as many
   * observations as its survivor did.
   */
  lemma {:induction false} CountsThrough(labels: seq<int>, clusters: seq<int>, surv: seq<int>)
    requires |labels| == |clusters| && Permute.Distinct(surv)
    requires forall o :: 0 <= o < |labels| ==> 0 <= labels[o] < |surv| && surv[labels[o]] == clusters[o]
    ensures forall j :: 0 <= j < |surv| ==> multiset(labels)[j] == multiset(clusters)[surv[j]]
    decreases |labels|
  {
    if labels != [] {
      var n := |labels| - 1;
      assert labels == labels[..n] + [labels[n]];
      assert clusters == clusters[..n] + [clusters[n]];
      CountsThrough(labels[..n], clusters[..n], surv);
    }
  }

  /** Two maps that undo each other on `[0, n)` are permutations. */
  lemma InversePermutation(a: seq<int>, b: seq<int>)
    requires |a| == |b|
    requires forall i :: 0 <= i < |a| ==> 0 <= a[i] < |a| && 0 <= b[i] < |a|
    requires forall i :: 0 <= i < |a| ==> b[a[i]] == i && a[b[i]] == i
    ensures Permute.IsPermutation(a)
  {
    var n := |a|;
    var r := Permute.Range(n);
    assert Permute.Distinct(a) by {
      forall i, j | 0 <= i < j < n ensures a[i] != a[j] {
        assert b[a[i]] == i && b[a[j]] == j;
      }
    }
    assert Permute.Distinct(r);
    forall x ensures multiset(a)[x] == multiset(r)[x] {
      Permute.DistinctCount(a, x);
      Permute.DistinctCount(r, x);
      if 0 <= x < n {
        assert a[b[x]] == x && r[x] == x;
      }
    }
    assert multiset(a) == multiset(r);
  }

  /** Position `p` lies in the segment of cluster `c`. */
  predicate InSegment(offsets: seq<int>, sizes: seq<int>, c: int, p: int) {
    0 <= c < |sizes| && c < |offsets| && offsets[c] <= p < offsets[c] + sizes[c]
  }

  /**
   * The segments of the clusters, laid end to end from position 0, tile the
   * `n` positions of the store; a cluster may be empty.
   */
  predicate Tiled(offsets: seq<int>, sizes: seq<int>, n: int) {
    && |offsets| == |sizes|
    && (forall c :: 0 <= c < |sizes| ==> sizes[c] >= 0 && offsets[c] == Sum(sizes[..c]))
    && Sum(sizes) == n
  }

  lemma SegmentEnd(offsets: seq<int>, sizes: seq<int>, n: int, c: nat)
    requires Tiled(offsets, sizes, n) && c < |sizes|
    ensures 0 <= offsets[c] && offsets[c] + sizes[c] <= n
  {
    SumMono(sizes, 0, c);
    SumStep(sizes, c);
    SumMono(sizes, c + 1, |sizes|);
    assert sizes[..|sizes|] == sizes;
  }

  /** Earlier clusters have earlier segments. */
  lemma SegmentsOrdered(offsets: seq<int>, sizes: seq<int>, n: int, c1: nat, c2: nat)
    requires Tiled(offsets, sizes, n) && c1 < c2 < |sizes|
    ensures offsets[c1] + sizes[c1] <= offsets[c2]
  {
    SumStep(sizes, c1);
    SumMono(sizes, c1 + 1, c2);
  }

  /** Segments do not overlap. */
  lemma SegmentUnique(offsets: seq<int>, sizes: seq<int>, n: int, c1: int, c2: int, p: int)
    requires Tiled(offsets, sizes, n) && InSegment(offsets, sizes, c1, p) && InSegment(offsets, sizes, c2, p)
    ensures c1 == c2
  {
    if c1 < c2 {
      SegmentsOrdered(offsets, sizes, n, c1, c2);
    } else if c2 < c1 {
      SegmentsOrdered(offsets, sizes, n, c2, c1);
    }
  }

  /** Every position of the store lies in some segment. */
  lemma SegmentOf(offsets: seq<int>, sizes: seq<int>, n: int, p: int) returns (c: int)
    requires Tiled(offsets, sizes, n) && 0 <= p < n
    ensures InSegment(offsets, sizes, c, p)
  {
    assert sizes[..|sizes|] == sizes;
    c := SegmentBelow(offsets, sizes, n, |sizes|, p);
  }

  lemma {:induction false} SegmentBelow(offsets: seq<int>, sizes: seq<int>, n: int, k: nat, p: int) returns (c: int)
    requires Tiled(offsets, sizes, n) && k <= |sizes| && 0 <= p < Sum(sizes[..k])
    ensures c < k && InSegment(offsets, sizes, c, p)
    decreases k
  {
    assert sizes[..0] == [];
    SumStep(sizes, k - 1);
    if p >= Sum(sizes[..k - 1]) {
      c := k - 1;
    } else {
      c := SegmentBelow(offsets, sizes, n, k - 1, p);
    }
  }

  /** The entries of segment `c` are in ascending order. */
  ghost predicate SegmentSorted(bd: seq<Pair>, offsets: seq<int>, sizes: seq<int>, c: int)
    requires 0 <= c < |sizes| && c < |offsets|
  {
    forall p, q :: offsets[c] <= p < q < offsets[c] + sizes[c] ==> 0 <= p && q < |bd| && Le(bd[p], bd[q])
  }

  /** Values ascending on `[lo, hi)`. */
  predicate Ascending(d: seq<real>, lo: int, hi: int) {
    forall p, q :: lo <= p < q < hi ==> 0 <= p && q < |d| && d[p] <= d[q]
  }

  /**
   * Entry `e` at position `p` names an observation, sits in the segment of
   * that observation's cluster and carries its distance to the centre.
   */
  ghost predicate EntryOk(m: Metric, rows: seq<seq<real>>, centerRows: seq<seq<real>>, labels: seq<int>,
                          offsets: seq<int>, sizes: seq<int>, e: Pair, p: int) {
    && 0 <= e.index < |labels| && e.index < |rows| && 0 <= labels[e.index] < |centerRows|
    && InSegment(offsets, sizes, labels[e.index], p)
    && e.dist == Dist(m, rows[e.index], centerRows[labels[e.index]])
  }

  ghost predicate Placement(m: Metric, rows: seq<seq<real>>, centerRows: seq<seq<real>>, labels: seq<int>,
                            offsets: seq<int>, sizes: seq<int>, bd: seq<Pair>) {
    forall p :: 0 <= p < |bd| ==> EntryOk(m, rows, centerRows, labels, offsets, sizes, bd[p], p)
  }

  /** What bucketing has produced once every observation is placed. */
  ghost predicate Bucketed(m: Metric, rows: seq<seq<real>>, centerRows: seq<seq<real>>, labels: seq<int>,
                           offsets: seq<int>, sizes: seq<int>, bd: seq<Pair>) {
    && |bd| == |labels|
    && Placement(m, rows, centerRows, labels, offsets, sizes, bd)
    && Permute.IsPermutation(Indices(bd))
  }

  /** The distance entry bucketing writes for observation `o`. */
  ghost function Entry(m: Metric, rows: seq<seq<real>>, centerRows: seq<seq<real>>, labels: seq<int>, o: int): Pair
    requires 0 <= o < |labels| && o < |rows| && 0 <= labels[o] < |centerRows|
  {
    Pair(Dist(m, rows[o], centerRows[labels[o]]), o)
  }

  /** The k-means assignments: labels in range and sizes that count them. */
  predicate Counted(labels: seq<int>, sizes: seq<int>) {
    && (forall o :: 0 <= o < |labels| ==> 0 <= labels[o] < |sizes|)
    && (forall c :: 0 <= c < |sizes| ==> sizes[c] == multiset(labels)[c])
  }

  /** The cursor of each cluster after the first `o` observations: its offset plus how many of them it holds. */
  ghost predicate Cursors(labels: seq<int>, offsets: seq<int>, sizes: seq<int>, o: int, sofar: seq<int>)
    requires 0 <= o <= |labels| && |offsets| == |sizes|
  {
    && |sofar| == |sizes|
    && forall c :: 0 <= c < |sizes| ==> sofar[c] == offsets[c] + multiset(labels[..o])[c]
  }

  /**
   * Each of the first `o` observations has been written into its cluster's
   * segment, at `placed[x]`, below that cluster's cursor.
   */
  ghost predicate Placed(m: Metric, rows: seq<seq<real>>, centerRows: seq<seq<real>>, labels: seq<int>,
                         offsets: seq<int>, sizes: seq<int>, o: int, sofar: seq<int>, bd: seq<Pair>, placed: seq<int>)
    requires |rows| == |labels| && |centerRows| == |sizes| && Counted(labels, sizes)
    requires 0 <= o <= |labels| && |sofar| == |sizes|
  {
    && |placed| == o
    && forall x :: 0 <= x < o ==>
          && InSegment(offsets, sizes, labels[x], placed[x]) && placed[x] < sofar[labels[x]]
          && 0 <= placed[x] < |bd| && bd[placed[x]] == Entry(m, rows, centerRows, labels, x)
  }

  /** The bucketing loop after the first `o` observations. */
  ghost predicate Filling(m: Metric, rows: seq<seq<real>>, centerRows: seq<seq<real>>, labels: seq<int>,
                          offsets: seq<int>, sizes: seq<int>, o: int, sofar: seq<int>, bd: seq<Pair>, placed: seq<int>)
    requires |rows| == |labels| && |centerRows| == |sizes| && |offsets| == |sizes| && Counted(labels, sizes)
  {
    && 0 <= o <= |labels|
    && Cursors(labels, offsets, sizes, o, sofar)
    && Placed(m, rows, centerRows, labels, offsets, sizes, o, sofar, bd, placed)
  }

  /** One more observation of the first `o + 1` never outnumbers its cluster. */
  lemma PrefixCount(labels: seq<int>, o: nat)
    requires o < |labels|
    ensures multiset(labels[..o + 1]) == multiset(labels[..o]) + multiset{labels[o]}
    ensures multiset(labels[..o + 1]) <= multiset(labels)
  {
    assert labels[..o + 1] == labels[..o] + [labels[o]];
    assert labels == labels[..o + 1] + labels[o + 1..];
  }

  /** Advancing the cursor of observation `o`'s cluster counts that observation. */
  lemma CursorsStep(labels: seq<int>, offsets: seq<int>, sizes: seq<int>, o: int, sofar: seq<int>, c: int, pos: int)
    requires 0 <= o < |labels| && |offsets| == |sizes| && Cursors(labels, offsets, sizes, o, sofar)
    requires c == labels[o] && 0 <= c < |sizes| && pos == sofar[c]
    ensures Cursors(labels, offsets, sizes, o + 1, sofar[c := pos + 1])
  {
    PrefixCount(labels, o);
  }

  /** Writing observation `o` at its cluster's cursor keeps every earlier one in place. */
  lemma PlacedStep(m: Metric, rows: seq<seq<real>>, centerRows: seq<seq<real>>, labels: seq<int>,
                   offsets: seq<int>, sizes: seq<int>, o: int, sofar: seq<int>, bd: seq<Pair>, placed: seq<int>,
                   c: int, pos: int)
    requires |rows| == |labels| && |centerRows| == |sizes| && Counted(labels, sizes)
    requires Tiled(offsets, sizes, |labels|) && 0 <= o < |labels| && |sofar| == |sizes|
    requires Placed(m, rows, centerRows, labels, offsets, sizes, o, sofar, bd, placed)
    requires c == labels[o] && pos == sofar[c] && InSegment(offsets, sizes, c, pos) && 0 <= pos < |bd|
    ensures Placed(m, rows, centerRows, labels, offsets, sizes, o + 1, sofar[c := pos + 1],
                   bd[pos := Entry(m, rows, centerRows, labels, o)], placed + [pos])
  {
    var sofar', bd', placed' := sofar[c := pos + 1], bd[pos := Entry(m, rows, centerRows, labels, o)], placed + [pos];
    forall x | 0 <= x < o
      ensures InSegment(offsets, sizes, labels[x], placed'[x]) && placed'[x] < sofar'[labels[x]]
      ensures 0 <= placed'[x] < |bd'| && bd'[placed'[x]] == Entry(m, rows, centerRows, labels, x)
    {
      if labels[x] != c && placed[x] == pos {
        SegmentUnique(offsets, sizes, |labels|, labels[x], c, pos);
      }
    }
  }

  /** Bucketing observation `o` at its cluster's cursor keeps the loop's invariant. */
  lemma FillStep(m: Metric, rows: seq<seq<real>>, centerRows: seq<seq<real>>, labels: seq<int>,
                 offsets: seq<int>, sizes: seq<int>, o: int, sofar: seq<int>, bd: seq<Pair>, placed: seq<int>,
                 c: int, pos: int)
    requires |rows| == |labels| && |centerRows| == |sizes| && Counted(labels, sizes)
    requires Tiled(offsets, sizes, |labels|) && |bd| == |labels|
    requires Filling(m, rows, centerRows, labels, offsets, sizes, o, sofar, bd, placed) && o < |labels|
    requires c == labels[o] && pos == sofar[c] && InSegment(offsets, sizes, c, pos) && 0 <= pos < |bd|
    ensures Filling(m, rows, centerRows, labels, offsets, sizes, o + 1, sofar[c := pos + 1],
                 bd[pos := Entry(m, rows, centerRows, labels, o)], placed + [pos])
  {
    CursorsStep(labels, offsets, sizes, o, sofar, c, pos);
    PlacedStep(m, rows, centerRows, labels, offsets, sizes, o, sofar, bd, placed, c, pos);
  }

  /** The cursor of the cluster of observation `o` is still inside that cluster's segment. */
  lemma CursorInSegment(m: Metric, rows: seq<seq<real>>, centerRows: seq<seq<real>>, labels: seq<int>,
                        offsets: seq<int>, sizes: seq<int>, o: int, sofar: seq<int>, bd: seq<Pair>, placed: seq<int>)
    requires |rows| == |labels| && |centerRows| == |sizes| && Counted(labels, sizes)
    requires Tiled(offsets, sizes, |labels|) && |bd| == |labels|
    requires Filling(m, rows, centerRows, labels, offsets, sizes, o, sofar, bd, placed) && o < |labels|
    ensures InSegment(offsets, sizes, labels[o], sofar[labels[o]]) && 0 <= sofar[labels[o]] < |bd|
  {
    var c := labels[o];
    PrefixCount(labels, o);
    assert multiset(labels[..o + 1])[c] <= multiset(labels)[c];
    SegmentEnd(offsets, sizes, |labels|, c);
  }

  /** `n` distinct values in `[0, n)` are a permutation. */
  lemma DistinctInRange(a: seq<int>)
    requires Permute.Distinct(a) && forall i :: 0 <= i < |a| ==> 0 <= a[i] < |a|
    ensures Permute.IsPermutation(a)
  {
    var r := Permute.Range(|a|);
    assert Permute.Distinct(r);
    forall x ensures multiset(a)[x] <= multiset(r)[x] {
      Permute.DistinctCount(a, x);
      Permute.DistinctCount(r, x);
      if x in a {
        var i :| 0 <= i < |a| && a[i] == x;
        assert r[x] == x;
      }
    }
    assert multiset(a) <= multiset(r);
    var rest := multiset(r) - multiset(a);
    assert multiset(r) == multiset(a) + rest;
    assert |rest| == 0;
  }

  /** Once every observation is bucketed, the positions they were written to are a permutation. */
  lemma FillPositions(m: Metric, rows: seq<seq<real>>, centerRows: seq<seq<real>>, labels: seq<int>,
                      offsets: seq<int>, sizes: seq<int>, sofar: seq<int>, bd: seq<Pair>, placed: seq<int>)
    requires |rows| == |labels| && |centerRows| == |sizes| && Counted(labels, sizes)
    requires |offsets| == |sizes| && |bd| == |labels| && |sofar| == |sizes|
    requires Placed(m, rows, centerRows, labels, offsets, sizes, |labels|, sofar, bd, placed)
    ensures Permute.IsPermutation(placed)
    ensures forall x :: 0 <= x < |labels| ==> bd[placed[x]] == Entry(m, rows, centerRows, labels, x)
  {
    var n := |labels|;
    forall x | 0 <= x < n ensures bd[placed[x]].index == x {
      assert bd[placed[x]] == Entry(m, rows, centerRows, labels, x);
    }
    forall x, y | 0 <= x < y < n ensures placed[x] != placed[y] {
      assert bd[placed[x]].index == x && bd[placed[y]].index == y;
    }
    DistinctInRange(placed);
  }

  /** Once every observation is bucketed, each position holds the right entry and each observation appears once. */
  lemma FillDone(m: Metric, rows: seq<seq<real>>, centerRows: seq<seq<real>>, labels: seq<int>,
                 offsets: seq<int>, sizes: seq<int>, sofar: seq<int>, bd: seq<Pair>, placed: seq<int>)
    requires |rows| == |labels| && |centerRows| == |sizes| && Counted(labels, sizes)
    requires Tiled(offsets, sizes, |labels|) && |bd| == |labels|
    requires Filling(m, rows, centerRows, labels, offsets, sizes, |labels|, sofar, bd, placed)
    ensures Bucketed(m, rows, centerRows, labels, offsets, sizes, bd)
  {
    var n := |labels|;
    FillPositions(m, rows, centerRows, labels, offsets, sizes, sofar, bd, placed);
    Permute.PermutationFacts(placed);
    var ids := Indices(bd);
    forall p | 0 <= p < n
      ensures 0 <= ids[p] < n && placed[ids[p]] == p
      ensures EntryOk(m, rows, centerRows, labels, offsets, sizes, bd[p], p)
    {
      var r := Permute.Range(n);
      assert r[p] == p;
      assert p in multiset(r);
      var x :| 0 <= x < n && placed[x] == p;
      assert bd[p] == Entry(m, rows, centerRows, labels, x);
    }
    forall x | 0 <= x < n ensures ids[placed[x]] == x {
      assert bd[placed[x]] == Entry(m, rows, centerRows, labels, x);
    }
    InversePermutation(ids, placed);
  }

  /** Sorting one segment in place. */
  function SortedSegment(bd: seq<Pair>, lo: int, hi: int): (r: seq<Pair>)
    requires 0 <= lo <= hi <= |bd|
    ensures |r| == |bd|
  {
    bd[..lo] + Sort(bd[lo..hi]) + bd[hi..]
  }

  /** Sorting one segment only rearranges the entries. */
  lemma SortedSegmentMultiset(bd: seq<Pair>, lo: int, hi: int)
    requires 0 <= lo <= hi <= |bd|
    ensures multiset(SortedSegment(bd, lo, hi)) == multiset(bd)
  {
    assert bd == bd[..lo] + bd[lo..hi] + bd[hi..];
  }

  /** Inside the sorted segment, position `p` holds the sorted run's entry `p - lo`. */
  lemma SortedSegmentAt(bd: seq<Pair>, lo: int, hi: int, p: int)
    requires 0 <= lo <= p < hi <= |bd|
    ensures SortedSegment(bd, lo, hi)[p] == Sort(bd[lo..hi])[p - lo]
  {
    var a := bd[..lo] + Sort(bd[lo..hi]);
    assert (a + bd[hi..])[p] == a[p];
  }

  /** Any entry taken from the segment of cluster `c` is fit for any position of that segment. */
  lemma SegmentEntryOk(m: Metric, rows: seq<seq<real>>, centerRows: seq<seq<real>>, labels: seq<int>,
                       offsets: seq<int>, sizes: seq<int>, bd: seq<Pair>, c: nat, lo: int, hi: int, e: Pair, p: int)
    requires Tiled(offsets, sizes, |labels|) && c < |sizes|
    requires Placement(m, rows, centerRows, labels, offsets, sizes, bd)
    requires lo == offsets[c] && hi == offsets[c] + sizes[c] && 0 <= lo <= p < hi <= |bd|
    requires e in multiset(bd[lo..hi])
    ensures EntryOk(m, rows, centerRows, labels, offsets, sizes, e, p)
  {
    var seg := bd[lo..hi];
    var q :| 0 <= q < |seg| && seg[q] == e;
    assert bd[lo + q] == e;
    assert EntryOk(m, rows, centerRows, labels, offsets, sizes, bd[lo + q], lo + q);
    SegmentUnique(offsets, sizes, |labels|, labels[e.index], c, lo + q);
  }

  /** After sorting the segment `[lo, hi)` of cluster `c`, the entry at `p` in it came from that segment. */
  lemma SortedEntryOk(m: Metric, rows: seq<seq<real>>, centerRows: seq<seq<real>>, labels: seq<int>,
                      offsets: seq<int>, sizes: seq<int>, bd: seq<Pair>, c: nat, lo: int, hi: int, p: int)
    requires Tiled(offsets, sizes, |labels|) && c < |sizes|
    requires Placement(m, rows, centerRows, labels, offsets, sizes, bd)
    requires lo == offsets[c] && hi == offsets[c] + sizes[c] && 0 <= lo <= p < hi <= |bd|
    ensures EntryOk(m, rows, centerRows, labels, offsets, sizes, SortedSegment(bd, lo, hi)[p], p)
  {
    var sorted := Sort(bd[lo..hi]);
    SortedSegmentAt(bd, lo, hi, p);
    assert sorted[p - lo] in multiset(sorted);
    SegmentEntryOk(m, rows, centerRows, labels, offsets, sizes, bd, c, lo, hi, sorted[p - lo], p);
  }

  /** Sorting the segment `[lo, hi)` of cluster `c` keeps every entry in its own segment. */
  lemma SortKeepsBucketed(m: Metric, rows: seq<seq<real>>, centerRows: seq<seq<real>>, labels: seq<int>,
                          offsets: seq<int>, sizes: seq<int>, bd: seq<Pair>, c: nat, lo: int, hi: int)
    requires Tiled(offsets, sizes, |labels|) && c < |sizes|
    requires Bucketed(m, rows, centerRows, labels, offsets, sizes, bd)
    requires lo == offsets[c] && hi == offsets[c] + sizes[c] && 0 <= lo <= hi <= |bd|
    ensures Bucketed(m, rows, centerRows, labels, offsets, sizes, SortedSegment(bd, lo, hi))
  {
    var bd' := SortedSegment(bd, lo, hi);
    SortedSegmentMultiset(bd, lo, hi);
    IndicesPermuted(bd', bd);
    forall p | 0 <= p < |bd'| ensures EntryOk(m, rows, centerRows, labels, offsets, sizes, bd'[p], p) {
      if lo <= p < hi {
        SortedEntryOk(m, rows, centerRows, labels, offsets, sizes, bd, c, lo, hi, p);
      } else {
        assert bd'[p] == bd[p];
      }
    }
  }

  /** Sorting the segment `[lo, hi)` leaves an earlier, already sorted segment sorted. */
  lemma SortKeepsEarlier(bd: seq<Pair>, offsets: seq<int>, sizes: seq<int>, n: int, c': nat, c: nat, lo: int, hi: int)
    requires Tiled(offsets, sizes, n) && c' < c < |sizes|
    requires lo == offsets[c] && hi == offsets[c] + sizes[c] && 0 <= lo <= hi <= |bd|
    requires SegmentSorted(bd, offsets, sizes, c')
    ensures SegmentSorted(SortedSegment(bd, lo, hi), offsets, sizes, c')
  {
    var bd' := SortedSegment(bd, lo, hi);
    SegmentsOrdered(offsets, sizes, n, c', c);
    SegmentEnd(offsets, sizes, n, c');
    forall p, q | offsets[c'] <= p < q < offsets[c'] + sizes[c']
      ensures 0 <= p && q < |bd'| && Le(bd'[p], bd'[q])
    {
      assert bd'[p] == bd[..lo][p] && bd'[q] == bd[..lo][q];
    }
  }

  /** Sorting the segment `[lo, hi)` of cluster `c` leaves that segment sorted. */
  lemma SortSortsOwn(bd: seq<Pair>, offsets: seq<int>, sizes: seq<int>, c: nat, lo: int, hi: int)
    requires |offsets| == |sizes| && c < |sizes|
    requires lo == offsets[c] && hi == offsets[c] + sizes[c] && 0 <= lo <= hi <= |bd|
    ensures SegmentSorted(SortedSegment(bd, lo, hi), offsets, sizes, c)
  {
    var bd' := SortedSegment(bd, lo, hi);
    var sorted := Sort(bd[lo..hi]);
    forall p, q | lo <= p < q < hi ensures Le(bd'[p], bd'[q]) {
      assert bd'[p] == sorted[p - lo] && bd'[q] == sorted[q - lo];
      assert Le(sorted[p - lo], sorted[q - lo]);
    }
  }

  /** Sorting the segment of cluster `c` keeps the bucketing facts and every other segment's order. */
  lemma SortStep(m: Metric, rows: seq<seq<real>>, centerRows: seq<seq<real>>, labels: seq<int>,
                 offsets: seq<int>, sizes: seq<int>, bd: seq<Pair>, c: nat)
    requires Tiled(offsets, sizes, |labels|) && c < |sizes|
    requires Bucketed(m, rows, centerRows, labels, offsets, sizes, bd)
    requires forall c' :: 0 <= c' < c ==> SegmentSorted(bd, offsets, sizes, c')
    ensures 0 <= offsets[c] <= offsets[c] + sizes[c] <= |bd|
    ensures var bd' := SortedSegment(bd, offsets[c], offsets[c] + sizes[c]);
      && Bucketed(m, rows, centerRows, labels, offsets, sizes, bd')
      && forall c' :: 0 <= c' <= c ==> SegmentSorted(bd', offsets, sizes, c')
  {
    SegmentEnd(offsets, sizes, |labels|, c);
    var lo, hi := offsets[c], offsets[c] + sizes[c];
    SortKeepsBucketed(m, rows, centerRows, labels, offsets, sizes, bd, c, lo, hi);
    SortSortsOwn(bd, offsets, sizes, c, lo, hi);
    forall c' | 0 <= c' < c ensures SegmentSorted(SortedSegment(bd, lo, hi), offsets, sizes, c') {
      SortKeepsEarlier(bd, offsets, sizes, |labels|, c', c, lo, hi);
    }
  }

  /** Rearranging the pairs rearranges their indices, so a permutation of indices stays one. */
  lemma IndicesPermuted(a: seq<Pair>, b: seq<Pair>)
    requires multiset(a) == multiset(b) && Permute.IsPermutation(Indices(b))
    ensures Permute.IsPermutation(Indices(a))
  {
    VpShape.IndicesRearranged(a, b);
    assert |a| == |b| by {
      assert |multiset(a)| == |multiset(b)|;
    }
  }
}
