/**
 * The construction loops of the KMKNN index of `Kmknn.hpp`, one method per
 * loop: compacting away the empty k-means clusters, relabelling the
 * assignments, laying out the segments, bucketing every observation into
 * its cluster's segment, and sorting each segment by distance to its centre.
 * The k-means result (centres, assignments, sizes) is an input.
 */
module KmBuild {
  import opened Pairs
  import opened Metric
  import Permute
  import opened KmShape

  /**
   * The compaction loop: the rows of the non-empty clusters are moved to the
   * front in their original order, each such cluster's new slot is recorded
   * in `remap` (the empty ones keep slot 0), and their sizes are moved
   * along. The sizes vector keeps its full length, padded with zeros.
   */
  method CompactClusters(dim: nat, ncenters: nat, centers: seq<real>, sizes: seq<int>)
    returns (survivors: nat, compacted: seq<real>, newSizes: seq<int>, remap: seq<int>)
    requires |centers| == ncenters * dim && |sizes| == ncenters
    ensures survivors == |Survivors(sizes)| && |compacted| == |centers|
    ensures Permute.Rows(compacted, dim, ncenters)[..survivors]
         == Permute.Pick(Permute.Rows(centers, dim, ncenters), Survivors(sizes))
    ensures newSizes == CompactedSizes(sizes)
    ensures |remap| == ncenters
    ensures forall j :: 0 <= j < survivors ==> remap[Survivors(sizes)[j]] == j
    ensures forall c :: 0 <= c < ncenters && sizes[c] == 0 ==> remap[c] == 0
  {
    ghost var original := Permute.Rows(centers, dim, ncenters);
    compacted := centers;
    newSizes := seq(ncenters, _ => 0);
    remap := seq(ncenters, _ => 0);
    survivors := 0;
    ghost var s: seq<int> := [];
    assert sizes[..0] == [];
    for c := 0 to ncenters
      invariant survivors == |s|
      invariant Compacting(original, dim, ncenters, sizes, c, s, compacted, newSizes, remap)
    {
      if sizes[c] != 0 {
        CompactKeep(original, dim, ncenters, sizes, c, s, compacted, newSizes, remap);
        if c > survivors {
          var row := Permute.NthRow(compacted, dim, ncenters, c);
          compacted := Permute.WithRow(compacted, dim, survivors, row);
        }
        remap := remap[c := survivors];
        newSizes := newSizes[survivors := sizes[c]];
        survivors := survivors + 1;
        s := s + [c];
      } else {
        CompactSkip(original, dim, ncenters, sizes, c, s, compacted, newSizes, remap);
      }
    }
    CompactDone(original, dim, ncenters, sizes, s, compacted, newSizes, remap);
  }

  /** The compaction loop after the first `c` clusters, whose survivors are `s`. */
  ghost predicate Compacting(original: seq<seq<real>>, dim: nat, n: nat, sizes: seq<int>, c: int, s: seq<int>,
                             compacted: seq<real>, newSizes: seq<int>, remap: seq<int>)
    requires |sizes| == n && |original| == n
  {
    && 0 <= c <= n && |compacted| == n * dim && |newSizes| == n && |remap| == n
    && s == Survivors(sizes[..c]) && |s| <= c
    && (forall j :: 0 <= j < |s| ==> 0 <= s[j] < c && sizes[s[j]] != 0)
    && (forall j :: 0 <= j < |s| ==> Permute.Rows(compacted, dim, n)[j] == original[s[j]])
    && (forall j :: c <= j < n ==> Permute.Rows(compacted, dim, n)[j] == original[j])
    && (forall j :: 0 <= j < n ==> newSizes[j] == if j < |s| then sizes[s[j]] else 0)
    && (forall j :: 0 <= j < |s| ==> remap[s[j]] == j)
    && (forall x :: 0 <= x < n && (x >= c || sizes[x] == 0) ==> remap[x] == 0)
  }

  /** An empty cluster is passed over. */
  lemma CompactSkip(original: seq<seq<real>>, dim: nat, n: nat, sizes: seq<int>, c: int, s: seq<int>,
                    compacted: seq<real>, newSizes: seq<int>, remap: seq<int>)
    requires |sizes| == n && |original| == n
    requires Compacting(original, dim, n, sizes, c, s, compacted, newSizes, remap) && c < n && sizes[c] == 0
    ensures Compacting(original, dim, n, sizes, c + 1, s, compacted, newSizes, remap)
  {
    SurvivorsStep(sizes, c);
  }

  /** A non-empty cluster moves its row to the next free slot and records that slot. */
  lemma CompactKeep(original: seq<seq<real>>, dim: nat, n: nat, sizes: seq<int>, c: int, s: seq<int>,
                    compacted: seq<real>, newSizes: seq<int>, remap: seq<int>)
    requires |sizes| == n && |original| == n
    requires Compacting(original, dim, n, sizes, c, s, compacted, newSizes, remap) && c < n && sizes[c] != 0
    ensures (c + 1) * dim <= |compacted| && (|s| + 1) * dim <= |compacted|
    ensures var moved := if c > |s| then Permute.WithRow(compacted, dim, |s|, Permute.NthRow(compacted, dim, n, c)) else compacted;
      Compacting(original, dim, n, sizes, c + 1, s + [c], moved, newSizes[|s| := sizes[c]], remap[c := |s|])
  {
    SurvivorsStep(sizes, c);
    RowFits(n, dim, c);
    RowFits(n, dim, |s|);
    if c > |s| {
      Permute.WithRowRows(compacted, dim, n, |s|, Permute.NthRow(compacted, dim, n, c));
    }
  }

  /** After the last cluster: the survivors' rows and sizes lead, and `remap` inverts the survivors. */
  lemma CompactDone(original: seq<seq<real>>, dim: nat, n: nat, sizes: seq<int>, s: seq<int>,
                    compacted: seq<real>, newSizes: seq<int>, remap: seq<int>)
    requires |sizes| == n && |original| == n
    requires Compacting(original, dim, n, sizes, n, s, compacted, newSizes, remap)
    ensures s == Survivors(sizes)
    ensures Permute.Rows(compacted, dim, n)[..|s|] == Permute.Pick(original, s)
    ensures newSizes == CompactedSizes(sizes)
  {
    assert sizes[..n] == sizes;
  }

  /**
   * Relabelling through `remap`, which sends each surviving cluster to its
   * slot: every observation's new label names the slot of its old
   * cluster, and the surviving sizes count the new labels.
   */
  lemma RelabelCounts(clusters: seq<int>, sizes: seq<int>, remap: seq<int>, labels: seq<int>)
    requires Counted(clusters, sizes) && |remap| == |sizes|
    requires forall j :: 0 <= j < |Survivors(sizes)| ==> remap[Survivors(sizes)[j]] == j
    requires |labels| == |clusters| && forall o :: 0 <= o < |clusters| ==> labels[o] == remap[clusters[o]]
    ensures forall o :: 0 <= o < |labels| ==>
      0 <= labels[o] < |Survivors(sizes)| && Survivors(sizes)[labels[o]] == clusters[o]
    ensures Counted(labels, Permute.Pick(sizes, Survivors(sizes)))
  {
    var surv := Survivors(sizes);
    SurvivorsFacts(sizes);
    forall o | 0 <= o < |labels| ensures 0 <= labels[o] < |surv| && surv[labels[o]] == clusters[o] {
      var c := clusters[o];
      assert c in multiset(clusters);
      var j :| 0 <= j < |surv| && surv[j] == c;
    }
    CountsThrough(labels, clusters, surv);
  }

  /** With no empty cluster every cluster keeps its own slot. */
  lemma KeptAll(sizes: seq<int>, remap: seq<int>)
    requires |remap| == |sizes| && |Survivors(sizes)| == |sizes|
    requires forall j :: 0 <= j < |Survivors(sizes)| ==> remap[Survivors(sizes)[j]] == j
    ensures forall c :: 0 <= c < |sizes| ==> remap[c] == c
  {
    SurvivorsAll(sizes);
    forall c | 0 <= c < |sizes| ensures remap[c] == c {
      assert Survivors(sizes)[c] == c;
    }
  }

  /** The first `m` rows of a store are the rows of its first `m * dim` values. */
  lemma RowsPrefix(data: seq<real>, dim: nat, n: nat, m: nat)
    requires m <= n && n * dim <= |data|
    ensures m * dim <= |data|
    ensures Permute.Rows(data[..m * dim], dim, m) == Permute.Rows(data, dim, n)[..m]
  {
    Permute.MulLe(m, n, dim);
    forall q | 0 <= q < m ensures Permute.Rows(data[..m * dim], dim, m)[q] == Permute.Rows(data, dim, n)[q] {
      RowFits(m, dim, q);
    }
  }

  /** The relabelling loop: every assignment goes through `remap`. */
  method Relabel(clusters: seq<int>, remap: seq<int>) returns (labels: seq<int>)
    requires forall o :: 0 <= o < |clusters| ==> 0 <= clusters[o] < |remap|
    ensures |labels| == |clusters|
    ensures forall o :: 0 <= o < |clusters| ==> labels[o] == remap[clusters[o]]
  {
    labels := clusters;
    for o := 0 to |labels|
      invariant |labels| == |clusters|
      invariant forall x :: 0 <= x < o ==> labels[x] == remap[clusters[x]]
      invariant forall x :: o <= x < |labels| ==> labels[x] == clusters[x]
    {
      labels := labels[o := remap[labels[o]]];
    }
  }

  /** The offsets loop: each cluster's segment starts where the previous one ends, the first at 0. */
  method Offsets(sizes: seq<int>) returns (offsets: seq<int>)
    ensures |offsets| == |sizes|
    ensures forall c :: 0 <= c < |sizes| ==> offsets[c] == Sum(sizes[..c])
  {
    offsets := seq(|sizes|, _ => 0);
    assert sizes[..0] == [];
    var i := 1;
    while i < |sizes|
      invariant 1 <= i && |offsets| == |sizes|
      invariant forall c :: 0 <= c < i && c < |sizes| ==> offsets[c] == Sum(sizes[..c])
    {
      SumStep(sizes, i - 1);
      offsets := offsets[i := offsets[i - 1] + sizes[i - 1]];
      i := i + 1;
    }
  }

  /**
   * The bucketing loop: observation `o` is written, with its distance to
   * its cluster's centre, at that cluster's cursor, which then moves on.
   */
  method Bucket(metric: Metric, data: seq<real>, dim: nat, obs: nat, centers: seq<real>, nc: nat,
                labels: seq<int>, offsets: seq<int>, sizes: seq<int>) returns (bd: seq<Pair>)
    requires |data| == obs * dim && |centers| == nc * dim && |labels| == obs && |sizes| == nc
    requires Tiled(offsets, sizes, obs) && Counted(labels, sizes)
    ensures Bucketed(metric, Permute.Rows(data, dim, obs), Permute.Rows(centers, dim, nc), labels, offsets, sizes, bd)
  {
    ghost var rows, centerRows := Permute.Rows(data, dim, obs), Permute.Rows(centers, dim, nc);
    bd := seq(obs, _ => Pair(0.0, 0));
    var sofar := offsets;
    ghost var placed: seq<int> := [];
    assert labels[..0] == [];
    for o := 0 to obs
      invariant |bd| == obs
      invariant Filling(metric, rows, centerRows, labels, offsets, sizes, o, sofar, bd, placed)
    {
      var clustid := labels[o];
      var optr := Permute.NthRow(data, dim, obs, o);
      var cptr := Permute.NthRow(centers, dim, nc, clustid);
      CursorInSegment(metric, rows, centerRows, labels, offsets, sizes, o, sofar, bd, placed);
      var counter := sofar[clustid];
      FillStep(metric, rows, centerRows, labels, offsets, sizes, o, sofar, bd, placed, clustid, counter);
      bd := bd[counter := Pair(metric.normalize(metric.raw(optr, cptr)), o)];
      sofar := sofar[clustid := counter + 1];
      placed := placed + [counter];
    }
    FillDone(metric, rows, centerRows, labels, offsets, sizes, sofar, bd, placed);
  }

  /** The sorting loop: each segment in turn is sorted in place. */
  method SortSegments(ghost metric: Metric, ghost rows: seq<seq<real>>, ghost centerRows: seq<seq<real>>,
                      ghost labels: seq<int>, offsets: seq<int>, sizes: seq<int>, bd: seq<Pair>)
    returns (sorted: seq<Pair>)
    requires Tiled(offsets, sizes, |labels|)
    requires Bucketed(metric, rows, centerRows, labels, offsets, sizes, bd)
    ensures Bucketed(metric, rows, centerRows, labels, offsets, sizes, sorted)
    ensures forall c :: 0 <= c < |sizes| ==> SegmentSorted(sorted, offsets, sizes, c)
  {
    sorted := bd;
    for c := 0 to |sizes|
      invariant Bucketed(metric, rows, centerRows, labels, offsets, sizes, sorted)
      invariant forall c' :: 0 <= c' < c ==> SegmentSorted(sorted, offsets, sizes, c')
    {
      SortStep(metric, rows, centerRows, labels, offsets, sizes, sorted, c);
      sorted := SortedSegment(sorted, offsets[c], offsets[c] + sizes[c]);
    }
  }
}
