/**
 * The distance abstraction the searches are written against, and the
 * layout of the stored data. A metric supplies a "raw" distance between two
 * vectors (cheap to compare, such as a squared Euclidean distance) and a
 * `normalize` map that turns a raw distance into the reported one (such as
 * the square root). The arithmetic of concrete metrics is not modelled;
 * `IsMetric` states what the searches rely on.
 *
 * Data are stored column-major: observation `o` of a `dim`-dimensional
 * dataset occupies positions `[o * dim, (o + 1) * dim)`.
 */
module Metric {
  import opened Pairs

  datatype Metric = Metric(raw: (seq<real>, seq<real>) -> real, normalize: real -> real)

  /** The reported distance between two vectors. */
  function Dist(m: Metric, x: seq<real>, y: seq<real>): real {
    m.normalize(m.raw(x, y))
  }

  ghost predicate NonNegative(m: Metric) {
    forall x, y :: m.raw(x, y) >= 0.0
  }

  ghost predicate Symmetric(m: Metric) {
    forall x, y :: m.raw(x, y) == m.raw(y, x)
  }

  ghost predicate ZeroOnSelf(m: Metric) {
    forall x :: m.raw(x, x) == 0.0
  }

  /** `normalize` is strictly increasing on the raw distances. */
  ghost predicate StrictlyMonotone(m: Metric) {
    forall a, b :: 0.0 <= a < b ==> m.normalize(a) < m.normalize(b)
  }

  ghost predicate Triangle(m: Metric) {
    forall x, y, z :: Dist(m, x, z) <= Dist(m, x, y) + Dist(m, y, z)
  }

  ghost predicate IsMetric(m: Metric) {
    NonNegative(m) && Symmetric(m) && ZeroOnSelf(m) && StrictlyMonotone(m) && Triangle(m)
  }

  lemma MonotoneLe(m: Metric, a: real, b: real)
    requires StrictlyMonotone(m) && 0.0 <= a <= b
    ensures m.normalize(a) <= m.normalize(b)
  {
    if a < b {
      assert m.normalize(a) < m.normalize(b);
    }
  }

  /** A normalized comparison decides the raw one: the searches may compare either. */
  lemma MonotoneLt(m: Metric, a: real, b: real)
    requires StrictlyMonotone(m) && 0.0 <= a && 0.0 <= b
    ensures m.normalize(a) < m.normalize(b) <==> a < b
  {
    if a < b {
      assert m.normalize(a) < m.normalize(b);
    } else if b < a {
      assert m.normalize(b) < m.normalize(a);
    }
  }

  lemma TriangleAt(m: Metric, x: seq<real>, y: seq<real>, z: seq<real>)
    requires Triangle(m)
    ensures Dist(m, x, z) <= Dist(m, x, y) + Dist(m, y, z)
  {
  }

  lemma SymmetricAt(m: Metric, x: seq<real>, y: seq<real>)
    requires Symmetric(m)
    ensures m.raw(x, y) == m.raw(y, x) && Dist(m, x, y) == Dist(m, y, x)
  {
  }

  /** Observation `o` fits inside a dataset of `n` observations. */
  lemma RowFits(n: nat, dim: nat, o: nat)
    requires o < n
    ensures o * dim + dim == (o + 1) * dim <= n * dim
  {
    assert (o + 1) * dim == o * dim + dim;
    var j := o + 1;
    assert j <= n;
    assert j * dim <= n * dim by {
      assert n * dim == j * dim + (n - j) * dim;
    }
  }

  /** The coordinates of observation `o`. */
  function Row(data: seq<real>, dim: nat, o: nat): (r: seq<real>)
    requires (o + 1) * dim <= |data|
    ensures |r| == dim
  {
    assert o * dim + dim == (o + 1) * dim;
    data[o * dim..(o + 1) * dim]
  }

  /** Raw distances from `query` to each of the `n` stored observations, in index order: what a linear scan offers. */
  function Candidates(m: Metric, data: seq<real>, dim: nat, n: nat, query: seq<real>): (r: seq<Pair>)
    requires n * dim <= |data|
    ensures |r| == n
    ensures forall x :: 0 <= x < n ==> r[x] == CandidateAt(m, data, dim, n, query, x) && r[x].index == x
  {
    seq(n, x requires 0 <= x < n => CandidateAt(m, data, dim, n, query, x))
  }

  /** Offering the candidates one at a time accumulates their multiset. */
  lemma ScanStep(a: multiset<Pair>, c: seq<Pair>, x: nat)
    requires x < |c|
    ensures a + multiset(c[..x]) + multiset{c[x]} == a + multiset(c[..x + 1])
  {
    assert c[..x + 1] == c[..x] + [c[x]];
  }

  /** The candidate for observation `x`: its raw distance from `query`. */
  function CandidateAt(m: Metric, data: seq<real>, dim: nat, n: nat, query: seq<real>, x: nat): (r: Pair)
    requires n * dim <= |data| && x < n
    ensures (x + 1) * dim <= |data| && r == Pair(m.raw(query, Row(data, dim, x)), x)
  {
    RowFits(n, dim, x);
    Pair(m.raw(query, Row(data, dim, x)), x)
  }

  lemma CandidatesDistinct(m: Metric, data: seq<real>, dim: nat, n: nat, query: seq<real>)
    requires n * dim <= |data|
    ensures DistinctIndices(Candidates(m, data, dim, n, query))
  {
  }

  /** The reported form of a result: `(index, normalized distance)` in the same order. */
  function Normalized(m: Metric, s: seq<Pair>): (r: seq<(int, real)>)
    ensures |r| == |s|
    ensures forall j :: 0 <= j < |s| ==> r[j] == (s[j].index, m.normalize(s[j].dist))
  {
    seq(|s|, j requires 0 <= j < |s| => (s[j].index, m.normalize(s[j].dist)))
  }

  /** The pairs with their distances normalized, still in (distance, index) form. */
  function NormalizePairs(m: Metric, s: seq<Pair>): (r: seq<Pair>)
    ensures |r| == |s|
    ensures forall j :: 0 <= j < |s| ==> r[j] == Pair(m.normalize(s[j].dist), s[j].index)
  {
    seq(|s|, j requires 0 <= j < |s| => Pair(m.normalize(s[j].dist), s[j].index))
  }

  predicate NonNegativeDistances(s: seq<Pair>) {
    forall j :: 0 <= j < |s| ==> s[j].dist >= 0.0
  }

  /** Normalizing keeps the order of pairs with non-negative distances. */
  lemma NormalizeKeepsOrder(m: Metric, a: Pair, b: Pair)
    requires StrictlyMonotone(m) && a.dist >= 0.0 && b.dist >= 0.0
    ensures Lt(a, b) <==> Lt(Pair(m.normalize(a.dist), a.index), Pair(m.normalize(b.dist), b.index))
  {
    MonotoneLt(m, a.dist, b.dist);
    MonotoneLt(m, b.dist, a.dist);
  }

  lemma NormalizeSorted(m: Metric, s: seq<Pair>)
    requires StrictlyMonotone(m) && Sorted(s) && NonNegativeDistances(s)
    ensures Sorted(NormalizePairs(m, s))
  {
    var r := NormalizePairs(m, s);
    forall i, j | 0 <= i < j < |s| ensures Le(r[i], r[j]) {
      assert Le(s[i], s[j]);
      NormalizeKeepsOrder(m, s[i], s[j]);
    }
  }

  lemma NormalizeAppend(m: Metric, u: seq<Pair>, v: seq<Pair>)
    ensures NormalizePairs(m, u + v) == NormalizePairs(m, u) + NormalizePairs(m, v)
  {
  }

  /** Normalizing commutes with permuting. */
  lemma {:induction false} NormalizeMultiset(m: Metric, a: seq<Pair>, b: seq<Pair>)
    requires multiset(a) == multiset(b)
    ensures multiset(NormalizePairs(m, a)) == multiset(NormalizePairs(m, b))
    decreases |a|
  {
    if a != [] {
      var x := a[0];
      assert x in multiset(b) by { assert x in multiset(a); }
      var j :| 0 <= j < |b| && b[j] == x;
      var b' := b[..j] + b[j + 1..];
      assert b == b[..j] + [x] + b[j + 1..];
      assert a == [x] + a[1..];
      assert multiset(b) == multiset(b[..j]) + multiset{x} + multiset(b[j + 1..]);
      assert multiset(a) == multiset{x} + multiset(a[1..]);
      assert multiset(b') == multiset(b[..j]) + multiset(b[j + 1..]);
      assert multiset(a[1..]) == multiset(a) - multiset{x};
      assert multiset(b') == multiset(b) - multiset{x};
      NormalizeMultiset(m, a[1..], b');
      NormalizeAppend(m, [x], a[1..]);
      NormalizeAppend(m, b[..j], b[j + 1..]);
      NormalizeAppend(m, b[..j] + [x], b[j + 1..]);
      NormalizeAppend(m, b[..j], [x]);
    }
  }

  /** Sorting the normalized pairs gives the normalized sorted pairs. */
  lemma NormalizeSort(m: Metric, t: seq<Pair>)
    requires StrictlyMonotone(m) && NonNegativeDistances(t)
    ensures Sort(NormalizePairs(m, t)) == NormalizePairs(m, Sort(t))
  {
    var s := Sort(t);
    assert NonNegativeDistances(s) by {
      forall j | 0 <= j < |s| ensures s[j].dist >= 0.0 {
        assert s[j] in multiset(t) by { assert s[j] in multiset(s); }
      }
    }
    NormalizeSorted(m, s);
    NormalizeMultiset(m, s, t);
    SortedUnique(Sort(NormalizePairs(m, t)), NormalizePairs(m, s));
  }

  lemma NormalizePrefix(m: Metric, s: seq<Pair>, n: nat)
    requires n <= |s|
    ensures NormalizePairs(m, s)[..n] == NormalizePairs(m, s[..n])
  {
  }
}
