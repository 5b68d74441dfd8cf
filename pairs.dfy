/**
 * (distance, index) pairs as the library stores them in its priority queues
 * and result vectors, ordered lexicographically as `std::pair` is: first by
 * distance, then by index. On top of the order: sorted sequences, sorted
 * insertion (the model of a heap push), sorting, and the characterisation of
 * "the k smallest pairs of a collection" that the neighbour queues maintain.
 */
module Pairs {

  datatype Pair = Pair(dist: real, index: int)

  function Min(a: int, b: int): int { if a < b then a else b }

  /** Strict lexicographic order of `std::pair<Distance, Index>`. */
  predicate Lt(a: Pair, b: Pair) {
    a.dist < b.dist || (a.dist == b.dist && a.index < b.index)
  }

  predicate Le(a: Pair, b: Pair) { Lt(a, b) || a == b }

  lemma LeTotal(a: Pair, b: Pair)
    ensures Le(a, b) || Le(b, a)
    ensures Le(a, b) && Le(b, a) ==> a == b
  {}

  predicate Sorted(s: seq<Pair>) {
    forall i, j {:trigger Le(s[i], s[j])} :: 0 <= i < j < |s| ==> Le(s[i], s[j])
  }

  /** Every pair of `s` is no greater than every pair of `rest`. */
  ghost predicate Below(s: seq<Pair>, rest: multiset<Pair>) {
    forall a, b :: a in s && b in rest ==> Le(a, b)
  }

  function Indices(s: seq<Pair>): (r: seq<int>)
    ensures |r| == |s| && forall i :: 0 <= i < |s| ==> r[i] == s[i].index
  {
    seq(|s|, i requires 0 <= i < |s| => s[i].index)
  }

  function Distances(s: seq<Pair>): (r: seq<real>)
    ensures |r| == |s| && forall i :: 0 <= i < |s| ==> r[i] == s[i].dist
  {
    seq(|s|, i requires 0 <= i < |s| => s[i].dist)
  }

  /** Popping the back of a prefix of `s` leaves the next shorter prefix. */
  lemma PrefixPop<T>(s: seq<T>, n: nat)
    requires 0 < n <= |s|
    ensures s[..n][n - 1] == s[n - 1] && s[..n][..n - 1] == s[..n - 1]
  {
  }

  /** `std::reverse` on a vector. */
  function Reverse<T>(s: seq<T>): (r: seq<T>)
    ensures |r| == |s| && forall i :: 0 <= i < |s| ==> r[i] == s[|s| - 1 - i]
  {
    seq(|s|, i requires 0 <= i < |s| => s[|s| - 1 - i])
  }

  /** Pairs whose index components are pairwise different. */
  predicate DistinctIndices(s: seq<Pair>) {
    forall i, j :: 0 <= i < j < |s| ==> s[i].index != s[j].index
  }

  /** Dropping one pair of a sequence with distinct indices. */
  lemma DropDistinct(t: seq<Pair>, j: nat)
    requires DistinctIndices(t) && j < |t|
    ensures DistinctIndices(t[..j] + t[j + 1..])
    ensures multiset(t[..j] + t[j + 1..]) == multiset(t) - multiset{t[j]}
    ensures forall y :: y in multiset(t[..j] + t[j + 1..]) ==> y.index != t[j].index
  {
    var t' := t[..j] + t[j + 1..];
    assert t == t[..j] + [t[j]] + t[j + 1..];
    forall a | 0 <= a < |t'| ensures t'[a] == t[if a < j then a else a + 1] {
    }
    forall y | y in multiset(t') ensures y.index != t[j].index {
      assert y in t';
    }
  }

  /** Permuting pairs keeps their indices distinct. */
  lemma {:induction false} DistinctIndicesPermutation(s: seq<Pair>, t: seq<Pair>)
    requires DistinctIndices(t) && multiset(s) == multiset(t)
    ensures DistinctIndices(s)
    decreases |s|
  {
    if s != [] {
      var x := s[0];
      assert x in t by { assert x in multiset(s); }
      var j :| 0 <= j < |t| && t[j] == x;
      var t' := t[..j] + t[j + 1..];
      DropDistinct(t, j);
      assert multiset(s[1..]) == multiset(t') by {
        assert s == [x] + s[1..];
      }
      DistinctIndicesPermutation(s[1..], t');
      forall a, b | 0 <= a < b < |s| ensures s[a].index != s[b].index {
        assert s[b] == s[1..][b - 1];
        if a == 0 {
          assert s[b] in multiset(t');
        } else {
          assert s[a] == s[1..][a - 1];
        }
      }
    }
  }

  lemma LeTrans(a: Pair, b: Pair, c: Pair)
    requires Le(a, b) && Le(b, c)
    ensures Le(a, c)
  {}

  /** Sorted insertion: the heap push of `std::priority_queue`, viewed as a sorted sequence. */
  function Insert(s: seq<Pair>, p: Pair): (r: seq<Pair>)
    ensures |r| == |s| + 1
    ensures multiset(r) == multiset(s) + multiset{p}
  {
    if s == [] then [p]
    else if Le(p, s[0]) then [p] + s
    else
      assert s == [s[0]] + s[1..];
      [s[0]] + Insert(s[1..], p)
  }

  lemma {:induction false} InsertSorted(s: seq<Pair>, p: Pair)
    requires Sorted(s)
    ensures Sorted(Insert(s, p))
  {
    if s == [] {
    } else if Le(p, s[0]) {
      var r := [p] + s;
      forall i, j | 0 <= i < j < |r| ensures Le(r[i], r[j]) {
        if i == 0 && j > 1 { LeTrans(p, s[0], s[j - 1]); }
      }
    } else {
      InsertSorted(s[1..], p);
      var t := Insert(s[1..], p);
      var r := [s[0]] + t;
      LeTotal(p, s[0]);
      forall j | 0 <= j < |t| ensures Le(s[0], t[j]) {
        assert t[j] in multiset(t);
        if t[j] != p {
          assert t[j] in multiset(s[1..]);
          var m :| 0 <= m < |s[1..]| && s[1..][m] == t[j];
          assert s[1..][m] == s[m + 1];
        }
      }
      forall i, j | 0 <= i < j < |r| ensures Le(r[i], r[j]) {
        if i > 0 { assert r[i] == t[i - 1] && r[j] == t[j - 1]; }
        else { assert r[j] == t[j - 1]; }
      }
    }
  }

  /** `std::sort` on pairs; on a total order its result is unique (see SortedUnique). */
  function Sort(s: seq<Pair>): (r: seq<Pair>)
    ensures Sorted(r) && multiset(r) == multiset(s) && |r| == |s|
  {
    if s == [] then []
    else
      assert s == s[..|s| - 1] + [s[|s| - 1]];
      InsertSorted(Sort(s[..|s| - 1]), s[|s| - 1]);
      Insert(Sort(s[..|s| - 1]), s[|s| - 1])
  }

  lemma SortedHeadIsLeast(s: seq<Pair>, x: Pair)
    requires Sorted(s) && x in s
    ensures Le(s[0], x)
  {}

  /** Every pair of a sorted sequence is at most its last one. */
  lemma SortedAtMostLast(s: seq<Pair>)
    requires Sorted(s) && s != []
    ensures forall i :: 0 <= i < |s| ==> Le(s[i], s[|s| - 1])
  {
    forall i | 0 <= i < |s| ensures Le(s[i], s[|s| - 1]) {
      if i < |s| - 1 {
        assert Le(s[i], s[|s| - 1]);
      }
    }
  }

  lemma SortedLastIsGreatest(s: seq<Pair>, x: Pair)
    requires Sorted(s) && x in s
    ensures Le(x, s[|s| - 1])
  {}

  /** Two sorted sequences holding the same pairs are the same sequence. */
  lemma {:induction false} SortedUnique(a: seq<Pair>, b: seq<Pair>)
    requires Sorted(a) && Sorted(b) && multiset(a) == multiset(b)
    ensures a == b
  {
    if a != [] {
      assert |b| == |a| by { assert |multiset(a)| == |multiset(b)|; }
      assert a[0] in multiset(b) && b[0] in multiset(a);
      SortedHeadIsLeast(a, b[0]);
      SortedHeadIsLeast(b, a[0]);
      LeTotal(a[0], b[0]);
      assert a[0] == b[0];
      assert a == [a[0]] + a[1..] && b == [b[0]] + b[1..];
      assert multiset(a[1..]) == multiset(a) - multiset{a[0]};
      assert multiset(b[1..]) == multiset(b) - multiset{b[0]};
      SortedUnique(a[1..], b[1..]);
    }
  }

  /**
   * `s` lists, in ascending order, the min(k, |t|) smallest pairs of `t`:
   * it is drawn from `t`, and whatever of `t` it leaves out is no smaller
   * than anything it keeps.
   */
  ghost predicate IsKSmallest(s: seq<Pair>, t: multiset<Pair>, k: nat) {
    && Sorted(s)
    && multiset(s) <= t
    && |s| == Min(k, |t|)
    && Below(s, t - multiset(s))
  }

  lemma HeadOfKSmallestIsLeast(s: seq<Pair>, t: multiset<Pair>, k: nat, b: Pair)
    requires IsKSmallest(s, t, k) && |s| > 0 && b in t
    ensures Le(s[0], b)
  {
    if b in multiset(s) {
      SortedHeadIsLeast(s, b);
    } else {
      assert b in t - multiset(s);
      assert s[0] in s;
    }
  }

  /** Dropping the smallest pair of both sides keeps the characterisation. */
  lemma KSmallestTail(s: seq<Pair>, t: multiset<Pair>, k: nat)
    requires IsKSmallest(s, t, k) && |s| > 0
    ensures k > 0 && IsKSmallest(s[1..], t - multiset{s[0]}, k - 1)
  {
    var x := s[0];
    var t' := t - multiset{x};
    assert s == [x] + s[1..];
    assert multiset(s) == multiset{x} + multiset(s[1..]);
    assert x in t by { assert x in multiset(s); }
    assert |t'| == |t| - 1;
    assert multiset(s[1..]) <= t';
    assert t' - multiset(s[1..]) == t - multiset(s);
    forall a, b | a in s[1..] && b in t' - multiset(s[1..]) ensures Le(a, b) {
      assert a in s;
    }
  }

  /** The k smallest pairs of a multiset are determined by it. */
  lemma {:induction false} KSmallestUnique(s: seq<Pair>, u: seq<Pair>, t: multiset<Pair>, k: nat)
    requires IsKSmallest(s, t, k) && IsKSmallest(u, t, k)
    ensures s == u
    decreases |s|
  {
    if |s| > 0 {
      assert s[0] in multiset(s) && u[0] in multiset(u);
      HeadOfKSmallestIsLeast(s, t, k, u[0]);
      HeadOfKSmallestIsLeast(u, t, k, s[0]);
      LeTotal(s[0], u[0]);
      assert s[0] == u[0];
      KSmallestTail(s, t, k);
      KSmallestTail(u, t, k);
      KSmallestUnique(s[1..], u[1..], t - multiset{s[0]}, k - 1);
      assert s == [s[0]] + s[1..] && u == [u[0]] + u[1..];
    }
  }

  /** When nothing is left out, the k smallest are everything, sorted. */
  lemma KSmallestOfSmall(s: seq<Pair>, t: multiset<Pair>, k: nat)
    requires Sorted(s) && multiset(s) == t && |s| <= k
    ensures IsKSmallest(s, t, k)
  {
    assert t - multiset(s) == multiset{};
  }

  /** The k smallest pairs of `t` in ascending order: the head of the sorted sequence. */
  lemma KSmallestIsSortedPrefix(t: seq<Pair>, k: nat)
    ensures IsKSmallest(Sort(t)[..Min(k, |t|)], multiset(t), k)
  {
    var r := Sort(t);
    var m := Min(k, |t|);
    PrefixOfSortedIsKSmallest(r, m, k);
  }

  /** So whatever holds the k smallest pairs of `t` holds exactly the head of `Sort(t)`. */
  lemma KSmallestIsSortPrefix(s: seq<Pair>, t: seq<Pair>, k: nat)
    requires IsKSmallest(s, multiset(t), k)
    ensures s == Sort(t)[..Min(k, |t|)]
  {
    KSmallestIsSortedPrefix(t, k);
    KSmallestUnique(s, Sort(t)[..Min(k, |t|)], multiset(t), k);
  }

  lemma PrefixOfSortedIsKSmallest(r: seq<Pair>, m: nat, k: nat)
    requires Sorted(r) && m == Min(k, |r|)
    ensures IsKSmallest(r[..m], multiset(r), k)
  {
    var lo, hi := r[..m], r[m..];
    assert r == lo + hi;
    assert multiset(r) - multiset(lo) == multiset(hi) by {
      assert multiset(r) == multiset(lo) + multiset(hi);
    }
    assert forall i, j :: 0 <= i < |lo| && 0 <= j < |hi| ==> Le(lo[i], hi[j]) by {
      forall i, j | 0 <= i < |lo| && 0 <= j < |hi| ensures Le(lo[i], hi[j]) {
        assert lo[i] == r[i] && hi[j] == r[m + j];
      }
    }
    BelowOfParts(lo, hi);
  }

  /** Two sequences ordered position by position are ordered element by element. */
  lemma BelowOfParts(lo: seq<Pair>, hi: seq<Pair>)
    requires forall i, j :: 0 <= i < |lo| && 0 <= j < |hi| ==> Le(lo[i], hi[j])
    ensures Below(lo, multiset(hi))
  {
    forall a, b | a in lo && b in multiset(hi) ensures Le(a, b) {
      assert b in hi;
      var i :| 0 <= i < |lo| && lo[i] == a;
      var j :| 0 <= j < |hi| && hi[j] == b;
    }
  }

  lemma SubMultisetOfSameSize(a: multiset<Pair>, b: multiset<Pair>)
    requires a <= b && |a| == |b|
    ensures a == b
  {
    var c := b - a;
    assert b == a + c;
    assert |c| == 0;
  }

  /** Adding a pair to a selection that is not yet full: everything is kept. */
  lemma KSmallestPush(s: seq<Pair>, t: multiset<Pair>, k: nat, p: Pair)
    requires IsKSmallest(s, t, k) && |s| < k
    ensures IsKSmallest(Insert(s, p), t + multiset{p}, k)
  {
    SubMultisetOfSameSize(multiset(s), t);
    InsertSorted(s, p);
    KSmallestOfSmall(Insert(s, p), t + multiset{p}, k);
  }

  /**
   * Adding a pair to a full selection and dropping the largest keeps it the
   * k smallest, and its largest member does not grow.
   */
  lemma KSmallestPushPop(s: seq<Pair>, t: multiset<Pair>, k: nat, p: Pair)
    requires IsKSmallest(s, t, k) && |s| == k > 0
    ensures IsKSmallest(Insert(s, p)[..k], t + multiset{p}, k)
    ensures Le(Insert(s, p)[k - 1], s[k - 1])
  {
    var r := Insert(s, p);
    InsertSorted(s, p);
    assert r == r[..k] + [r[k]];
    assert multiset(r) == multiset(r[..k]) + multiset{r[k]};
    if r[k] == p {
      PushPopDropsNew(s, t, k, p, r);
    } else {
      PushPopDropsOld(s, t, k, p, r);
    }
  }

  lemma PushPopDropsNew(s: seq<Pair>, t: multiset<Pair>, k: nat, p: Pair, r: seq<Pair>)
    requires IsKSmallest(s, t, k) && |s| == k > 0
    requires Sorted(r) && |r| == k + 1 && multiset(r) == multiset(s) + multiset{p}
    requires multiset(r) == multiset(r[..k]) + multiset{r[k]} && r[k] == p
    ensures IsKSmallest(r[..k], t + multiset{p}, k) && r[k - 1] == s[k - 1]
  {
    var lo := r[..k];
    var t' := t + multiset{p};
    assert multiset(lo) == multiset(r) - multiset{p};
    assert multiset(lo) == multiset(s);
    SortedUnique(lo, s);
    assert t' - multiset(lo) == (t - multiset(s)) + multiset{p};
    forall a, b | a in lo && b in t' - multiset(lo) ensures Le(a, b) {
      if b == p {
        SortedLastIsGreatest(r, a);
      } else {
        assert b in t - multiset(s);
      }
    }
  }

  lemma PushPopDropsOld(s: seq<Pair>, t: multiset<Pair>, k: nat, p: Pair, r: seq<Pair>)
    requires IsKSmallest(s, t, k) && |s| == k > 0
    requires Sorted(r) && |r| == k + 1 && multiset(r) == multiset(s) + multiset{p}
    requires multiset(r) == multiset(r[..k]) + multiset{r[k]} && r[k] != p
    ensures IsKSmallest(r[..k], t + multiset{p}, k) && Le(r[k - 1], s[k - 1])
  {
    var lo := r[..k];
    var m := r[k];
    var t' := t + multiset{p};
    assert m in multiset(r);
    assert m in multiset(s);
    assert s[k - 1] in multiset(s);
    assert s[k - 1] in multiset(r);
    SortedLastIsGreatest(r, s[k - 1]);
    SortedLastIsGreatest(s, m);
    LeTotal(m, s[k - 1]);
    assert m == s[k - 1];
    assert multiset(lo) == multiset(r) - multiset{m};
    assert multiset(lo) == multiset(s) - multiset{m} + multiset{p};
    assert t' - multiset(lo) == (t - multiset(s)) + multiset{m};
    forall a, b | a in lo && b in t' - multiset(lo) ensures Le(a, b) {
      SortedLastIsGreatest(r, a);
      if b != m {
        assert b in t - multiset(s);
        if a != p {
          assert a in multiset(lo);
          assert a in multiset(s);
        } else {
          assert m in s;
          LeTrans(a, m, b);
        }
      }
    }
  }
}
