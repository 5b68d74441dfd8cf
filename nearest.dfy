/**
 * "The k nearest candidates" up to ties: a selection whose members are no
 * further than anything it leaves out. This is what a queue keeps when it
 * refuses a candidate whose distance equals its current limit, so that
 * which of several equidistant candidates survive depends on the order in
 * which they arrive. The distances of such a selection are still unique.
 */
module Nearest {
  import opened Pairs

  /**
   * No pair of `rest` is closer than the last, and for a sorted `s` the
   * furthest, pair of `s`.
   */
  ghost predicate NoFurther(s: seq<Pair>, rest: multiset<Pair>) {
    s != [] ==> forall b :: b in rest ==> s[|s| - 1].dist <= b.dist
  }

  /** For a sorted selection, no member is further than anything left out. */
  lemma NoFurtherEach(s: seq<Pair>, rest: multiset<Pair>)
    requires Sorted(s) && NoFurther(s, rest)
    ensures forall a, b :: a in s && b in rest ==> a.dist <= b.dist
  {
    forall a, b | a in s && b in rest ensures a.dist <= b.dist {
      SortedLastIsGreatest(s, a);
    }
  }

  lemma NoFurtherOfEach(s: seq<Pair>, rest: multiset<Pair>)
    requires forall a, b :: a in s && b in rest ==> a.dist <= b.dist
    ensures NoFurther(s, rest)
  {
    if s != [] {
      assert s[|s| - 1] in s;
    }
  }

  ghost predicate IsKNearest(s: seq<Pair>, t: multiset<Pair>, k: nat) {
    && Sorted(s)
    && multiset(s) <= t
    && |s| == Min(k, |t|)
    && NoFurther(s, t - multiset(s))
  }

  lemma KSmallestIsKNearest(s: seq<Pair>, t: multiset<Pair>, k: nat)
    requires IsKSmallest(s, t, k)
    ensures IsKNearest(s, t, k)
  {
    if s != [] {
      assert s[|s| - 1] in s;
    }
  }

  /** Adding a candidate to a selection that is not yet full keeps everything. */
  lemma KNearestPush(s: seq<Pair>, t: multiset<Pair>, k: nat, p: Pair)
    requires IsKNearest(s, t, k) && |s| < k
    ensures IsKNearest(Insert(s, p), t + multiset{p}, k)
  {
    SubMultisetOfSameSize(multiset(s), t);
    InsertSorted(s, p);
    assert t + multiset{p} - multiset(Insert(s, p)) == multiset{};
  }

  /** Inserting a candidate closer than the furthest member leaves that member last. */
  lemma InsertCloserKeepsLast(s: seq<Pair>, p: Pair)
    requires Sorted(s) && |s| > 0 && p.dist < s[|s| - 1].dist
    ensures Insert(s, p)[|s|] == s[|s| - 1]
  {
    var r := Insert(s, p);
    var k := |s|;
    InsertSorted(s, p);
    var m := r[k];
    assert s[k - 1] in multiset(s);
    assert s[k - 1] in multiset(r);
    SortedLastIsGreatest(r, s[k - 1]);
    assert m in multiset(r);
    assert m in multiset(s);
    SortedLastIsGreatest(s, m);
    LeTotal(m, s[k - 1]);
  }

  /** A candidate strictly closer than the furthest member displaces it. */
  lemma KNearestPushPop(s: seq<Pair>, t: multiset<Pair>, k: nat, p: Pair)
    requires IsKNearest(s, t, k) && |s| == k > 0 && p.dist < s[k - 1].dist
    ensures Insert(s, p)[k] == s[k - 1]
    ensures IsKNearest(Insert(s, p)[..k], t + multiset{p}, k)
  {
    var r := Insert(s, p);
    InsertSorted(s, p);
    InsertCloserKeepsLast(s, p);
    var lo := r[..k];
    var m := r[k];
    var t' := t + multiset{p};
    assert m in multiset(s) by { assert s[k - 1] in s; }
    assert r == lo + [m];
    SwapMultiset(s, t, r, lo, p, m);
    SwapMembers(s, r, lo, p, m);
    assert |t'| == |t| + 1;
    NoFurtherSwap(s, lo, t - multiset(s), p, m);
  }

  /** The multisets after inserting `p` into `s` and dropping the last pair `m` of the result. */
  lemma SwapMultiset(s: seq<Pair>, t: multiset<Pair>, r: seq<Pair>, lo: seq<Pair>, p: Pair, m: Pair)
    requires multiset(r) == multiset(s) + multiset{p} && r == lo + [m] && m in multiset(s) && multiset(s) <= t
    ensures multiset(lo) == multiset(s) - multiset{m} + multiset{p}
    ensures multiset(lo) <= t + multiset{p}
    ensures t + multiset{p} - multiset(lo) == (t - multiset(s)) + multiset{m}
  {
    assert multiset(r) == multiset(lo) + multiset{m};
    forall x ensures multiset(lo)[x] + multiset{m}[x] == multiset(s)[x] + multiset{p}[x] {
      assert multiset(r)[x] == (multiset(lo) + multiset{m})[x] == (multiset(s) + multiset{p})[x];
    }
    forall x ensures multiset(lo)[x] == (multiset(s) - multiset{m} + multiset{p})[x] {
    }
    forall x ensures (t + multiset{p} - multiset(lo))[x] == ((t - multiset(s)) + multiset{m})[x] {
      assert multiset(s)[x] <= t[x];
    }
  }

  /** Every pair kept after the swap is no greater than `m` and is `p` or an old member. */
  lemma SwapMembers(s: seq<Pair>, r: seq<Pair>, lo: seq<Pair>, p: Pair, m: Pair)
    requires Sorted(r) && r == lo + [m] && multiset(lo) == multiset(s) - multiset{m} + multiset{p}
    ensures Sorted(lo)
    ensures forall a :: a in lo ==> Le(a, m) && (a == p || a in s)
  {
    forall a | a in lo ensures Le(a, m) && (a == p || a in s) {
      SortedLastIsGreatest(r, a);
      assert a in multiset(lo);
      if a != p {
        assert a in multiset(s);
      }
    }
    forall i, j | 0 <= i < j < |lo| ensures Le(lo[i], lo[j]) {
      assert lo[i] == r[i] && lo[j] == r[j];
    }
  }

  /** Swapping the furthest member `m` for a closer `p` leaves no kept pair further than a dropped one. */
  lemma NoFurtherSwap(s: seq<Pair>, lo: seq<Pair>, rest: multiset<Pair>, p: Pair, m: Pair)
    requires Sorted(s) && NoFurther(s, rest) && m in s && p.dist < m.dist
    requires forall a :: a in lo ==> Le(a, m) && (a == p || a in s)
    ensures NoFurther(lo, rest + multiset{m})
  {
    NoFurtherEach(s, rest);
    forall a, b | a in lo && b in rest + multiset{m} ensures a.dist <= b.dist {
      if b != m {
        assert b in rest;
      }
    }
    NoFurtherOfEach(lo, rest + multiset{m});
  }

  /** A candidate no closer than the furthest member of a full selection is left out. */
  lemma KNearestReject(s: seq<Pair>, t: multiset<Pair>, k: nat, p: Pair)
    requires IsKNearest(s, t, k) && |s| == k > 0 && s[k - 1].dist <= p.dist
    ensures IsKNearest(s, t + multiset{p}, k)
  {
    var t' := t + multiset{p};
    assert |t'| == |t| + 1;
    assert t' - multiset(s) == (t - multiset(s)) + multiset{p};
  }

  /**
   * Candidates that were never offered do not disturb a full selection
   * when none of them is closer than its furthest member.
   */
  lemma KNearestExtend(s: seq<Pair>, t: multiset<Pair>, rest: multiset<Pair>, k: nat)
    requires IsKNearest(s, t, k)
    requires forall p :: p in rest ==> |s| == k && s != [] && s[|s| - 1].dist <= p.dist
    ensures IsKNearest(s, t + rest, k)
  {
    if rest != multiset{} {
      var p :| p in rest;
      assert |s| == k;
      assert (t + rest) - multiset(s) == (t - multiset(s)) + rest;
    }
  }

  lemma NearestHeadIsClosest(s: seq<Pair>, t: multiset<Pair>, k: nat, b: Pair)
    requires IsKNearest(s, t, k) && |s| > 0 && b in t
    ensures s[0].dist <= b.dist
  {
    assert s[0] in s;
    if b in multiset(s) {
      SortedHeadIsLeast(s, b);
    } else {
      assert b in t - multiset(s);
      SortedLastIsGreatest(s, s[0]);
    }
  }

  lemma KNearestTail(s: seq<Pair>, t: multiset<Pair>, k: nat)
    requires IsKNearest(s, t, k) && |s| > 0
    ensures k > 0 && IsKNearest(s[1..], t - multiset{s[0]}, k - 1)
  {
    var x := s[0];
    var t' := t - multiset{x};
    assert s == [x] + s[1..];
    assert multiset(s) == multiset{x} + multiset(s[1..]);
    assert x in t by { assert x in multiset(s); }
    assert |t'| == |t| - 1;
    assert t' - multiset(s[1..]) == t - multiset(s);
    if |s| > 1 {
      assert s[1..][|s| - 2] == s[|s| - 1];
    }
  }

  /** Removing any member keeps the characterisation for one fewer. */
  lemma KNearestDropAt(u: seq<Pair>, t: multiset<Pair>, k: nat, j: nat)
    requires IsKNearest(u, t, k) && j < |u|
    ensures k > 0 && IsKNearest(u[..j] + u[j + 1..], t - multiset{u[j]}, k - 1)
  {
    DropAtMultiset(u, t, j);
    SortedDropAt(u, j);
    NoFurtherDropAt(u, t - multiset(u), j);
  }

  /** The multisets after removing position `j` from a selection and its pair from the candidates. */
  lemma DropAtMultiset(u: seq<Pair>, t: multiset<Pair>, j: nat)
    requires multiset(u) <= t && j < |u|
    ensures var v := u[..j] + u[j + 1..];
      && multiset(v) + multiset{u[j]} == multiset(u)
      && multiset(v) <= t - multiset{u[j]}
      && |t - multiset{u[j]}| == |t| - 1
      && (t - multiset{u[j]}) - multiset(v) == t - multiset(u)
  {
    var x := u[j];
    var v := u[..j] + u[j + 1..];
    assert multiset(u) == multiset(v) + multiset{x} by {
      assert u == u[..j] + [x] + u[j + 1..];
    }
    assert x in t by { assert x in multiset(u); }
    forall y ensures multiset(v)[y] + multiset{x}[y] == multiset(u)[y] {
      assert multiset(u)[y] == (multiset(v) + multiset{x})[y];
    }
    forall y ensures ((t - multiset{x}) - multiset(v))[y] == (t - multiset(u))[y] {
      assert multiset(u)[y] <= t[y];
    }
  }

  /** Removing a member of a sorted selection does not make its furthest member further. */
  lemma NoFurtherDropAt(u: seq<Pair>, rest: multiset<Pair>, j: nat)
    requires Sorted(u) && NoFurther(u, rest) && j < |u|
    ensures NoFurther(u[..j] + u[j + 1..], rest)
  {
    var v := u[..j] + u[j + 1..];
    if v != [] {
      var n := |u|;
      if j == n - 1 {
        assert v[|v| - 1] == u[n - 2];
        assert Le(u[n - 2], u[n - 1]);
      } else {
        assert v[|v| - 1] == u[n - 1];
      }
    }
  }

  lemma SortedDropAt(u: seq<Pair>, j: nat)
    requires Sorted(u) && j < |u|
    ensures Sorted(u[..j] + u[j + 1..])
  {
    var v := u[..j] + u[j + 1..];
    assert forall i :: 0 <= i < |v| ==> v[i] == (if i < j then u[i] else u[i + 1]);
  }

  /** The members sharing the smallest distance with `x`, up to position `j`. */
  lemma SameDistancesAfterDrop(s: seq<Pair>, u: seq<Pair>, v: seq<Pair>, j: nat)
    requires |s| == |u| > 0 && j < |u| && Sorted(u) && u[j] == s[0] && u[0].dist == s[0].dist
    requires v == u[..j] + u[j + 1..] && Distances(s[1..]) == Distances(v)
    ensures Distances(s) == Distances(u)
  {
    forall i | 0 <= i <= j ensures u[i].dist == s[0].dist {
      assert Le(u[0], u[i]) && Le(u[i], u[j]);
    }
    forall i | 0 <= i < |u| ensures Distances(s)[i] == Distances(u)[i] {
      if i > 0 {
        assert Distances(s)[i] == Distances(s[1..])[i - 1] == Distances(v)[i - 1];
        if i > j { assert v[i - 1] == u[i]; } else { assert v[i - 1] == u[i - 1]; }
      }
    }
  }

  /**
   * When the closest member `x` of one selection is missing from another,
   * every member of the other is as close as `x`, and its tail is a
   * selection of the candidates without `x`.
   */
  lemma KNearestWithoutHead(s: seq<Pair>, u: seq<Pair>, t: multiset<Pair>, k: nat)
    requires IsKNearest(s, t, k) && IsKNearest(u, t, k) && |s| > 0 && s[0] !in multiset(u)
    ensures |u| > 0 && forall i :: 0 <= i < |u| ==> u[i].dist == s[0].dist
    ensures k > 0 && IsKNearest(u[1..], t - multiset{s[0]}, k - 1)
  {
    var x := s[0];
    var v := u[1..];
    var t' := t - multiset{x};
    assert x in t by { assert x in multiset(s); }
    WithoutHeadMultiset(u, t, x);
    forall i | 0 <= i < |u| ensures u[i].dist == x.dist {
      assert u[i] in multiset(u);
      NearestHeadIsClosest(s, t, k, u[i]);
      SortedLastIsGreatest(u, u[i]);
    }
    forall b | b in t' - multiset(v) ensures x.dist <= b.dist {
      NearestHeadIsClosest(s, t, k, b);
    }
    if v != [] {
      assert v[|v| - 1] == u[|u| - 1];
    }
  }

  /** The multisets after dropping the head of `u` from `u`, and a pair `x` that `u` misses from `t`. */
  lemma WithoutHeadMultiset(u: seq<Pair>, t: multiset<Pair>, x: Pair)
    requires multiset(u) <= t && x in t && x !in multiset(u) && |u| == Min(|u|, |t|)
    ensures |u| < |t| && x in t - multiset(u)
    ensures |u| > 0 ==> multiset(u[1..]) <= t - multiset{x}
    ensures |t - multiset{x}| == |t| - 1
    ensures |u| > 0 ==> forall b :: b in (t - multiset{x}) - multiset(u[1..]) ==> b in t
  {
    assert (t - multiset(u))[x] == t[x];
    assert |t - multiset(u)| + |multiset(u)| == |t| by {
      assert t == (t - multiset(u)) + multiset(u);
    }
    if |u| > 0 {
      assert u == [u[0]] + u[1..];
      forall y ensures multiset(u[1..])[y] <= (t - multiset{x})[y] {
        assert multiset(u)[y] == (multiset{u[0]} + multiset(u[1..]))[y];
        assert multiset(u)[y] <= t[y];
      }
    }
  }

  lemma SameDistancesAfterHead(s: seq<Pair>, u: seq<Pair>)
    requires |s| == |u| > 0 && s[0].dist == u[0].dist && Distances(s[1..]) == Distances(u[1..])
    ensures Distances(s) == Distances(u)
  {
    forall i | 0 <= i < |u| ensures Distances(s)[i] == Distances(u)[i] {
      if i > 0 {
        assert Distances(s)[i] == Distances(s[1..])[i - 1] == Distances(u[1..])[i - 1];
      }
    }
  }

  /** Any two k-nearest selections of the same candidates list the same distances. */
  lemma {:induction false} KNearestSameDistances(s: seq<Pair>, u: seq<Pair>, t: multiset<Pair>, k: nat)
    requires IsKNearest(s, t, k) && IsKNearest(u, t, k)
    ensures Distances(s) == Distances(u)
    decreases |s|
  {
    if |s| > 0 {
      var x := s[0];
      assert x in multiset(s) && u[0] in multiset(u);
      NearestHeadIsClosest(s, t, k, u[0]);
      NearestHeadIsClosest(u, t, k, x);
      KNearestTail(s, t, k);
      if x in multiset(u) {
        var j :| 0 <= j < |u| && u[j] == x;
        var v := u[..j] + u[j + 1..];
        KNearestDropAt(u, t, k, j);
        KNearestSameDistances(s[1..], v, t - multiset{x}, k - 1);
        SameDistancesAfterDrop(s, u, v, j);
      } else {
        KNearestWithoutHead(s, u, t, k);
        KNearestSameDistances(s[1..], u[1..], t - multiset{x}, k - 1);
        SameDistancesAfterHead(s, u);
      }
    }
  }
}
