/**
 * The in-place reordering both new indices apply to their data store once
 * the search order of the observations is known (the constructors of
 * `VptreePrebuilt` and `KmknnPrebuilt`): position `o` of the store must end
 * up holding observation `sigma[o]`. The rows are moved by following the
 * cycles of the permutation, with a one-row buffer, and the inverse map
 * (`new_location`) is filled on the way.
 */
module Permute {
  import opened Metric

  /** `0, 1, ..., n - 1`. */
  function Range(n: nat): (r: seq<int>)
    ensures |r| == n && forall i :: 0 <= i < n ==> r[i] == i
  {
    seq(n, i requires 0 <= i < n => i)
  }

  /** `sigma` lists each of `0, ..., |sigma| - 1` exactly once. */
  ghost predicate IsPermutation(sigma: seq<int>) {
    multiset(sigma) == multiset(Range(|sigma|))
  }

  predicate Distinct<T(==)>(s: seq<T>) {
    forall i, j :: 0 <= i < j < |s| ==> s[i] != s[j]
  }

  /** A value occurs in a duplicate-free sequence at most once. */
  lemma {:induction false} DistinctCount<T>(s: seq<T>, x: T)
    requires Distinct(s)
    ensures multiset(s)[x] == if x in s then 1 else 0
    decreases |s|
  {
    if s != [] {
      var t := s[..|s| - 1];
      assert s == t + [s[|s| - 1]];
      assert Distinct(t);
      DistinctCount(t, x);
      assert s[|s| - 1] !in t;
    }
  }

  /** A value at two positions occurs at least twice. */
  lemma RepeatedCount<T>(s: seq<T>, i: nat, j: nat)
    requires i < j < |s| && s[i] == s[j]
    ensures multiset(s)[s[i]] >= 2
  {
    assert s == s[..i] + [s[i]] + s[i + 1..j] + [s[j]] + s[j + 1..];
  }

  /** The entries of a permutation are in range and pairwise different. */
  lemma PermutationFacts(sigma: seq<int>)
    requires IsPermutation(sigma)
    ensures forall o :: 0 <= o < |sigma| ==> 0 <= sigma[o] < |sigma|
    ensures Distinct(sigma)
  {
    var r := Range(|sigma|);
    assert Distinct(r);
    forall o | 0 <= o < |sigma| ensures 0 <= sigma[o] < |sigma| {
      assert sigma[o] in multiset(r) by { assert sigma[o] in multiset(sigma); }
    }
    forall i, j | 0 <= i < j < |sigma| ensures sigma[i] != sigma[j] {
      if sigma[i] == sigma[j] {
        RepeatedCount(sigma, i, j);
        DistinctCount(r, sigma[i]);
        assert false;
      }
    }
  }

  /** Picking the entries of `s` at the positions listed in `a`. */
  function Pick<T>(s: seq<T>, a: seq<int>): (r: seq<T>)
    requires forall j :: 0 <= j < |a| ==> 0 <= a[j] < |s|
    ensures |r| == |a| && forall j :: 0 <= j < |a| ==> r[j] == s[a[j]]
  {
    seq(|a|, j requires 0 <= j < |a| => s[a[j]])
  }

  /** Picking by two arrangements of the same positions gives two arrangements of the same entries. */
  lemma {:induction false} PickMultiset<T>(s: seq<T>, a: seq<int>, b: seq<int>)
    requires forall j :: 0 <= j < |a| ==> 0 <= a[j] < |s|
    requires multiset(a) == multiset(b)
    ensures forall j :: 0 <= j < |b| ==> 0 <= b[j] < |s|
    ensures multiset(Pick(s, a)) == multiset(Pick(s, b))
    decreases |a|
  {
    forall j | 0 <= j < |b| ensures 0 <= b[j] < |s| {
      assert b[j] in multiset(a) by { assert b[j] in multiset(b); }
    }
    if a != [] {
      var n := |a| - 1;
      var x := a[n];
      assert x in multiset(b) by { assert x in multiset(a); }
      var j :| 0 <= j < |b| && b[j] == x;
      ErasedMultiset(a, n);
      ErasedMultiset(b, j);
      assert a[..n] + a[n + 1..] == a[..n];
      PickMultiset(s, a[..n], b[..j] + b[j + 1..]);
      PickErased(s, a, n, a[..n]);
      PickErased(s, b, j, b[..j] + b[j + 1..]);
    }
  }

  /** Erasing a position removes exactly that entry's occurrence. */
  lemma ErasedMultiset<T>(s: seq<T>, pos: nat)
    requires pos < |s|
    ensures multiset(s[..pos] + s[pos + 1..]) == multiset(s) - multiset{s[pos]}
  {
    assert s == s[..pos] + [s[pos]] + s[pos + 1..];
  }

  /** Erasing a position before picking erases the picked entry. */
  lemma PickErased<T>(s: seq<T>, a: seq<int>, pos: nat, erased: seq<int>)
    requires forall j :: 0 <= j < |a| ==> 0 <= a[j] < |s|
    requires pos < |a| && erased == a[..pos] + a[pos + 1..]
    ensures forall j :: 0 <= j < |erased| ==> 0 <= erased[j] < |s|
    ensures multiset(Pick(s, a)) == multiset(Pick(s, erased)) + multiset{s[a[pos]]}
  {
    var p := Pick(s, a);
    assert Pick(s, erased) == p[..pos] + p[pos + 1..];
    ErasedMultiset(p, pos);
  }

  /** Rearranging a sequence by a permutation keeps its multiset. */
  lemma PermutedMultiset<T>(s: seq<T>, sigma: seq<int>)
    requires IsPermutation(sigma) && |sigma| == |s|
    ensures forall o :: 0 <= o < |s| ==> 0 <= sigma[o] < |s|
    ensures multiset(Pick(s, sigma)) == multiset(s)
  {
    PermutationFacts(sigma);
    var r := Range(|s|);
    PickMultiset(s, sigma, r);
    assert Pick(s, r) == s;
  }

  /** Row `q` of a store of `n` rows. */
  function NthRow(data: seq<real>, dim: nat, n: nat, q: nat): (r: seq<real>)
    requires n * dim <= |data| && q < n
    ensures (q + 1) * dim <= |data| && r == Row(data, dim, q)
  {
    RowFits(n, dim, q);
    Row(data, dim, q)
  }

  /** The store viewed as its `n` rows. */
  ghost function Rows(data: seq<real>, dim: nat, n: nat): (r: seq<seq<real>>)
    requires n * dim <= |data|
    ensures |r| == n && forall q :: 0 <= q < n ==> r[q] == NthRow(data, dim, n, q)
  {
    seq(n, q requires 0 <= q < n => NthRow(data, dim, n, q))
  }

  /** `std::copy_n` of a whole row into row `o`. */
  function WithRow(data: seq<real>, dim: nat, o: nat, row: seq<real>): (r: seq<real>)
    requires (o + 1) * dim <= |data| && |row| == dim
    ensures |r| == |data|
  {
    assert o * dim + dim == (o + 1) * dim;
    data[..o * dim] + row + data[(o + 1) * dim..]
  }

  lemma MulLe(a: nat, b: nat, dim: nat)
    requires a <= b
    ensures a * dim <= b * dim
  {
    assert b * dim == a * dim + (b - a) * dim;
  }

  /** Writing row `o` changes row `o` and no other. */
  lemma WithRowRows(data: seq<real>, dim: nat, n: nat, o: nat, row: seq<real>)
    requires n * dim == |data| && o < n && |row| == dim
    ensures (o + 1) * dim <= |data|
    ensures Rows(WithRow(data, dim, o, row), dim, n) == Rows(data, dim, n)[o := row]
  {
    RowFits(n, dim, o);
    var r := WithRow(data, dim, o, row);
    assert o * dim + dim == (o + 1) * dim;
    forall q | 0 <= q < n ensures NthRow(r, dim, n, q) == Rows(data, dim, n)[o := row][q] {
      RowFits(n, dim, q);
      assert q * dim + dim == (q + 1) * dim;
      if q < o {
        MulLe(q + 1, o, dim);
        assert r[q * dim..(q + 1) * dim] == data[q * dim..(q + 1) * dim];
      } else if q > o {
        MulLe(o + 1, q, dim);
        forall x | q * dim <= x < (q + 1) * dim ensures r[x] == data[x] {
          assert r[x] == data[(o + 1) * dim..][x - (o + 1) * dim];
        }
        assert r[q * dim..(q + 1) * dim] == data[q * dim..(q + 1) * dim];
      } else {
        assert r[o * dim..(o + 1) * dim] == row;
      }
    }
  }

  /** The number of positions not yet marked in the `used` vector. */
  function Unmarked(used: seq<bool>): (r: nat)
    ensures r <= |used|
  {
    if used == [] then 0 else Unmarked(used[..|used| - 1]) + (if used[|used| - 1] then 0 else 1)
  }

  lemma {:induction false} MarkOne(used: seq<bool>, i: nat)
    requires i < |used| && !used[i]
    ensures Unmarked(used[i := true]) == Unmarked(used) - 1
    decreases |used|
  {
    var n := |used| - 1;
    var u := used[i := true];
    if i < n {
      assert u[..n] == used[..n][i := true];
      MarkOne(used[..n], i);
    } else {
      assert u[..n] == used[..n];
    }
  }

  /**
   * The cycle-following reorder: afterwards row `o` holds the original
   * row `sigma[o]`, and `newLocation` is the inverse of `sigma`.
   */
  method PermuteRows(data: seq<real>, dim: nat, sigma: seq<int>) returns (permuted: seq<real>, newLocation: seq<int>)
    requires |data| == |sigma| * dim && IsPermutation(sigma)
    ensures |permuted| == |data| && |newLocation| == |sigma|
    ensures forall o :: 0 <= o < |sigma| ==> 0 <= sigma[o] < |sigma| && newLocation[sigma[o]] == o
    ensures Rows(permuted, dim, |sigma|) == Pick(Rows(data, dim, |sigma|), sigma)
  {
    var n := |sigma|;
    PermutationFacts(sigma);
    ghost var original := Rows(data, dim, n);
    ghost var done: set<int> := {};
    var used := seq(n, _ => false);
    newLocation := seq(n, _ => 0);
    permuted := data;
    for o := 0 to n
      invariant Swept(sigma, dim, original, permuted, used, newLocation, done, o)
    {
      if used[o] {
        SweepUsed(sigma, dim, original, permuted, used, newLocation, done, o);
        continue;
      }
      var current := sigma[o];
      LocateStep(sigma, newLocation, done, o);
      newLocation := newLocation[current := o];
      if current == o {
        SweepFixed(sigma, dim, original, permuted, used, newLocation, done, o);
        done := done + {o};
        continue;
      }
      var buffer := NthRow(permuted, dim, n, o);
      var optr;
      ghost var seen;
      permuted, used, newLocation, optr, seen := FollowCycle(sigma, dim, original, permuted, used, newLocation, done, o);
      RowsClose(sigma, dim, original, permuted, seen, optr, buffer);
      permuted := WithRow(permuted, dim, optr, buffer);
      SweepCycle(sigma, dim, original, permuted, used, newLocation, done, seen, o);
      done := seen;
    }
    forall o | 0 <= o < n ensures Rows(permuted, dim, n)[o] == original[sigma[o]] {
      assert o in done;
    }
  }

  /** The state of the reorder before position `o`: every earlier position is done, and whole cycles are placed. */
  ghost predicate Swept(sigma: seq<int>, dim: nat, original: seq<seq<real>>, permuted: seq<real>, used: seq<bool>,
                        newLocation: seq<int>, done: set<int>, o: int)
    requires forall x :: 0 <= x < |sigma| ==> 0 <= sigma[x] < |sigma|
  {
    && (forall q :: 0 <= q < o ==> q in done) && Closed(sigma, done)
    && MarkedFrom(used, done, o) && |used| == |sigma|
    && RowsPlaced(sigma, dim, original, permuted, done, -1)
    && Located(sigma, newLocation, done)
  }

  /** A position already marked used was placed with an earlier cycle. */
  lemma SweepUsed(sigma: seq<int>, dim: nat, original: seq<seq<real>>, permuted: seq<real>, used: seq<bool>,
                  newLocation: seq<int>, done: set<int>, o: int)
    requires forall x :: 0 <= x < |sigma| ==> 0 <= sigma[x] < |sigma|
    requires Swept(sigma, dim, original, permuted, used, newLocation, done, o) && 0 <= o < |sigma| && used[o]
    ensures Swept(sigma, dim, original, permuted, used, newLocation, done, o + 1)
  {
    assert o in done;
  }

  /** A position that `sigma` fixes is a cycle of its own, placed already. */
  lemma SweepFixed(sigma: seq<int>, dim: nat, original: seq<seq<real>>, permuted: seq<real>, used: seq<bool>,
                   newLocation: seq<int>, done: set<int>, o: int)
    requires Distinct(sigma) && forall x :: 0 <= x < |sigma| ==> 0 <= sigma[x] < |sigma|
    requires 0 <= o < |sigma| && sigma[o] == o && o !in done
    requires (forall q :: 0 <= q < o ==> q in done) && Closed(sigma, done)
    requires MarkedFrom(used, done, o) && |used| == |sigma|
    requires RowsPlaced(sigma, dim, original, permuted, done, -1)
    requires Located(sigma, newLocation, done + {o})
    ensures Swept(sigma, dim, original, permuted, used, newLocation, done + {o}, o + 1)
  {
    Placed(sigma, dim, original, permuted, done, o);
    forall x | 0 <= x < |sigma| && sigma[x] == o ensures x == o {
      Injective(sigma, x, o);
    }
  }

  /** A followed and closed cycle from `o` leaves the sweep ready for the next position. */
  lemma SweepCycle(sigma: seq<int>, dim: nat, original: seq<seq<real>>, permuted: seq<real>, used: seq<bool>,
                   newLocation: seq<int>, done: set<int>, seen: set<int>, o: int)
    requires forall x :: 0 <= x < |sigma| ==> 0 <= sigma[x] < |sigma|
    requires 0 <= o < |sigma| && (forall q :: 0 <= q < o ==> q in done) && done + {o} <= seen
    requires |used| == |sigma| && Closed(sigma, seen) && MarkedFrom(used, seen, o + 1)
    requires RowsPlaced(sigma, dim, original, permuted, seen, -1)
    requires Located(sigma, newLocation, seen)
    ensures Swept(sigma, dim, original, permuted, used, newLocation, seen, o + 1)
  {
  }

  /** `done` holds whole cycles of `sigma`: whatever `sigma` sends into it is in it. */
  ghost predicate Closed(sigma: seq<int>, done: set<int>) {
    forall x :: 0 <= x < |sigma| && sigma[x] in done ==> x in done
  }

  /**
   * Part-way round the cycle from `o`: whatever `sigma` sends into `seen`,
   * other than to `o`, is in `seen` and is not its last position `optr`.
   */
  ghost predicate ClosedBut(sigma: seq<int>, seen: set<int>, o: int, optr: int) {
    forall x :: 0 <= x < |sigma| && sigma[x] in seen && sigma[x] != o ==> x in seen && x != optr
  }

  /** From position `lo` on, exactly the positions of `marked` are flagged in `used`. */
  ghost predicate MarkedFrom(used: seq<bool>, marked: set<int>, lo: int) {
    0 <= lo && forall q :: lo <= q < |used| ==> (used[q] <==> q in marked)
  }

  /** The positions of `placed` are in range and `newLocation` sends their `sigma` images back to them. */
  ghost predicate Located(sigma: seq<int>, newLocation: seq<int>, placed: set<int>)
    requires forall x :: 0 <= x < |sigma| ==> 0 <= sigma[x] < |sigma|
  {
    && |newLocation| == |sigma|
    && forall q :: q in placed ==> 0 <= q < |sigma| && newLocation[sigma[q]] == q
  }

  /**
   * Every position of `placed` other than `pending` holds the original
   * row that `sigma` assigns it; every other position still holds its own.
   */
  ghost predicate RowsPlaced(sigma: seq<int>, dim: nat, original: seq<seq<real>>, permuted: seq<real>,
                             placed: set<int>, pending: int)
    requires forall x :: 0 <= x < |sigma| ==> 0 <= sigma[x] < |sigma|
  {
    var n := |sigma|;
    && |permuted| == n * dim && |original| == n
    && forall q :: 0 <= q < n ==> Rows(permuted, dim, n)[q] == original[if q in placed && q != pending then sigma[q] else q]
  }

  /** A position that `sigma` fixes is placed already. */
  lemma Placed(sigma: seq<int>, dim: nat, original: seq<seq<real>>, permuted: seq<real>, placed: set<int>, o: int)
    requires forall x :: 0 <= x < |sigma| ==> 0 <= sigma[x] < |sigma|
    requires RowsPlaced(sigma, dim, original, permuted, placed, -1) && 0 <= o < |sigma| && sigma[o] == o
    ensures RowsPlaced(sigma, dim, original, permuted, placed + {o}, -1)
  {
  }

  /**
   * The do-while loop of the reorder, for a cycle that starts at an
   * unfinished position `o` that `sigma` moves: each step copies the row
   * the cycle brings in, marks its source used and records its new
   * location, until the cycle returns to `o`. `seen` is `done` plus the
   * cycle; `optr` is the cycle's last position, whose row still waits for
   * the buffered row `o`.
   */
  method FollowCycle(sigma: seq<int>, dim: nat, ghost original: seq<seq<real>>, permuted: seq<real>, used: seq<bool>,
                     newLocation: seq<int>, ghost done: set<int>, o: nat)
    returns (permuted': seq<real>, used': seq<bool>, newLocation': seq<int>, optr: nat, ghost seen: set<int>)
    requires Distinct(sigma) && forall x :: 0 <= x < |sigma| ==> 0 <= sigma[x] < |sigma|
    requires |used| == |sigma| && o < |sigma| && o !in done && sigma[o] != o && Closed(sigma, done)
    requires forall q :: 0 <= q < o ==> q in done
    requires MarkedFrom(used, done, o)
    requires RowsPlaced(sigma, dim, original, permuted, done, -1)
    requires Located(sigma, newLocation, done + {o})
    ensures |used'| == |sigma| && optr < |sigma| && optr in seen && sigma[optr] == o && done + {o} <= seen
    ensures Closed(sigma, seen) && MarkedFrom(used', seen, o + 1)
    ensures RowsPlaced(sigma, dim, original, permuted', seen, optr)
    ensures Located(sigma, newLocation', seen)
  {
    var n := |sigma|;
    permuted', used', newLocation' := permuted, used, newLocation;
    optr := o;
    var replacement := sigma[o];
    seen := done + {o};
    while true
      invariant Progress(sigma, dim, original, permuted', used', newLocation', done, seen, o, optr)
      invariant replacement == sigma[optr] && replacement != o && replacement !in seen
      decreases Unmarked(used')
    {
      CycleStep(sigma, dim, original, permuted', used', newLocation', done, seen, o, optr, replacement);
      permuted' := WithRow(permuted', dim, optr, NthRow(permuted', dim, n, replacement));
      used' := used'[replacement := true];
      var next := sigma[replacement];
      newLocation' := newLocation'[next := replacement];
      optr := replacement;
      replacement := next;
      seen := seen + {optr};
      if replacement == o {
        break;
      }
    }
    CycleCloses(sigma, seen, o, optr);
  }

  /**
   * The state of the reorder part-way round the cycle from `o`: `seen` is
   * `done` plus the positions visited, `optr` the last of them, and every
   * visited position but `optr` already holds its final row.
   */
  ghost predicate Progress(sigma: seq<int>, dim: nat, original: seq<seq<real>>, permuted: seq<real>, used: seq<bool>,
                           newLocation: seq<int>, done: set<int>, seen: set<int>, o: nat, optr: nat)
    requires forall x :: 0 <= x < |sigma| ==> 0 <= sigma[x] < |sigma|
  {
    && |used| == |sigma| && optr < |sigma| && optr in seen && o !in done && done + {o} <= seen
    && (forall q :: 0 <= q < o ==> q in done)
    && ClosedBut(sigma, seen, o, optr)
    && MarkedFrom(used, seen, o + 1)
    && RowsPlaced(sigma, dim, original, permuted, seen, optr)
    && Located(sigma, newLocation, seen)
  }

  /** One turn of the do-while loop keeps its state and uses up one unmarked position. */
  lemma CycleStep(sigma: seq<int>, dim: nat, original: seq<seq<real>>, permuted: seq<real>, used: seq<bool>,
                  newLocation: seq<int>, done: set<int>, seen: set<int>, o: nat, optr: nat, r: nat)
    requires Distinct(sigma) && forall x :: 0 <= x < |sigma| ==> 0 <= sigma[x] < |sigma|
    requires Progress(sigma, dim, original, permuted, used, newLocation, done, seen, o, optr)
    requires r == sigma[optr] && r != o && r !in seen
    ensures |permuted| == |sigma| * dim && r < |used| && !used[r] && Unmarked(used[r := true]) < Unmarked(used)
    ensures Progress(sigma, dim, original, WithRow(permuted, dim, optr, NthRow(permuted, dim, |sigma|, r)),
                     used[r := true], newLocation[sigma[r] := r], done, seen + {r}, o, r)
    ensures sigma[r] != o ==> sigma[r] !in seen + {r}
  {
    assert r > o;
    MarkOne(used, r);
    RowsStep(sigma, dim, original, permuted, seen, optr, r);
    LocateStep(sigma, newLocation, seen, r);
    SeenStep(sigma, seen, o, optr, r);
  }

  /** Copying row `sigma[optr]` into the pending row `optr` places it, and its source becomes pending. */
  lemma RowsStep(sigma: seq<int>, dim: nat, original: seq<seq<real>>, permuted: seq<real>, placed: set<int>, optr: nat, r: nat)
    requires forall x :: 0 <= x < |sigma| ==> 0 <= sigma[x] < |sigma|
    requires RowsPlaced(sigma, dim, original, permuted, placed, optr)
    requires optr < |sigma| && optr in placed && r == sigma[optr] && r !in placed
    ensures RowsPlaced(sigma, dim, original, WithRow(permuted, dim, optr, NthRow(permuted, dim, |sigma|, r)), placed + {r}, r)
  {
    WithRowRows(permuted, dim, |sigma|, optr, NthRow(permuted, dim, |sigma|, r));
  }

  /** Writing the buffered row `o` into the pending row, which `sigma` sends to `o`, completes the cycle. */
  lemma RowsClose(sigma: seq<int>, dim: nat, original: seq<seq<real>>, permuted: seq<real>, placed: set<int>,
                  optr: nat, buffer: seq<real>)
    requires forall x :: 0 <= x < |sigma| ==> 0 <= sigma[x] < |sigma|
    requires RowsPlaced(sigma, dim, original, permuted, placed, optr)
    requires optr < |sigma| && optr in placed && |buffer| == dim && buffer == original[sigma[optr]]
    ensures RowsPlaced(sigma, dim, original, WithRow(permuted, dim, optr, buffer), placed, -1)
  {
    WithRowRows(permuted, dim, |sigma|, optr, buffer);
  }

  /** Recording the new location of a fresh position keeps the recorded ones. */
  lemma LocateStep(sigma: seq<int>, newLocation: seq<int>, placed: set<int>, r: int)
    requires Distinct(sigma) && forall x :: 0 <= x < |sigma| ==> 0 <= sigma[x] < |sigma|
    requires Located(sigma, newLocation, placed) && 0 <= r < |sigma| && r !in placed
    ensures Located(sigma, newLocation[sigma[r] := r], placed + {r})
  {
    forall q | q in placed ensures sigma[q] != sigma[r] {
      InjectiveNe(sigma, q, r);
    }
  }

  /**
   * One step along the cycle: what `sigma` sends into the grown `seen`,
   * other than to `o`, is in it and is not the new last position; so the
   * next position, unless it is `o`, is new.
   */
  lemma SeenStep(sigma: seq<int>, seen: set<int>, o: int, optr: int, r: int)
    requires Distinct(sigma) && 0 <= optr < |sigma| && 0 <= r < |sigma| && r == sigma[optr]
    requires optr in seen && r !in seen && ClosedBut(sigma, seen, o, optr)
    ensures ClosedBut(sigma, seen + {r}, o, r)
    ensures sigma[r] != o ==> sigma[r] !in seen + {r}
  {
    forall x | 0 <= x < |sigma| && sigma[x] == r
      ensures x == optr
    {
      Injective(sigma, x, optr);
    }
  }

  /** A cycle that returned to `o` leaves `seen` closed under the inverse of `sigma`. */
  lemma CycleCloses(sigma: seq<int>, seen: set<int>, o: int, optr: int)
    requires Distinct(sigma) && 0 <= optr < |sigma| && sigma[optr] == o && optr in seen
    requires ClosedBut(sigma, seen, o, optr)
    ensures Closed(sigma, seen)
  {
    forall x | 0 <= x < |sigma| && sigma[x] == o
      ensures x == optr
    {
      Injective(sigma, x, optr);
    }
  }

  lemma InjectiveNe(sigma: seq<int>, a: int, b: int)
    requires Distinct(sigma) && 0 <= a < |sigma| && 0 <= b < |sigma| && a != b
    ensures sigma[a] != sigma[b]
  {
    if a < b {
      assert sigma[a] != sigma[b];
    } else {
      assert sigma[b] != sigma[a];
    }
  }

  lemma Injective(sigma: seq<int>, a: int, b: int)
    requires Distinct(sigma) && 0 <= a < |sigma| && 0 <= b < |sigma| && sigma[a] == sigma[b]
    ensures a == b
  {
    if a != b {
      InjectiveNe(sigma, a, b);
    }
  }
}
