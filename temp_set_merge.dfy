/** The row arithmetic of `TempSet` (rows of 8000 `uint` values, the last one shorter and
    possibly empty) and the k-way merge `SortTempSet` runs over its sorted rows, stated on
    sequences: `c` the elements, `L` the `Length` that fixes the rows, `p` the
    `positions` array (how many elements each row has given up). */
module TempSetMerge {
  import opened FixedWidth
  import opened Comparers

  /** `_maxWidth`. */
  const Width: nat := 8000

  /** `size / _maxWidth + 1`: the number of rows for `size` elements. */
  function RowCount(size: nat): nat
  {
    size / 8000 + 1
  }

  /** `size - (_rows - 1) * _maxWidth`: the length of the last row. The full rows and the
      last row hold exactly `size` elements, and the last row is never full (it is empty
      when `size` is a multiple of 8000). */
  function LastLength(size: nat): (r: int)
    ensures 0 <= r < 8000 && (RowCount(size) - 1) * 8000 + r == size
  {
    size - (RowCount(size) - 1) * 8000
  }

  /** The length of row `t`: 8000 for every row but the last. */
  function RowLength(size: nat, t: int): nat
  {
    if t + 1 < RowCount(size) then 8000 else LastLength(size)
  }

  /** Row `t` starts at `8000 * t` and ends within `size`; a full row ends before the
      start of the last row. */
  lemma RowEnd(size: nat, t: nat)
    requires t < RowCount(size)
    ensures t * 8000 + RowLength(size, t) <= size
    ensures t + 1 < RowCount(size) ==> t * 8000 + 8000 <= (RowCount(size) - 1) * 8000
  {
  }

  /** `n` places from the start of row `i` that fit within `size` fit in row `i`. */
  lemma RowFits(size: nat, i: nat, n: nat)
    requires n <= 8000 && i * 8000 + n <= size
    ensures i < RowCount(size) && n <= RowLength(size, i)
  {
    assert i <= size / 8000;
  }

  /** The rows of `L <= size` elements lie inside the rows of `size` elements. */
  lemma RowsWithin(L: nat, size: nat, t: nat)
    requires L <= size && t < RowCount(L)
    ensures t < RowCount(size) && RowLength(L, t) <= RowLength(size, t)
  {
    RowEnd(L, t);
    RowFits(size, t, RowLength(L, t));
  }

  /** `i / _maxWidth`: the row of element `i`. */
  function Row(i: nat): nat
  {
    i / 8000
  }

  /** `i - r * _maxWidth`: the place of element `i` within its row. */
  function Col(i: nat): nat
  {
    i % 8000
  }

  /** Element `i` sits at row `Row(i)`, column `Col(i)`, and every (row, column) pair with
      a column below 8000 names exactly one element. */
  lemma RowCol(i: nat, r: nat, c: int)
    ensures Col(i) < 8000 && Row(i) * 8000 + Col(i) == i
    ensures 0 <= c < 8000 ==> Row(r * 8000 + c) == r && Col(r * 8000 + c) == c
  {
  }

  /** Every element below `size` falls inside its row. */
  lemma Addressable(size: nat, k: nat)
    requires k < size
    ensures Row(k) < RowCount(size) && Col(k) < RowLength(size, Row(k))
  {
  }

  /** Row `t` has elements left to give: its position lies inside it. */
  ghost predicate Live(L: nat, p: seq<int>, t: int)
  {
    0 <= t < |p| && 0 <= p[t] < RowLength(L, t)
  }

  /** The positions fit the rows of `L`, from row `s` on. */
  ghost predicate InRows(L: nat, p: seq<int>, s: int)
  {
    |p| == RowCount(L) && forall t :: 0 <= s <= t < |p| ==> 0 <= p[t] <= RowLength(L, t)
  }

  /** The element at the head of live row `t`, `_M[t][positions[t]]`. */
  ghost function Head(c: seq<uint32>, L: nat, p: seq<int>, t: int): uint32
    requires L <= |c| && |p| == RowCount(L) && Live(L, p, t)
  {
    RowEnd(L, t);
    c[t * 8000 + p[t]]
  }

  /** `(v, m)` is what the inner loop of `SortTempSet` is meant to find from row `s` on:
      a live row `m` at or after `s` whose head `v` no live row from `s` on undercuts. */
  ghost predicate Smallest(c: seq<uint32>, L: nat, p: seq<int>, s: int, v: uint32, m: int, cmp: (uint32, uint32) -> int)
    requires L <= |c| && |p| == RowCount(L)
  {
    && s <= m && Live(L, p, m) && v == Head(c, L, p, m)
    && forall t :: s <= t < |p| && Live(L, p, t) ==> cmp(v, Head(c, L, p, t)) <= 0
  }

  /** What the inner loop of `SortTempSet` finds as written, starting from `minPosition =
      0`: the same smallest head `v`, but the row `m` it reports stays 0 unless a live row
      after `s` has a head strictly below row `s`'s. */
  ghost predicate PickedAsWritten(c: seq<uint32>, L: nat, p: seq<int>, s: int, v: uint32, m: int, cmp: (uint32, uint32) -> int)
    requires L <= |c| && |p| == RowCount(L) && Live(L, p, s)
  {
    && (forall t :: s <= t < |p| && Live(L, p, t) ==> cmp(v, Head(c, L, p, t)) <= 0)
    && (m == 0 <==> forall t :: s < t < |p| && Live(L, p, t) ==> !(cmp(Head(c, L, p, t), Head(c, L, p, s)) < 0))
    && (m == 0 ==> v == Head(c, L, p, s))
    && (m != 0 ==> s < m && Live(L, p, m) && v == Head(c, L, p, m))
  }

  /** From row 0 the pick as written is the intended pick: `minPosition` starts at the
      right row. */
  lemma AsWrittenAgreesFromRowZero(c: seq<uint32>, L: nat, p: seq<int>, v: uint32, m: int, cmp: (uint32, uint32) -> int)
    requires L <= |c| && |p| == RowCount(L) && Live(L, p, 0)
    requires PickedAsWritten(c, L, p, 0, v, m, cmp)
    ensures Smallest(c, L, p, 0, v, m, cmp)
  {
  }

  /** The number of elements taken: the sum of the positions. */
  function Sum(p: seq<int>): int
  {
    if |p| == 0 then 0 else Sum(p[..|p| - 1]) + p[|p| - 1]
  }

  /** Advancing one position takes one more element. */
  lemma {:induction false} SumAdvance(p: seq<int>, m: int)
    requires 0 <= m < |p|
    ensures Sum(p[m := p[m] + 1]) == Sum(p) + 1
  {
    var q := p[m := p[m] + 1];
    if m < |p| - 1 {
      assert q[..|q| - 1] == p[..|p| - 1][m := p[m] + 1];
      SumAdvance(p[..|p| - 1], m);
    } else {
      assert q[..|q| - 1] == p[..|p| - 1];
    }
  }

  /** No position exceeds its bound, so the sums are ordered, and equal sums mean equal
      positions. */
  lemma {:induction false} SumAtMost(p: seq<int>, q: seq<int>)
    requires |p| == |q| && forall t :: 0 <= t < |p| ==> p[t] <= q[t]
    ensures Sum(p) <= Sum(q)
    ensures Sum(p) == Sum(q) ==> p == q
  {
    if |p| > 0 {
      var n := |p| - 1;
      SumAtMost(p[..n], q[..n]);
      if Sum(p) == Sum(q) {
        assert p == p[..n] + [p[n]] && q == q[..n] + [q[n]];
      }
    }
  }

  /** The positions of the exhausted rows of `L`: every row given up in full. */
  function Exhausted(L: nat): (r: seq<int>)
    ensures |r| == RowCount(L) && forall t :: 0 <= t < |r| ==> r[t] == RowLength(L, t)
  {
    seq(RowCount(L), t => RowLength(L, t))
  }

  /** The first `n` rows hold `8000 * n` elements, and all rows hold `L`. */
  lemma {:induction false} ExhaustedSum(L: nat, n: nat)
    requires n <= RowCount(L)
    ensures Sum(Exhausted(L)[..n]) == if n < RowCount(L) then n * 8000 else L
  {
    if n > 0 {
      ExhaustedSum(L, n - 1);
      assert Exhausted(L)[..n][..n - 1] == Exhausted(L)[..n - 1];
    }
    if n == RowCount(L) {
      assert Exhausted(L)[..n] == Exhausted(L);
    }
  }

  /** `c[i]`, and 0 outside `c`. */
  function At(c: seq<uint32>, i: int): uint32
  {
    if 0 <= i < |c| then c[i] else 0
  }

  /** How many of the first `n` elements of `c` are `x`. */
  function CountBelow(c: seq<uint32>, n: int, x: uint32): nat
    decreases n
  {
    if n <= 0 then 0 else CountBelow(c, n - 1, x) + if At(c, n - 1) == x then 1 else 0
  }

  /** `CountBelow` is the multiplicity of `x` in the first `n` elements. */
  lemma {:induction false} CountBelowIsMultiset(c: seq<uint32>, n: nat, x: uint32)
    requires n <= |c|
    ensures CountBelow(c, n, x) == multiset(c[..n])[x]
  {
    if n > 0 {
      CountBelowIsMultiset(c, n - 1, x);
      assert c[..n] == c[..n - 1] + [c[n - 1]];
    }
  }

  /** How many of the elements given up so far by the first `n` rows (the first `p[t]` of
      row `t`, `c[8000 * t..8000 * t + p[t]]`) are `x`. */
  function Taken(c: seq<uint32>, p: seq<int>, n: nat, x: uint32): int
    requires n <= |p|
  {
    if n == 0 then 0
    else Taken(c, p, n - 1, x) + CountBelow(c, (n - 1) * 8000 + p[n - 1], x) - CountBelow(c, (n - 1) * 8000, x)
  }

  /** What the first `n` rows have given up depends on their positions only. */
  lemma {:induction false} TakenAgree(c: seq<uint32>, p: seq<int>, q: seq<int>, n: nat, x: uint32)
    requires n <= |p| && n <= |q| && forall t :: 0 <= t < n ==> p[t] == q[t]
    ensures Taken(c, p, n, x) == Taken(c, q, n, x)
  {
    if n > 0 {
      TakenAgree(c, p, q, n - 1, x);
    }
  }

  /** Advancing row `m` takes the element at its position. */
  lemma {:induction false} TakenAdvance(c: seq<uint32>, p: seq<int>, m: int, n: nat, x: uint32)
    requires 0 <= m < n <= |p| && 0 <= p[m]
    ensures Taken(c, p[m := p[m] + 1], n, x) == Taken(c, p, n, x) + if At(c, m * 8000 + p[m]) == x then 1 else 0
  {
    var q := p[m := p[m] + 1];
    if m == n - 1 {
      TakenAgree(c, p, q, m, x);
      var e := m * 8000 + q[m];
      assert CountBelow(c, e, x) == CountBelow(c, e - 1, x) + if At(c, e - 1) == x then 1 else 0;
    } else {
      TakenAdvance(c, p, m, n - 1, x);
      assert q[n - 1] == p[n - 1];
    }
  }

  /** `n` full rows, all given up, have given up the elements before row `n`. */
  lemma {:induction false} TakenFullRows(c: seq<uint32>, e: seq<int>, n: nat, b: int, x: uint32)
    requires n <= |e| && forall t :: 0 <= t < n ==> e[t] == 8000
    requires b == n * 8000
    ensures Taken(c, e, n, x) == CountBelow(c, b, x)
  {
    if n > 0 {
      TakenFullRows(c, e, n - 1, b - 8000, x);
      assert (n - 1) * 8000 + e[n - 1] == b;
    }
  }

  /** Once every row is exhausted, the rows have given up the first `L` elements. */
  lemma TakenExhausted(c: seq<uint32>, L: nat, x: uint32)
    requires L <= |c|
    ensures Taken(c, Exhausted(L), RowCount(L), x) == multiset(c[..L])[x]
  {
    var e, r := Exhausted(L), RowCount(L) - 1;
    TakenFullRows(c, e, r, r * 8000, x);
    assert r * 8000 + e[r] == L;
    CountBelowIsMultiset(c, L, x);
  }

  /** No row is taken from at all. */
  lemma {:induction false} NothingTaken(c: seq<uint32>, L: nat, z: seq<int>, n: nat)
    requires L <= |c| && n <= RowCount(L) && z == seq(RowCount(L), _ => 0)
    ensures Sum(z[..n]) == 0
    ensures forall x :: Taken(c, z, n, x) == 0
  {
    if n > 0 {
      NothingTaken(c, L, z, n - 1);
      assert z[..n][..n - 1] == z[..n - 1];
    }
    if n == RowCount(L) {
      assert z[..n] == z;
    }
  }

  /** Each row of `c` under the rows of `L` is ascending. */
  ghost predicate RowsSorted(c: seq<uint32>, L: nat, cmp: (uint32, uint32) -> int)
    requires L <= |c|
  {
    forall t :: 0 <= t < RowCount(L) ==> Sorted(c, t * 8000, t * 8000 + RowLength(L, t), cmp)
  }

  /** The state of the merge after `|out|` rounds: `out`, the elements written so far, is
      ascending, holds exactly what the rows have given up, and is not above any row's
      head. */
  ghost predicate Merging(c: seq<uint32>, L: nat, p: seq<int>, out: seq<uint32>, cmp: (uint32, uint32) -> int)
    requires L <= |c|
  {
    && InRows(L, p, 0)
    && |out| == Sum(p)
    && Sorted(out, 0, |out|, cmp)
    && (forall x :: multiset(out)[x] == Taken(c, p, |p|, x))
    && (|out| > 0 ==> forall t :: Live(L, p, t) ==> cmp(out[|out| - 1], Head(c, L, p, t)) <= 0)
  }

  /** The merge starts with nothing written and every position 0. */
  lemma MergeStart(c: seq<uint32>, L: nat, cmp: (uint32, uint32) -> int)
    requires L <= |c|
    ensures Merging(c, L, seq(RowCount(L), _ => 0), [], cmp)
  {
    var z := seq(RowCount(L), _ => 0);
    NothingTaken(c, L, z, RowCount(L));
    assert z[..|z|] == z;
  }

  /** While elements remain, the row the skip loop of `SortTempSet` stops at (the first
      from `s` whose position is below 8000) is live: a last row at its end would mean
      every row is exhausted. */
  lemma SkipLands(c: seq<uint32>, L: nat, p: seq<int>, out: seq<uint32>, s: int, cmp: (uint32, uint32) -> int)
    requires L <= |c| && Merging(c, L, p, out, cmp) && |out| < L
    requires 0 <= s < |p| && p[s] < 8000
    requires forall t :: 0 <= t < s ==> !Live(L, p, t)
    ensures Live(L, p, s)
  {
    if !Live(L, p, s) {
      assert s == |p| - 1;
      forall t | 0 <= t < |p|
        ensures p[t] == Exhausted(L)[t]
      {
        if t < s {
          assert !Live(L, p, t);
        }
      }
      assert p == Exhausted(L) == Exhausted(L)[..RowCount(L)];
      ExhaustedSum(L, RowCount(L));
    }
  }

  /** Writing `v` keeps the output ascending when `v` is not below its last element. */
  lemma SortedSnoc(out: seq<uint32>, v: uint32, cmp: (uint32, uint32) -> int)
    requires Sorted(out, 0, |out|, cmp) && (|out| > 0 ==> cmp(out[|out| - 1], v) <= 0)
    ensures Sorted(out + [v], 0, |out| + 1, cmp)
  {
    var out' := out + [v];
    forall k | 0 <= k && k + 1 < |out'|
      ensures cmp(out'[k], out'[k + 1]) <= 0
    {
      if k + 1 < |out| {
        assert out'[k] == out[k] && out'[k + 1] == out[k + 1];
      }
    }
  }

  /** After taking the smallest head `v` from row `m`, no head is below `v`: the other
      heads were not, and row `m`'s next element follows `v` in its ascending row. */
  lemma HeadsAfter(c: seq<uint32>, L: nat, p: seq<int>, q: seq<int>, s: int, v: uint32, m: int,
                   cmp: (uint32, uint32) -> int)
    requires L <= |c| && RowsSorted(c, L, cmp) && InRows(L, p, 0) && Smallest(c, L, p, s, v, m, cmp)
    requires forall t :: 0 <= t < s ==> !Live(L, p, t)
    requires q == p[m := p[m] + 1]
    ensures forall t :: Live(L, q, t) ==> cmp(v, Head(c, L, q, t)) <= 0
  {
    forall t | Live(L, q, t)
      ensures cmp(v, Head(c, L, q, t)) <= 0
    {
      if t == m {
        RowEnd(L, m);
        var k := m * 8000 + p[m];
        assert Head(c, L, q, t) == c[k + 1];
        assert m * 8000 <= k && k + 1 < m * 8000 + RowLength(L, m);
      } else {
        assert Live(L, p, t) && Head(c, L, q, t) == Head(c, L, p, t);
      }
    }
  }

  /** After taking `v` from row `m`, the output and the rows agree on every count. */
  lemma CountsAfter(c: seq<uint32>, L: nat, p: seq<int>, out: seq<uint32>, v: uint32, m: int)
    requires L <= |c| && InRows(L, p, 0) && Live(L, p, m) && v == Head(c, L, p, m)
    requires forall x :: multiset(out)[x] == Taken(c, p, |p|, x)
    ensures forall x :: multiset(out + [v])[x] == Taken(c, p[m := p[m] + 1], |p|, x)
  {
    RowEnd(L, m);
    assert At(c, m * 8000 + p[m]) == v;
    forall x
      ensures multiset(out + [v])[x] == Taken(c, p[m := p[m] + 1], |p|, x)
    {
      TakenAdvance(c, p, m, |p|, x);
    }
  }

  /** One round of the merge: taking the smallest head `v` from row `m` (with the rows
      before `s` exhausted) keeps the merge state, one element further. */
  lemma MergeAdvance(c: seq<uint32>, L: nat, p: seq<int>, out: seq<uint32>, s: int, v: uint32, m: int,
                     cmp: (uint32, uint32) -> int)
    requires L <= |c| && ValidComparer(cmp) && RowsSorted(c, L, cmp)
    requires Merging(c, L, p, out, cmp) && Smallest(c, L, p, s, v, m, cmp)
    requires forall t :: 0 <= t < s ==> !Live(L, p, t)
    ensures Merging(c, L, p[m := p[m] + 1], out + [v], cmp)
  {
    SumAdvance(p, m);
    SortedSnoc(out, v, cmp);
    HeadsAfter(c, L, p, p[m := p[m] + 1], s, v, m, cmp);
    CountsAfter(c, L, p, out, v, m);
  }

  /** When `L` elements have been written, every row is exhausted and the output holds
      exactly the first `L` elements. */
  lemma MergeDone(c: seq<uint32>, L: nat, p: seq<int>, out: seq<uint32>, cmp: (uint32, uint32) -> int)
    requires L <= |c| && Merging(c, L, p, out, cmp) && |out| == L
    ensures multiset(out) == multiset(c[..L])
  {
    var e := Exhausted(L);
    ExhaustedSum(L, RowCount(L));
    assert e[..|e|] == e;
    SumAtMost(p, e);
    forall x
      ensures multiset(out)[x] == multiset(c[..L])[x]
    {
      TakenExhausted(c, L, x);
    }
  }

  /** The input that shows the pick as written going wrong: 8002 elements, row 0 eight
      thousand zeros and row 1 the values 1 and 2. The first 8000 rounds take the zeros
      from row 0 (`AsWrittenAgreesFromRowZero`), which leaves the positions at `[8000,
      0]` and moves `start_t` to row 1. From there, as written, the pick reports row 0,
      so `positions[0]` is advanced and row 1 keeps its head: both remaining rounds write
      1, and the result, 8000 zeros then 1 and 1, is not a rearrangement of the input. */
  lemma SortTempSetAsWrittenRepeats(cmp: (uint32, uint32) -> int)
    ensures var c, L := seq(8000, _ => 0) + [1, 2], 8002;
      && (forall v, m :: PickedAsWritten(c, L, [8000, 0], 1, v, m, cmp) ==> v == 1 && m == 0)
      && (forall v, m :: PickedAsWritten(c, L, [8001, 0], 1, v, m, cmp) ==> v == 1 && m == 0)
      && multiset(seq(8000, _ => 0) + [1, 1]) != multiset(c)
  {
    var z: seq<uint32> := seq(8000, _ => 0);
    var c, L := z + [1, 2], 8002;
    assert RowCount(L) == 2 && RowLength(L, 1) == 2;
    assert c[8000] == 1;
    assert 1 !in z;
    assert multiset(z + [1, 1])[1] == 2;
  }
}
