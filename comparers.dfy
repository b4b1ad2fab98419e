// Comparers in the style of `IComparer<T>.Compare` (negative, zero or positive), and
// what sorting with one means: ascending order and a permutation within a range.

module Comparers {
  /** A consistent comparer, as `Array.Sort` and the introsort demand of theirs: the
      sign flips when the arguments are exchanged, and "not greater" is transitive. */
  ghost predicate ValidComparer<T(!new)>(cmp: (T, T) -> int)
  {
    && (forall x, y :: cmp(x, y) < 0 <==> cmp(y, x) > 0)
    && (forall x, y, z :: TransitiveAt(cmp, x, y, z))
  }

  /** Transitivity of "not greater" at `x`, `y`, `z`. (A named instance, so that the
      prover applies transitivity only where a proof asks for it.) */
  ghost predicate TransitiveAt<T>(cmp: (T, T) -> int, x: T, y: T, z: T)
  {
    cmp(x, y) <= 0 && cmp(y, z) <= 0 ==> cmp(x, z) <= 0
  }

  /** `s[lo..hi]` is ascending under `cmp`: no element is greater than the next. */
  ghost predicate Sorted<T>(s: seq<T>, lo: int, hi: int, cmp: (T, T) -> int)
    requires 0 <= lo && hi <= |s|
  {
    forall k :: lo <= k && k + 1 < hi ==> cmp(s[k], s[k + 1]) <= 0
  }

  /** The elements of `s` counted with their multiplicities, last element first. (The
      same as `multiset(s)`, as `BagIsMultiset` shows; written out recursively so that
      the prover looks inside only where a proof asks for it.) */
  ghost function Bag<T>(s: seq<T>): multiset<T>
  {
    if |s| == 0 then multiset{} else Bag(s[..|s| - 1]) + multiset{s[|s| - 1]}
  }

  lemma {:induction false} BagIsMultiset<T>(s: seq<T>)
    ensures Bag(s) == multiset(s)
  {
    if |s| > 0 {
      BagIsMultiset(s[..|s| - 1]);
      assert s == s[..|s| - 1] + [s[|s| - 1]];
    }
  }

  /** `s` is `t` with the elements of `[lo, hi)` rearranged and the rest untouched. */
  ghost predicate Perm<T>(s: seq<T>, t: seq<T>, lo: int, hi: int)
  {
    && |s| == |t|
    && Bag(s) == Bag(t)
    && (forall k :: 0 <= k < |s| && !(lo <= k < hi) ==> s[k] == t[k])
  }

  /** No element compares below itself, and "not less" is "not greater" the other way. */
  lemma Reflexive<T(!new)>(cmp: (T, T) -> int, x: T, y: T)
    requires ValidComparer(cmp)
    ensures cmp(x, x) == 0
    ensures cmp(x, y) >= 0 <==> cmp(y, x) <= 0
  {
  }

  /** Two ascending ranges that meet in order make one. */
  lemma SortedJoin<T>(s: seq<T>, lo: int, mid: int, hi: int, cmp: (T, T) -> int)
    requires 0 <= lo <= mid <= hi <= |s|
    requires Sorted(s, lo, mid, cmp) && Sorted(s, mid, hi, cmp)
    requires lo < mid < hi ==> cmp(s[mid - 1], s[mid]) <= 0
    ensures Sorted(s, lo, hi, cmp)
  {
  }

  /** A rearrangement within a range keeps the multiset of that range. */
  lemma PermSlice<T>(s: seq<T>, t: seq<T>, lo: int, hi: int)
    requires 0 <= lo <= hi <= |s| && Perm(s, t, lo, hi)
    ensures multiset(s[lo..hi]) == multiset(t[lo..hi])
  {
    BagIsMultiset(s);
    BagIsMultiset(t);
    SliceMultiset(s, t, lo, hi);
  }

  lemma SliceMultiset<T>(s: seq<T>, t: seq<T>, lo: int, hi: int)
    requires 0 <= lo <= hi <= |s| == |t| && multiset(s) == multiset(t)
    requires forall k :: 0 <= k < |s| && !(lo <= k < hi) ==> s[k] == t[k]
    ensures multiset(s[lo..hi]) == multiset(t[lo..hi])
  {
    assert s == s[..lo] + s[lo..hi] + s[hi..];
    assert t == t[..lo] + t[lo..hi] + t[hi..];
    assert s[..lo] == t[..lo];
    assert s[hi..] == t[hi..];
    assert multiset(s) == multiset(s[..lo]) + multiset(s[lo..hi]) + multiset(s[hi..]);
    assert multiset(t) == multiset(t[..lo]) + multiset(t[lo..hi]) + multiset(t[hi..]);
    forall x
      ensures multiset(s[lo..hi])[x] == multiset(t[lo..hi])[x]
    {
      assert multiset(s)[x] == multiset(t)[x];
    }
  }

  /** What holds of every element of a range still holds after rearranging it. */
  lemma PermBound<T>(s: seq<T>, t: seq<T>, lo: int, hi: int, P: T -> bool)
    requires 0 <= lo <= hi <= |s| && Perm(s, t, lo, hi)
    requires forall k :: lo <= k < hi ==> P(t[k])
    ensures forall k :: lo <= k < hi ==> P(s[k])
  {
    PermSlice(s, t, lo, hi);
    forall k | lo <= k < hi
      ensures P(s[k])
    {
      assert s[k] == s[lo..hi][k - lo];
      assert s[k] in multiset(t[lo..hi]);
      var k' :| lo <= k' < hi && t[k'] == s[k];
    }
  }

  /** No element of `s[lo..hi]` is greater than `x`. */
  ghost predicate Below<T>(s: seq<T>, lo: int, hi: int, x: T, cmp: (T, T) -> int)
    requires 0 <= lo && hi <= |s|
  {
    forall k :: lo <= k < hi ==> cmp(s[k], x) <= 0
  }

  /** No element of `s[lo..hi]` is less than `x`. */
  ghost predicate Above<T>(s: seq<T>, lo: int, hi: int, x: T, cmp: (T, T) -> int)
    requires 0 <= lo && hi <= |s|
  {
    forall k :: lo <= k < hi ==> cmp(x, s[k]) <= 0
  }

  lemma PermBelow<T>(s: seq<T>, t: seq<T>, lo: int, hi: int, x: T, cmp: (T, T) -> int)
    requires 0 <= lo <= hi <= |s| && Perm(s, t, lo, hi) && Below(t, lo, hi, x, cmp)
    ensures Below(s, lo, hi, x, cmp)
  {
    PermBound(s, t, lo, hi, y => cmp(y, x) <= 0);
  }

  lemma PermAbove<T>(s: seq<T>, t: seq<T>, lo: int, hi: int, x: T, cmp: (T, T) -> int)
    requires 0 <= lo <= hi <= |s| && Perm(s, t, lo, hi) && Above(t, lo, hi, x, cmp)
    ensures Above(s, lo, hi, x, cmp)
  {
    PermBound(s, t, lo, hi, y => cmp(x, y) <= 0);
  }

  /** Exchanging two places of a range rearranges that range. */
  lemma SwapPerm<T>(s: seq<T>, i: int, j: int, lo: int, hi: int)
    requires lo <= i < hi && lo <= j < hi && 0 <= i < |s| && 0 <= j < |s|
    ensures Perm(s[i := s[j]][j := s[i]], s, lo, hi)
  {
    var r := s[i := s[j]][j := s[i]];
    BagIsMultiset(s);
    BagIsMultiset(r);
    SwapMultiset(s, i, j);
  }

  lemma SwapMultiset<T>(s: seq<T>, i: int, j: int)
    requires 0 <= i < |s| && 0 <= j < |s|
    ensures multiset(s[i := s[j]][j := s[i]]) == multiset(s)
  {
  }

  lemma PermRefl<T>(s: seq<T>, lo: int, hi: int)
    ensures Perm(s, s, lo, hi)
  {
  }

  /** Rearrangements compose, within a range that covers both. */
  lemma PermTrans<T>(s: seq<T>, t: seq<T>, u: seq<T>, lo: int, hi: int, lo': int, hi': int)
    requires Perm(s, t, lo, hi) && Perm(t, u, lo', hi')
    ensures Perm(s, u, if lo < lo' then lo else lo', if hi < hi' then hi' else hi)
  {
  }

  /** `c` is `c0` with `c0[h..e]` moved up one place (whatever is at `h`). */
  ghost predicate ShiftedFrom<T>(c: seq<T>, c0: seq<T>, h: int, e: int)
  {
    && |c| == |c0|
    && (forall k :: 0 <= k < |c| && (k < h || e < k) ==> c[k] == c0[k])
    && (forall k :: 0 < k < |c| && h < k <= e ==> c[k] == c0[k - 1])
  }

  /** Moving the element below the hole into it moves the hole down by one. */
  lemma ShiftedDown<T>(c: seq<T>, c0: seq<T>, h: int, e: int)
    requires 0 <= h < e < |c| && ShiftedFrom(c, c0, h + 1, e)
    ensures ShiftedFrom(c[h + 1 := c[h]], c0, h, e)
  {
  }

  /** Filling the place left at `h` with the element that was at `e` rotates
      `c0[h..e + 1]` by one: a rearrangement of that range (and of any range
      `[lo, e + 1)` around it). */
  lemma RotatedPerm<T>(c: seq<T>, c0: seq<T>, lo: int, h: int, e: int)
    requires lo <= h && 0 <= h <= e < |c0| && ShiftedFrom(c, c0, h, e)
    ensures Perm(c[h := c0[e]], c0, lo, e + 1)
  {
    var r := c[h := c0[e]];
    assert r == c0[..h] + [c0[e]] + c0[h..e] + c0[e + 1..];
    RotatedMultiset(c0, h, e);
    BagIsMultiset(r);
    BagIsMultiset(c0);
  }

  lemma RotatedMultiset<T>(c0: seq<T>, h: int, e: int)
    requires 0 <= h <= e < |c0|
    ensures multiset(c0[..h] + [c0[e]] + c0[h..e] + c0[e + 1..]) == multiset(c0)
  {
    assert c0 == c0[..h] + c0[h..e] + [c0[e]] + c0[e + 1..];
  }

  /** The state of an insertion's inner loop with the hole at `j + 1`: `[lo, j]` and
      `[j + 2, i + 1]` ascending, the shifted elements all greater than `t`, and the
      two parts in order across the hole. */
  ghost predicate Shifted<T>(c: seq<T>, lo: int, j: int, i: int, t: T, cmp: (T, T) -> int)
    requires 0 <= lo && lo - 1 <= j <= i && i + 2 <= |c|
  {
    && Sorted(c, lo, j + 1, cmp)
    && Sorted(c, j + 2, i + 2, cmp)
    && (forall k :: j + 2 <= k <= i + 1 ==> cmp(t, c[k]) < 0)
    && (lo <= j && j + 2 <= i + 1 ==> cmp(c[j], c[j + 2]) <= 0)
  }

  /** Shifting `c[j]`, greater than `t`, into the hole moves the hole down. */
  lemma ShiftStep<T(!new)>(c: seq<T>, lo: int, j: int, i: int, t: T, cmp: (T, T) -> int)
    requires 0 <= lo <= j <= i && i + 2 <= |c| && ValidComparer(cmp)
    requires Shifted(c, lo, j, i, t, cmp) && cmp(t, c[j]) < 0
    ensures Shifted(c[j + 1 := c[j]], lo, j - 1, i, t, cmp)
  {
  }

  /** Once `t` is not less than `c[j]` (or the sorted part is exhausted), `t` fills
      the hole and `[lo, i + 1]` is ascending. */
  lemma Place<T(!new)>(c: seq<T>, lo: int, j: int, i: int, t: T, cmp: (T, T) -> int)
    requires 0 <= lo && lo - 1 <= j <= i && i + 2 <= |c| && ValidComparer(cmp)
    requires Shifted(c, lo, j, i, t, cmp) && (j >= lo ==> cmp(t, c[j]) >= 0)
    ensures Sorted(c[j + 1 := t], lo, i + 2, cmp)
  {
  }

  /** Exchanging two places of a rearranged range keeps it a rearrangement. */
  lemma SwapKeepsPerm<T>(s: seq<T>, t: seq<T>, i: int, j: int, lo: int, hi: int)
    requires Perm(s, t, lo, hi) && lo <= i < hi && lo <= j < hi && 0 <= i < |s| && 0 <= j < |s|
    ensures Perm(s[i := s[j]][j := s[i]], t, lo, hi)
  {
    SwapPerm(s, i, j, lo, hi);
    PermTrans(s[i := s[j]][j := s[i]], s, t, lo, hi, lo, hi);
  }
}
