// The introspective sort of `ChunkedArray<T>` (a copy of the .NET `Array.Sort`
// introsort working through the chunked indexer): insertion sort for small ranges,
// heapsort once the recursion depth runs out, quicksort with a median-of-three pivot
// otherwise. Every method works on `keys.contents` through `Get` and `Set`.

module ChunkedSort {
  import opened Comparers
  import opened Chunked
  import opened FixedWidth
  import UInt32

  /** `IntrospectiveSortUtilities.IntrosortSizeThreshold`: ranges of at most this many
      elements are sorted without partitioning. */
  const IntrosortSizeThreshold: int := 16

  /** `FloorLog2(n)`: halves `n` until it is 0, counting the halvings; despite its name
      this is the number of binary digits of `n`, one more than the floor of log2. */
  method FloorLog2(n: int) returns (result: int)
    ensures n <= 0 ==> result == 0
    ensures n > 0 ==> result == UInt32.BitLength(n) && Pow2(result - 1) <= n < Pow2(result)
  {
    result := 0;
    var m := n;
    while m >= 1
      invariant n <= 0 ==> m == n && result == 0
      invariant n > 0 ==> m >= 0 && result + UInt32.BitLength(m) == UInt32.BitLength(n)
    {
      result := result + 1;
      m := m / 2;
    }
    if n > 0 {
      UInt32.BitLengthBounds(n);
    }
  }

  /** `Swap(a, i, j)`: exchanges two elements (nothing changes when `i == j`). */
  method Swap<T(==)>(keys: ChunkedArray<T>, i: int, j: int)
    requires keys.Represents() && 0 <= i < keys.capacity && 0 <= j < keys.capacity
    modifies keys`contents, keys.Rows()
    ensures keys.Represents()
    ensures keys.contents == old(keys.contents)[i := old(keys.contents)[j]][j := old(keys.contents)[i]]
  {
    if i != j {
      var t := keys.Get(i);
      keys.Set(i, keys.Get(j));
      keys.Set(j, t);
    }
  }

  /** `SwapIfGreater(keys, comparer, a, b)`: puts the two elements in order. */
  method SwapIfGreater<T(==,!new)>(keys: ChunkedArray<T>, cmp: (T, T) -> int, a: int, b: int)
    requires keys.Represents()
    requires 0 <= a < keys.capacity && 0 <= b < keys.capacity
    modifies keys`contents, keys.Rows()
    ensures keys.Represents()
    ensures keys.contents == SwappedIfGreater(old(keys.contents), a, b, cmp)
  {
    if a != b {
      if cmp(keys.Get(a), keys.Get(b)) > 0 {
        var key := keys.Get(a);
        keys.Set(a, keys.Get(b));
        keys.Set(b, key);
      }
    }
  }

  /** The elements after `SwapIfGreater(a, b)`: `a` and `b` exchanged when they are
      distinct and out of order. */
  ghost function SwappedIfGreater<T>(c: seq<T>, a: int, b: int, cmp: (T, T) -> int): seq<T>
    requires 0 <= a < |c| && 0 <= b < |c|
  {
    if a != b && cmp(c[a], c[b]) > 0 then c[a := c[b]][b := c[a]] else c
  }

  /** After `SwapIfGreater(a, b)` the two are in order, and the range between them is
      rearranged. */
  lemma SwapIfGreaterOrders<T(!new)>(c: seq<T>, a: int, b: int, cmp: (T, T) -> int)
    requires 0 <= a < |c| && 0 <= b < |c| && ValidComparer(cmp)
    ensures a != b ==> cmp(SwappedIfGreater(c, a, b, cmp)[a], SwappedIfGreater(c, a, b, cmp)[b]) <= 0
    ensures Perm(SwappedIfGreater(c, a, b, cmp), c, if a < b then a else b, if a < b then b + 1 else a + 1)
  {
    if a != b && cmp(c[a], c[b]) > 0 {
      SwapPerm(c, a, b, if a < b then a else b, if a < b then b + 1 else a + 1);
    }
  }

  /** The elements after `SwapIfGreater(a, b)`, `SwapIfGreater(a, c)` and
      `SwapIfGreater(b, c)`. */
  ghost function ThreeSwapped<T>(s: seq<T>, a: int, b: int, c: int, cmp: (T, T) -> int): seq<T>
    requires 0 <= a < |s| && 0 <= b < |s| && 0 <= c < |s|
  {
    SwappedIfGreater(SwappedIfGreater(SwappedIfGreater(s, a, b, cmp), a, c, cmp), b, c, cmp)
  }

  /** The three `SwapIfGreater` calls put `a < b < c` in order, rearranging `[a, c]`. */
  lemma ThreeSwappedOrders<T(!new)>(s: seq<T>, a: int, b: int, c: int, cmp: (T, T) -> int)
    requires 0 <= a < b < c < |s| && ValidComparer(cmp)
    ensures cmp(ThreeSwapped(s, a, b, c, cmp)[a], ThreeSwapped(s, a, b, c, cmp)[b]) <= 0
    ensures cmp(ThreeSwapped(s, a, b, c, cmp)[b], ThreeSwapped(s, a, b, c, cmp)[c]) <= 0
    ensures Perm(ThreeSwapped(s, a, b, c, cmp), s, a, c + 1)
  {
    var s1 := SwappedIfGreater(s, a, b, cmp);
    var s2 := SwappedIfGreater(s1, a, c, cmp);
    var s3 := SwappedIfGreater(s2, b, c, cmp);
    SwapIfGreaterOrders(s, a, b, cmp);
    SwapIfGreaterOrders(s1, a, c, cmp);
    SwapIfGreaterOrders(s2, b, c, cmp);
    assert TransitiveAt(cmp, s1[c], s1[a], s1[b]);
    PermTrans(s3, s2, s1, b, c + 1, a, c + 1);
    PermTrans(s3, s1, s, a, c + 1, a, b + 1);
  }

  /** `InsertionSort(keys, lo, hi, comparer)`: sorts `[lo, hi]` by inserting each
      element into the sorted part before it. */
  method InsertionSort<T(==,!new)>(keys: ChunkedArray<T>, lo: int, hi: int, cmp: (T, T) -> int)
    requires keys.Represents() && ValidComparer(cmp)
    requires 0 <= lo <= hi + 1 <= keys.capacity
    modifies keys`contents, keys.Rows()
    ensures keys.Represents()
    ensures Sorted(keys.contents, lo, hi + 1, cmp)
    ensures Perm(keys.contents, old(keys.contents), lo, hi + 1)
  {
    ghost var c0 := keys.contents;
    var i := lo;
    while i < hi
      invariant keys.Represents() && |keys.contents| == keys.capacity
      invariant lo <= i && (i <= hi || i == lo)
      invariant Sorted(keys.contents, lo, if i < hi then i + 1 else hi + 1, cmp)
      invariant Perm(keys.contents, c0, lo, hi + 1)
    {
      ghost var before := keys.contents;
      Insert(keys, lo, i, cmp);
      PermTrans(keys.contents, before, c0, lo, i + 2, lo, hi + 1);
      i := i + 1;
    }
  }

  /** One pass of the outer loop of `InsertionSort`: element `i + 1` is inserted into
      the sorted `[lo, i]`, the greater elements shifted up by one. */
  method Insert<T(==,!new)>(keys: ChunkedArray<T>, lo: int, i: int, cmp: (T, T) -> int)
    requires keys.Represents() && ValidComparer(cmp)
    requires 0 <= lo <= i && i + 1 < keys.capacity
    requires Sorted(keys.contents, lo, i + 1, cmp)
    modifies keys`contents, keys.Rows()
    ensures keys.Represents()
    ensures Sorted(keys.contents, lo, i + 2, cmp)
    ensures Perm(keys.contents, old(keys.contents), lo, i + 2)
  {
    ghost var c0 := keys.contents;
    var j := i;
    var t := keys.Get(i + 1);
    ghost var hole := i + 1;
    while j >= lo && cmp(t, keys.Get(j)) < 0
      invariant keys.Represents() && |keys.contents| == keys.capacity
      invariant lo - 1 <= j <= i && hole == j + 1
      invariant ShiftedFrom(keys.contents, c0, hole, i + 1)
      invariant Shifted(keys.contents, lo, j, i, t, cmp)
    {
      hole := j;
      j := ShiftUp(keys, lo, j, i, t, c0, cmp);
    }
    Fill(keys, lo, j, i, t, c0, cmp);
  }

  /** The body of `Insert`'s inner loop: `keys[j + 1] = keys[j]`, the hole moving down. */
  method ShiftUp<T(==,!new)>(keys: ChunkedArray<T>, lo: int, j: int, i: int, t: T, ghost c0: seq<T>, cmp: (T, T) -> int)
    returns (j': int)
    requires keys.Represents() && |keys.contents| == keys.capacity && ValidComparer(cmp)
    requires 0 <= lo <= j <= i && i + 1 < keys.capacity
    requires ShiftedFrom(keys.contents, c0, j + 1, i + 1)
    requires Shifted(keys.contents, lo, j, i, t, cmp) && cmp(t, keys.contents[j]) < 0
    modifies keys`contents, keys.Rows()
    ensures keys.Represents() && |keys.contents| == keys.capacity
    ensures j' == j - 1
    ensures ShiftedFrom(keys.contents, c0, j, i + 1)
    ensures Shifted(keys.contents, lo, j', i, t, cmp)
  {
    ghost var next := keys.contents[j + 1 := keys.contents[j]];
    ShiftStep(keys.contents, lo, j, i, t, cmp);
    ShiftedDown(keys.contents, c0, j, i + 1);
    keys.Set(j + 1, keys.Get(j));
    assert keys.contents == next;
    j' := j - 1;
  }

  /** After `Insert`'s inner loop: `keys[j + 1] = t`. */
  method Fill<T(==,!new)>(keys: ChunkedArray<T>, lo: int, j: int, i: int, t: T, ghost c0: seq<T>, cmp: (T, T) -> int)
    requires keys.Represents() && |keys.contents| == keys.capacity && ValidComparer(cmp)
    requires 0 <= lo && lo - 1 <= j <= i && i + 1 < keys.capacity && |c0| == keys.capacity
    requires ShiftedFrom(keys.contents, c0, j + 1, i + 1) && t == c0[i + 1]
    requires Shifted(keys.contents, lo, j, i, t, cmp) && (j >= lo ==> cmp(t, keys.contents[j]) >= 0)
    modifies keys`contents, keys.Rows()
    ensures keys.Represents()
    ensures Sorted(keys.contents, lo, i + 2, cmp)
    ensures Perm(keys.contents, c0, lo, i + 2)
  {
    ghost var next := keys.contents[j + 1 := t];
    Place(keys.contents, lo, j, i, t, cmp);
    RotatedPerm(keys.contents, c0, lo, j + 1, i + 1);
    keys.Set(j + 1, t);
    assert keys.contents == next;
  }

  /** `Sort(keys, index, length, comparer)`: sorts the `length` elements from `index`;
      fewer than two elements are left as they are. */
  method Sort<T(==,!new)>(keys: ChunkedArray<T>, index: int, length: int, cmp: (T, T) -> int)
    requires keys.Represents() && ValidComparer(cmp)
    requires length >= 2 ==> 0 <= index && index + length <= keys.capacity
    modifies keys`contents, keys.Rows()
    ensures keys.Represents()
    ensures length < 2 ==> keys.contents == old(keys.contents)
    ensures length >= 2 ==> Sorted(keys.contents, index, index + length, cmp)
    ensures length >= 2 ==> Perm(keys.contents, old(keys.contents), index, index + length)
  {
    IntrospectiveSort(keys, index, length, cmp);
  }

  /** `IntrospectiveSort(keys, left, length, comparer)`: the introsort of
      `[left, left + length - 1]`, with a depth limit of twice `FloorLog2` of the whole
      array's `Length`. */
  method IntrospectiveSort<T(==,!new)>(keys: ChunkedArray<T>, left: int, length: int, cmp: (T, T) -> int)
    requires keys.Represents() && ValidComparer(cmp)
    requires length >= 2 ==> 0 <= left && left + length <= keys.capacity
    modifies keys`contents, keys.Rows()
    ensures keys.Represents()
    ensures length < 2 ==> keys.contents == old(keys.contents)
    ensures length >= 2 ==> Sorted(keys.contents, left, left + length, cmp)
    ensures length >= 2 ==> Perm(keys.contents, old(keys.contents), left, left + length)
  {
    if length < 2 {
      return;
    }
    var log := FloorLog2(keys.length);
    IntroSort(keys, left, length + left - 1, 2 * log, cmp);
  }

  /** `IntroSort(keys, lo, hi, depthLimit, comparer)`: sorts `[lo, hi]`. Small ranges
      are finished by `SwapIfGreater` or `InsertionSort`, a range met with no depth left
      by `Heapsort`; otherwise the range is partitioned, the part above the pivot sorted
      recursively and the part below it sorted by the next round of the loop. */
  method IntroSort<T(==,!new)>(keys: ChunkedArray<T>, lo: int, hi: int, depthLimit: int, cmp: (T, T) -> int)
    requires keys.Represents() && ValidComparer(cmp)
    requires 0 <= lo <= hi + 1 <= keys.capacity
    modifies keys`contents, keys.Rows()
    ensures keys.Represents()
    ensures Sorted(keys.contents, lo, hi + 1, cmp)
    ensures Perm(keys.contents, old(keys.contents), lo, hi + 1)
    decreases hi - lo
  {
    ghost var c0 := keys.contents;
    PermRefl(c0, lo, hi + 1);
    var top := hi;
    var depth := depthLimit;
    while top > lo
      invariant keys.Represents() && |keys.contents| == keys.capacity
      invariant lo <= top + 1 && top <= hi
      invariant SortedAbove(keys.contents, lo, top, hi, cmp)
      invariant Perm(keys.contents, c0, lo, hi + 1)
      decreases top - lo
    {
      var partitionSize := top - lo + 1;
      ghost var before := keys.contents;
      if partitionSize <= IntrosortSizeThreshold {
        SortSmall(keys, lo, top, cmp);
        Finished(before, keys.contents, c0, lo, top, hi, cmp);
        return;
      }
      if depth == 0 {
        Heapsort(keys, lo, top, cmp);
        Finished(before, keys.contents, c0, lo, top, hi, cmp);
        return;
      }
      depth := depth - 1;
      var p := PickPivotAndPartition(keys, lo, top, cmp);
      ghost var parted := keys.contents;
      IntroSort(keys, p + 1, top, depth, cmp);
      ghost var top0 := top;
      top := p - 1;
      Partitioned(before, parted, keys.contents, c0, lo, p, top0, top, hi, cmp);
    }
    Finished(keys.contents, keys.contents, c0, lo, top, hi, cmp);
  }

  /** `IntroSort`'s branch for a range of 2 to 16 elements: `SwapIfGreater` for two,
      three `SwapIfGreater` calls for three, `InsertionSort` otherwise. (The branch for
      one element cannot be reached, as the loop runs only while `hi > lo`.) */
  method SortSmall<T(==,!new)>(keys: ChunkedArray<T>, lo: int, hi: int, cmp: (T, T) -> int)
    requires keys.Represents() && ValidComparer(cmp)
    requires 0 <= lo < hi < keys.capacity && hi - lo + 1 <= IntrosortSizeThreshold
    modifies keys`contents, keys.Rows()
    ensures keys.Represents()
    ensures Sorted(keys.contents, lo, hi + 1, cmp)
    ensures Perm(keys.contents, old(keys.contents), lo, hi + 1)
  {
    ghost var c0 := keys.contents;
    var partitionSize := hi - lo + 1;
    if partitionSize == 2 {
      SwapIfGreater(keys, cmp, lo, hi);
      SwapIfGreaterOrders(c0, lo, hi, cmp);
    } else if partitionSize == 3 {
      SwapIfGreater(keys, cmp, lo, hi - 1);
      SwapIfGreater(keys, cmp, lo, hi);
      SwapIfGreater(keys, cmp, hi - 1, hi);
      ThreeSwappedOrders(c0, lo, hi - 1, hi, cmp);
    } else {
      InsertionSort(keys, lo, hi, cmp);
    }
  }

  /** The state of `IntroSort`'s loop: `[top + 1, hi]` is ascending and holds the
      greatest elements, no element of `[lo, top]` being greater than `c[top + 1]`. */
  ghost predicate SortedAbove<T>(c: seq<T>, lo: int, top: int, hi: int, cmp: (T, T) -> int)
    requires 0 <= lo <= top + 1 && top <= hi < |c|
  {
    && Sorted(c, top + 1, hi + 1, cmp)
    && (top < hi ==> Below(c, lo, top + 1, c[top + 1], cmp))
  }

  /** Once `[lo, top]` is sorted in place (at most one element needs no sorting),
      the whole of `[lo, hi]` is ascending and a rearrangement of what it held. */
  lemma Finished<T(!new)>(before: seq<T>, after: seq<T>, c0: seq<T>, lo: int, top: int, hi: int, cmp: (T, T) -> int)
    requires 0 <= lo <= top + 1 && top <= hi < |before| && ValidComparer(cmp)
    requires SortedAbove(before, lo, top, hi, cmp) && Perm(before, c0, lo, hi + 1)
    requires |after| == |before| && Sorted(after, lo, top + 1, cmp) && Perm(after, before, lo, top + 1)
    ensures Sorted(after, lo, hi + 1, cmp) && Perm(after, c0, lo, hi + 1)
  {
    PermTrans(after, before, c0, lo, top + 1, lo, hi + 1);
    if top < hi {
      PermBelow(after, before, lo, top + 1, before[top + 1], cmp);
      SortedJoin(after, lo, top + 1, hi + 1, cmp);
    }
  }

  /** A partition of `[lo, top]` around `p` followed by the sorting of `[p + 1, top]`
      moves the loop of `IntroSort` down to `top = p - 1`. */
  lemma Partitioned<T(!new)>(before: seq<T>, parted: seq<T>, after: seq<T>, c0: seq<T>,
                              lo: int, p: int, top: int, top': int, hi: int, cmp: (T, T) -> int)
    requires 0 <= lo < p < top <= hi < |before| && top' == p - 1 && ValidComparer(cmp)
    requires SortedAbove(before, lo, top, hi, cmp) && Perm(before, c0, lo, hi + 1)
    requires Perm(parted, before, lo, top + 1)
    requires Below(parted, lo, p, parted[p], cmp) && Above(parted, p + 1, top + 1, parted[p], cmp)
    requires |after| == |parted| == |before|
    requires Sorted(after, p + 1, top + 1, cmp) && Perm(after, parted, p + 1, top + 1)
    ensures SortedAbove(after, lo, top', hi, cmp) && Perm(after, c0, lo, hi + 1)
  {
    PermTrans(after, parted, before, p + 1, top + 1, lo, top + 1);
    PermTrans(after, before, c0, lo, top + 1, lo, hi + 1);
    PartitionedOrder(before, parted, after, lo, p, top, top', hi, cmp);
  }

  lemma PartitionedOrder<T(!new)>(before: seq<T>, parted: seq<T>, after: seq<T>,
                                   lo: int, p: int, top: int, top': int, hi: int, cmp: (T, T) -> int)
    requires 0 <= lo < p < top <= hi < |before| && top' == p - 1 && ValidComparer(cmp)
    requires |after| == |parted| == |before|
    requires SortedAbove(before, lo, top, hi, cmp)
    requires Below(parted, lo, p, parted[p], cmp) && Above(parted, p + 1, top + 1, parted[p], cmp)
    requires Sorted(after, p + 1, top + 1, cmp) && Perm(after, parted, p + 1, top + 1)
    requires Perm(after, before, lo, top + 1)
    ensures SortedAbove(after, lo, top', hi, cmp)
  {
    UpperSorted(before, parted, after, lo, p, top, hi, cmp);
    forall k | lo <= k <= p - 1
      ensures cmp(after[k], after[p]) <= 0
    {
      assert after[k] == parted[k];
    }
  }

  /** After the partition and the sorting of `[p + 1, top]`, `[p, hi]` is ascending. */
  lemma UpperSorted<T(!new)>(before: seq<T>, parted: seq<T>, after: seq<T>,
                              lo: int, p: int, top: int, hi: int, cmp: (T, T) -> int)
    requires 0 <= lo < p < top <= hi < |before| && ValidComparer(cmp)
    requires |after| == |parted| == |before|
    requires SortedAbove(before, lo, top, hi, cmp)
    requires Above(parted, p + 1, top + 1, parted[p], cmp)
    requires Sorted(after, p + 1, top + 1, cmp) && Perm(after, parted, p + 1, top + 1)
    requires Perm(after, before, lo, top + 1)
    ensures Sorted(after, p, hi + 1, cmp)
  {
    if top < hi {
      PermBelow(after, before, lo, top + 1, before[top + 1], cmp);
      SortedJoin(after, p + 1, top + 1, hi + 1, cmp);
    }
    PermAbove(after, parted, p + 1, top + 1, parted[p], cmp);
    SortedJoin(after, p, p + 1, hi + 1, cmp);
  }

  /** `PickPivotAndPartition(keys, lo, hi, comparer)`: orders `lo`, the middle and `hi`,
      takes the middle as the pivot and parks it at `hi - 1`, then moves the smaller
      elements below and the greater above it; returns where the pivot ends. */
  method PickPivotAndPartition<T(==,!new)>(keys: ChunkedArray<T>, lo: int, hi: int, cmp: (T, T) -> int)
    returns (p: int)
    requires keys.Represents() && ValidComparer(cmp)
    requires 0 <= lo && lo + 2 <= hi < keys.capacity
    modifies keys`contents, keys.Rows()
    ensures keys.Represents()
    ensures lo < p < hi
    ensures Below(keys.contents, lo, p, keys.contents[p], cmp)
    ensures Above(keys.contents, p + 1, hi + 1, keys.contents[p], cmp)
    ensures Perm(keys.contents, old(keys.contents), lo, hi + 1)
  {
    ghost var c0 := keys.contents;
    var pivot := PickPivot(keys, lo, hi, cmp);
    var left, right := lo, hi - 1;
    while left < right
      invariant keys.Represents() && |keys.contents| == keys.capacity
      invariant lo <= left <= hi - 1 && right <= hi - 1 && (left == lo ==> right == hi - 1)
      invariant keys.contents[hi - 1] == pivot
      invariant Below(keys.contents, lo, left + 1, pivot, cmp)
      invariant Above(keys.contents, right, hi + 1, pivot, cmp)
      invariant Perm(keys.contents, c0, lo, hi + 1)
      decreases right - left
    {
      var crossed;
      left, right, crossed := PartitionRound(keys, lo, left, right, hi, pivot, c0, cmp);
      if crossed {
        break;
      }
    }
    p := PlacePivot(keys, lo, left, hi, pivot, c0, cmp);
  }

  /** The body of the partition loop: `while (comparer.Compare(keys[++left], pivot) < 0);
      while (comparer.Compare(pivot, keys[--right]) < 0); if (left >= right) break;
      Swap(keys, left, right);`. Reports in `crossed` whether the loop breaks. */
  method PartitionRound<T(==,!new)>(keys: ChunkedArray<T>, lo: int, left: int, right: int, hi: int, pivot: T,
                                    ghost c0: seq<T>, cmp: (T, T) -> int)
    returns (left': int, right': int, crossed: bool)
    requires keys.Represents() && |keys.contents| == keys.capacity && ValidComparer(cmp)
    requires 0 <= lo <= left < right <= hi - 1 && hi < keys.capacity && keys.contents[hi - 1] == pivot
    requires Below(keys.contents, lo, left + 1, pivot, cmp) && Above(keys.contents, right, hi + 1, pivot, cmp)
    requires Perm(keys.contents, c0, lo, hi + 1)
    modifies keys`contents, keys.Rows()
    ensures keys.Represents() && |keys.contents| == keys.capacity && keys.contents[hi - 1] == pivot
    ensures Perm(keys.contents, c0, lo, hi + 1)
    ensures left < left' <= hi - 1 && left' - 1 <= right' < right
    ensures crossed ==> Below(keys.contents, lo, left', pivot, cmp) && Above(keys.contents, left', hi + 1, pivot, cmp)
    ensures !crossed ==> left' < right' && Below(keys.contents, lo, left' + 1, pivot, cmp) && Above(keys.contents, right', hi + 1, pivot, cmp)
  {
    left' := ScanUp(keys, lo, left, right, hi, pivot, cmp);
    right' := ScanDown(keys, lo, left', right, hi, pivot, cmp);
    if left' >= right' {
      return left', right', true;
    }
    SwapPair(keys, lo, left', right', hi, pivot, c0, cmp);
    crossed := false;
  }

  /** The start of `PickPivotAndPartition`: `SwapIfGreater` on `(lo, middle)`,
      `(lo, hi)` and `(middle, hi)`, then `pivot = keys[middle]` and
      `Swap(keys, middle, hi - 1)`. */
  method PickPivot<T(==,!new)>(keys: ChunkedArray<T>, lo: int, hi: int, cmp: (T, T) -> int)
    returns (pivot: T)
    requires keys.Represents() && ValidComparer(cmp)
    requires 0 <= lo && lo + 2 <= hi < keys.capacity
    modifies keys`contents, keys.Rows()
    ensures keys.Represents() && |keys.contents| == keys.capacity
    ensures keys.contents[hi - 1] == pivot
    ensures Below(keys.contents, lo, lo + 1, pivot, cmp) && Above(keys.contents, hi - 1, hi + 1, pivot, cmp)
    ensures Perm(keys.contents, old(keys.contents), lo, hi + 1)
  {
    ghost var c0 := keys.contents;
    var middle := lo + (hi - lo) / 2;
    SwapIfGreater(keys, cmp, lo, middle);
    SwapIfGreater(keys, cmp, lo, hi);
    SwapIfGreater(keys, cmp, middle, hi);
    ThreeSwappedOrders(c0, lo, middle, hi, cmp);
    ghost var c1 := keys.contents;
    pivot := keys.Get(middle);
    Swap(keys, middle, hi - 1);
    PivotParked(c0, c1, keys.contents, lo, middle, hi, cmp);
  }

  /** After the median of three, parking the middle element at `hi - 1` leaves it
      between the elements at `lo` and `hi`. */
  lemma PivotParked<T(!new)>(c0: seq<T>, c1: seq<T>, c2: seq<T>, lo: int, middle: int, hi: int, cmp: (T, T) -> int)
    requires 0 <= lo < middle < hi < |c0| && lo + 1 <= hi - 1 && ValidComparer(cmp)
    requires c1 == ThreeSwapped(c0, lo, middle, hi, cmp)
    requires cmp(c1[lo], c1[middle]) <= 0 && cmp(c1[middle], c1[hi]) <= 0 && Perm(c1, c0, lo, hi + 1)
    requires c2 == c1[middle := c1[hi - 1]][hi - 1 := c1[middle]]
    ensures c2[hi - 1] == c1[middle]
    ensures Below(c2, lo, lo + 1, c1[middle], cmp) && Above(c2, hi - 1, hi + 1, c1[middle], cmp)
    ensures Perm(c2, c0, lo, hi + 1)
  {
    Reflexive(cmp, c1[middle], c1[middle]);
    SwapKeepsPerm(c1, c0, middle, hi - 1, lo, hi + 1);
  }

  /** `Swap(keys, left, right)` in the partition loop: the element at `left`, not less
      than the pivot, and the one at `right`, not greater, change sides. */
  method SwapPair<T(==,!new)>(keys: ChunkedArray<T>, lo: int, left: int, right: int, hi: int, pivot: T,
                              ghost c0: seq<T>, cmp: (T, T) -> int)
    requires keys.Represents() && |keys.contents| == keys.capacity && ValidComparer(cmp)
    requires 0 <= lo < left < right < hi - 1 && hi < keys.capacity && keys.contents[hi - 1] == pivot
    requires Below(keys.contents, lo, left, pivot, cmp) && cmp(pivot, keys.contents[left]) <= 0
    requires Above(keys.contents, right + 1, hi + 1, pivot, cmp) && cmp(keys.contents[right], pivot) <= 0
    requires Perm(keys.contents, c0, lo, hi + 1)
    modifies keys`contents, keys.Rows()
    ensures keys.Represents() && |keys.contents| == keys.capacity && keys.contents[hi - 1] == pivot
    ensures Below(keys.contents, lo, left + 1, pivot, cmp) && Above(keys.contents, right, hi + 1, pivot, cmp)
    ensures Perm(keys.contents, c0, lo, hi + 1)
  {
    ghost var c := keys.contents;
    Swap(keys, left, right);
    Exchanged(c, keys.contents, c0, lo, left, right, hi, pivot, cmp);
  }

  lemma Exchanged<T>(c: seq<T>, c': seq<T>, c0: seq<T>, lo: int, left: int, right: int, hi: int, pivot: T, cmp: (T, T) -> int)
    requires 0 <= lo < left < right < hi < |c| && c' == c[left := c[right]][right := c[left]]
    requires Below(c, lo, left, pivot, cmp) && cmp(pivot, c[left]) <= 0
    requires Above(c, right + 1, hi + 1, pivot, cmp) && cmp(c[right], pivot) <= 0
    requires Perm(c, c0, lo, hi + 1)
    ensures Below(c', lo, left + 1, pivot, cmp) && Above(c', right, hi + 1, pivot, cmp)
    ensures Perm(c', c0, lo, hi + 1)
  {
    SwapKeepsPerm(c, c0, left, right, lo, hi + 1);
  }

  /** The end of `PickPivotAndPartition`: `Swap(keys, left, hi - 1)` puts the pivot
      between the two parts. */
  method PlacePivot<T(==,!new)>(keys: ChunkedArray<T>, lo: int, left: int, hi: int, pivot: T,
                                ghost c0: seq<T>, cmp: (T, T) -> int)
    returns (p: int)
    requires keys.Represents() && |keys.contents| == keys.capacity && ValidComparer(cmp)
    requires 0 <= lo < left <= hi - 1 && hi < keys.capacity && keys.contents[hi - 1] == pivot
    requires Below(keys.contents, lo, left, pivot, cmp) && Above(keys.contents, left, hi + 1, pivot, cmp)
    requires Perm(keys.contents, c0, lo, hi + 1)
    modifies keys`contents, keys.Rows()
    ensures keys.Represents() && p == left
    ensures Below(keys.contents, lo, p, keys.contents[p], cmp)
    ensures Above(keys.contents, p + 1, hi + 1, keys.contents[p], cmp)
    ensures Perm(keys.contents, c0, lo, hi + 1)
  {
    ghost var c := keys.contents;
    Swap(keys, left, hi - 1);
    PivotPlaced(c, keys.contents, c0, lo, left, hi, pivot, cmp);
    p := left;
  }

  lemma PivotPlaced<T>(c: seq<T>, c': seq<T>, c0: seq<T>, lo: int, left: int, hi: int, pivot: T, cmp: (T, T) -> int)
    requires 0 <= lo < left <= hi - 1 && hi < |c| && c[hi - 1] == pivot
    requires c' == c[left := c[hi - 1]][hi - 1 := c[left]]
    requires Below(c, lo, left, pivot, cmp) && Above(c, left, hi + 1, pivot, cmp)
    requires Perm(c, c0, lo, hi + 1)
    ensures c'[left] == pivot
    ensures Below(c', lo, left, pivot, cmp) && Above(c', left + 1, hi + 1, pivot, cmp)
    ensures Perm(c', c0, lo, hi + 1)
  {
    SwapKeepsPerm(c, c0, left, hi - 1, lo, hi + 1);
  }

  /** `while (comparer.Compare(keys[++left], pivot) < 0);`: stops at the first element
      from `left + 1` on that is not less than the pivot, at `right` at the latest. */
  method ScanUp<T(==,!new)>(keys: ChunkedArray<T>, lo: int, left: int, right: int, hi: int, pivot: T, cmp: (T, T) -> int)
    returns (left': int)
    requires keys.Represents() && ValidComparer(cmp)
    requires 0 <= lo <= left < right <= hi < keys.capacity
    requires Below(keys.contents, lo, left + 1, pivot, cmp) && cmp(pivot, keys.contents[right]) <= 0
    ensures left < left' <= right
    ensures Below(keys.contents, lo, left', pivot, cmp) && cmp(pivot, keys.contents[left']) <= 0
  {
    left' := left + 1;
    while cmp(keys.Get(left'), pivot) < 0
      invariant left < left' <= right
      invariant Below(keys.contents, lo, left', pivot, cmp)
      decreases right - left'
    {
      left' := left' + 1;
    }
    Reflexive(cmp, keys.contents[left'], pivot);
  }

  /** `while (comparer.Compare(pivot, keys[--right]) < 0);`: stops at the first element
      below `right` that is not greater than the pivot, at `left - 1` at the latest. */
  method ScanDown<T(==,!new)>(keys: ChunkedArray<T>, lo: int, left: int, right: int, hi: int, pivot: T, cmp: (T, T) -> int)
    returns (right': int)
    requires keys.Represents() && ValidComparer(cmp)
    requires 0 <= lo < left <= right <= hi < keys.capacity
    requires Below(keys.contents, lo, left, pivot, cmp) && Above(keys.contents, right, hi + 1, pivot, cmp)
    ensures left - 1 <= right' < right
    ensures Above(keys.contents, right' + 1, hi + 1, pivot, cmp) && cmp(keys.contents[right'], pivot) <= 0
  {
    right' := right - 1;
    while cmp(pivot, keys.Get(right')) < 0
      invariant left - 1 <= right' < right
      invariant Above(keys.contents, right' + 1, hi + 1, pivot, cmp)
      decreases right'
    {
      right' := right' - 1;
    }
    Reflexive(cmp, pivot, keys.contents[right']);
  }

  /** In a heap of `n` elements stored from `lo`, node `i` (counted from 1) sits at
      `lo + i - 1` and its children are nodes `2i` and `2i + 1`: the node at place
      `q > lo` has its parent at `Parent(lo, q)`. */
  function Parent(lo: int, q: int): (r: int)
    requires lo < q
    ensures lo <= r < q && (r - lo + 1) * 2 - 1 + lo <= q <= (r - lo + 1) * 2 + lo
  {
    lo + (q - lo + 1) / 2 - 1
  }

  /** Every node from node `2 * i0` on is at most its parent: the subtrees rooted at
      nodes `i0` and above are heaps. */
  ghost predicate HeapFrom<T>(c: seq<T>, lo: int, n: int, i0: int, cmp: (T, T) -> int)
    requires 0 <= lo && lo + n <= |c|
  {
    forall q {:trigger Parent(lo, q)} :: lo < q < lo + n && lo + 2 * i0 - 1 <= q ==> cmp(c[q], c[Parent(lo, q)]) <= 0
  }

  /** The state of `DownHeap`'s loop, sifting `d` down from node `i0` with the hole at
      node `i`: node `i` descends from node `i0`; every edge of the subtree of `i0`
      whose parent is not the hole is in order; and below the first step the hole's
      parent is at least `d` and at least the hole's children. */
  ghost predicate Sifting<T>(c: seq<T>, lo: int, n: int, i0: int, i: int, d: T, cmp: (T, T) -> int)
    requires 0 <= lo && lo + n <= |c| && 1 <= i0 <= i <= n
  {
    && (i == i0 || i0 <= i / 2)
    && (forall q {:trigger Parent(lo, q)} :: lo < q < lo + n && lo + 2 * i0 - 1 <= q && Parent(lo, q) != lo + i - 1 ==>
          cmp(c[q], c[Parent(lo, q)]) <= 0)
    && (i0 < i ==>
          && cmp(d, c[lo + i / 2 - 1]) <= 0
          && (2 * i <= n ==> cmp(c[lo + 2 * i - 1], c[lo + i / 2 - 1]) <= 0)
          && (2 * i + 1 <= n ==> cmp(c[lo + 2 * i], c[lo + i / 2 - 1]) <= 0))
  }

  /** `child = 2 * i; if (child < n && comparer.Compare(keys[lo + child - 1],
      keys[lo + child]) < 0) child++;`: the greater child of node `i`, the left one on
      a tie. */
  method GreaterChild<T(==,!new)>(keys: ChunkedArray<T>, lo: int, n: int, i: int, cmp: (T, T) -> int)
    returns (child: int)
    requires keys.Represents() && 0 <= lo && lo + n <= keys.capacity && 1 <= i && 2 * i <= n
    ensures child == 2 * i || (child == 2 * i + 1 && child <= n)
    ensures child == 2 * i + 1 <==> 2 * i < n && cmp(keys.contents[lo + 2 * i - 1], keys.contents[lo + 2 * i]) < 0
  {
    child := 2 * i;
    if child < n && cmp(keys.Get(lo + child - 1), keys.Get(lo + child)) < 0 {
      child := child + 1;
    }
  }

  /** `g` is `c` with `d` in the hole at `h`: what the range holds once the element
      kept aside is put back. */
  ghost predicate HoleAt<T>(g: seq<T>, c: seq<T>, h: int, d: T)
  {
    && |g| == |c| && 0 <= h < |g| && g[h] == d
    && (forall k :: 0 <= k < |c| && k != h ==> g[k] == c[k])
  }

  /** `DownHeap(keys, i, n, lo, comparer)`: sifts the element of node `i` down, each
      time moving the greater child up into the hole, until neither child is greater;
      the subtree of node `i` becomes a heap. */
  method DownHeap<T(==,!new)>(keys: ChunkedArray<T>, i: int, n: int, lo: int, cmp: (T, T) -> int)
    requires keys.Represents() && ValidComparer(cmp)
    requires 0 <= lo && 1 <= i <= n && lo + n <= keys.capacity
    requires HeapFrom(keys.contents, lo, n, i + 1, cmp)
    modifies keys`contents, keys.Rows()
    ensures keys.Represents()
    ensures HeapFrom(keys.contents, lo, n, i, cmp)
    ensures Perm(keys.contents, old(keys.contents), lo + i - 1, lo + n)
  {
    ghost var c0 := keys.contents;
    var d := keys.Get(lo + i - 1);
    var j := i;
    SiftStart(c0, lo, n, i, cmp);
    PermRefl(c0, lo + i - 1, lo + n);
    ghost var g := c0;
    while j <= n / 2
      invariant keys.Represents() && |keys.contents| == keys.capacity
      invariant i <= j <= n
      invariant Sifting(keys.contents, lo, n, i, j, d, cmp)
      invariant HoleAt(g, keys.contents, lo + j - 1, d) && Perm(g, c0, lo + i - 1, lo + n)
      decreases n - j
    {
      var child := GreaterChild(keys, lo, n, j, cmp);
      if !(cmp(d, keys.Get(lo + child - 1)) < 0) {
        ChildrenAtMost(keys.contents, lo, n, j, child, d, cmp);
        break;
      }
      g := SiftStep(keys, lo, n, i, j, child, d, g, c0, cmp);
      j := child;
    }
    FillHole(keys, lo, n, i, j, d, g, cmp);
  }

  /** After `DownHeap`'s loop: `keys[lo + j - 1] = d`, which completes the heap. */
  method FillHole<T(==,!new)>(keys: ChunkedArray<T>, lo: int, n: int, i: int, j: int, d: T, ghost g: seq<T>,
                              cmp: (T, T) -> int)
    requires keys.Represents() && ValidComparer(cmp)
    requires 0 <= lo && lo + n <= keys.capacity && 1 <= i <= j <= n
    requires Sifting(keys.contents, lo, n, i, j, d, cmp) && HoleAt(g, keys.contents, lo + j - 1, d)
    requires 2 * j <= n ==> cmp(keys.contents[lo + 2 * j - 1], d) <= 0 && (2 * j < n ==> cmp(keys.contents[lo + 2 * j], d) <= 0)
    modifies keys`contents, keys.Rows()
    ensures keys.Represents() && keys.contents == g
    ensures HeapFrom(keys.contents, lo, n, i, cmp)
  {
    ghost var c := keys.contents;
    keys.Set(lo + j - 1, d);
    SiftEnd(c, keys.contents, lo, n, i, j, d, cmp);
    HoleFilled(g, c, keys.contents, lo + j - 1, d);
  }

  /** The body of `DownHeap`'s loop once the greater child exceeds `d`:
      `keys[lo + j - 1] = keys[lo + child - 1]`, the hole moving down to `child`. */
  method SiftStep<T(==,!new)>(keys: ChunkedArray<T>, lo: int, n: int, i: int, j: int, child: int, d: T,
                              ghost g: seq<T>, ghost c0: seq<T>, cmp: (T, T) -> int)
    returns (ghost g': seq<T>)
    requires keys.Represents() && |keys.contents| == keys.capacity && ValidComparer(cmp)
    requires 0 <= lo && lo + n <= keys.capacity && 1 <= i <= j && 2 * j <= n
    requires Sifting(keys.contents, lo, n, i, j, d, cmp)
    requires HoleAt(g, keys.contents, lo + j - 1, d) && Perm(g, c0, lo + i - 1, lo + n)
    requires child == 2 * j || (child == 2 * j + 1 && child <= n)
    requires child == 2 * j + 1 ==> cmp(keys.contents[lo + 2 * j - 1], keys.contents[lo + 2 * j]) < 0
    requires child == 2 * j && 2 * j < n ==> !(cmp(keys.contents[lo + 2 * j - 1], keys.contents[lo + 2 * j]) < 0)
    requires cmp(d, keys.contents[lo + child - 1]) < 0
    modifies keys`contents, keys.Rows()
    ensures keys.Represents() && |keys.contents| == keys.capacity
    ensures Sifting(keys.contents, lo, n, i, child, d, cmp)
    ensures HoleAt(g', keys.contents, lo + child - 1, d) && Perm(g', c0, lo + i - 1, lo + n)
  {
    var h, h' := lo + j - 1, lo + child - 1;
    ghost var c := keys.contents;
    keys.Set(h, keys.Get(h'));
    SiftDown(c, keys.contents, lo, n, i, j, child, d, cmp);
    g' := HoleMoved(g, c, keys.contents, h, h', d, c0, lo + i - 1, lo + n);
  }

  /** Moving the element at `h'` into the hole at `h` moves the hole to `h'`; the filled
      sequence changes by an exchange, so it stays a rearrangement. */
  lemma HoleMoved<T>(g: seq<T>, c: seq<T>, c': seq<T>, h: int, h': int, d: T, c0: seq<T>, lo: int, hi: int)
    returns (g': seq<T>)
    requires HoleAt(g, c, h, d) && 0 <= h' < |c| && h != h' && c' == c[h := c[h']]
    requires Perm(g, c0, lo, hi) && lo <= h < hi && lo <= h' < hi
    ensures HoleAt(g', c', h', d) && Perm(g', c0, lo, hi)
  {
    g' := g[h := g[h']][h' := g[h]];
    SwapKeepsPerm(g, c0, h, h', lo, hi);
  }

  /** Putting `d` back into the hole gives the filled sequence. */
  lemma HoleFilled<T>(g: seq<T>, c: seq<T>, c': seq<T>, h: int, d: T)
    requires HoleAt(g, c, h, d) && c' == c[h := d]
    ensures c' == g
  {
  }

  /** With the subtrees below node `i0` heaps, sifting starts with the hole at `i0`. */
  lemma SiftStart<T>(c: seq<T>, lo: int, n: int, i0: int, cmp: (T, T) -> int)
    requires 0 <= lo && 1 <= i0 <= n && lo + n <= |c| && HeapFrom(c, lo, n, i0 + 1, cmp)
    ensures Sifting(c, lo, n, i0, i0, c[lo + i0 - 1], cmp)
  {
  }

  /** Neither child of node `j` exceeds `d` once the greater one does not. */
  lemma ChildrenAtMost<T(!new)>(c: seq<T>, lo: int, n: int, j: int, child: int, d: T, cmp: (T, T) -> int)
    requires 0 <= lo && lo + n <= |c| && 1 <= j && 2 * j <= n && ValidComparer(cmp)
    requires child == 2 * j || (child == 2 * j + 1 && child <= n)
    requires child == 2 * j + 1 ==> cmp(c[lo + 2 * j - 1], c[lo + 2 * j]) < 0
    requires child == 2 * j && 2 * j < n ==> !(cmp(c[lo + 2 * j - 1], c[lo + 2 * j]) < 0)
    requires !(cmp(d, c[lo + child - 1]) < 0)
    ensures cmp(c[lo + 2 * j - 1], d) <= 0 && (2 * j < n ==> cmp(c[lo + 2 * j], d) <= 0)
  {
    if child == 2 * j + 1 {
      assert TransitiveAt(cmp, c[lo + 2 * j - 1], c[lo + 2 * j], d);
    } else if 2 * j < n {
      assert TransitiveAt(cmp, c[lo + 2 * j], c[lo + 2 * j - 1], d);
    }
  }

  /** Moving the greater child, which exceeds `d`, up into the hole moves the hole down
      to that child. */
  lemma SiftDown<T(!new)>(c: seq<T>, c': seq<T>, lo: int, n: int, i0: int, j: int, child: int, d: T, cmp: (T, T) -> int)
    requires 0 <= lo && lo + n <= |c| && 1 <= i0 <= j && 2 * j <= n && ValidComparer(cmp)
    requires Sifting(c, lo, n, i0, j, d, cmp)
    requires child == 2 * j || (child == 2 * j + 1 && child <= n)
    requires child == 2 * j + 1 ==> cmp(c[lo + 2 * j - 1], c[lo + 2 * j]) < 0
    requires child == 2 * j && 2 * j < n ==> !(cmp(c[lo + 2 * j - 1], c[lo + 2 * j]) < 0)
    requires cmp(d, c[lo + child - 1]) < 0 && c' == c[lo + j - 1 := c[lo + child - 1]]
    ensures Sifting(c', lo, n, i0, child, d, cmp)
  {
    var h, h' := lo + j - 1, lo + child - 1;
    assert Parent(lo, h') == h;
    if 2 * j < n {
      Reflexive(cmp, c[lo + 2 * j - 1], c[lo + 2 * j]);
    }
    forall q | lo < q < lo + n && lo + 2 * i0 - 1 <= q && Parent(lo, q) != h'
      ensures cmp(c'[q], c'[Parent(lo, q)]) <= 0
    {
      var r := Parent(lo, q);
      if r == h {
        assert q == lo + 2 * j - 1 || q == lo + 2 * j;
        if q == h' {
          Reflexive(cmp, c[h'], c[h']);
        }
      } else if q == h {
        assert i0 < j && r == lo + j / 2 - 1;
      }
    }
    if 2 * child <= n {
      assert Parent(lo, lo + 2 * child - 1) == h';
    }
    if 2 * child + 1 <= n {
      assert Parent(lo, lo + 2 * child) == h';
    }
  }

  /** `d` fills the hole once no child exceeds it: the subtree of node `i0` is a heap. */
  lemma SiftEnd<T(!new)>(c: seq<T>, c': seq<T>, lo: int, n: int, i0: int, j: int, d: T, cmp: (T, T) -> int)
    requires 0 <= lo && lo + n <= |c| && 1 <= i0 <= j <= n && ValidComparer(cmp)
    requires Sifting(c, lo, n, i0, j, d, cmp)
    requires 2 * j <= n ==> cmp(c[lo + 2 * j - 1], d) <= 0 && (2 * j < n ==> cmp(c[lo + 2 * j], d) <= 0)
    requires c' == c[lo + j - 1 := d]
    ensures HeapFrom(c', lo, n, i0, cmp)
  {
    var h := lo + j - 1;
    forall q | lo < q < lo + n && lo + 2 * i0 - 1 <= q
      ensures cmp(c'[q], c'[Parent(lo, q)]) <= 0
    {
      if q == h {
        assert Parent(lo, q) == lo + j / 2 - 1;
      }
    }
  }

  /** The root of a heap is at least every element of it. */
  lemma {:induction false} HeapRootMax<T(!new)>(c: seq<T>, lo: int, n: int, q: int, cmp: (T, T) -> int)
    requires 0 <= lo && lo + n <= |c| && ValidComparer(cmp) && HeapFrom(c, lo, n, 1, cmp)
    requires lo <= q < lo + n
    ensures cmp(c[q], c[lo]) <= 0
    decreases q
  {
    if q == lo {
      Reflexive(cmp, c[lo], c[lo]);
    } else {
      var r := Parent(lo, q);
      HeapRootMax(c, lo, n, r, cmp);
      assert TransitiveAt(cmp, c[q], c[r], c[lo]);
    }
  }

  /** `Heapsort(keys, lo, hi, comparer)`: builds a heap of `[lo, hi]` from the last
      parent back to the root, then repeatedly swaps the root to the end of the heap
      and sifts the new root down in the heap one shorter. */
  method Heapsort<T(==,!new)>(keys: ChunkedArray<T>, lo: int, hi: int, cmp: (T, T) -> int)
    requires keys.Represents() && ValidComparer(cmp)
    requires 0 <= lo <= hi + 1 <= keys.capacity
    modifies keys`contents, keys.Rows()
    ensures keys.Represents()
    ensures Sorted(keys.contents, lo, hi + 1, cmp)
    ensures Perm(keys.contents, old(keys.contents), lo, hi + 1)
  {
    ghost var c0 := keys.contents;
    PermRefl(c0, lo, hi + 1);
    var n := hi - lo + 1;
    var i := n / 2;
    while i >= 1
      invariant keys.Represents() && |keys.contents| == keys.capacity
      invariant 0 <= i <= n / 2
      invariant HeapFrom(keys.contents, lo, n, i + 1, cmp)
      invariant Perm(keys.contents, c0, lo, lo + n)
    {
      ghost var before := keys.contents;
      DownHeap(keys, i, n, lo, cmp);
      PermTrans(keys.contents, before, c0, lo + i - 1, lo + n, lo, lo + n);
      i := i - 1;
    }
    i := n;
    while i > 1
      invariant keys.Represents() && |keys.contents| == keys.capacity
      invariant 0 <= i <= n && (i == 0 ==> n == 0)
      invariant HeapFrom(keys.contents, lo, i, 1, cmp)
      invariant Sorted(keys.contents, lo + i, lo + n, cmp)
      invariant i < n ==> Below(keys.contents, lo, lo + i, keys.contents[lo + i], cmp)
      invariant Perm(keys.contents, c0, lo, lo + n)
    {
      i := ExtractMax(keys, lo, i, n, c0, cmp);
    }
    if n > 1 {
      HeapsortDone(keys.contents, lo, n, cmp);
    }
  }

  /** With the heap down to one element, that element is at most the sorted rest. */
  lemma HeapsortDone<T>(c: seq<T>, lo: int, n: int, cmp: (T, T) -> int)
    requires 0 <= lo && 1 < n && lo + n <= |c|
    requires Sorted(c, lo + 1, lo + n, cmp) && Below(c, lo, lo + 1, c[lo + 1], cmp)
    ensures Sorted(c, lo, lo + n, cmp)
  {
    SortedJoin(c, lo, lo + 1, lo + n, cmp);
  }

  /** One round of `Heapsort`'s second loop: `Swap(keys, lo, lo + i - 1);
      DownHeap(keys, 1, i - 1, lo, comparer);` moves the greatest element of the heap
      of `i` to the front of the sorted part and restores the heap of `i - 1`. */
  method ExtractMax<T(==,!new)>(keys: ChunkedArray<T>, lo: int, i: int, n: int, ghost c0: seq<T>, cmp: (T, T) -> int)
    returns (i': int)
    requires keys.Represents() && ValidComparer(cmp)
    requires 0 <= lo && 2 <= i <= n && lo + n <= keys.capacity
    requires HeapFrom(keys.contents, lo, i, 1, cmp) && Sorted(keys.contents, lo + i, lo + n, cmp)
    requires i < n ==> Below(keys.contents, lo, lo + i, keys.contents[lo + i], cmp)
    requires Perm(keys.contents, c0, lo, lo + n)
    modifies keys`contents, keys.Rows()
    ensures keys.Represents() && i' == i - 1
    ensures HeapFrom(keys.contents, lo, i', 1, cmp) && Sorted(keys.contents, lo + i', lo + n, cmp)
    ensures Below(keys.contents, lo, lo + i', keys.contents[lo + i'], cmp)
    ensures Perm(keys.contents, c0, lo, lo + n)
  {
    ghost var c1 := keys.contents;
    SwapKeepsPerm(c1, c0, lo, lo + i - 1, lo, lo + n);
    Swap(keys, lo, lo + i - 1);
    ghost var c2 := keys.contents;
    SwappedRoot(c1, c2, lo, i, cmp);
    DownHeap(keys, 1, i - 1, lo, cmp);
    Extracted(c1, c2, keys.contents, lo, i, n, cmp);
    PermTrans(keys.contents, c2, c0, lo, lo + i - 1, lo, lo + n);
    i' := i - 1;
  }

  /** After the root of a heap of `i` elements is swapped with its last element, the
      subtrees below the root of the heap of `i - 1` are still heaps. */
  lemma SwappedRoot<T>(c: seq<T>, c': seq<T>, lo: int, i: int, cmp: (T, T) -> int)
    requires 0 <= lo && 2 <= i && lo + i <= |c| && HeapFrom(c, lo, i, 1, cmp)
    requires c' == c[lo := c[lo + i - 1]][lo + i - 1 := c[lo]]
    ensures HeapFrom(c', lo, i - 1, 2, cmp)
  {
  }

  /** One round of the extraction: the swapped-out root joins the sorted part, and what
      remains in the heap is still at most the sorted part's first element. */
  lemma Extracted<T(!new)>(c1: seq<T>, c2: seq<T>, c3: seq<T>, lo: int, i: int, n: int, cmp: (T, T) -> int)
    requires 0 <= lo && 2 <= i <= n && lo + n <= |c1| && ValidComparer(cmp)
    requires HeapFrom(c1, lo, i, 1, cmp) && Sorted(c1, lo + i, lo + n, cmp)
    requires i < n ==> Below(c1, lo, lo + i, c1[lo + i], cmp)
    requires c2 == c1[lo := c1[lo + i - 1]][lo + i - 1 := c1[lo]]
    requires |c3| == |c2| && Perm(c3, c2, lo, lo + i - 1)
    ensures Sorted(c3, lo + i - 1, lo + n, cmp)
    ensures Below(c3, lo, lo + i - 1, c3[lo + i - 1], cmp)
  {
    forall k | lo <= k < lo + i
      ensures cmp(c1[k], c1[lo]) <= 0
    {
      HeapRootMax(c1, lo, i, k, cmp);
    }
    PermBelow(c3, c2, lo, lo + i - 1, c1[lo], cmp);
    SortedJoin(c3, lo + i - 1, lo + i, lo + n, cmp);
  }
}
