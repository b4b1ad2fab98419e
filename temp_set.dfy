/** `TempSet`: a large buffer of `uint` values kept as rows of 8000 (the last row shorter),
    with a size that may be set below the capacity, copying, a sort that sorts every row
    and merges the sorted rows into a new set, and element-wise comparison. */
module TempSets {
  import opened FixedWidth
  import opened Comparers
  import opened TempSetMerge
  import ArrayCopy
  import Chunked

  class TempSet {
    /** `Length`: the number of elements in use, set by the constructor, `SetSize` and
        `CopyFrom`. */
    var Length: nat
    /** `_rows` and `_lastArraySize`: the rows of the first `Length` elements. */
    var rows: int
    var lastArraySize: int
    /** The size given to the constructor: the number of places in the rows. */
    const capacity: nat
    /** `_M`: the rows, 8000 places each but the last. */
    const M: seq<array<uint32>>
    /** The elements, as one sequence of `capacity` values. */
    ghost var contents: seq<uint32>

    /** The row arrays. */
    function Rows(): set<array<uint32>>
    {
      set r | r in M
    }

    /** The rows fit the capacity, as `RowCount` and `RowLength` say, and are distinct. */
    ghost predicate Shape()
    {
      && |M| == RowCount(capacity)
      && (forall r :: 0 <= r < |M| ==> M[r].Length == RowLength(capacity, r))
      && (forall r, r' :: 0 <= r < r' < |M| ==> M[r] != M[r'])
    }

    /** The shape, with `contents[k]` held at row `Row(k)`, column `Col(k)`. */
    ghost predicate Represents()
      reads this`contents, Rows()
    {
      && Shape()
      && |contents| == capacity
      && (forall k {:trigger Row(k)} {:trigger Col(k)} :: 0 <= k < capacity ==>
            Row(k) < |M| && Col(k) < M[Row(k)].Length && contents[k] == M[Row(k)][Col(k)])
    }

    /** The representation, with `(rows, lastArraySize)` the rows of `Length` elements.
        `Length` may exceed the capacity: `SetSize` does not look at it. */
    ghost predicate Valid()
      reads this, Rows()
    {
      Represents() && rows == RowCount(Length) && lastArraySize == LastLength(Length)
    }

    /** `new TempSet(size)`: `size / 8000` full rows and a last row of what remains, every
        element 0. */
    constructor(size: nat)
      ensures Valid() && capacity == Length == size
      ensures contents == seq(size, _ => 0)
      ensures fresh(Rows())
    {
      var b: seq<array<uint32>> := [];
      while |b| < RowCount(size) - 1
        invariant |b| <= RowCount(size) - 1
        invariant forall r :: 0 <= r < |b| ==> fresh(b[r]) && b[r].Length == 8000
        invariant forall r :: 0 <= r < |b| ==> b[r][..] == seq(8000, _ => 0)
        invariant forall r, r' :: 0 <= r < r' < |b| ==> b[r] != b[r']
      {
        var row := new uint32[8000](_ => 0);
        b := b + [row];
      }
      var last := new uint32[LastLength(size)](_ => 0);
      b := b + [last];
      Length := size;
      capacity := size;
      rows := size / 8000 + 1;
      lastArraySize := size - (size / 8000) * 8000;
      M := b;
      contents := seq(size, _ => 0);
      new;
      forall k | 0 <= k < size
        ensures Row(k) < |M| && Col(k) < M[Row(k)].Length && contents[k] == M[Row(k)][Col(k)]
      {
        Addressable(size, k);
        assert M[Row(k)][..][Col(k)] == 0;
      }
    }

    /** The `this[int i]` getter: element `i`, read from its row. */
    function Get(i: int): (r: uint32)
      requires Represents() && 0 <= i < capacity
      reads this, Rows()
      ensures r == contents[i]
    {
      M[Row(i)][Col(i)]
    }

    /** The `this[int i]` setter: element `i` becomes `v`, every other element stays. */
    method Set(i: int, v: uint32)
      requires Represents() && 0 <= i < capacity
      modifies this`contents, Rows()
      ensures Represents() && contents == old(contents)[i := v]
    {
      M[Row(i)][Col(i)] := v;
      contents := contents[i := v];
      forall k | 0 <= k < capacity
        ensures contents[k] == M[Row(k)][Col(k)]
      {
        RowCol(k, 0, 0);
        RowCol(i, 0, 0);
      }
    }

    /** Place `col` of row `t` holds element `8000 * t + col`. */
    lemma Cell(t: nat, col: nat)
      requires Represents() && t < |M| && col < M[t].Length
      ensures t * 8000 + col < capacity && M[t][col] == contents[t * 8000 + col]
    {
      RowEnd(capacity, t);
      RowCol(0, t, col);
    }

    /** `SetSize(size)`: `Length` becomes `size` and the rows follow it; the elements
        stay, and the capacity is not consulted. */
    method SetSize(size: nat)
      requires Represents()
      modifies this`Length, this`rows, this`lastArraySize
      ensures Valid() && Length == size
    {
      Length := size;
      rows := size / 8000 + 1;
      lastArraySize := size - (rows - 1) * 8000;
    }

    /** `CopyFrom(source, validIndex)`: `Length` becomes `validIndex` and the first
        `validIndex` elements are those of `source`, copied row by row; the places beyond
        keep what they held. */
    method CopyFrom(source: TempSet, validIndex: nat)
      requires Represents() && source.Represents()
      requires source == this || Rows() !! source.Rows()
      requires validIndex <= capacity && validIndex <= source.capacity
      modifies this`Length, this`rows, this`lastArraySize, this`contents, Rows()
      ensures Valid() && Length == validIndex
      ensures contents == old(source.contents)[..validIndex] + old(contents)[validIndex..]
    {
      SetSize(validIndex);
      ghost var src, dst := source.contents, contents;
      var i := 0;
      while i < rows - 1
        invariant Valid() && Length == validIndex && 0 <= i <= rows - 1
        invariant source.Represents() && (source != this ==> source.contents == src)
        invariant Chunked.CopiedBelow(contents, src, dst, i * 8000)
      {
        RowEnd(Length, i);
        CopyRowStep(source, i, 8000, src, dst);
        i := i + 1;
      }
      CopyRowStep(source, i, lastArraySize, src, dst);
      Chunked.PrefixThenRest(contents, src, dst, Length);
    }

    /** Row `i`, `n` elements of it, copied from `source`: the copied prefix grows by
        `n`. */
    method CopyRowStep(source: TempSet, i: nat, n: nat, ghost src: seq<uint32>, ghost dst: seq<uint32>)
      requires Represents() && source.Represents()
      requires source == this || Rows() !! source.Rows()
      requires n <= 8000 && i * 8000 + n <= capacity && i * 8000 + n <= source.capacity
      requires Chunked.CopiedBelow(contents, src, dst, i * 8000)
      requires source != this ==> source.contents == src
      requires source == this ==> src == dst
      modifies this`contents, Rows()
      ensures Represents() && source.Represents() && (source != this ==> source.contents == src)
      ensures Chunked.CopiedBelow(contents, src, dst, i * 8000 + n)
    {
      RowFits(capacity, i, n);
      RowFits(source.capacity, i, n);
      ghost var prev, from := contents, source.contents;
      if source == this {
        CopyRowOntoItself(i, n);
        assert contents == ArrayCopy.Splice(prev, i * 8000, from[i * 8000..i * 8000 + n]);
      } else {
        CopyRowFrom(source, i, n);
      }
      Chunked.CopyStep(prev, contents, from, src, dst, i * 8000, n);
    }

    /** `Array.Copy(_M[i], _M[i], n)`: a row copied onto itself keeps its elements. */
    method CopyRowOntoItself(i: nat, n: nat)
      requires Represents() && i < |M| && n <= M[i].Length
      modifies Rows()
      ensures Represents() && contents == old(contents)
    {
      ArrayCopy.Copy(M[i], 0, M[i], 0, n);
      assert M[i][..] == old(M[i][..]);
    }

    /** `Array.Copy(source._M[i], _M[i], n)` for a distinct `source`: the first `n`
        places of row `i` take those of `source`. */
    method CopyRowFrom(source: TempSet, i: nat, n: nat)
      requires Represents() && source.Represents()
      requires source != this && Rows() !! source.Rows()
      requires i < |M| && i < |source.M| && n <= M[i].Length && n <= source.M[i].Length
      modifies this`contents, Rows()
      ensures Represents() && source.Represents()
      ensures i * 8000 + n <= capacity && i * 8000 + n <= source.capacity
      ensures contents == ArrayCopy.Splice(old(contents), i * 8000, old(source.contents)[i * 8000..i * 8000 + n])
      ensures source.contents == old(source.contents)
    {
      ghost var src, dst := source.contents, contents;
      ghost var srow, drow := source.M[i][..], M[i][..];
      RowEnd(capacity, i);
      RowEnd(source.capacity, i);
      ArrayCopy.Copy(source.M[i], 0, M[i], 0, n);
      contents := ArrayCopy.Splice(dst, i * 8000, src[i * 8000..i * 8000 + n]);
      forall k | 0 <= k < capacity
        ensures Row(k) < |M| && Col(k) < M[Row(k)].Length && contents[k] == M[Row(k)][Col(k)]
      {
        RowCol(k, i, k - i * 8000);
        if Row(k) == i {
          var c := Col(k);
          assert M[i][c] == M[i][..][c];
          if c < n {
            assert src[k] == srow[c];
          } else {
            assert dst[k] == drow[c];
          }
        } else {
          assert M[Row(k)] != M[i];
          assert contents[k] == dst[k] == old(M[Row(k)][Col(k)]);
        }
      }
    }

    /** A full row `i` holds elements `8000 * i` to `8000 * i + 7999`. */
    lemma FullRow(i: nat)
      requires Represents() && i * 8000 + 8000 <= capacity
      ensures i < |M| && M[i][..] == contents[i * 8000..i * 8000 + 8000]
    {
      RowFits(capacity, i, 8000);
      forall c | 0 <= c < 8000
        ensures M[i][c] == contents[i * 8000 + c]
      {
        Cell(i, c);
      }
    }

    /** Two full rows `i` are equal exactly when the sets agree on their places. */
    lemma FullRowsEqual(other: TempSet, i: nat)
      requires Represents() && other.Represents()
      requires i * 8000 + 8000 <= capacity && i * 8000 + 8000 <= other.capacity
      ensures i < |M| && i < |other.M|
      ensures M[i][..] == other.M[i][..] <==> Chunked.AgreeOn(contents, other.contents, i * 8000, i * 8000 + 8000)
    {
      FullRow(i);
      other.FullRow(i);
      if Chunked.AgreeOn(contents, other.contents, i * 8000, i * 8000 + 8000) {
        forall c | 0 <= c < 8000
          ensures M[i][..][c] == other.M[i][..][c]
        {
          assert contents[i * 8000 + c] == other.contents[i * 8000 + c];
        }
      }
    }

    /** `SequenceEqual(other)`, comparing the last row with `other`'s: equal lengths and
        equal first `Length` elements. Full rows are compared as wholes, the last one
        element by element. */
    method SequenceEqual(other: TempSet) returns (r: bool)
      requires Valid() && other.Valid()
      requires Length == other.Length ==> Length <= capacity && Length <= other.capacity
      ensures r <==> Length == other.Length && contents[..Length] == other.contents[..Length]
    {
      if Length != other.Length {
        return false;
      }
      Chunked.AgreeOnPrefix(contents, other.contents, Length);
      var i := 0;
      while i < rows - 1
        invariant 0 <= i <= rows - 1
        invariant Chunked.AgreeOn(contents, other.contents, 0, i * 8000)
      {
        RowEnd(Length, i);
        FullRowsEqual(other, i);
        var same := RowsEqual(M[i], other.M[i]);
        if !same {
          return false;
        }
        i := i + 1;
      }
      r := LastRowEqual(other, i, lastArraySize);
    }

    /** The element loop of `SequenceEqual`: the first `n` places of row `i` against
        those of `other`. */
    method LastRowEqual(other: TempSet, i: nat, n: nat) returns (r: bool)
      requires Represents() && other.Represents() && n <= 8000
      requires i * 8000 + n <= capacity && i * 8000 + n <= other.capacity
      ensures r <==> Chunked.AgreeOn(contents, other.contents, i * 8000, i * 8000 + n)
    {
      RowFits(capacity, i, n);
      RowFits(other.capacity, i, n);
      var t := 0;
      while t < n
        invariant t <= n
        invariant Chunked.AgreeOn(contents, other.contents, i * 8000, i * 8000 + t)
      {
        Cell(i, t);
        other.Cell(i, t);
        if M[i][t] != other.M[i][t] {
          return false;
        }
        t := t + 1;
      }
      return true;
    }

    /** `SequenceEqual(other)` as written: its element loop compares each place of the
        last row with itself, so only the lengths and the full rows decide. */
    method SequenceEqualAsWritten(other: TempSet) returns (r: bool)
      requires Valid() && other.Valid()
      requires Length == other.Length ==> Length <= capacity && Length <= other.capacity
      ensures r <==> Length == other.Length && SameFullRows(Length, contents, other.contents)
    {
      if Length != other.Length {
        return false;
      }
      var i := 0;
      while i < rows - 1
        invariant 0 <= i <= rows - 1
        invariant Chunked.AgreeOn(contents, other.contents, 0, i * 8000)
      {
        RowEnd(Length, i);
        FullRowsEqual(other, i);
        var same := RowsEqual(M[i], other.M[i]);
        if !same {
          Chunked.AgreeOnPrefix(contents, other.contents, (rows - 1) * 8000);
          return false;
        }
        i := i + 1;
      }
      RowsWithin(Length, capacity, i);
      var t := 0;
      while t < lastArraySize && M[i][t] == M[i][t]
        invariant t <= lastArraySize
      {
        t := t + 1;
      }
      r := t == lastArraySize;
      Chunked.AgreeOnPrefix(contents, other.contents, (rows - 1) * 8000);
    }

    /** `SortTempSet(comparer)`: sorts every row in place (the first `Length` places,
        row by row), then merges the sorted rows into a new set of `Length` elements by
        taking, `Length` times, the smallest head among the rows not yet exhausted. The
        new set is ascending and holds the first `Length` elements of this one. */
    method SortTempSet(cmp: (uint32, uint32) -> int) returns (sorted: TempSet)
      requires Valid() && ValidComparer(cmp) && Length <= capacity
      modifies this`contents, Rows()
      ensures Valid() && RowsSorted(contents, Length, cmp) && Perm(contents, old(contents), 0, Length)
      ensures fresh(sorted) && fresh(sorted.Rows()) && sorted.Valid()
      ensures sorted.Length == sorted.capacity == Length
      ensures Sorted(sorted.contents, 0, Length, cmp)
      ensures multiset(sorted.contents) == multiset(old(contents)[..Length])
    {
      SortRows(cmp);
      sorted := new TempSet(Length);
      var positions := new int[rows](_ => 0);
      Merge(sorted, positions, cmp);
      PermSlice(contents, old(contents), 0, Length);
    }

    /** The loop over `j` of `SortTempSet`: `Length` rounds, each writing the smallest
        head into `sorted[j]` and advancing its row. */
    method Merge(sorted: TempSet, positions: array<int>, cmp: (uint32, uint32) -> int)
      requires Valid() && ValidComparer(cmp) && Length <= capacity && RowsSorted(contents, Length, cmp)
      requires sorted.Valid() && sorted.capacity == Length && sorted != this && sorted.Rows() !! Rows()
      requires positions.Length == rows
      requires positions[..] == seq(RowCount(Length), _ => 0)
      modifies positions, sorted`contents, sorted.Rows()
      ensures sorted.Valid()
      ensures Sorted(sorted.contents, 0, Length, cmp)
      ensures multiset(sorted.contents) == multiset(contents[..Length])
    {
      ghost var c, L := contents, Length;
      ghost var out: seq<uint32> := [];
      MergeStart(c, L, cmp);
      var start := 0;
      var j := 0;
      while j < Length
        invariant sorted.Valid() && positions.Length == rows && 0 <= start < rows
        invariant Merging(c, L, positions[..], out, cmp)
        invariant forall t :: 0 <= t < start ==> !Live(L, positions[..], t)
        invariant 0 <= j <= Length && j == |out| && sorted.contents[..j] == out
      {
        start, out := MergeStep(sorted, positions, start, j, out, cmp);
        j := j + 1;
      }
      MergeDone(c, L, positions[..], out, cmp);
      assert sorted.contents == sorted.contents[..L];
    }

    /** Round `j` of the merge: the skip loop moves `start` to the first row not given up
        in full, the inner loop picks the smallest head, its row advances and the head
        becomes `sorted[j]`. */
    method MergeStep(sorted: TempSet, positions: array<int>, start: int, j: int, ghost out: seq<uint32>,
                     cmp: (uint32, uint32) -> int) returns (start': int, ghost out': seq<uint32>)
      requires Valid() && ValidComparer(cmp) && Length <= capacity && RowsSorted(contents, Length, cmp)
      requires sorted.Valid() && sorted.capacity == Length && sorted != this && sorted.Rows() !! Rows()
      requires positions.Length == rows
      requires 0 <= start < rows && j == |out| < Length && sorted.contents[..j] == out
      requires Merging(contents, Length, positions[..], out, cmp)
      requires forall t :: 0 <= t < start ==> !Live(Length, positions[..], t)
      modifies positions, sorted`contents, sorted.Rows()
      ensures sorted.Valid() && start <= start' < rows
      ensures |out'| == j + 1 && sorted.contents[..j + 1] == out'
      ensures Merging(contents, Length, positions[..], out', cmp)
      ensures forall t :: 0 <= t < start' ==> !Live(Length, positions[..], t)
    {
      start' := SkipExhausted(positions, start, out, cmp);
      var v, m := SmallestHead(positions, start', cmp);
      ghost var p := positions[..];
      MergeAdvance(contents, Length, p, out, start', v, m, cmp);
      positions[m] := positions[m] + 1;
      assert positions[..] == p[m := p[m] + 1];
      forall t | 0 <= t < start'
        ensures !Live(Length, positions[..], t)
      {
        assert t < start' <= m && !Live(Length, p, t);
        assert positions[..][t] == p[t];
      }
      ghost var before := sorted.contents;
      sorted.Set(j, v);
      out' := out + [v];
      assert sorted.contents[..j + 1] == before[..j] + [v];
    }

    /** The skip loop of `SortTempSet`: from `start` on, passes over the rows given up in
        full. While elements remain it stops at a row that has some left; so its `break`,
        taken when it runs past the last row, is never reached. */
    method SkipExhausted(positions: array<int>, start: int, ghost out: seq<uint32>, cmp: (uint32, uint32) -> int)
      returns (s: int)
      requires Valid() && Length <= capacity
      requires positions.Length == rows && 0 <= start < rows && |out| < Length
      requires Merging(contents, Length, positions[..], out, cmp)
      requires forall t :: 0 <= t < start ==> !Live(Length, positions[..], t)
      ensures start <= s < rows && Live(Length, positions[..], s)
      ensures forall t :: 0 <= t < s ==> !Live(Length, positions[..], t)
    {
      s := start;
      while positions[s] >= 8000
        invariant start <= s < rows
        invariant forall t :: 0 <= t < s ==> !Live(Length, positions[..], t)
        decreases rows - s
      {
        assert s + 1 < rows;
        s := s + 1;
      }
      SkipLands(contents, Length, positions[..], out, s, cmp);
    }

    /** The row sort of `SortTempSet`: `Array.Sort` on every full row and on the first
        `lastArraySize` places of the last row. */
    method SortRows(cmp: (uint32, uint32) -> int)
      requires Valid() && ValidComparer(cmp) && Length <= capacity
      modifies this`contents, Rows()
      ensures Valid() && RowsSorted(contents, Length, cmp) && Perm(contents, old(contents), 0, Length)
    {
      ghost var c0 := contents;
      PermRefl(c0, 0, Length);
      var i := 0;
      while i < rows - 1
        invariant Valid() && 0 <= i <= rows - 1
        invariant FullRowsSorted(contents, i, cmp) && Perm(contents, c0, 0, Length)
      {
        RowEnd(Length, i);
        SortRow(i, 8000, c0, cmp);
        i := i + 1;
      }
      SortRow(i, lastArraySize, c0, cmp);
      forall t | 0 <= t < RowCount(Length)
        ensures Sorted(contents, t * 8000, t * 8000 + RowLength(Length, t), cmp)
      {
      }
    }

    /** `Array.Sort` on the first `n` places of row `i`: the rows before it stay sorted. */
    method SortRow(i: nat, n: nat, ghost c0: seq<uint32>, cmp: (uint32, uint32) -> int)
      requires Valid() && ValidComparer(cmp) && Length <= capacity
      requires n <= 8000 && i * 8000 + n <= Length
      requires FullRowsSorted(contents, i, cmp) && Perm(contents, c0, 0, Length)
      modifies this`contents, Rows()
      ensures Valid()
      ensures FullRowsSorted(contents, i, cmp) && Perm(contents, c0, 0, Length)
      ensures Sorted(contents, i * 8000, i * 8000 + n, cmp)
      ensures n == 8000 ==> FullRowsSorted(contents, i + 1, cmp)
    {
      ghost var before := contents;
      InsertionSort(this, i * 8000, i * 8000 + n - 1, cmp);
      PermTrans(contents, before, c0, i * 8000, i * 8000 + n, 0, Length);
      forall t | 0 <= t < i
        ensures Sorted(contents, t * 8000, t * 8000 + 8000, cmp)
      {
        SortedKept(contents, before, t * 8000, t * 8000 + 8000, i * 8000, cmp);
      }
    }

    /** The inner loop of `SortTempSet`, taking the row of the smallest head as its
        starting choice: from row `s` on, it skips the exhausted rows and keeps the first
        head that no later head undercuts. */
    method SmallestHead(positions: array<int>, s: int, cmp: (uint32, uint32) -> int) returns (v: uint32, m: int)
      requires Valid() && Length <= capacity && ValidComparer(cmp)
      requires positions.Length == rows && InRows(Length, positions[..], 0) && Live(Length, positions[..], s)
      ensures Smallest(contents, Length, positions[..], s, v, m, cmp)
    {
      ghost var p, L := positions[..], Length;
      v := Peek(positions, s);
      m := s;
      for t := s to rows
        invariant s <= m < |p| && Live(L, p, m) && v == Head(contents, L, p, m)
        invariant forall u :: s <= u < t && Live(L, p, u) ==> cmp(v, Head(contents, L, p, u)) <= 0
      {
        if t == rows - 1 && positions[t] >= lastArraySize {
          continue;
        }
        if positions[t] == 8000 {
          continue;
        }
        var h := Peek(positions, t);
        Reflexive(cmp, h, v);
        if cmp(h, v) < 0 {
          forall u | s <= u < t && Live(L, p, u)
            ensures cmp(h, Head(contents, L, p, u)) <= 0
          {
            assert TransitiveAt(cmp, h, v, Head(contents, L, p, u));
          }
          v, m := h, t;
        }
      }
    }

    /** The inner loop of `SortTempSet` as written, with `minPosition` starting at row 0
        rather than at row `s`, whose head `minValue` starts as. */
    method SmallestHeadAsWritten(positions: array<int>, s: int, cmp: (uint32, uint32) -> int) returns (v: uint32, m: int)
      requires Valid() && Length <= capacity && ValidComparer(cmp)
      requires positions.Length == rows && InRows(Length, positions[..], 0) && Live(Length, positions[..], s)
      ensures PickedAsWritten(contents, Length, positions[..], s, v, m, cmp)
    {
      ghost var p, L := positions[..], Length;
      ghost var hs := Head(contents, L, p, s);
      v := Peek(positions, s);
      m := 0;
      for t := s to rows
        invariant forall u :: s <= u < t && Live(L, p, u) ==> cmp(v, Head(contents, L, p, u)) <= 0
        invariant m == 0 <==> forall u :: s < u < t && Live(L, p, u) ==> !(cmp(Head(contents, L, p, u), hs) < 0)
        invariant m == 0 ==> v == hs
        invariant m != 0 ==> s < m < t && Live(L, p, m) && v == Head(contents, L, p, m) && cmp(v, hs) < 0
      {
        if t == rows - 1 && positions[t] >= lastArraySize {
          continue;
        }
        if positions[t] == 8000 {
          continue;
        }
        var h := Peek(positions, t);
        Reflexive(cmp, h, v);
        if cmp(h, v) < 0 {
          forall u | s <= u < t && Live(L, p, u)
            ensures cmp(h, Head(contents, L, p, u)) <= 0
          {
            assert TransitiveAt(cmp, h, v, Head(contents, L, p, u));
          }
          if m != 0 {
            StrictlyBelow(cmp, h, v, hs);
          }
          v, m := h, t;
        }
      }
    }

    /** `_M[t][positions[t]]`, the head of live row `t`. */
    method Peek(positions: array<int>, t: int) returns (h: uint32)
      requires Valid() && Length <= capacity
      requires positions.Length == rows && InRows(Length, positions[..], 0) && Live(Length, positions[..], t)
      ensures h == Head(contents, Length, positions[..], t)
    {
      RowsWithin(Length, capacity, t);
      Cell(t, positions[t]);
      h := M[t][positions[t]];
    }
  }

  /** The full rows of `L` elements hold the same values in `a` and `b`. */
  ghost predicate SameFullRows(L: nat, a: seq<uint32>, b: seq<uint32>)
    requires L <= |a| && L <= |b|
  {
    var f := (RowCount(L) - 1) * 8000;
    a[..f] == b[..f]
  }

  /** As written, `SequenceEqual` reports two one-element sets holding 1 and 2 equal: with
      fewer than 8000 elements there is no full row, and its verdict is true whatever the
      elements. */
  lemma SequenceEqualAsWrittenMissesLastRow()
    ensures var a, b: seq<uint32> := [1], [2]; SameFullRows(1, a, b) && a[..1] != b[..1]
    ensures forall L: nat, a: seq<uint32>, b: seq<uint32> :: L < 8000 && L <= |a| && L <= |b| ==> SameFullRows(L, a, b)
  {
    var a, b: seq<uint32> := [1], [2];
    assert a[..1][0] != b[..1][0];
  }

  /** A "strictly less" followed by a "strictly less" is "strictly less". */
  lemma StrictlyBelow(cmp: (uint32, uint32) -> int, x: uint32, y: uint32, z: uint32)
    requires ValidComparer(cmp) && cmp(x, y) < 0 && cmp(y, z) < 0
    ensures cmp(x, z) < 0
  {
    assert TransitiveAt(cmp, x, y, z);
    if cmp(x, z) == 0 {
      assert TransitiveAt(cmp, y, z, x);
    }
  }

  /** The first `i` rows, all full, are each ascending. */
  ghost predicate FullRowsSorted(c: seq<uint32>, i: nat, cmp: (uint32, uint32) -> int)
    requires i * 8000 <= |c|
  {
    forall t :: 0 <= t < i ==> Sorted(c, t * 8000, t * 8000 + 8000, cmp)
  }

  /** A range untouched by a change elsewhere stays ascending. */
  lemma SortedKept(c: seq<uint32>, before: seq<uint32>, lo: int, hi: int, from: int, cmp: (uint32, uint32) -> int)
    requires 0 <= lo <= hi <= from <= |before| == |c| && Sorted(before, lo, hi, cmp)
    requires forall k :: 0 <= k < from ==> c[k] == before[k]
    ensures Sorted(c, lo, hi, cmp)
  {
  }

  /** `Enumerable.SequenceEqual` on two rows: the same length and the same elements. */
  method RowsEqual(a: array<uint32>, b: array<uint32>) returns (r: bool)
    ensures r <==> a[..] == b[..]
  {
    if a.Length != b.Length {
      return false;
    }
    var k := 0;
    while k < a.Length
      invariant k <= a.Length && a[..k] == b[..k]
    {
      if a[k] != b[k] {
        assert a[..][k] != b[..][k];
        return false;
      }
      assert a[..k + 1] == a[..k] + [a[k]] && b[..k + 1] == b[..k] + [b[k]];
      k := k + 1;
    }
    assert a[..] == a[..k] && b[..] == b[..k];
    r := true;
  }

  /** `InsertionSort` of `[lo, hi]` through the indexer: each element inserted into the
      ascending part before it. The reasoning on the contents (`Shifted`, `ShiftStep`,
      `Place`, `RotatedPerm`) is the one `Comparers` gives `ChunkedSort.InsertionSort`;
      only the container whose rows the four methods write differs, and Dafny has no
      common interface here to write them once over both. */
  method InsertionSort(keys: TempSet, lo: int, hi: int, cmp: (uint32, uint32) -> int)
    requires keys.Represents() && ValidComparer(cmp)
    requires 0 <= lo <= hi + 1 <= keys.capacity
    modifies keys`contents, keys.Rows()
    ensures keys.Represents()
    ensures Sorted(keys.contents, lo, hi + 1, cmp)
    ensures Perm(keys.contents, old(keys.contents), lo, hi + 1)
  {
    ghost var c0 := keys.contents;
    var i := lo;
    while i < hi
      invariant keys.Represents() && |keys.contents| == keys.capacity
      invariant lo <= i && (i <= hi || i == lo)
      invariant Sorted(keys.contents, lo, if i < hi then i + 1 else hi + 1, cmp)
      invariant Perm(keys.contents, c0, lo, hi + 1)
    {
      ghost var before := keys.contents;
      Insert(keys, lo, i, cmp);
      PermTrans(keys.contents, before, c0, lo, i + 2, lo, hi + 1);
      i := i + 1;
    }
  }

  /** One pass of `InsertionSort`: element `i + 1` inserted into the ascending `[lo, i]`,
      the greater elements shifted up by one. */
  method Insert(keys: TempSet, lo: int, i: int, cmp: (uint32, uint32) -> int)
    requires keys.Represents() && ValidComparer(cmp)
    requires 0 <= lo <= i && i + 1 < keys.capacity
    requires Sorted(keys.contents, lo, i + 1, cmp)
    modifies keys`contents, keys.Rows()
    ensures keys.Represents()
    ensures Sorted(keys.contents, lo, i + 2, cmp)
    ensures Perm(keys.contents, old(keys.contents), lo, i + 2)
  {
    ghost var c0 := keys.contents;
    var j := i;
    var t := keys.Get(i + 1);
    ghost var hole := i + 1;
    while j >= lo && cmp(t, keys.Get(j)) < 0
      invariant keys.Represents() && |keys.contents| == keys.capacity
      invariant lo - 1 <= j <= i && hole == j + 1
      invariant ShiftedFrom(keys.contents, c0, hole, i + 1)
      invariant Shifted(keys.contents, lo, j, i, t, cmp)
    {
      hole := j;
      j := ShiftUp(keys, lo, j, i, t, c0, cmp);
    }
    Fill(keys, lo, j, i, t, c0, cmp);
  }

  /** `keys[j + 1] = keys[j]`: the hole moves down. */
  method ShiftUp(keys: TempSet, lo: int, j: int, i: int, t: uint32, ghost c0: seq<uint32>, cmp: (uint32, uint32) -> int)
    returns (j': int)
    requires keys.Represents() && ValidComparer(cmp)
    requires 0 <= lo <= j <= i && i + 1 < keys.capacity
    requires ShiftedFrom(keys.contents, c0, j + 1, i + 1)
    requires Shifted(keys.contents, lo, j, i, t, cmp) && cmp(t, keys.contents[j]) < 0
    modifies keys`contents, keys.Rows()
    ensures keys.Represents() && |keys.contents| == keys.capacity
    ensures j' == j - 1
    ensures ShiftedFrom(keys.contents, c0, j, i + 1)
    ensures Shifted(keys.contents, lo, j', i, t, cmp)
  {
    ghost var next := keys.contents[j + 1 := keys.contents[j]];
    ShiftStep(keys.contents, lo, j, i, t, cmp);
    ShiftedDown(keys.contents, c0, j, i + 1);
    keys.Set(j + 1, keys.Get(j));
    assert keys.contents == next;
    j' := j - 1;
  }

  /** `keys[j + 1] = t`: the inserted element fills the hole. */
  method Fill(keys: TempSet, lo: int, j: int, i: int, t: uint32, ghost c0: seq<uint32>, cmp: (uint32, uint32) -> int)
    requires keys.Represents() && ValidComparer(cmp)
    requires 0 <= lo && lo - 1 <= j <= i && i + 1 < keys.capacity && |c0| == keys.capacity
    requires ShiftedFrom(keys.contents, c0, j + 1, i + 1) && t == c0[i + 1]
    requires Shifted(keys.contents, lo, j, i, t, cmp) && (j >= lo ==> cmp(t, keys.contents[j]) >= 0)
    modifies keys`contents, keys.Rows()
    ensures keys.Represents()
    ensures Sorted(keys.contents, lo, i + 2, cmp)
    ensures Perm(keys.contents, c0, lo, i + 2)
  {
    ghost var next := keys.contents[j + 1 := t];
    Place(keys.contents, lo, j, i, t, cmp);
    RotatedPerm(keys.contents, c0, lo, j + 1, i + 1);
    keys.Set(j + 1, t);
    assert keys.contents == next;
  }
}
