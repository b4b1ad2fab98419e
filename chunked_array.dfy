/** `ChunkedArray<T>`: a jagged array of rows of 8192 elements (the last row shorter) that
    behaves as one long array, so that no single allocation grows large. */
module Chunked {
  import ArrayCopy
  import opened FixedWidth

  /** `_maxWidth`: the length of every row but the last. */
  const MaxWidth: nat := 8192

  /** `i >> 13`: the row that holds element `i`. */
  function Row(i: nat): nat { i / MaxWidth }

  /** `0x1FFF & i`: the place of element `i` within its row. */
  function Col(i: nat): nat { i % MaxWidth }

  /** Element `i` sits at row `Row(i)`, column `Col(i)`, and every (row, column) pair
      with a column below 8192 names exactly one element. */
  lemma RowCol(i: nat, r: nat, c: int)
    ensures Col(i) < MaxWidth && Row(i) * MaxWidth + Col(i) == i
    ensures 0 <= c < MaxWidth ==> (Row(r * MaxWidth + c) == r && Col(r * MaxWidth + c) == c)
  {
  }

  /** Number of rows needed for `capacity` elements. */
  function RowCount(capacity: nat): nat
  {
    (capacity + MaxWidth - 1) / MaxWidth
  }

  /** Length of row `r` of an array of `capacity` elements: 8192, except the last row,
      which holds what remains. */
  function RowLength(capacity: nat, r: nat): int
  {
    if r + 1 < RowCount(capacity) then MaxWidth else capacity - r * MaxWidth
  }

  /** The rows of an array of `capacity` elements hold exactly `capacity` places: every
      index below `capacity` falls inside its row, and the last row is never empty. */
  lemma Addressable(capacity: nat, k: nat)
    requires k < capacity
    ensures Row(k) < RowCount(capacity)
    ensures Col(k) < RowLength(capacity, Row(k))
    ensures 0 < RowLength(capacity, RowCount(capacity) - 1) <= MaxWidth
  {
  }

  /** The first `n` places of row `i` lie below the capacity. */
  lemma RowEnd(capacity: nat, i: nat, n: nat)
    requires i < RowCount(capacity) && n <= RowLength(capacity, i)
    ensures i * MaxWidth + n <= capacity
  {
  }

  /** `m` full rows. */
  lemma FullRows(m: nat, r: nat)
    ensures RowCount(m * MaxWidth) == m
    ensures r < m ==> RowLength(m * MaxWidth, r) == MaxWidth
  {
  }

  /** The pair `(_rows, _lastArraySize)` that the enumeration, `ResetToSize`, `CopyFrom`
      and `SequenceEqual` walk: `rows - 1` full rows, then `last` elements of the next row. */
  datatype Layout = Layout(rows: int, last: int)

  /** Number of elements a layout covers, as the enumeration visits them. */
  function Extent(l: Layout): int
  {
    (if l.rows > 1 then (l.rows - 1) * MaxWidth else 0) + l.last
  }

  /** The row arithmetic of `SetSize`, as written: `size / 8192 + 1` rows, one fewer when
      the last would be empty, in which case the last row is taken as full. */
  function SetSizeLayout(size: nat): Layout
  {
    var rows := size / MaxWidth + 1;
    var last := size - (rows - 1) * MaxWidth;
    if last == 0 then Layout(rows - 1, MaxWidth) else Layout(rows, last)
  }

  /** The layout of `size` elements: the constructor's arithmetic, which keeps the empty
      array at `(0, 0)`. */
  function LayoutFor(size: nat): (l: Layout)
    ensures size == 0 ==> l == Layout(0, 0)
    ensures size > 0 ==> l.rows == RowCount(size) && 1 <= l.last <= MaxWidth
  {
    if size > 0 then SetSizeLayout(size) else Layout(0, 0)
  }

  /** A layout covers exactly the `size` elements it was made for, and its last row is
      the last row of an array of `size` elements. */
  lemma LayoutForExtent(size: nat)
    ensures Extent(LayoutFor(size)) == size
    ensures size > 0 ==> LayoutFor(size).last == RowLength(size, LayoutFor(size).rows - 1)
  {
  }

  /** For every positive size `SetSize` computes the constructor's layout. */
  lemma SetSizeLayoutAgrees(size: nat)
    requires size > 0
    ensures SetSizeLayout(size) == LayoutFor(size)
  {
  }

  /** As written, `SetSize(0)` leaves `_rows == 0` and `_lastArraySize == 8192`: the
      enumeration, `ResetToSize` and `CopyFrom` then visit 8192 elements of an array whose
      `Length` is 0. */
  lemma SetSizeZeroAsWritten()
    ensures SetSizeLayout(0) == Layout(0, MaxWidth)
    ensures Extent(SetSizeLayout(0)) == MaxWidth != 0
  {
  }

  /** `s` and `t` agree at every index of `[a, b)`. */
  ghost predicate AgreeOn<T>(s: seq<T>, t: seq<T>, a: int, b: int)
    requires 0 <= a && b <= |s| && b <= |t|
  {
    forall k :: a <= k < b ==> s[k] == t[k]
  }

  /** Agreement on `[0, n)` is equality of the prefixes. */
  lemma AgreeOnPrefix<T>(s: seq<T>, t: seq<T>, n: nat)
    requires n <= |s| && n <= |t|
    ensures AgreeOn(s, t, 0, n) <==> s[..n] == t[..n]
  {
    if s[..n] == t[..n] {
      forall k | 0 <= k < n
        ensures s[k] == t[k]
      {
        assert s[..n][k] == t[..n][k];
      }
    }
  }

  /** `m` distinct full rows `b` holding `c`. */
  ghost predicate FullRowsHold<T>(b: seq<array<T>>, c: seq<T>, m: nat)
    reads set r | r in b
  {
    && |b| == m && |c| == m * MaxWidth
    && (forall r :: 0 <= r < m ==> b[r].Length == MaxWidth)
    && (forall r, r' :: 0 <= r < r' < m ==> b[r] != b[r'])
    && (forall k :: 0 <= k < m * MaxWidth ==>
          Row(k) < m && Col(k) < b[Row(k)].Length && c[k] == b[Row(k)][Col(k)])
  }

  /** The places below `m` full rows are those of rows below `m`, and row `m` is
      the next. */
  lemma RowBelow(k: nat, m: nat)
    ensures k < m * MaxWidth <==> Row(k) < m
    ensures m * MaxWidth <= k < m * MaxWidth + MaxWidth ==> Row(k) == m
  {
  }

  /** `n` elements starting at row `i` that fit in `capacity` fit in row `i`. */
  lemma RowFits(capacity: nat, i: nat, n: nat)
    requires n <= MaxWidth && i * MaxWidth + n <= capacity
    requires n == 0 ==> i == 0 && 0 < capacity
    ensures i < RowCount(capacity) && n <= RowLength(capacity, i)
  {
    if n == 0 {
      Addressable(capacity, 0);
    } else {
      Addressable(capacity, i * MaxWidth + n - 1);
      RowCol(0, i, n - 1);
    }
  }

  /** `c` holds `src` below `m` and `dst` from `m` on. */
  ghost predicate CopiedBelow<T>(c: seq<T>, src: seq<T>, dst: seq<T>, m: nat)
  {
    |c| == |dst| && m <= |c| && m <= |src| &&
    forall k :: 0 <= k < |c| ==> c[k] == if k < m then src[k] else dst[k]
  }

  /** One more row copied: the places below `a + n` now hold `src`, the rest `dst`. */
  lemma CopyStep<T>(prev: seq<T>, next: seq<T>, from: seq<T>, src: seq<T>, dst: seq<T>, a: nat, n: nat)
    requires CopiedBelow(prev, src, dst, a) && a + n <= |prev| && a + n <= |from| && a + n <= |src|
    requires next == ArrayCopy.Splice(prev, a, from[a..a + n])
    requires from == src || (from == prev && src == dst)
    ensures CopiedBelow(next, src, dst, a + n)
  {
  }

  /** A sequence that holds `src` below `v` and `dst` from `v` on. */
  lemma PrefixThenRest<T>(c: seq<T>, src: seq<T>, dst: seq<T>, v: nat)
    requires CopiedBelow(c, src, dst, v)
    ensures c == src[..v] + dst[v..]
  {
  }

  /** A layout of `m` full rows. */
  lemma LayoutForFull(m: nat)
    ensures LayoutFor(m * MaxWidth) == if m == 0 then Layout(0, 0) else Layout(m, MaxWidth)
  {
    if m > 0 {
      assert (m * MaxWidth) / MaxWidth == m;
    }
  }

  class ChunkedArray<T(==)> {
    /** `_rows` and `_lastArraySize`: the layout of the first `length` elements. */
    var rows: int
    var lastArraySize: int
    /** `_length`: the size set by the constructor, `SetSize` or `AddChunk`. */
    var length: nat
    /** `_capacity`: the number of places in the rows. */
    var capacity: nat
    /** `_isPossibleResize`: only an array created empty may grow by `AddChunk`. */
    const isPossibleResize: bool
    /** `default(T)`, the value of the elements of a fresh row. */
    const defaultValue: T
    /** `_buffer`: the rows. */
    var buffer: seq<array<T>>
    /** The elements, as one sequence of `capacity` elements. */
    ghost var contents: seq<T>

    /** The row arrays. */
    function Rows(): set<array<T>>
      reads this`buffer
    {
      set r | r in buffer
    }

    /** The rows fit the capacity, as `RowCount` and `RowLength` say, and are distinct. */
    ghost predicate Shape()
      reads this`buffer, this`capacity, this`length
    {
      && |buffer| == RowCount(capacity)
      && (forall r :: 0 <= r < |buffer| ==> buffer[r].Length == RowLength(capacity, r))
      && (forall r, r' :: 0 <= r < r' < |buffer| ==> buffer[r] != buffer[r'])
      && length <= capacity
      && (isPossibleResize ==> capacity % MaxWidth == 0)
    }

    /** The shape, with `contents[k]` held at row `Row(k)`, column `Col(k)`. */
    ghost predicate Represents()
      reads this`buffer, this`capacity, this`length, this`contents, Rows()
    {
      && Shape()
      && |contents| == capacity
      && (forall k {:trigger Row(k)} {:trigger Col(k)} :: 0 <= k < capacity ==>
            Row(k) < |buffer| && Col(k) < buffer[Row(k)].Length && contents[k] == buffer[Row(k)][Col(k)])
    }

    /** The representation, with `(rows, lastArraySize)` the layout of `length` elements. */
    ghost predicate Valid()
      reads this, Rows()
    {
      Represents() && Layout(rows, lastArraySize) == LayoutFor(length)
    }

    /** `new ChunkedArray<T>(size)` without a pool: the layout of `size` elements, full
        rows of 8192 and a last row of what remains, every element `default(T)`. Only an
        empty array may later grow. */
    constructor(size: nat, defaultValue: T)
      ensures Valid()
      ensures capacity == length == size && isPossibleResize == (size == 0)
      ensures contents == seq(size, _ => defaultValue)
      ensures fresh(Rows())
    {
      var l := LayoutFor(size);
      var b: seq<array<T>> := [];
      if l.rows > 0 {
        LayoutForExtent(size);
        while |b| < l.rows - 1
          invariant |b| <= l.rows - 1
          invariant forall r :: 0 <= r < |b| ==> fresh(b[r]) && b[r].Length == MaxWidth
          invariant forall r :: 0 <= r < |b| ==> b[r][..] == seq(MaxWidth, _ => defaultValue)
          invariant forall r, r' :: 0 <= r < r' < |b| ==> b[r] != b[r']
        {
          var row := new T[MaxWidth](_ => defaultValue);
          b := b + [row];
        }
        var last := new T[l.last](_ => defaultValue);
        b := b + [last];
      }
      this.defaultValue := defaultValue;
      capacity := size;
      length := size;
      isPossibleResize := size == 0;
      rows := l.rows;
      lastArraySize := l.last;
      buffer := b;
      contents := seq(size, _ => defaultValue);
      new;
      forall k | 0 <= k < size
        ensures Row(k) < |buffer| && Col(k) < buffer[Row(k)].Length && contents[k] == buffer[Row(k)][Col(k)]
      {
        Addressable(size, k);
        assert buffer[Row(k)][..][Col(k)] == defaultValue;
      }
    }

    /** The `this[int i]` getter: element `i`, read from its row. */
    function Get(i: int): (r: T)
      requires Represents() && 0 <= i < capacity
      reads this, Rows()
      ensures r == contents[i]
    {
      buffer[Row(i)][Col(i)]
    }

    /** The `this[int i]` setter: element `i` becomes `v`, every other element stays. */
    method Set(i: int, v: T)
      requires Represents() && 0 <= i < capacity
      modifies this`contents, Rows()
      ensures Represents() && contents == old(contents)[i := v]
    {
      buffer[Row(i)][Col(i)] := v;
      contents := contents[i := v];
      forall k | 0 <= k < capacity
        ensures contents[k] == buffer[Row(k)][Col(k)]
      {
        RowCol(k, 0, 0);
        RowCol(i, 0, 0);
      }
    }

    /** `SetSize(size)`: a size above the capacity is refused (the C# method
        throws);
        otherwise `length` becomes `size` and the layout follows it. The elements stay. */
    method SetSize(size: nat) returns (ok: bool)
      requires Valid()
      modifies this
      ensures ok <==> size <= old(capacity)
      ensures Valid() && length == (if ok then size else old(length))
      ensures capacity == old(capacity) && buffer == old(buffer) && contents == old(contents)
    {
      if size > capacity {
        return false;
      }
      length := size;
      var l := LayoutFor(size);
      rows := l.rows;
      lastArraySize := l.last;
      ok := true;
    }

    /** `ResetToSize(size, initialValue)`: a size above the capacity is refused; otherwise
        the array takes `size` elements, all `initialValue`, and the places beyond keep
        what they held. */
    method ResetToSize(size: nat, initialValue: T) returns (ok: bool)
      requires Valid()
      modifies this, Rows()
      ensures ok <==> size <= old(capacity)
      ensures Valid() && capacity == old(capacity) && buffer == old(buffer)
      ensures length == (if ok then size else old(length))
      ensures contents == if ok then seq(size, _ => initialValue) + old(contents)[size..] else old(contents)
    {
      if size > capacity {
        return false;
      }
      ok := SetSize(size);
      FillPrefix(initialValue);
    }

    /** The first `length` places set to `v`, row by row. */
    method FillPrefix(v: T)
      requires Valid()
      modifies this`contents, Rows()
      ensures Valid()
      ensures contents == seq(length, _ => v) + old(contents)[length..]
    {
      ghost var fill, dst := seq(capacity, _ => v), contents;
      LayoutForExtent(length);
      var j := 0;
      while j < rows - 1
        invariant 0 <= j && (j == 0 || j <= rows - 1)
        invariant Represents()
        invariant CopiedBelow(contents, fill, dst, j * MaxWidth)
      {
        assert j * MaxWidth + MaxWidth <= (rows - 1) * MaxWidth;
        FillRowStep(j, MaxWidth, v, fill, dst);
        j := j + 1;
      }
      if rows > 0 {
        FillRowStep(j, lastArraySize, v, fill, dst);
      }
      PrefixThenRest(contents, fill, dst, length);
      assert fill[..length] == seq(length, _ => v);
    }

    /** Row `j` filled in its first `n` places: the filled prefix grows by `n`. */
    method FillRowStep(j: nat, n: nat, v: T, ghost fill: seq<T>, ghost dst: seq<T>)
      requires Represents() && 0 < n <= MaxWidth && j * MaxWidth + n <= capacity
      requires fill == seq(capacity, _ => v)
      requires CopiedBelow(contents, fill, dst, j * MaxWidth)
      modifies this`contents, Rows()
      ensures Represents() && CopiedBelow(contents, fill, dst, j * MaxWidth + n)
    {
      RowFits(capacity, j, n);
      WriteRow(j, n, v);
    }

    /** Writes `v` into the first `n` places of row `j`: the inner loop of `ResetToSize`. */
    method WriteRow(j: nat, n: nat, v: T)
      requires Represents() && (n == 0 || (j < |buffer| && n <= buffer[j].Length))
      modifies this`contents, Rows()
      ensures Represents()
      ensures forall k :: 0 <= k < capacity ==>
        contents[k] == if j * MaxWidth <= k < j * MaxWidth + n then v else old(contents)[k]
    {
      var i := 0;
      while i < n
        invariant i <= n && Represents()
        invariant forall k :: 0 <= k < capacity ==>
          contents[k] == if j * MaxWidth <= k < j * MaxWidth + i then v else old(contents)[k]
      {
        Addressable(capacity, j * MaxWidth + i) by {
          RowCol(0, j, i);
          Addressable(capacity, 0);
        }
        RowCol(j * MaxWidth + i, j, i);
        Set(j * MaxWidth + i, v);
        i := i + 1;
      }
    }

    /** `AddChunk()`: only an array created empty may grow (`AddChunk` throws
        otherwise). The capacity and `length` gain 8192, the layout a full last row, and
        the rows are resized to the new row count with a fresh row of `default(T)` as
        the last. Two cases follow a shrinking `SetSize`:
        - while the layout covers every row (`rows == |buffer|`) this appends a row and
          keeps every element, and the new layout covers the whole capacity; if `length`
          fell short of the capacity (a partial last row), it still does, so `length`
          and the layout disagree;
        - when `SetSize` dropped rows (`rows < |buffer|`) this drops rows too and
          overwrites one, leaving places below the capacity that no row holds. */
    method AddChunk() returns (ok: bool)
      requires Valid()
      modifies this
      ensures ok == isPossibleResize
      ensures !ok ==> unchanged(this)
      ensures ok ==> capacity == old(capacity) + MaxWidth && length == old(length) + MaxWidth
      ensures ok ==> rows == old(rows) + 1 && lastArraySize == MaxWidth
      ensures ok ==> |buffer| == rows && buffer[..rows - 1] == old(buffer)[..rows - 1]
      ensures ok ==> fresh(buffer[rows - 1]) && buffer[rows - 1][..] == seq(MaxWidth, _ => defaultValue)
      ensures ok && old(rows) == |old(buffer)| ==>
        Represents() && contents == old(contents) + seq(MaxWidth, _ => defaultValue)
      ensures ok && old(rows) == |old(buffer)| ==> Extent(Layout(rows, lastArraySize)) == capacity
      ensures ok && old(rows) < |old(buffer)| ==> |buffer| * MaxWidth < capacity
      ensures ok && old(length) == old(capacity) ==> Valid()
    {
      if !isPossibleResize {
        return false;
      }
      ghost var m := capacity / MaxWidth;
      assert capacity == m * MaxWidth;
      LayoutForFull(m);
      LayoutForFull(m + 1);
      Resize(rows + 1);
      rows := rows + 1;
      length := length + MaxWidth;
      lastArraySize := MaxWidth;
      ok := true;
    }

    /** `_capacity += _maxWidth`, then `Array.Resize(ref _buffer, n)` and a fresh row of
        8192 `default(T)` as row `n - 1`. */
    method Resize(n: nat)
      requires Represents() && capacity % MaxWidth == 0 && 1 <= n <= |buffer| + 1
      modifies this`capacity, this`buffer, this`contents
      ensures capacity == old(capacity) + MaxWidth
      ensures |buffer| == n && buffer[..n - 1] == old(buffer)[..n - 1]
      ensures fresh(buffer[n - 1]) && buffer[n - 1][..] == seq(MaxWidth, _ => defaultValue)
      ensures n == |old(buffer)| + 1 ==>
        Represents() && contents == old(contents) + seq(MaxWidth, _ => defaultValue)
      ensures n <= |old(buffer)| ==> n * MaxWidth < capacity
    {
      var m := capacity / MaxWidth;
      ghost var c0, b0 := contents, buffer;
      HoldsFullRows();
      var row := new T[MaxWidth](_ => defaultValue);
      capacity := capacity + MaxWidth;
      buffer := buffer[..n - 1] + [row];
      contents := contents + seq(MaxWidth, _ => defaultValue);
      if n == |b0| + 1 {
        assert buffer == b0 + [row];
        AppendedRow(m, b0, c0, row);
      }
    }

    /** A capacity of whole rows is held in full rows. */
    lemma HoldsFullRows()
      requires Represents() && capacity % MaxWidth == 0
      ensures FullRowsHold(buffer, contents, capacity / MaxWidth)
    {
      var m := capacity / MaxWidth;
      assert capacity == m * MaxWidth;
      FullRows(m, 0);
      forall r | 0 <= r < m
        ensures buffer[r].Length == MaxWidth
      {
        FullRows(m, r);
      }
    }

    /** The rows `b0` holding `c0` in `m` full rows, with a fresh full row of
        `defaultValue` appended. */
    lemma AppendedRow(m: nat, b0: seq<array<T>>, c0: seq<T>, row: array<T>)
      requires FullRowsHold(b0, c0, m)
      requires row !in b0 && row.Length == MaxWidth
      requires forall c :: 0 <= c < MaxWidth ==> row[c] == defaultValue
      requires capacity == m * MaxWidth + MaxWidth && buffer == b0 + [row]
      requires contents == c0 + seq(MaxWidth, _ => defaultValue)
      requires length <= capacity && (isPossibleResize ==> capacity % MaxWidth == 0)
      ensures Represents()
    {
      forall r | 0 <= r < |buffer|
        ensures buffer[r].Length == RowLength(capacity, r)
      {
        FullRows(m + 1, r);
      }
      forall k | 0 <= k < capacity
        ensures Row(k) < |buffer| && Col(k) < buffer[Row(k)].Length && contents[k] == buffer[Row(k)][Col(k)]
      {
        RowBelow(k, m);
        if k >= m * MaxWidth {
          RowCol(k, m, 0);
        }
      }
    }

    /** `GetEnumerator()`: the elements in the order they are yielded, `rows - 1` full
        rows and then the first `lastArraySize` elements of the next row; that is, the
        first `length` elements. */
    method GetEnumerator() returns (items: seq<T>)
      requires Valid()
      ensures items == contents[..length]
    {
      LayoutForExtent(length);
      items := Enumerate(Layout(rows, lastArraySize));
    }

    /** The loops of `GetEnumerator` over a layout `l`: the full rows below `l.rows - 1`,
        then `l.last` elements of the next row. They yield the first `Extent(l)` elements,
        provided that many places exist. */
    method Enumerate(l: Layout) returns (items: seq<T>)
      requires Represents() && 0 <= l.rows && 0 <= l.last <= MaxWidth && Extent(l) <= capacity
      ensures items == contents[..Extent(l)]
    {
      items := [];
      var j := 0;
      while j < l.rows - 1
        invariant 0 <= j && (j == 0 || j <= l.rows - 1)
        invariant items == contents[..j * MaxWidth]
      {
        items := YieldRow(items, j, MaxWidth);
        assert contents[..j * MaxWidth] + contents[j * MaxWidth..j * MaxWidth + MaxWidth]
            == contents[..j * MaxWidth + MaxWidth];
        j := j + 1;
      }
      items := YieldRow(items, j, l.last);
      assert contents[..j * MaxWidth] + contents[j * MaxWidth..Extent(l)] == contents[..Extent(l)];
    }

    /** The first `n` elements of row `j`, yielded after `items`: an inner loop of
        `GetEnumerator`. */
    method YieldRow(items: seq<T>, j: nat, n: nat) returns (r: seq<T>)
      requires Represents() && n <= MaxWidth && j * MaxWidth + n <= capacity
      ensures r == items + contents[j * MaxWidth..j * MaxWidth + n]
    {
      r := items;
      var i := 0;
      while i < n
        invariant i <= n
        invariant r == items + contents[j * MaxWidth..j * MaxWidth + i]
      {
        RowCol(j * MaxWidth + i, j, i);
        r := r + [buffer[j][i]];
        assert contents[j * MaxWidth..j * MaxWidth + i + 1]
            == contents[j * MaxWidth..j * MaxWidth + i] + [contents[j * MaxWidth + i]];
        i := i + 1;
      }
    }

    /** `Array.Copy(source._buffer[i], _buffer[i], n)`: copies the first `n` elements of
        row `i` of `source` into row `i`; when `source` is this array, the row is copied
        onto itself. */
    method CopyRow(source: ChunkedArray<T>, i: nat, n: nat)
      requires Represents() && source.Represents()
      requires source == this || Rows() !! source.Rows()
      requires i < |buffer| && i < |source.buffer|
      requires n <= buffer[i].Length && n <= source.buffer[i].Length
      modifies this`contents, Rows()
      ensures Represents() && source.Represents()
      ensures i * MaxWidth + n <= capacity && i * MaxWidth + n <= source.capacity
      ensures contents == ArrayCopy.Splice(old(contents), i * MaxWidth, old(source.contents)[i * MaxWidth..i * MaxWidth + n])
      ensures source != this ==> source.contents == old(source.contents)
    {
      RowEnd(capacity, i, n);
      if source == this {
        CopyRowOntoItself(i, n);
        assert contents == ArrayCopy.Splice(contents, i * MaxWidth, contents[i * MaxWidth..i * MaxWidth + n]);
      } else {
        CopyRowFrom(source, i, n);
      }
    }

    /** A row copied onto itself keeps its elements. */
    method CopyRowOntoItself(i: nat, n: nat)
      requires Represents() && i < |buffer| && n <= buffer[i].Length
      modifies Rows()
      ensures Represents() && contents == old(contents)
    {
      ArrayCopy.Copy(buffer[i], 0, buffer[i], 0, n);
      assert buffer[i][..] == old(buffer[i][..]);
    }

    /** Row `i` of a distinct array copied into row `i`. */
    method CopyRowFrom(source: ChunkedArray<T>, i: nat, n: nat)
      requires Represents() && source.Represents()
      requires source != this && Rows() !! source.Rows()
      requires i < |buffer| && i < |source.buffer|
      requires n <= buffer[i].Length && n <= source.buffer[i].Length
      modifies this`contents, Rows()
      ensures Represents() && source.Represents()
      ensures i * MaxWidth + n <= capacity && i * MaxWidth + n <= source.capacity
      ensures contents == ArrayCopy.Splice(old(contents), i * MaxWidth, old(source.contents)[i * MaxWidth..i * MaxWidth + n])
      ensures source.contents == old(source.contents)
    {
      ghost var src, dst := source.contents, contents;
      ghost var srow, drow := source.buffer[i][..], buffer[i][..];
      RowEnd(capacity, i, n);
      RowEnd(source.capacity, i, n);
      ArrayCopy.Copy(source.buffer[i], 0, buffer[i], 0, n);
      contents := ArrayCopy.Splice(dst, i * MaxWidth, src[i * MaxWidth..i * MaxWidth + n]);
      forall k | 0 <= k < capacity
        ensures Row(k) < |buffer| && Col(k) < buffer[Row(k)].Length && contents[k] == buffer[Row(k)][Col(k)]
      {
        RowCol(k, i, k - i * MaxWidth);
        if Row(k) == i {
          var c := Col(k);
          assert buffer[i][c] == buffer[i][..][c];
          if c < n {
            assert src[k] == srow[c];
          } else {
            assert dst[k] == drow[c];
          }
        } else {
          assert buffer[Row(k)] != buffer[i];
          assert contents[k] == dst[k] == old(buffer[Row(k)][Col(k)]);
        }
      }
    }


    /** `CopyFrom(source, validIndex)`: a `validIndex` above the capacity is refused (by
        `SetSize`); otherwise `length` becomes `validIndex`, the first `validIndex`
        elements are those of `source`, copied row by row, and the places beyond keep
        what they held. Row 0 of both arrays is read even when `validIndex` is 0, and
        `source` must hold `validIndex` elements. */
    method CopyFrom(source: ChunkedArray<T>, validIndex: nat) returns (ok: bool)
      requires Valid() && source.Represents()
      requires source == this || Rows() !! source.Rows()
      requires validIndex <= capacity ==> 0 < capacity && 0 < source.capacity && validIndex <= source.capacity
      modifies this, Rows()
      ensures ok <==> validIndex <= old(capacity)
      ensures Valid() && capacity == old(capacity) && buffer == old(buffer)
      ensures length == (if ok then validIndex else old(length))
      ensures contents == if ok then old(source.contents)[..validIndex] + old(contents)[validIndex..] else old(contents)
    {
      ok := SetSize(validIndex);
      if !ok {
        return;
      }
      CopyPrefix(source);
    }

    /** The first `length` elements of `source` copied over, row by row. */
    method CopyPrefix(source: ChunkedArray<T>)
      requires Valid() && source.Represents()
      requires source == this || Rows() !! source.Rows()
      requires 0 < capacity && 0 < source.capacity && length <= source.capacity
      modifies this`contents, Rows()
      ensures Valid() && source.Represents()
      ensures contents == old(source.contents)[..length] + old(contents)[length..]
    {
      ghost var src, dst := source.contents, contents;
      LayoutForExtent(length);
      var i := 0;
      while i < rows - 1
        invariant 0 <= i && (i == 0 || i <= rows - 1)
        invariant Represents() && source.Represents() && (source != this ==> source.contents == src)
        invariant CopiedBelow(contents, src, dst, i * MaxWidth)
      {
        assert i * MaxWidth + MaxWidth <= (rows - 1) * MaxWidth;
        CopyRowStep(source, i, MaxWidth, src, dst);
        i := i + 1;
      }
      CopyRowStep(source, i, lastArraySize, src, dst);
      PrefixThenRest(contents, src, dst, length);
    }

    /** Row `i`, of `n` elements, copied from `source`: the copied prefix grows by `n`. */
    method CopyRowStep(source: ChunkedArray<T>, i: nat, n: nat, ghost src: seq<T>, ghost dst: seq<T>)
      requires Represents() && source.Represents()
      requires source == this || Rows() !! source.Rows()
      requires n <= MaxWidth && i * MaxWidth + n <= capacity && i * MaxWidth + n <= source.capacity
      requires n == 0 ==> i == 0 && 0 < capacity && 0 < source.capacity
      requires CopiedBelow(contents, src, dst, i * MaxWidth)
      requires source != this ==> source.contents == src
      requires source == this ==> src == dst
      modifies this`contents, Rows()
      ensures Represents() && source.Represents() && (source != this ==> source.contents == src)
      ensures CopiedBelow(contents, src, dst, i * MaxWidth + n)
    {
      RowFits(capacity, i, n);
      RowFits(source.capacity, i, n);
      ghost var prev, from := contents, source.contents;
      CopyRow(source, i, n);
      CopyStep(prev, contents, from, src, dst, i * MaxWidth, n);
    }

    /** A full row `i` holds elements `8192 * i` to `8192 * i + 8191`. */
    lemma FullRow(i: nat)
      requires Represents() && i * MaxWidth + MaxWidth <= capacity
      ensures i < |buffer| && buffer[i][..] == contents[i * MaxWidth..i * MaxWidth + MaxWidth]
    {
      Addressable(capacity, i * MaxWidth + MaxWidth - 1);
      RowCol(0, i, MaxWidth - 1);
      forall c | 0 <= c < MaxWidth
        ensures buffer[i][c] == contents[i * MaxWidth + c]
      {
        RowCol(i * MaxWidth + c, i, c);
      }
    }

    /** Two full rows `i` are equal exactly when the arrays agree on their places. */
    lemma FullRowsEqual(other: ChunkedArray<T>, i: nat)
      requires Represents() && other.Represents()
      requires i * MaxWidth + MaxWidth <= capacity && i * MaxWidth + MaxWidth <= other.capacity
      ensures i < |buffer| && i < |other.buffer|
      ensures buffer[i][..] == other.buffer[i][..] <==>
              AgreeOn(contents, other.contents, i * MaxWidth, i * MaxWidth + MaxWidth)
    {
      FullRow(i);
      other.FullRow(i);
      if AgreeOn(contents, other.contents, i * MaxWidth, i * MaxWidth + MaxWidth) {
        forall c | 0 <= c < MaxWidth
          ensures buffer[i][..][c] == other.buffer[i][..][c]
        {
          assert contents[i * MaxWidth + c] == other.contents[i * MaxWidth + c];
        }
      }
    }

    /** `SequenceEqual(other)`: equal lengths and equal first `length` elements; full rows
        are compared as wholes, the last one element by element. */
    method SequenceEqual(other: ChunkedArray<T>) returns (r: bool)
      requires Valid() && other.Valid()
      ensures r <==> length == other.length && contents[..length] == other.contents[..length]
    {
      if length != other.length {
        return false;
      }
      LayoutForExtent(length);
      AgreeOnPrefix(contents, other.contents, length);
      var i := 0;
      while i < rows - 1
        invariant 0 <= i && (i == 0 || i <= rows - 1)
        invariant AgreeOn(contents, other.contents, 0, i * MaxWidth)
      {
        FullRowsEqual(other, i);
        if buffer[i][..] != other.buffer[i][..] {
          return false;
        }
        i := i + 1;
      }
      r := LastRowEqual(other, i, lastArraySize);
    }

    /** Compares the first `n` elements of row `i` with those of `other`: the element
        loop of `SequenceEqual`. */
    method LastRowEqual(other: ChunkedArray<T>, i: nat, n: nat) returns (r: bool)
      requires Represents() && other.Represents() && n <= MaxWidth
      requires i * MaxWidth + n <= capacity && i * MaxWidth + n <= other.capacity
      ensures r <==> AgreeOn(contents, other.contents, i * MaxWidth, i * MaxWidth + n)
    {
      var t := 0;
      while t < n
        invariant t <= n
        invariant AgreeOn(contents, other.contents, i * MaxWidth, i * MaxWidth + t)
      {
        RowCol(i * MaxWidth + t, i, t);
        if buffer[i][t] != other.buffer[i][t] {
          return false;
        }
        t := t + 1;
      }
      return true;
    }

    /** `GetPart(from, len)`: a new array of the `len` elements from `from` on, read
        through the indexer, which knows only the capacity, not `length`. */
    method GetPart(from: int, len: nat) returns (result: array<T>)
      requires Represents() && (len == 0 || (0 <= from && from + len <= capacity))
      ensures fresh(result) && result.Length == len
      ensures len > 0 ==> result[..] == contents[from..from + len]
    {
      result := new T[len](_ => defaultValue);
      var i := 0;
      while i < len
        invariant 0 <= i <= len
        invariant forall k :: 0 <= k < i ==> result[k] == contents[from + k]
      {
        result[i] := Get(from + i);
        i := i + 1;
      }
    }

    /** `CreateFromArray(source)`: a new array of `source.Length` elements, those of
        `source` in order. */
    static method CreateFromArray(source: array<T>, defaultValue: T) returns (result: ChunkedArray<T>)
      ensures fresh(result) && fresh(result.Rows()) && result.Valid()
      ensures result.length == result.capacity == source.Length
      ensures result.isPossibleResize == (source.Length == 0)
      ensures result.contents == source[..]
    {
      result := new ChunkedArray(source.Length, defaultValue);
      var i := 0;
      while i < source.Length
        invariant 0 <= i <= source.Length
        invariant result.Valid() && result.length == result.capacity == source.Length
        invariant result.isPossibleResize == (source.Length == 0)
        invariant fresh(result.Rows())
        invariant result.contents[..i] == source[..i]
      {
        result.Set(i, source[i]);
        i := i + 1;
      }
    }
  }

  /** `AddChunk` after a shrinking `SetSize`: an empty array grown by two rows, cut to
      100 elements and grown again has a capacity of three rows but only two rows, the
      second a fresh one; the 8192 elements that row held are gone, and the places of
      the third row are held by no row. */
  method AddChunkAfterShrink() returns (a: ChunkedArray<int>)
    ensures a.capacity == 3 * MaxWidth && a.length == 100 + MaxWidth
    ensures |a.buffer| == 2 && |a.buffer| * MaxWidth < a.capacity
  {
    a := new ChunkedArray<int>(0, 0);
    var ok := a.AddChunk();
    ok := a.AddChunk();
    ok := a.SetSize(100);
    ok := a.AddChunk();
  }

  /** `AddChunk` after a shrink that keeps every row: an empty array grown by two rows,
      cut to 8193 elements (a partial second row) and grown again holds all three rows,
      but its `length` of 16385 falls short of the 24576 places its layout `(3, 8192)`
      covers, so the enumeration walks past `length`. */
  method AddChunkAfterPartialRow() returns (a: ChunkedArray<int>)
    ensures a.Represents() && !a.Valid()
    ensures a.length == 2 * MaxWidth + 1 && a.capacity == 3 * MaxWidth && |a.buffer| == 3
    ensures Extent(Layout(a.rows, a.lastArraySize)) == a.capacity
  {
    a := new ChunkedArray<int>(0, 0);
    var ok := a.AddChunk();
    ok := a.AddChunk();
    ok := a.SetSize(MaxWidth + 1);
    ok := a.AddChunk();
  }

  /** Enumeration after `SetSize(0)` as written: the layout `(0, 8192)` walks the 8192
      elements of row 0, so an array of 8192 elements whose element 5 is 7 still yields
      8192 elements, 7 among them, although its `Length` is 0; an array of fewer than
      8192 places has no such row to walk (the walk throws). */
  method EnumerateAfterSetSizeZero() returns (a: ChunkedArray<int>, items: seq<int>)
    ensures a.length == 0 && |items| == MaxWidth && items[5] == 7
    ensures Extent(SetSizeLayout(0)) > 100
  {
    a := new ChunkedArray<int>(MaxWidth, 0);
    a.Set(5, 7);
    var ok := a.SetSize(0);
    items := a.Enumerate(SetSizeLayout(0));
  }
}
