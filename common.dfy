/** Fixed-width integer vocabulary shared by the whole model: .NET `byte`, `uint`,
    `ulong` and `int`, the unchecked `(int)` reinterpretation of a `uint`, powers of
    two, and the little-endian byte order used by the stream and bit utilities. */
module FixedWidth {

  /** A .NET `byte`. */
  type byte = bv8

  /** A .NET `uint`, kept as a mathematical integer. */
  type uint32 = x: int | 0 <= x < 0x1_0000_0000

  /** A .NET `ulong`, kept as a mathematical integer. */
  type uint64 = x: int | 0 <= x < 0x1_0000_0000_0000_0000

  /** A .NET `int`. */
  type int32 = x: int | -0x8000_0000 <= x < 0x8000_0000

  /** 2^k. */
  function Pow2(k: nat): (r: nat)
    ensures r >= 1
  {
    if k == 0 then 1 else 2 * Pow2(k - 1)
  }

  lemma {:induction false} Pow2Add(a: nat, b: nat)
    ensures Pow2(a + b) == Pow2(a) * Pow2(b)
  {
    if b > 0 {
      Pow2Add(a, b - 1);
      assert Pow2(a + b) == 2 * Pow2(a + b - 1);
    }
  }

  lemma {:induction false} Pow2Monotone(a: nat, b: nat)
    requires a <= b
    ensures Pow2(a) <= Pow2(b)
  {
    if a < b {
      Pow2Monotone(a, b - 1);
    }
  }

  /** `unchecked((int)w)`: the two's complement reading of the 32 bits of `w`. */
  function AsInt32(w: bv32): (r: int32)
    ensures r == w as int || r == w as int - 0x1_0000_0000
    ensures r >= 0 <==> w as int < 0x8000_0000
  {
    var n := w as int;
    if n < 0x8000_0000 then n else n - 0x1_0000_0000
  }

  /** The reinterpretation keeps the value modulo 2^32. */
  lemma AsInt32Wraps(w: bv32)
    ensures AsInt32(w) % 0x1_0000_0000 == w as int
  {
    var n, r: int := w as int, AsInt32(w);
    if r != n {
      assert r + 0x1_0000_0000 == n;
    }
  }

  /** `b0 | b1 << 8 | b2 << 16 | b3 << 24`: four bytes read as one little-endian word. */
  function LittleEndian(b0: byte, b1: byte, b2: byte, b3: byte): bv32
  {
    (b0 as bv32) | ((b1 as bv32) << 8) | ((b2 as bv32) << 16) | ((b3 as bv32) << 24)
  }

  /** `(byte)v, (byte)(v >> 8), (byte)(v >> 16), (byte)(v >> 24)`: the bytes of a word,
      least significant first. */
  function LittleEndianBytes(v: bv32): (r: seq<byte>)
    ensures |r| == 4
    ensures LittleEndian(r[0], r[1], r[2], r[3]) == v
  {
    [(v & 0xFF) as byte, ((v >> 8) & 0xFF) as byte, ((v >> 16) & 0xFF) as byte, (v >> 24) as byte]
  }

  /** Splitting a word into bytes undoes `LittleEndian`. */
  lemma LittleEndianBytesInverse(b0: byte, b1: byte, b2: byte, b3: byte)
    ensures LittleEndianBytes(LittleEndian(b0, b1, b2, b3)) == [b0, b1, b2, b3]
  {
  }
}

/** `Array.Copy(src, srcIndex, dst, dstIndex, n)` for one-dimensional arrays. */
module ArrayCopy {

  /** `s` with `data` written over it from index `at` on. */
  function Splice<T>(s: seq<T>, at: nat, data: seq<T>): (r: seq<T>)
    requires at + |data| <= |s|
    ensures |r| == |s|
    ensures forall k :: 0 <= k < |s| ==> r[k] == if at <= k < at + |data| then data[k - at] else s[k]
  {
    s[..at] + data + s[at + |data|..]
  }

  /** Copies `n` elements of `src` from `srcIndex` into `dst` from `dstIndex`. As in .NET,
      overlapping ranges of one array behave as if the source were first copied aside. */
  method Copy<T>(src: array<T>, srcIndex: nat, dst: array<T>, dstIndex: nat, n: nat)
    requires srcIndex + n <= src.Length && dstIndex + n <= dst.Length
    modifies dst
    ensures dst[..] == Splice(old(dst[..]), dstIndex, old(src[srcIndex..srcIndex + n]))
  {
    var data := src[srcIndex..srcIndex + n];
    var i := 0;
    while i < n
      invariant 0 <= i <= n
      invariant forall k :: 0 <= k < dst.Length ==>
        dst[k] == if dstIndex <= k < dstIndex + i then data[k - dstIndex] else old(dst[k])
    {
      dst[dstIndex + i] := data[i];
      i := i + 1;
    }
    assert dst[..] == Splice(old(dst[..]), dstIndex, data);
  }

  /** The short-copy loop of the memory streams, `while (--byteCount >= 0) dst[dstIndex +
      byteCount] = src[srcIndex + byteCount];`: the same result as `Copy` for two distinct
      arrays, written from the last element down. */
  method CopyBackward<T>(src: array<T>, srcIndex: nat, dst: array<T>, dstIndex: nat, n: nat)
    requires src != dst
    requires srcIndex + n <= src.Length && dstIndex + n <= dst.Length
    modifies dst
    ensures dst[..] == Splice(old(dst[..]), dstIndex, src[srcIndex..srcIndex + n])
  {
    var byteCount := n;
    while byteCount > 0
      invariant 0 <= byteCount <= n
      invariant forall k :: 0 <= k < dst.Length ==>
        dst[k] == if dstIndex + byteCount <= k < dstIndex + n then src[srcIndex + k - dstIndex]
                  else old(dst[k])
    {
      byteCount := byteCount - 1;
      dst[dstIndex + byteCount] := src[srcIndex + byteCount];
    }
    assert dst[..] == Splice(old(dst[..]), dstIndex, src[srcIndex..srcIndex + n]);
  }
}
