/** `Varint`: unsigned LEB128 (section 7.6 of the DWARF 4 standard, the Protocol Buffers
    varint) for 32-bit values, written to a `WriteOnlyMemoryStream` and read back from a
    `ReadOnlyMemoryStream`. */
module Varint {
  import opened FixedWidth
  import opened ReadOnlyStream
  import opened WriteOnlyStream
  import UInt32

  /** What `ReadUInt32` does: return a value after consuming `size` bytes, or throw one of
      the two exceptions. */
  datatype Outcome = Value(value: bv32, size: nat) | Truncated | Malformed

  /** `(value & 0xFFFFFF80) != 0`: more than seven bits remain to be written. */
  predicate MoreThanSevenBits(v: bv32)
  {
    v & 0xFFFF_FF80 != 0
  }

  /** `(byte)((value & 0x7F) | 0x80)`: the low seven bits, flagged as not the last. */
  function GroupByte(v: bv32): byte
  {
    ((v & 0x7F) | 0x80) as byte
  }

  /** `(byte)(value & 0x7F)`: the final byte. */
  function LastByte(v: bv32): byte
  {
    (v & 0x7F) as byte
  }

  /** The bytes `WriteUInt32(v)` emits: seven bits at a time, least significant group
      first, every byte but the last flagged with 0x80. */
  function Encode(v: bv32): (r: seq<byte>)
    ensures |r| >= 1
    decreases v
  {
    if !MoreThanSevenBits(v) then [LastByte(v)] else [GroupByte(v)] + Encode(v >> 7)
  }

  /** `(b & 0x80) == 0`: byte `b` is the last of a varint. */
  predicate IsLast(b: byte)
  {
    b & 0x80 == 0
  }

  /** `x << offset` at the offsets `ReadUInt32` shifts by: 0, 7, 14, 21 and 28. */
  function Place(x: bv32, offset: nat): bv32
    requires offset % 7 == 0 && offset < 32
  {
    if offset == 0 then x else if offset == 7 then x << 7 else if offset == 14 then x << 14
    else if offset == 21 then x << 21 else x << 28
  }

  /** `result | (b & 0x7f) << offset`: the low seven bits of byte `b` OR-ed into the
      word at bit `offset`; bits that land above bit 31 are lost. */
  function Gather(acc: bv32, b: byte, offset: nat): bv32
    requires offset % 7 == 0 && offset < 32
  {
    acc | Place((b & 0x7F) as bv32, offset)
  }

  /** `ReadUInt32` on the input `s` that remains once `offset / 7` bytes have been
      consumed and `acc` gathered from them: while `offset < 32` each byte contributes its
      low seven bits at `offset` (bits that land above bit 31 are lost), up to `offset <
      64` bytes are only scanned for the end of the number, and a byte with its 0x80 bit
      still set at that point makes the input malformed. */
  function DecodeFrom(s: seq<byte>, offset: nat, acc: bv32): Outcome
    decreases 64 - offset
  {
    if offset >= 64 then Malformed
    else if |s| == 0 then Truncated
    else
      var acc' := if offset < 32 && offset % 7 == 0 then Gather(acc, s[0], offset) else acc;
      if IsLast(s[0]) then Value(acc', offset / 7 + 1) else DecodeFrom(s[1..], offset + 7, acc')
  }

  /** What `ReadUInt32` makes of the input bytes `s`. */
  function Decode(s: seq<byte>): Outcome
  {
    DecodeFrom(s, 0, 0)
  }

  /** `WriteUInt32(value, output)`: writes `Encode(value)` at the head of the stream. The
      head must stay within the stream's `int` range. */
  method WriteUInt32(value: bv32, output: WriteOnlyMemoryStream)
    requires output.Valid() && output.position + |Encode(value)| <= Int32Max
    modifies output, output.buffer
    ensures output.Valid()
    ensures output.Bytes() == Overwrite(old(output.Bytes()), old(output.position), Encode(value))
    ensures output.position == old(output.position) + |Encode(value)|
  {
    ghost var before, start := output.Bytes(), output.position;
    var v := value;
    ghost var written: seq<byte> := [];
    while MoreThanSevenBits(v)
      invariant output.Valid()
      invariant output.buffer == old(output.buffer) || fresh(output.buffer)
      invariant written + Encode(v) == Encode(value)
      invariant output.position == start + |written|
      invariant output.Bytes() == Overwrite(before, start, written)
      decreases |Encode(v)|
    {
      EncodeStep(value, written, v);
      written := EmitByte(output, before, start, written, GroupByte(v));
      v := v >> 7;
    }
    EncodeStep(value, written, v);
    written := EmitByte(output, before, start, written, LastByte(v));
  }

  /** One byte of `WriteUInt32`: `b` is written at the head, which has so far written
      `written` over `before` from `start` on. */
  method EmitByte(output: WriteOnlyMemoryStream, ghost before: seq<byte>, ghost start: nat,
                  ghost written: seq<byte>, b: byte) returns (ghost written': seq<byte>)
    requires output.Valid() && start <= |before| && output.position == start + |written|
    requires output.Bytes() == Overwrite(before, start, written) && output.position + 1 <= Int32Max
    modifies output, output.buffer
    ensures output.Valid()
    ensures output.buffer == old(output.buffer) || fresh(output.buffer)
    ensures written' == written + [b]
    ensures output.position == start + |written'|
    ensures output.Bytes() == Overwrite(before, start, written')
  {
    output.WriteByte(b);
    OverwriteTwice(before, start, written, [b]);
    written' := written + [b];
  }

  /** One round of `WriteUInt32`'s loop, or its final byte, continues the encoding. */
  lemma EncodeStep(value: bv32, written: seq<byte>, v: bv32)
    requires written + Encode(v) == Encode(value)
    ensures MoreThanSevenBits(v) ==> (written + [GroupByte(v)]) + Encode(v >> 7) == Encode(value)
    ensures MoreThanSevenBits(v) ==> |Encode(v >> 7)| < |Encode(v)|
    ensures !MoreThanSevenBits(v) ==> written + [LastByte(v)] == Encode(value)
  {
    if MoreThanSevenBits(v) {
      assert Encode(v) == [GroupByte(v)] + Encode(v >> 7);
      assert (written + [GroupByte(v)]) + Encode(v >> 7) == written + ([GroupByte(v)] + Encode(v >> 7));
    }
  }

  /** `ReadUInt32(input)`: decodes the varint at the head of the stream, advancing past
      the bytes it consumed; the end of the input yields `Truncated`, ten bytes without a
      terminator `Malformed`. */
  method ReadUInt32(input: ReadOnlyMemoryStream) returns (r: Outcome)
    requires input.Valid()
    modifies input`position
    ensures input.Valid()
    ensures r == Decode(old(input.Remaining()))
    ensures r.Value? ==> input.position == old(input.position) + r.size
    ensures r.Truncated? ==> input.position == input.length
    ensures r.Malformed? ==> input.position == old(input.position) + 10
  {
    ghost var s := input.Remaining();
    var result: bv32 := 0;
    var offset := 0;
    ghost var consumed := 0;
    while offset < 32
      invariant consumed <= 5 && offset == 7 * consumed
      invariant input.Valid() && input.position == old(input.position) + consumed
      invariant Decode(s) == DecodeFrom(input.Remaining(), offset, result)
    {
      var b := input.ReadByte();
      if b == -1 {
        return Truncated;
      }
      result := Gather(result, b as byte, offset);
      if IsLast(b as byte) {
        return Value(result, offset / 7 + 1);
      }
      offset, consumed := offset + 7, consumed + 1;
    }
    r := SkipHighGroups(input, offset, result);
  }

  /** The second loop of `ReadUInt32`, from `offset` 35 on: the bytes are scanned for the
      end of the number but no longer contribute to it. */
  method SkipHighGroups(input: ReadOnlyMemoryStream, offset0: nat, result: bv32) returns (r: Outcome)
    requires input.Valid() && offset0 == 35
    modifies input`position
    ensures input.Valid()
    ensures r == DecodeFrom(old(input.Remaining()), offset0, result)
    ensures r.Value? ==> input.position == old(input.position) + r.size - 5
    ensures r.Truncated? ==> input.position == input.length
    ensures r.Malformed? ==> input.position == old(input.position) + 5
  {
    ghost var s := input.Remaining();
    var offset := offset0;
    ghost var consumed := 5;
    while offset < 64
      invariant 5 <= consumed <= 10 && offset == 7 * consumed
      invariant input.Valid() && input.position == old(input.position) + consumed - 5
      invariant DecodeFrom(s, offset0, result) == DecodeFrom(input.Remaining(), offset, result)
    {
      var b := input.ReadByte();
      if b == -1 {
        return Truncated;
      }
      if IsLast(b as byte) {
        return Value(result, offset / 7 + 1);
      }
      offset, consumed := offset + 7, consumed + 1;
    }
    return Malformed;
  }

  /** The number of bytes `WriteUInt32` emits: one per started group of seven bits, and
      at least one; a value below 128 is the single byte equal to it. */
  lemma {:induction false} EncodeSize(v: bv32)
    ensures |Encode(v)| == if v < 0x80 then 1 else if v < 0x4000 then 2 else if v < 0x20_0000 then 3
                           else if v < 0x1000_0000 then 4 else 5
    ensures v < 0x80 ==> Encode(v) == [v as byte]
    decreases v
  {
    if MoreThanSevenBits(v) {
      EncodeSize(v >> 7);
    }
  }

  lemma Pow2Groups()
    ensures Pow2(7) == 0x80 && Pow2(14) == 0x4000 && Pow2(21) == 0x20_0000 && Pow2(28) == 0x1000_0000
    ensures Pow2(32) == 0x1_0000_0000
  {
    UInt32.Pow2Values();
    Pow2Add(4, 2);
    Pow2Add(6, 1);
    Pow2Add(7, 7);
    Pow2Add(14, 7);
  }

  /** The number of bytes of an encoding by the thresholds of `EncodeSize`, on integers. */
  function SizeByThreshold(x: int): nat
  {
    if x < 0x80 then 1 else if x < 0x4000 then 2 else if x < 0x20_0000 then 3
    else if x < 0x1000_0000 then 4 else 5
  }

  /** max(1, ceil(b / 7)): the number of groups of seven bits in `b` bits, and at least one. */
  function GroupCount(b: nat): nat
  {
    if b == 0 then 1 else (b + 6) / 7
  }

  lemma EncodeSizeAsInt(v: bv32)
    ensures |Encode(v)| == SizeByThreshold(v as int)
  {
    EncodeSize(v);
  }

  /** The encoding has one byte per started group of seven significant bits, and at least
      one. */
  lemma EncodeSizeIsGroupCount(v: bv32)
    ensures |Encode(v)| == GroupCount(UInt32.BitLength(v as int))
  {
    EncodeSizeAsInt(v);
    ThresholdsAreGroupCounts(v as int);
  }

  lemma ThresholdsAreGroupCounts(x: nat)
    requires x < 0x1_0000_0000
    ensures GroupCount(UInt32.BitLength(x)) == SizeByThreshold(x)
  {
    Pow2Groups();
    UInt32.BitLengthAtMost(x, 0);
    UInt32.BitLengthAtMost(x, 7);
    UInt32.BitLengthAtMost(x, 14);
    UInt32.BitLengthAtMost(x, 21);
    UInt32.BitLengthAtMost(x, 28);
    UInt32.BitLengthAtMost(x, 32);
  }

  /** Every byte of an encoding but the last has its 0x80 bit set; the last has it clear. */
  lemma {:induction false} EncodeFlags(v: bv32)
    ensures IsLast(Encode(v)[|Encode(v)| - 1])
    ensures forall i :: 0 <= i < |Encode(v)| - 1 ==> !IsLast(Encode(v)[i])
    decreases v
  {
    if MoreThanSevenBits(v) {
      EncodeFlags(v >> 7);
      assert !IsLast(GroupByte(v));
      assert Encode(v) == [GroupByte(v)] + Encode(v >> 7);
    } else {
      assert IsLast(LastByte(v));
    }
  }

  /** The first byte of an encoding followed by `rest`, and what follows that byte. */
  lemma EncodeHead(w: bv32, rest: seq<byte>)
    ensures var s := Encode(w) + rest;
      if MoreThanSevenBits(w) then s[0] == GroupByte(w) && !IsLast(s[0]) && s[1..] == Encode(w >> 7) + rest
      else s[0] == LastByte(w) && IsLast(s[0])
  {
    var s := Encode(w) + rest;
    if MoreThanSevenBits(w) {
      assert Encode(w) == [GroupByte(w)] + Encode(w >> 7);
      assert s == [GroupByte(w)] + (Encode(w >> 7) + rest);
    }
  }

  /** Decoding the encoding of `v` at offset 0, with the no lower groups of `v` already
      gathered, yields `v`. */
  lemma {:induction false} DecodeEncoded0(v: bv32, rest: seq<byte>)
    ensures DecodeFrom(Encode(v) + rest, 0, 0) == Value(v, 0 + |Encode(v)|)
  {
    var w := v;
    EncodeHead(w, rest);
    if MoreThanSevenBits(w) {
      NextGroup0(v);
      DecodeEncoded1(v, rest);
    } else {
      LastGroup0(v);
    }
  }

  /** Decoding the encoding of `v >> 7` at offset 7, with the lower groups of `v` already
      gathered, yields `v`. */
  lemma {:induction false} DecodeEncoded1(v: bv32, rest: seq<byte>)
    ensures DecodeFrom(Encode(v >> 7) + rest, 7, v & 0x7F) == Value(v, 1 + |Encode(v >> 7)|)
  {
    var w := v >> 7;
    EncodeHead(w, rest);
    if MoreThanSevenBits(w) {
      NextGroup1(v);
      DecodeEncoded2(v, rest);
    } else {
      LastGroup1(v);
    }
  }

  /** Decoding the encoding of `v >> 14` at offset 14, with the lower groups of `v` already
      gathered, yields `v`. */
  lemma {:induction false} DecodeEncoded2(v: bv32, rest: seq<byte>)
    ensures DecodeFrom(Encode(v >> 14) + rest, 14, v & 0x3FFF) == Value(v, 2 + |Encode(v >> 14)|)
  {
    var w := v >> 14;
    EncodeHead(w, rest);
    if MoreThanSevenBits(w) {
      NextGroup2(v);
      DecodeEncoded3(v, rest);
    } else {
      LastGroup2(v);
    }
  }

  /** Decoding the encoding of `v >> 21` at offset 21, with the lower groups of `v` already
      gathered, yields `v`. */
  lemma {:induction false} DecodeEncoded3(v: bv32, rest: seq<byte>)
    ensures DecodeFrom(Encode(v >> 21) + rest, 21, v & 0x1F_FFFF) == Value(v, 3 + |Encode(v >> 21)|)
  {
    var w := v >> 21;
    EncodeHead(w, rest);
    if MoreThanSevenBits(w) {
      NextGroup3(v);
      DecodeEncoded4(v, rest);
    } else {
      LastGroup3(v);
    }
  }

  /** Decoding the encoding of `v >> 28` at offset 28, with the lower groups of `v` already
      gathered, yields `v`. */
  lemma {:induction false} DecodeEncoded4(v: bv32, rest: seq<byte>)
    ensures DecodeFrom(Encode(v >> 28) + rest, 28, v & 0x0FFF_FFFF) == Value(v, 4 + |Encode(v >> 28)|)
  {
    var w := v >> 28;
    EncodeHead(w, rest);
    LastGroup4(v);
  }

  lemma LastGroup0(v: bv32)
    ensures !MoreThanSevenBits(v) ==> Gather(0, LastByte(v), 0) == v
  {
  }

  lemma NextGroup0(v: bv32)
    ensures MoreThanSevenBits(v) ==> Gather(0, GroupByte(v), 0) == v & 0x7F
  {
  }

  lemma LastGroup1(v: bv32)
    ensures !MoreThanSevenBits(v >> 7) ==> Gather(v & 0x7F, LastByte(v >> 7), 7) == v
  {
  }

  lemma NextGroup1(v: bv32)
    ensures MoreThanSevenBits(v >> 7) ==> Gather(v & 0x7F, GroupByte(v >> 7), 7) == v & 0x3FFF
    ensures (v >> 7) >> 7 == v >> 14
  {
  }

  lemma LastGroup2(v: bv32)
    ensures !MoreThanSevenBits(v >> 14) ==> Gather(v & 0x3FFF, LastByte(v >> 14), 14) == v
  {
  }

  lemma NextGroup2(v: bv32)
    ensures MoreThanSevenBits(v >> 14) ==> Gather(v & 0x3FFF, GroupByte(v >> 14), 14) == v & 0x1F_FFFF
    ensures (v >> 14) >> 7 == v >> 21
  {
  }

  lemma LastGroup3(v: bv32)
    ensures !MoreThanSevenBits(v >> 21) ==> Gather(v & 0x1F_FFFF, LastByte(v >> 21), 21) == v
  {
  }

  lemma NextGroup3(v: bv32)
    ensures MoreThanSevenBits(v >> 21) ==> Gather(v & 0x1F_FFFF, GroupByte(v >> 21), 21) == v & 0x0FFF_FFFF
    ensures (v >> 21) >> 7 == v >> 28
  {
  }

  lemma LastGroup4(v: bv32)
    ensures !MoreThanSevenBits(v >> 28) ==> Gather(v & 0x0FFF_FFFF, LastByte(v >> 28), 28) == v
    ensures !MoreThanSevenBits(v >> 28)
  {
  }

  /** `ReadUInt32` reads back what `WriteUInt32` wrote, consuming exactly those bytes. */
  lemma DecodeEncode(v: bv32, rest: seq<byte>)
    ensures Decode(Encode(v) + rest) == Value(v, |Encode(v)|)
  {
    DecodeEncoded0(v, rest);
  }

  /** The index of the first byte of `s` without the 0x80 flag, or `|s|` when there is
      none. */
  function FirstLast(s: seq<byte>): (n: nat)
    ensures n <= |s|
    ensures forall i :: 0 <= i < n ==> !IsLast(s[i])
    ensures n < |s| ==> IsLast(s[n])
  {
    if |s| == 0 || IsLast(s[0]) then 0 else 1 + FirstLast(s[1..])
  }

  /** Which outcome `ReadUInt32` reaches, and how many bytes it consumes, depends only on
      where the first unflagged byte is: within the ten-byte limit it ends the number,
      an input that runs out first is truncated, and ten flagged bytes are malformed. */
  lemma {:induction false} DecodeFromShape(s: seq<byte>, j: nat, acc: bv32)
    requires j <= 10
    ensures var n, r := FirstLast(s), DecodeFrom(s, 7 * j, acc);
      (r.Malformed? <==> n >= 10 - j) &&
      (r.Truncated? <==> n < 10 - j && n == |s|) &&
      (r.Value? ==> r.size == j + n + 1)
    decreases 10 - j
  {
    if j < 10 && |s| > 0 && !IsLast(s[0]) {
      var acc' := if 7 * j < 32 then Gather(acc, s[0], 7 * j) else acc;
      assert DecodeFrom(s, 7 * j, acc) == DecodeFrom(s[1..], 7 * (j + 1), acc');
      DecodeFromShape(s[1..], j + 1, acc');
    }
  }

  /** `ReadUInt32` ends at the first byte whose 0x80 bit is clear, if one comes within ten
      bytes: it consumes that byte and all before it. Input that ends sooner is
      `Truncated`, and ten flagged bytes in a row are `Malformed`. */
  lemma DecodeShape(s: seq<byte>)
    ensures var n, r := FirstLast(s), Decode(s);
      (r.Value? <==> n < |s| && n < 10) &&
      (r.Value? ==> r.size == n + 1 && 1 <= r.size <= 10 && IsLast(s[n])) &&
      (r.Truncated? <==> n == |s| && |s| < 10) &&
      (r.Malformed? <==> n >= 10)
  {
    DecodeFromShape(s, 0, 0);
  }

  /** The bits of the byte at index `i` of the input that `ReadUInt32` looks at: all of
      the first four, the 0x80 flag and the four bits that still fit in a `uint` of the
      fifth, and only the flag of the later ones. */
  function Kept(i: nat): (m: byte)
    ensures m & 0x80 == 0x80
  {
    if i < 4 then 0xFF else if i == 4 then 0x8F else 0x80
  }

  /** `s` and `t`, both read from index `j` of an input on, agree in every kept bit. */
  predicate AgreeFrom(s: seq<byte>, t: seq<byte>, j: nat)
    decreases |s|
  {
    |s| == |t| && (|s| == 0 || (s[0] & Kept(j) == t[0] & Kept(j) && AgreeFrom(s[1..], t[1..], j + 1)))
  }

  /** Two bytes read at index `j` that agree in the kept bits end the number alike. */
  lemma FlagAgrees(a: byte, b: byte, j: nat)
    requires a & Kept(j) == b & Kept(j)
    ensures IsLast(a) <==> IsLast(b)
  {
    var m := Kept(j);
    assert a & 0x80 == (a & m) & 0x80 && b & 0x80 == (b & m) & 0x80;
  }

  /** Two bytes read at index `j` that agree in the kept bits contribute alike. */
  lemma ContributionAgrees(acc: bv32, a: byte, b: byte, j: nat)
    requires a & Kept(j) == b & Kept(j)
    ensures Contribution(acc, a, j) == Contribution(acc, b, j)
  {
    if j < 4 {
      assert a == a & 0xFF && b == b & 0xFF;
    } else if j == 4 {
      FifthGroupBits(acc, a, b);
    }
  }

  /** Only the low four bits of the fifth byte land inside the word. */
  lemma FifthGroupBits(acc: bv32, a: byte, b: byte)
    requires a & 0x8F == b & 0x8F
    ensures Gather(acc, a, 28) == Gather(acc, b, 28)
  {
    FifthGroupShift(a, b);
    var x, y := (a & 0x7F) as bv32, (b & 0x7F) as bv32;
    assert Place(x, 28) == x << 28;
    assert Place(y, 28) == y << 28;
  }

  lemma FifthGroupShift(a: byte, b: byte)
    requires a & 0x8F == b & 0x8F
    ensures (a & 0x7F) as bv32 << 28 == (b & 0x7F) as bv32 << 28
  {
  }

  /** The word after the byte at index `j` has been read. */
  function Contribution(acc: bv32, b: byte, j: nat): bv32
  {
    if 7 * j < 32 then Gather(acc, b, 7 * j) else acc
  }

  /** One step of `DecodeFrom` at index `j`. */
  lemma DecodeFromUnfold(s: seq<byte>, j: nat, acc: bv32)
    requires |s| > 0 && j < 10
    ensures DecodeFrom(s, 7 * j, acc) ==
      if IsLast(s[0]) then Value(Contribution(acc, s[0], j), j + 1)
      else DecodeFrom(s[1..], 7 * (j + 1), Contribution(acc, s[0], j))
  {
    var offset := 7 * j;
    assert offset % 7 == 0 && offset / 7 == j && offset + 7 == 7 * (j + 1);
  }

  lemma {:induction false} DecodeFromKept(s: seq<byte>, t: seq<byte>, j: nat, acc: bv32)
    requires j <= 10 && AgreeFrom(s, t, j)
    ensures DecodeFrom(s, 7 * j, acc) == DecodeFrom(t, 7 * j, acc)
    decreases 10 - j
  {
    if j < 10 && |s| > 0 {
      FlagAgrees(s[0], t[0], j);
      ContributionAgrees(acc, s[0], t[0], j);
      DecodeFromUnfold(s, j, acc);
      DecodeFromUnfold(t, j, acc);
      DecodeFromKept(s[1..], t[1..], j + 1, Contribution(acc, s[0], j));
    }
  }

  /** `ReadUInt32` ignores the bits of the fifth byte that would land above bit 31 and
      everything but the 0x80 flag of the sixth to tenth bytes: inputs that agree in the
      remaining bits read alike. */
  lemma DecodeKeptBits(s: seq<byte>, t: seq<byte>)
    requires AgreeFrom(s, t, 0)
    ensures Decode(s) == Decode(t)
  {
    DecodeFromKept(s, t, 0, 0);
  }

  /** The property test `UInt_WrittenAsVarint_IsSameUInt_When_ReadedBack`: a number
      written to a fresh stream, copied out with `ToArray` and read back from a
      `ReadOnlyMemoryStream` over those bytes, is the same number, and reading consumes
      the whole encoding. */
  method WriteThenRead(num: bv32) returns (readed: Outcome)
    ensures readed == Value(num, |Encode(num)|)
  {
    var wms := new WriteOnlyMemoryStream();
    EncodeSize(num);
    WriteUInt32(num, wms);
    OverwriteAtEnd([], Encode(num));
    var varintBytes := wms.ToArray();
    var ms := new ReadOnlyMemoryStream(varintBytes);
    readed := ReadUInt32(ms);
    DecodeEncode(num, []);
    assert Encode(num) + [] == Encode(num);
  }
}
