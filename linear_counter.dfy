/** `LinearCounter`: the linear-time probabilistic counter of Whang et al. — a bitmap
    into which hashed items set one bit each, with a running count of the bits still
    clear. The floating-point estimate and sizing are not part of this model; the
    saturation case of the estimate, the argument checks of the factories and the
    bitmap algebra are. */
module LinearCounting {
  import opened FixedWidth

  /** `1 << i` as a byte, for a bit index below 8. */
  function Mask(i: nat): byte
  {
    if i == 0 then 1 else if i == 1 then 2 else if i == 2 then 4 else if i == 3 then 8
    else if i == 4 then 0x10 else if i == 5 then 0x20 else if i == 6 then 0x40 else 0x80
  }

  /** Whether bit `i` of `b` is set: `(b & (1 << i)) != 0`. */
  predicate ByteBit(b: byte, i: nat)
  {
    b & Mask(i) != 0
  }

  /** OR-ing in `1 << i` sets bit `i` and keeps every other bit. */
  lemma ByteBitSet(b: byte, i: nat, j: nat)
    requires i < 8 && j < 8
    ensures ByteBit(b | Mask(i), j) <==> i == j || ByteBit(b, j)
  {
  }

  /** A bit of `x | y` is set when it is set in `x` or in `y`. */
  lemma ByteBitOr(x: byte, y: byte, i: nat)
    requires i < 8
    ensures ByteBit(x | y, i) <==> ByteBit(x, i) || ByteBit(y, i)
  {
  }

  /** A byte is determined by its eight bits. */
  lemma ByteFromBits(x: byte, y: byte)
    requires forall t :: 0 <= t < 8 ==> (ByteBit(x, t) <==> ByteBit(y, t))
    ensures x == y
  {
    assert ByteBit(x, 0) == ByteBit(y, 0) && ByteBit(x, 1) == ByteBit(y, 1);
    assert ByteBit(x, 2) == ByteBit(y, 2) && ByteBit(x, 3) == ByteBit(y, 3);
    assert ByteBit(x, 4) == ByteBit(y, 4) && ByteBit(x, 5) == ByteBit(y, 5);
    assert ByteBit(x, 6) == ByteBit(y, 6) && ByteBit(x, 7) == ByteBit(y, 7);
  }

  /** 1 if bit `i` of `b` is set, else 0. */
  function BitValue(b: byte, i: nat): nat
  {
    if ByteBit(b, i) then 1 else 0
  }

  /** `UInt32.BitCount` on a byte: the number of its set bits. */
  function BitCount(b: byte): (r: nat)
    ensures r <= 8
  {
    BitValue(b, 0) + BitValue(b, 1) + BitValue(b, 2) + BitValue(b, 3)
    + BitValue(b, 4) + BitValue(b, 5) + BitValue(b, 6) + BitValue(b, 7)
  }

  /** Setting a clear bit adds one to the count of set bits. */
  lemma BitCountSetBit(b: byte, i: nat)
    requires i < 8 && !ByteBit(b, i)
    ensures BitCount(b | Mask(i)) == BitCount(b) + 1
  {
    forall t | 0 <= t < 8
      ensures BitValue(b | Mask(i), t) == BitValue(b, t) + (if t == i then 1 else 0)
    {
      ByteBitSet(b, i, t);
    }
  }

  /** A byte has all eight bits set exactly when it is 0xFF. */
  lemma FullByte(b: byte)
    ensures (forall t :: 0 <= t < 8 ==> ByteBit(b, t)) <==> b == 0xFF
  {
    if forall t :: 0 <= t < 8 ==> ByteBit(b, t) {
      ByteFromBits(b, 0xFF);
    }
  }

  /** A byte counts eight set bits exactly when it is 0xFF. */
  lemma BitCountFull(b: byte)
    ensures BitCount(b) == 8 <==> b == 0xFF
  {
    FullByte(b);
    if BitCount(b) == 8 {
      forall t | 0 <= t < 8 ensures ByteBit(b, t) {
        assert BitValue(b, t) == 1;
      }
    }
  }

  /** The number of set bits of a bitmap, summed byte by byte in order. */
  function Ones(s: seq<byte>): (r: nat)
    ensures r <= 8 * |s|
  {
    if s == [] then 0 else Ones(s[..|s| - 1]) + BitCount(s[|s| - 1])
  }

  /** The number of clear bits of a bitmap. */
  function Zeros(s: seq<byte>): nat
  {
    8 * |s| - Ones(s)
  }

  /** Replacing one byte changes the set-bit count by the difference of the two bytes'
      counts. */
  lemma {:induction false} OnesUpdate(s: seq<byte>, i: nat, b: byte)
    requires i < |s|
    ensures Ones(s[i := b]) + BitCount(s[i]) == Ones(s) + BitCount(b)
    decreases |s|
  {
    var t := s[i := b];
    if i < |s| - 1 {
      assert t[..|t| - 1] == s[..|s| - 1][i := b];
      OnesUpdate(s[..|s| - 1], i, b);
    } else {
      assert t[..|t| - 1] == s[..|s| - 1];
    }
  }

  /** A bitmap has no clear bit exactly when every byte is 0xFF. */
  lemma {:induction false} OnesFull(s: seq<byte>)
    ensures Ones(s) == 8 * |s| <==> forall i :: 0 <= i < |s| ==> s[i] == 0xFF
    decreases |s|
  {
    if s != [] {
      var p := s[..|s| - 1];
      OnesFull(p);
      BitCountFull(s[|s| - 1]);
      if Ones(s) == 8 * |s| {
        forall i | 0 <= i < |s| ensures s[i] == 0xFF {
          if i < |s| - 1 {
            assert p[i] == s[i];
          }
        }
      }
      if forall i :: 0 <= i < |s| ==> s[i] == 0xFF {
        forall i | 0 <= i < |p| ensures p[i] == 0xFF {
          assert p[i] == s[i];
        }
      }
    }
  }

  /** Bit `k` of the bitmap: bit `k % 8` of byte `k / 8`, counted from the least
      significant bit. */
  predicate BitOf(s: seq<byte>, k: nat)
    requires k < 8 * |s|
  {
    ByteBit(s[k / 8], k % 8)
  }

  /** The bitmap with bit `k` set. */
  function SetBit(s: seq<byte>, k: nat): (r: seq<byte>)
    requires k < 8 * |s|
    ensures |r| == |s|
  {
    s[k / 8 := s[k / 8] | Mask(k % 8)]
  }

  /** Bit positions are equal exactly when their bytes and their offsets are. */
  lemma SamePosition(k: nat, k': nat)
    ensures k == k' <==> k / 8 == k' / 8 && k % 8 == k' % 8
  {
    assert k == 8 * (k / 8) + k % 8 && k' == 8 * (k' / 8) + k' % 8;
  }

  /** After `SetBit(s, k)` bit `k` is set and every other bit is as before. */
  lemma SetBitBits(s: seq<byte>, k: nat, k': nat)
    requires k < 8 * |s| && k' < 8 * |s|
    ensures BitOf(SetBit(s, k), k') <==> k' == k || BitOf(s, k')
  {
    SamePosition(k, k');
    if k / 8 == k' / 8 {
      ByteBitSet(s[k / 8], k % 8, k' % 8);
    }
  }

  /** Setting a clear bit removes exactly one clear bit; setting a set bit changes
      nothing. */
  lemma ZerosSetBit(s: seq<byte>, k: nat)
    requires k < 8 * |s|
    ensures !BitOf(s, k) ==> Zeros(SetBit(s, k)) + 1 == Zeros(s)
    ensures BitOf(s, k) ==> SetBit(s, k) == s
  {
    if !BitOf(s, k) {
      BitCountSetBit(s[k / 8], k % 8);
      OnesUpdate(s, k / 8, s[k / 8] | Mask(k % 8));
    } else {
      SetBitKeepsByte(s[k / 8], k % 8);
    }
  }

  /** OR-ing in a bit that is already set leaves the byte as it was. */
  lemma SetBitKeepsByte(b: byte, i: nat)
    requires i < 8 && ByteBit(b, i)
    ensures b | Mask(i) == b
  {
    forall t | 0 <= t < 8 ensures ByteBit(b | Mask(i), t) <==> ByteBit(b, t) {
      ByteBitSet(b, i, t);
    }
    ByteFromBits(b | Mask(i), b);
  }

  /** Two bitmaps of one length with the same bits are equal. */
  lemma BitsDetermine(a: seq<byte>, b: seq<byte>)
    requires |a| == |b|
    requires forall k :: 0 <= k < 8 * |a| ==> (BitOf(a, k) <==> BitOf(b, k))
    ensures a == b
  {
    forall i | 0 <= i < |a| ensures a[i] == b[i] {
      forall t | 0 <= t < 8 ensures ByteBit(a[i], t) <==> ByteBit(b[i], t) {
        var k := 8 * i + t;
        assert k / 8 == i && k % 8 == t;
        assert BitOf(a, k) <==> BitOf(b, k);
      }
      ByteFromBits(a[i], b[i]);
    }
  }

  /** A bitmap of `size` zero bytes. */
  function Blank(size: nat): (r: seq<byte>)
    ensures |r| == size && forall i :: 0 <= i < size ==> r[i] == 0
  {
    seq(size, _ => 0)
  }

  /** The bytewise OR of two bitmaps of one length. */
  function OrBytes(a: seq<byte>, b: seq<byte>): (r: seq<byte>)
    requires |a| == |b|
    ensures |r| == |a|
  {
    seq(|a|, i requires 0 <= i < |a| => a[i] | b[i])
  }

  /** A bit of an OR is set when it is set in either operand. */
  lemma OrBytesBit(a: seq<byte>, b: seq<byte>, k: nat)
    requires |a| == |b| && k < 8 * |a|
    ensures BitOf(OrBytes(a, b), k) <==> BitOf(a, k) || BitOf(b, k)
  {
    ByteBitOr(a[k / 8], b[k / 8], k % 8);
  }

  /** Every bitmap of `bms` has `size` bytes. */
  predicate AllOfSize(bms: seq<seq<byte>>, size: nat)
  {
    forall j :: 0 <= j < |bms| ==> |bms[j]| == size
  }

  /** The bitmaps of `bms` OR-ed, in order, into a blank bitmap of `size` bytes. */
  function OrAll(bms: seq<seq<byte>>, size: nat): (r: seq<byte>)
    requires AllOfSize(bms, size)
    ensures |r| == size
  {
    if bms == [] then Blank(size) else OrBytes(OrAll(bms[..|bms| - 1], size), bms[|bms| - 1])
  }

  /** A bit of the merged bitmap is set exactly when it is set in some input. */
  lemma {:induction false} OrAllBit(bms: seq<seq<byte>>, size: nat, k: nat)
    requires AllOfSize(bms, size) && k < 8 * size
    ensures BitOf(OrAll(bms, size), k) <==> exists j :: 0 <= j < |bms| && BitOf(bms[j], k)
    decreases |bms|
  {
    if bms == [] {
      assert !BitOf(Blank(size), k);
    } else {
      var p := bms[..|bms| - 1];
      OrAllBit(p, size, k);
      OrBytesBit(OrAll(p, size), bms[|bms| - 1], k);
      if exists j :: 0 <= j < |bms| && BitOf(bms[j], k) {
        var j :| 0 <= j < |bms| && BitOf(bms[j], k);
        if j < |bms| - 1 {
          assert p[j] == bms[j];
        }
      }
      if exists j :: 0 <= j < |p| && BitOf(p[j], k) {
        var j :| 0 <= j < |p| && BitOf(p[j], k);
        assert bms[j] == p[j];
      }
    }
  }

  /** Merging depends only on which bitmaps take part: not on their order, nor on how
      often each appears. */
  lemma OrAllSameElements(bms1: seq<seq<byte>>, bms2: seq<seq<byte>>, size: nat)
    requires AllOfSize(bms1, size) && AllOfSize(bms2, size)
    requires forall x :: x in bms1 <==> x in bms2
    ensures OrAll(bms1, size) == OrAll(bms2, size)
  {
    var r1, r2 := OrAll(bms1, size), OrAll(bms2, size);
    forall k | 0 <= k < 8 * size ensures BitOf(r1, k) <==> BitOf(r2, k) {
      OrAllBit(bms1, size, k);
      OrAllBit(bms2, size, k);
      if BitOf(r1, k) {
        var j :| 0 <= j < |bms1| && BitOf(bms1[j], k);
        assert bms1[j] in bms1;
        var j2 :| 0 <= j2 < |bms2| && bms2[j2] == bms1[j];
      }
      if BitOf(r2, k) {
        var j :| 0 <= j < |bms2| && BitOf(bms2[j], k);
        assert bms2[j] in bms2;
        var j1 :| 0 <= j1 < |bms1| && bms1[j1] == bms2[j];
      }
    }
    BitsDetermine(r1, r2);
  }

  /** Merging a bitmap with itself, or any bitmaps with themselves again, changes
      nothing. */
  lemma OrAllIdempotent(bms: seq<seq<byte>>, size: nat)
    requires AllOfSize(bms, size)
    ensures OrAll(bms + bms, size) == OrAll(bms, size)
  {
    OrAllSameElements(bms + bms, bms, size);
  }

  /** Setting the bit of a hash in one input and then merging equals merging and then
      setting that bit: a counter that saw every item agrees with the merge of counters
      that each saw some of them. */
  lemma OrAllSetBit(bms: seq<seq<byte>>, size: nat, j: nat, k: nat)
    requires AllOfSize(bms, size) && j < |bms| && k < 8 * size
    ensures AllOfSize(bms[j := SetBit(bms[j], k)], size)
    ensures OrAll(bms[j := SetBit(bms[j], k)], size) == SetBit(OrAll(bms, size), k)
  {
    var bms' := bms[j := SetBit(bms[j], k)];
    var r, r' := OrAll(bms, size), OrAll(bms', size);
    forall k' | 0 <= k' < 8 * size ensures BitOf(r', k') <==> BitOf(SetBit(r, k), k') {
      OrAllBit(bms, size, k');
      OrAllBit(bms', size, k');
      SetBitBits(r, k, k');
      SetBitBits(bms[j], k, k');
      if k' == k {
        assert BitOf(bms'[j], k');
      } else {
        if BitOf(r', k') {
          var i :| 0 <= i < |bms'| && BitOf(bms'[i], k');
          assert BitOf(bms[i], k');
        }
        if BitOf(r, k') {
          var i :| 0 <= i < |bms| && BitOf(bms[i], k');
          assert BitOf(bms'[i], k');
        }
      }
    }
    BitsDetermine(r', SetBit(r, k));
  }

  /** `Math.Ceiling(bits / 8D)`: the bytes that hold `bits` bits. */
  function BytesForBits(bits: nat): (r: nat)
    ensures 8 * r >= bits && (r > 0 ==> 8 * (r - 1) < bits)
  {
    (bits + 7) / 8
  }

  /** How a factory sizes the bitmap: a byte count, or an argument it refuses. */
  datatype Sizing = Bytes(count: nat) | OutOfRange

  /** `CreateWithError(eps, maxCardinality)`: refuses an `eps` outside (0, 1) and a zero
      `maxCardinality`; otherwise the bitmap holds `requiredBits`, the bit length the
      precision inequality gives (a floating-point search this model takes as given). */
  function CreateWithError(eps: real, maxCardinality: uint32, requiredBits: nat): (r: Sizing)
    ensures r.OutOfRange? <==> eps >= 1.0 || eps <= 0.0 || maxCardinality == 0
    ensures r.Bytes? ==> 8 * r.count >= requiredBits
  {
    if eps >= 1.0 || eps <= 0.0 then OutOfRange
    else if maxCardinality == 0 then OutOfRange
    else Bytes(BytesForBits(requiredBits))
  }

  /** The first entry of the one-percent-error table: the bitmap bits for cardinalities
      below 100. */
  const OnePercentErrorLength0: nat := 5034

  /** The bitmap bits for one-percent error: the first table entry below 100, a
      twelfth of the cardinality above 120 000 000, and in between `interpolated`, the
      floating-point interpolation of the table this model takes as given. */
  function OnePercentErrorBits(maxCardinality: uint32, interpolated: uint32): nat
  {
    if maxCardinality < 100 then OnePercentErrorLength0
    else if maxCardinality <= 120_000_000 then interpolated
    else maxCardinality / 12
  }

  /** `CreateWithOnePercentError(maxCardinality)`: refuses zero, otherwise the bytes that
      hold `OnePercentErrorBits`. */
  function CreateWithOnePercentError(maxCardinality: uint32, interpolated: uint32): (r: Sizing)
    ensures r.OutOfRange? <==> maxCardinality == 0
    ensures 0 < maxCardinality < 100 ==> r == Bytes(630)
    ensures r.Bytes? && maxCardinality > 120_000_000
            ==> 8 * r.count >= maxCardinality / 12 && 8 * (r.count - 1) < maxCardinality / 12
  {
    if maxCardinality == 0 then OutOfRange
    else Bytes(BytesForBits(OnePercentErrorBits(maxCardinality, interpolated)))
  }

  /** The largest `ulong`, which `Cardinality` returns for a saturated counter. */
  const MaxCardinality: uint64 := 0xFFFF_FFFF_FFFF_FFFF

  datatype Option<T> = None | Some(value: T)

  /** The bitmaps of `es`, in order. */
  function Bitmaps(es: seq<LinearCounter>): (r: seq<seq<byte>>)
    reads set e | e in es :: e.Bitmap
    ensures |r| == |es| && forall j :: 0 <= j < |es| ==> r[j] == es[j].Bitmap[..]
  {
    if es == [] then [] else Bitmaps(es[..|es| - 1]) + [es[|es| - 1].Bitmap[..]]
  }

  /** What `MergeAll` gives: a new counter, or the exception it throws. */
  datatype MergeResult = Merged(counter: LinearCounter) | EmptyInput | SizeMismatch

  class LinearCounter {
    /** The bitmap the hashed items are mapped into. */
    const Bitmap: array<byte>
    /** `_bitmapBits`: `8 * Bitmap.Length` in `uint` arithmetic. */
    const BitmapBits: uint32
    /** The number of bits still clear in `Bitmap`. */
    var UnsetBits: uint32

    /** The counter's invariant: the bit count did not wrap and `UnsetBits` counts the
        clear bits. */
    ghost predicate Valid()
      reads this, Bitmap
    {
      BitmapBits == 8 * Bitmap.Length && UnsetBits == Zeros(Bitmap[..])
    }

    /** `new LinearCounter(size)`: a blank bitmap of `size` bytes, all bits unset. */
    constructor(size: uint32)
      ensures fresh(Bitmap) && Bitmap[..] == Blank(size)
      ensures BitmapBits == (8 * size) % 0x1_0000_0000 && UnsetBits == BitmapBits
      ensures size < 0x2000_0000 ==> Valid()
    {
      Bitmap := new byte[size](_ => 0);
      BitmapBits := (8 * size) % 0x1_0000_0000;
      UnsetBits := (8 * size) % 0x1_0000_0000;
      new;
      assert Bitmap[..] == Blank(size);
      BlankHasNoOnes(size);
    }

    /** `new LinearCounter(bitmap)`: a counter over `bitmap`, which it shares, with the
        clear bits counted. */
    constructor FromBitmap(bitmap: array<byte>)
      ensures Bitmap == bitmap
      ensures BitmapBits == (8 * bitmap.Length) % 0x1_0000_0000
      ensures UnsetBits == (BitmapBits - Ones(bitmap[..])) % 0x1_0000_0000
      ensures bitmap.Length < 0x2000_0000 ==> Valid()
    {
      Bitmap := bitmap;
      BitmapBits := (8 * bitmap.Length) % 0x1_0000_0000;
      new;
      UnsetBits := CalcUnsetBits();
    }

    /** `CalcUnsetBits()`: the bit count less the set bits of every byte, both in `uint`
        arithmetic. */
    method CalcUnsetBits() returns (r: uint32)
      ensures r == (BitmapBits - Ones(Bitmap[..])) % 0x1_0000_0000
      ensures BitmapBits == 8 * Bitmap.Length ==> r == Zeros(Bitmap[..])
    {
      ghost var s := Bitmap[..];
      var c: uint32 := 0;
      var i := 0;
      while i < Bitmap.Length
        invariant 0 <= i <= |s|
        invariant c == Ones(s[..i]) % 0x1_0000_0000
      {
        CountStep(s, i, c);
        c := (c + BitCount(Bitmap[i])) % 0x1_0000_0000;
        i := i + 1;
      }
      assert s[..i] == s;
      CountDone(Ones(s), |s|, BitmapBits, c);
      r := (BitmapBits - c) % 0x1_0000_0000;
    }

    /** `OfferHashed(hash)`: sets bit `hash % _bitmapBits` and reports whether it was
        clear, counting it off `UnsetBits` if so. */
    method OfferHashed(hash: uint32) returns (changed: bool)
      requires Valid() && 0 < Bitmap.Length < 0x1000_0000
      modifies this, Bitmap
      ensures Valid()
      ensures changed <==> !BitOf(old(Bitmap[..]), hash % BitmapBits)
      ensures Bitmap[..] == SetBit(old(Bitmap[..]), hash % BitmapBits)
      ensures UnsetBits == if changed then old(UnsetBits) - 1 else old(UnsetBits)
    {
      var bitIndex := hash % BitmapBits;
      var byteIndex := bitIndex / 8;
      var b := Bitmap[byteIndex];
      var updateMask := Mask(bitIndex % 8);
      ZerosSetBit(Bitmap[..], bitIndex);
      OfferStep(Bitmap[..], bitIndex, b, updateMask);
      if b & updateMask == 0 {
        Bitmap[byteIndex] := b | updateMask;
        UnsetBits := UnsetBits - 1;
        changed := true;
      } else {
        changed := false;
      }
    }

    /** The saturation case of `Cardinality()`: with no bit left clear (and a non-empty
        bitmap) the estimate is infinite and `ulong.MaxValue` is returned; any other
        estimate is finite and computed in floating point, which this model leaves out. */
    function SaturatedCardinality(): (r: Option<uint64>)
      reads this
      ensures r.Some? ==> r.value == MaxCardinality
    {
      if UnsetBits == 0 && BitmapBits > 0 then Some(MaxCardinality) else None
    }

    /** A valid counter is saturated exactly when its bitmap is non-empty and every bit is
        set. */
    lemma SaturatedIffFull()
      requires Valid()
      ensures SaturatedCardinality().Some?
        <==> Bitmap.Length > 0 && forall k :: 0 <= k < 8 * Bitmap.Length ==> BitOf(Bitmap[..], k)
    {
      OnesFull(Bitmap[..]);
      AllBitsSet(Bitmap[..]);
    }

    /** `MergeAll(estimators)`: a new counter over the bytewise OR of all the bitmaps; it
        refuses an empty list and bitmaps of differing lengths. No operand changes. */
    static method MergeAll(estimators: seq<LinearCounter>) returns (r: MergeResult)
      ensures r.EmptyInput? <==> |estimators| == 0
      ensures r.SizeMismatch?
        <==> |estimators| > 0 && !AllOfSize(Bitmaps(estimators), estimators[0].Bitmap.Length)
      ensures r.Merged? ==>
        && fresh(r.counter) && fresh(r.counter.Bitmap)
        && r.counter.Bitmap[..] == OrAll(Bitmaps(estimators), estimators[0].Bitmap.Length)
        && (r.counter.Bitmap.Length < 0x2000_0000 ==> r.counter.Valid())
    {
      if |estimators| == 0 {
        return EmptyInput;
      }
      ghost var bms := Bitmaps(estimators);
      var size := estimators[0].Bitmap.Length;
      var mergedBytes := new byte[size](_ => 0);
      var e := 0;
      while e < |estimators|
        invariant 0 <= e <= |estimators|
        invariant AllOfSize(bms[..e], size)
        invariant mergedBytes[..] == OrAll(bms[..e], size)
      {
        var estimator := estimators[e];
        if estimator.Bitmap.Length != size {
          return SizeMismatch;
        }
        OrInto(mergedBytes, estimator.Bitmap);
        OrAllSnoc(bms, e, size);
        e := e + 1;
      }
      assert bms[..e] == bms;
      var merged := new LinearCounter.FromBitmap(mergedBytes);
      return Merged(merged);
    }

    /** `MergeWith(estimators)`: `MergeAll` of `estimators` followed by this counter. */
    method MergeWith(estimators: seq<LinearCounter>) returns (r: MergeResult)
      ensures !r.EmptyInput?
      ensures r.SizeMismatch? <==> !AllOfSize(Bitmaps(estimators + [this]), (estimators + [this])[0].Bitmap.Length)
      ensures r.Merged? ==>
        && fresh(r.counter) && fresh(r.counter.Bitmap)
        && r.counter.Bitmap[..] == OrAll(Bitmaps(estimators + [this]), Bitmap.Length)
        && (r.counter.Bitmap.Length < 0x2000_0000 ==> r.counter.Valid())
    {
      r := MergeAll(estimators + [this]);
    }
  }

  /** Merging one more bitmap ORs it into the merge of the ones before. */
  lemma OrAllSnoc(bms: seq<seq<byte>>, e: nat, size: nat)
    requires e < |bms| && AllOfSize(bms[..e], size) && |bms[e]| == size
    ensures AllOfSize(bms[..e + 1], size)
    ensures OrAll(bms[..e + 1], size) == OrBytes(OrAll(bms[..e], size), bms[e])
  {
    assert bms[..e + 1][..e] == bms[..e];
  }

  /** The inner loop of `MergeAll`: `mergedBytes[b] |= bitmap[b]` for every byte. */
  method OrInto(mergedBytes: array<byte>, bitmap: array<byte>)
    requires mergedBytes != bitmap && mergedBytes.Length == bitmap.Length
    modifies mergedBytes
    ensures mergedBytes[..] == OrBytes(old(mergedBytes[..]), bitmap[..])
  {
    var b := 0;
    while b < mergedBytes.Length
      invariant 0 <= b <= mergedBytes.Length
      invariant forall i :: 0 <= i < mergedBytes.Length ==>
        mergedBytes[i] == if i < b then old(mergedBytes[i]) | bitmap[i] else old(mergedBytes[i])
    {
      mergedBytes[b] := mergedBytes[b] | bitmap[b];
      b := b + 1;
    }
  }

  /** One pass of `OfferHashed` on bitmap `s`, with `b` the byte of bit `k` and
      `updateMask` its mask: the test reads bit `k` and the store sets it. */
  lemma OfferStep(s: seq<byte>, k: nat, b: byte, updateMask: byte)
    requires k < 8 * |s| && b == s[k / 8] && updateMask == Mask(k % 8)
    ensures b & updateMask == 0 <==> !BitOf(s, k)
    ensures SetBit(s, k) == s[k / 8 := b | updateMask]
  {
  }

  /** Every bit of a bitmap is set exactly when every byte is 0xFF. */
  lemma AllBitsSet(s: seq<byte>)
    ensures (forall k :: 0 <= k < 8 * |s| ==> BitOf(s, k)) <==> forall i :: 0 <= i < |s| ==> s[i] == 0xFF
  {
    if forall k :: 0 <= k < 8 * |s| ==> BitOf(s, k) {
      forall i | 0 <= i < |s| ensures s[i] == 0xFF {
        forall t | 0 <= t < 8 ensures ByteBit(s[i], t) {
          var k := 8 * i + t;
          assert k / 8 == i && k % 8 == t;
          assert BitOf(s, k);
        }
        FullByte(s[i]);
      }
    }
    if forall i :: 0 <= i < |s| ==> s[i] == 0xFF {
      forall k | 0 <= k < 8 * |s| ensures BitOf(s, k) {
        FullByte(s[k / 8]);
      }
    }
  }

  /** One round of `CalcUnsetBits`: adding the next byte's bit count to the wrapped
      running count wraps the count of one more byte. */
  lemma CountStep(s: seq<byte>, i: nat, c: int)
    requires i < |s| && c == Ones(s[..i]) % 0x1_0000_0000
    ensures (c + BitCount(s[i])) % 0x1_0000_0000 == Ones(s[..i + 1]) % 0x1_0000_0000
  {
    assert s[..i + 1][..i] == s[..i];
    assert Ones(s[..i + 1]) == Ones(s[..i]) + BitCount(s[i]);
    ModAdd(Ones(s[..i]), BitCount(s[i]));
  }

  /** The end of `CalcUnsetBits`: subtracting the wrapped count of set bits from the
      bit count gives the wrapped difference, which is the number of clear bits when
      the bit count is exact. */
  lemma CountDone(ones: nat, length: nat, bits: uint32, c: int)
    requires c == ones % 0x1_0000_0000 && ones <= 8 * length
    ensures (bits - c) % 0x1_0000_0000 == (bits - ones) % 0x1_0000_0000
    ensures bits == 8 * length ==> (bits - c) % 0x1_0000_0000 == 8 * length - ones
  {
    var q := ones / 0x1_0000_0000;
    ModShift(bits - ones, bits - c, q);
    if bits == 8 * length {
      ModSmallOf(bits - ones);
    }
  }

  /** A number below 2^32 is its own remainder. */
  lemma ModSmallOf(x: int)
    requires 0 <= x < 0x1_0000_0000
    ensures x % 0x1_0000_0000 == x
  {
  }

  /** Adding a multiple of 2^32 keeps the remainder. */
  lemma ModShift(x: int, y: int, q: int)
    requires y == x + 0x1_0000_0000 * q
    ensures y % 0x1_0000_0000 == x % 0x1_0000_0000
  {
  }

  /** `(a mod 2^32 + x) mod 2^32 = (a + x) mod 2^32`. */
  lemma ModAdd(a: nat, x: nat)
    ensures (a % 0x1_0000_0000 + x) % 0x1_0000_0000 == (a + x) % 0x1_0000_0000
  {
  }

  /** A blank bitmap has no set bit. */
  lemma {:induction false} BlankHasNoOnes(size: nat)
    ensures Ones(Blank(size)) == 0
  {
    if size > 0 {
      assert Blank(size)[..size - 1] == Blank(size - 1);
      BlankHasNoOnes(size - 1);
    }
  }
}
