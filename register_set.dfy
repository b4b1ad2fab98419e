/** `RegisterSet`: the dense HyperLogLog registers, six 5-bit registers packed into each
    32-bit word, register `p` in word `p / 6` at bit `5 * (p % 6)`; the two top bits of a
    word hold no register. */
module Registers {
  import opened FixedWidth

  // The field index `j` of the functions below is always below 6; they are total so
  // that their definitions stay cheap to reason about.

  /** `0x1f << (5 * j)`: the bits of field `j` of a word. */
  function FieldMask(j: nat): bv32
  {
    if j == 0 then 0x1F else if j == 1 then 0x3E0 else if j == 2 then 0x7C00
    else if j == 3 then 0xF_8000 else if j == 4 then 0x1F0_0000 else 0x3E00_0000
  }

  /** `x << (5 * j)`. */
  function Up(x: bv32, j: nat): bv32
  {
    if j == 0 then x else if j == 1 then x << 5 else if j == 2 then x << 10
    else if j == 3 then x << 15 else if j == 4 then x << 20 else x << 25
  }

  /** `x >> (5 * j)`. */
  function Down(x: bv32, j: nat): bv32
  {
    if j == 0 then x else if j == 1 then x >> 5 else if j == 2 then x >> 10
    else if j == 3 then x >> 15 else if j == 4 then x >> 20 else x >> 25
  }

  /** `(w & (0x1f << shift)) >> shift` with `shift = 5 * j`: field `j` of word `w`. */
  function GetField(w: bv32, j: nat): bv32
  {
    Down(w & FieldMask(j), j)
  }

  /** `(w & ~(0x1f << shift)) | (v << shift)` with `shift = 5 * j`: field `j` cleared and
      `v` OR-ed in at its place, bits of `v` above the field included. */
  function SetField(w: bv32, j: nat, v: bv32): bv32
  {
    (w & !FieldMask(j)) | Up(v, j)
  }

  /** A field holds a value below 32. */
  lemma FieldBound(w: bv32, j: nat)
    requires j < 6
    ensures GetField(w, j) < 32
  {
  }

  /** A masked field is its value shifted into place. */
  lemma MaskedIsUp(w: bv32, j: nat)
    requires j < 6
    ensures w & FieldMask(j) == Up(GetField(w, j), j)
  {
  }

  /** A register value shifted into place and back is unchanged. */
  lemma UpDown(v: bv32, j: nat)
    requires j < 6 && v < 32
    ensures Down(Up(v, j), j) == v
  {
  }

  /** Setting field `j` to a value below 32 puts that value, in place, in the field. */
  lemma SetOwnField(w: bv32, j: nat, v: bv32)
    requires j < 6 && v < 32
    ensures SetField(w, j, v) & FieldMask(j) == Up(v, j)
  {
  }

  /** Setting field `j` to a value below 32 leaves the bits of every other field. */
  lemma SetOtherField(w: bv32, i: nat, j: nat, v: bv32)
    requires i < 6 && j < 6 && i != j && v < 32
    ensures SetField(w, j, v) & FieldMask(i) == w & FieldMask(i)
  {
  }

  /** `Set` followed by `Get` at the same register yields the value set. */
  lemma SetThenGet(w: bv32, j: nat, v: bv32)
    requires j < 6 && v < 32
    ensures GetField(SetField(w, j, v), j) == v
  {
    SetOwnField(w, j, v);
    UpDown(v, j);
  }

  /** `Set` of a value below 32 leaves every other register of the word alone. */
  lemma SetKeepsOthers(w: bv32, i: nat, j: nat, v: bv32)
    requires i < 6 && j < 6 && i != j && v < 32
    ensures GetField(SetField(w, j, v), i) == GetField(w, i)
  {
    SetOtherField(w, i, j, v);
  }

  // The comparisons of masked words below are proved one field at a time: each `...At`
  // lemma fixes the field, and the lemma after it picks the one for `j`.

  lemma UpdateTestAt0(w: bv32, j: nat, v: bv32)
    requires j == 0 && v < 32
    ensures w & FieldMask(j) < Up(v, j) <==> GetField(w, j) < v
  {
  }

  lemma UpdateTestAt1(w: bv32, j: nat, v: bv32)
    requires j == 1 && v < 32
    ensures w & FieldMask(j) < Up(v, j) <==> GetField(w, j) < v
  {
  }

  lemma UpdateTestAt2(w: bv32, j: nat, v: bv32)
    requires j == 2 && v < 32
    ensures w & FieldMask(j) < Up(v, j) <==> GetField(w, j) < v
  {
  }

  lemma UpdateTestAt3(w: bv32, j: nat, v: bv32)
    requires j == 3 && v < 32
    ensures w & FieldMask(j) < Up(v, j) <==> GetField(w, j) < v
  {
  }

  lemma UpdateTestAt4(w: bv32, j: nat, v: bv32)
    requires j == 4 && v < 32
    ensures w & FieldMask(j) < Up(v, j) <==> GetField(w, j) < v
  {
  }

  lemma UpdateTestAt5(w: bv32, j: nat, v: bv32)
    requires j == 5 && v < 32
    ensures w & FieldMask(j) < Up(v, j) <==> GetField(w, j) < v
  {
  }

  /** `UpdateIfGreater`'s test: the masked field is below the value shifted into place
      exactly when the register is below the value. */
  lemma UpdateTest(w: bv32, j: nat, v: bv32)
    requires j < 6 && v < 32
    ensures w & FieldMask(j) < Up(v, j) <==> GetField(w, j) < v
  {
    if j == 0 { UpdateTestAt0(w, j, v); } else if j == 1 { UpdateTestAt1(w, j, v); }
    else if j == 2 { UpdateTestAt2(w, j, v); } else if j == 3 { UpdateTestAt3(w, j, v); }
    else if j == 4 { UpdateTestAt4(w, j, v); } else { UpdateTestAt5(w, j, v); }
  }

  function Max(x: bv32, y: bv32): bv32
  {
    if x < y then y else x
  }

  /** `thisVal < otherVal ? otherVal : thisVal` for field `j` of two words. */
  function MaxMasked(a: bv32, b: bv32, j: nat): bv32
  {
    Max(a & FieldMask(j), b & FieldMask(j))
  }

  /** The word `Merge`'s inner loop has built after its first `k` fields. */
  function MergePrefix(a: bv32, b: bv32, k: nat): bv32
  {
    if k == 0 then 0 else MergePrefix(a, b, k - 1) | MaxMasked(a, b, k - 1)
  }

  /** The word `Merge` stores for two words: the larger masked field of each of the six. */
  function MergeWord(a: bv32, b: bv32): bv32
  {
    MaxMasked(a, b, 0) | MaxMasked(a, b, 1) | MaxMasked(a, b, 2)
    | MaxMasked(a, b, 3) | MaxMasked(a, b, 4) | MaxMasked(a, b, 5)
  }

  /** One more step of the inner loop ORs in the next field's maximum. */
  lemma MergePrefixStep(a: bv32, b: bv32, j: nat)
    ensures MergePrefix(a, b, j + 1) == MergePrefix(a, b, j) | MaxMasked(a, b, j)
  {
  }

  /** The inner loop's word after one step, and after each further step (one lemma per
      step keeps each proof to a single equation). */
  lemma MergePrefix1(a: bv32, b: bv32)
    ensures MergePrefix(a, b, 1) == MaxMasked(a, b, 0)
  {
  }

  lemma MergePrefix2(a: bv32, b: bv32)
    ensures MergePrefix(a, b, 2) == MaxMasked(a, b, 0) | MaxMasked(a, b, 1)
  {
    MergePrefix1(a, b);
  }

  lemma MergePrefix3(a: bv32, b: bv32)
    ensures MergePrefix(a, b, 3) == MaxMasked(a, b, 0) | MaxMasked(a, b, 1) | MaxMasked(a, b, 2)
  {
    MergePrefix2(a, b);
  }

  lemma MergePrefix4(a: bv32, b: bv32)
    ensures MergePrefix(a, b, 4)
         == MaxMasked(a, b, 0) | MaxMasked(a, b, 1) | MaxMasked(a, b, 2) | MaxMasked(a, b, 3)
  {
    MergePrefix3(a, b);
  }

  lemma MergePrefix5(a: bv32, b: bv32)
    ensures MergePrefix(a, b, 5)
         == MaxMasked(a, b, 0) | MaxMasked(a, b, 1) | MaxMasked(a, b, 2) | MaxMasked(a, b, 3)
            | MaxMasked(a, b, 4)
  {
    MergePrefix4(a, b);
  }

  /** All six steps of the inner loop build the merged word. */
  lemma MergePrefixComplete(a: bv32, b: bv32)
    ensures MergePrefix(a, b, 6) == MergeWord(a, b)
  {
    MergePrefix5(a, b);
  }

  lemma MergeWordFieldAt0(a: bv32, b: bv32, i: nat)
    requires i == 0
    ensures GetField(MergeWord(a, b), i) == Max(GetField(a, i), GetField(b, i))
  {
  }

  lemma MergeWordFieldAt1(a: bv32, b: bv32, i: nat)
    requires i == 1
    ensures GetField(MergeWord(a, b), i) == Max(GetField(a, i), GetField(b, i))
  {
  }

  lemma MergeWordFieldAt2(a: bv32, b: bv32, i: nat)
    requires i == 2
    ensures GetField(MergeWord(a, b), i) == Max(GetField(a, i), GetField(b, i))
  {
  }

  lemma MergeWordFieldAt3(a: bv32, b: bv32, i: nat)
    requires i == 3
    ensures GetField(MergeWord(a, b), i) == Max(GetField(a, i), GetField(b, i))
  {
  }

  lemma MergeWordFieldAt4(a: bv32, b: bv32, i: nat)
    requires i == 4
    ensures GetField(MergeWord(a, b), i) == Max(GetField(a, i), GetField(b, i))
  {
  }

  lemma MergeWordMaskedAt5(a: bv32, b: bv32, i: nat)
    requires i == 5
    ensures MergeWord(a, b) & FieldMask(i) == MaxMasked(a, b, i)
  {
  }

  lemma MergeWordFieldAt5(a: bv32, b: bv32, i: nat)
    requires i == 5
    ensures GetField(MergeWord(a, b), i) == Max(GetField(a, i), GetField(b, i))
  {
    MergeWordMaskedAt5(a, b, i);
  }

  /** After `Merge` every register of a word holds the larger of the two words' registers. */
  lemma MergeWordField(a: bv32, b: bv32, i: nat)
    requires i < 6
    ensures GetField(MergeWord(a, b), i) == Max(GetField(a, i), GetField(b, i))
  {
    if i == 0 { MergeWordFieldAt0(a, b, i); } else if i == 1 { MergeWordFieldAt1(a, b, i); }
    else if i == 2 { MergeWordFieldAt2(a, b, i); } else if i == 3 { MergeWordFieldAt3(a, b, i); }
    else if i == 4 { MergeWordFieldAt4(a, b, i); } else { MergeWordFieldAt5(a, b, i); }
  }

  /** The six fields of a word and nothing else. */
  const FieldBits: bv32 := 0x3FFF_FFFF

  /** `Merge` clears the two spare top bits of every word. */
  lemma MergeWordInFields(a: bv32, b: bv32)
    ensures MergeWord(a, b) & !FieldBits == 0
  {
  }

  /** Equal registers have equal masked fields. */
  lemma SameMasked(w: bv32, u: bv32, i: nat)
    requires i < 6 && GetField(w, i) == GetField(u, i)
    ensures w & FieldMask(i) == u & FieldMask(i)
  {
    MaskedIsUp(w, i);
    MaskedIsUp(u, i);
  }

  /** A word with clear top bits is the OR of its six masked fields. */
  lemma Decompose(w: bv32)
    requires w & !FieldBits == 0
    ensures w == (w & FieldMask(0)) | (w & FieldMask(1)) | (w & FieldMask(2))
               | (w & FieldMask(3)) | (w & FieldMask(4)) | (w & FieldMask(5))
  {
  }

  /** Two words with clear top bits and equal registers are equal. */
  lemma FieldsDetermineWord(w: bv32, u: bv32)
    requires w & !FieldBits == 0 && u & !FieldBits == 0
    requires forall i :: 0 <= i < 6 ==> GetField(w, i) == GetField(u, i)
    ensures w == u
  {
    forall i | 0 <= i < 6
      ensures w & FieldMask(i) == u & FieldMask(i)
    {
      SameMasked(w, u, i);
    }
    Decompose(w);
    Decompose(u);
  }

  lemma MaxCommutes(x: bv32, y: bv32)
    requires x < 32 && y < 32
    ensures Max(x, y) == Max(y, x)
  {
  }

  lemma MaxAssociates(x: bv32, y: bv32, z: bv32)
    requires x < 32 && y < 32 && z < 32
    ensures Max(Max(x, y), z) == Max(x, Max(y, z))
  {
  }

  lemma MaxAbsorbs(x: bv32, y: bv32)
    ensures Max(Max(x, y), y) == Max(x, y)
  {
  }

  lemma MergeWordCommutesAt(a: bv32, b: bv32, i: nat)
    requires i < 6
    ensures GetField(MergeWord(a, b), i) == GetField(MergeWord(b, a), i)
  {
    MergeWordField(a, b, i);
    MergeWordField(b, a, i);
    FieldBound(a, i);
    FieldBound(b, i);
    MaxCommutes(GetField(a, i), GetField(b, i));
  }

  /** Merging is commutative. */
  lemma MergeWordCommutes(a: bv32, b: bv32)
    ensures MergeWord(a, b) == MergeWord(b, a)
  {
    forall i | 0 <= i < 6
      ensures GetField(MergeWord(a, b), i) == GetField(MergeWord(b, a), i)
    {
      MergeWordCommutesAt(a, b, i);
    }
    MergeWordInFields(a, b);
    MergeWordInFields(b, a);
    FieldsDetermineWord(MergeWord(a, b), MergeWord(b, a));
  }

  lemma MergeWordAssociatesAt(a: bv32, b: bv32, c: bv32, i: nat)
    requires i < 6
    ensures GetField(MergeWord(MergeWord(a, b), c), i) == GetField(MergeWord(a, MergeWord(b, c)), i)
  {
    MergeWordField(MergeWord(a, b), c, i);
    MergeWordField(a, b, i);
    MergeWordField(a, MergeWord(b, c), i);
    MergeWordField(b, c, i);
    FieldBound(a, i);
    FieldBound(b, i);
    FieldBound(c, i);
    MaxAssociates(GetField(a, i), GetField(b, i), GetField(c, i));
  }

  /** Merging is associative, so the order in which sets are merged does not matter. */
  lemma MergeWordAssociates(a: bv32, b: bv32, c: bv32)
    ensures MergeWord(MergeWord(a, b), c) == MergeWord(a, MergeWord(b, c))
  {
    forall i | 0 <= i < 6
      ensures GetField(MergeWord(MergeWord(a, b), c), i) == GetField(MergeWord(a, MergeWord(b, c)), i)
    {
      MergeWordAssociatesAt(a, b, c, i);
    }
    MergeWordInFields(MergeWord(a, b), c);
    MergeWordInFields(a, MergeWord(b, c));
    FieldsDetermineWord(MergeWord(MergeWord(a, b), c), MergeWord(a, MergeWord(b, c)));
  }

  /** Merging a word with itself keeps its registers and clears its two top bits. */
  lemma MergeWordSelf(a: bv32)
    ensures MergeWord(a, a) == a & FieldBits
  {
  }

  lemma MergeWordIdempotentAt(a: bv32, b: bv32, i: nat)
    requires i < 6
    ensures GetField(MergeWord(MergeWord(a, b), b), i) == GetField(MergeWord(a, b), i)
  {
    MergeWordField(MergeWord(a, b), b, i);
    MergeWordField(a, b, i);
    MaxAbsorbs(GetField(a, i), GetField(b, i));
  }

  /** Merging the same word in a second time changes nothing. */
  lemma MergeWordIdempotent(a: bv32, b: bv32)
    ensures MergeWord(MergeWord(a, b), b) == MergeWord(a, b)
  {
    forall i | 0 <= i < 6
      ensures GetField(MergeWord(MergeWord(a, b), b), i) == GetField(MergeWord(a, b), i)
    {
      MergeWordIdempotentAt(a, b, i);
    }
    MergeWordInFields(MergeWord(a, b), b);
    MergeWordInFields(a, b);
    FieldsDetermineWord(MergeWord(MergeWord(a, b), b), MergeWord(a, b));
  }

  /** `GetSizeForCount` as written: `count / 6` words, one if that is zero, and one more
      unless `count / 6` is a multiple of 32. */
  function GetSizeForCount(count: uint32): (r: nat)
    ensures r >= 1
  {
    var bits := count / 6;
    if bits == 0 then 1 else if bits % 32 == 0 then bits else bits + 1
  }

  /** For 194 registers the formula gives 32 words, which hold only 192 registers. */
  lemma GetSizeForCountTooSmall()
    ensures GetSizeForCount(194) == 32 && 6 * GetSizeForCount(194) < 194
  {
  }

  /** The words needed for `count` registers: one per started group of six, and at least
      one. */
  function SizeForCount(count: uint32): (r: nat)
    ensures r >= 1 && 6 * r >= count
    ensures count > 0 ==> 6 * (r - 1) < count
  {
    if count == 0 then 1 else (count + 5) / 6
  }

  /** The formula as written allocates fewer words than `SizeForCount` exactly when
      `count / 6` is a non-zero multiple of 32 and `count` is not a multiple of 6, and then
      one word too few; otherwise it allocates enough. */
  lemma GetSizeForCountAgrees(count: uint32)
    ensures GetSizeForCount(count) < SizeForCount(count)
        <==> count / 6 > 0 && (count / 6) % 32 == 0 && count % 6 != 0
    ensures GetSizeForCount(count) + 1 >= SizeForCount(count)
  {
    var bits := count / 6;
    assert count == 6 * bits + count % 6;
    if count > 0 {
      assert SizeForCount(count) == bits + (if count % 6 == 0 then 0 else 1);
    }
  }

  /** `position / 6`: the word that holds register `position`. */
  function Bucket(position: uint32): nat
  {
    position / 6
  }

  /** `position - bucketPos * 6`: the field of register `position` within its word. */
  function Slot(position: uint32): (j: nat)
    ensures j < 6 && j == position % 6
  {
    position - Bucket(position) * 6
  }

  /** Word `k` of `words`; zero past the end. */
  function WordAt(words: seq<bv32>, k: nat): bv32
  {
    if k < |words| then words[k] else 0
  }

  /** Register `position` of the packed words. */
  function RegisterAt(words: seq<bv32>, position: uint32): (r: bv32)
    ensures r < 32
  {
    FieldBound(WordAt(words, Bucket(position)), Slot(position));
    GetField(WordAt(words, Bucket(position)), Slot(position))
  }

  /** The packed words after `Set(position, value)`. */
  function SetRegister(words: seq<bv32>, position: uint32, value: bv32): (r: seq<bv32>)
    ensures |r| == |words|
  {
    if Bucket(position) < |words| then
      words[Bucket(position) := SetField(words[Bucket(position)], Slot(position), value)]
    else
      words
  }

  /** `curVal < newVal` in `UpdateIfGreater`: field `j` of `w`, masked in place, is below
      `value` shifted into place. */
  predicate Raises(w: bv32, j: nat, value: bv32)
  {
    w & FieldMask(j) < Up(value, j)
  }

  /** Whether `UpdateIfGreater(position, value)` writes. */
  predicate RaisesAt(words: seq<bv32>, position: uint32, value: bv32)
  {
    Raises(WordAt(words, Bucket(position)), Slot(position), value)
  }

  /** The packed words after `UpdateIfGreater(position, value)`. */
  function UpdateRegister(words: seq<bv32>, position: uint32, value: bv32): seq<bv32>
  {
    if RaisesAt(words, position, value) then SetRegister(words, position, value) else words
  }

  /** After setting a register to a value below 32, the register reads back that value. */
  lemma SetRegisterGet(words: seq<bv32>, position: uint32, value: bv32)
    requires Bucket(position) < |words| && value < 32
    ensures RegisterAt(SetRegister(words, position, value), position) == value
  {
    SetThenGet(WordAt(words, Bucket(position)), Slot(position), value);
  }

  /** Setting a register to a value below 32 leaves every other register unchanged. */
  lemma SetRegisterKeeps(words: seq<bv32>, position: uint32, value: bv32, p: uint32)
    requires p != position && value < 32
    ensures RegisterAt(SetRegister(words, position, value), p) == RegisterAt(words, p)
  {
    if Bucket(p) == Bucket(position) && Bucket(position) < |words| {
      SetKeepsOthers(WordAt(words, Bucket(position)), Slot(p), Slot(position), value);
    }
  }

  lemma RaisesIffBelowAt0(words: seq<bv32>, position: uint32, value: bv32)
    requires Slot(position) == 0 && value < 32
    ensures RaisesAt(words, position, value) <==> RegisterAt(words, position) < value
  {
  }

  lemma RaisesIffBelowAt1(words: seq<bv32>, position: uint32, value: bv32)
    requires Slot(position) == 1 && value < 32
    ensures RaisesAt(words, position, value) <==> RegisterAt(words, position) < value
  {
  }

  lemma RaisesIffBelowAt2(words: seq<bv32>, position: uint32, value: bv32)
    requires Slot(position) == 2 && value < 32
    ensures RaisesAt(words, position, value) <==> RegisterAt(words, position) < value
  {
  }

  lemma RaisesIffBelowAt3(words: seq<bv32>, position: uint32, value: bv32)
    requires Slot(position) == 3 && value < 32
    ensures RaisesAt(words, position, value) <==> RegisterAt(words, position) < value
  {
  }

  lemma RaisesIffBelowAt4(words: seq<bv32>, position: uint32, value: bv32)
    requires Slot(position) == 4 && value < 32
    ensures RaisesAt(words, position, value) <==> RegisterAt(words, position) < value
  {
  }

  lemma RaisesIffBelowAt5(words: seq<bv32>, position: uint32, value: bv32)
    requires Slot(position) == 5 && value < 32
    ensures RaisesAt(words, position, value) <==> RegisterAt(words, position) < value
  {
  }

  /** For a value below 32, `UpdateIfGreater` writes exactly when the register is below
      the value. */
  lemma RaisesIffBelow(words: seq<bv32>, position: uint32, value: bv32)
    requires value < 32
    ensures RaisesAt(words, position, value) <==> RegisterAt(words, position) < value
  {
    var j := Slot(position);
    if j == 0 { RaisesIffBelowAt0(words, position, value); }
    else if j == 1 { RaisesIffBelowAt1(words, position, value); }
    else if j == 2 { RaisesIffBelowAt2(words, position, value); }
    else if j == 3 { RaisesIffBelowAt3(words, position, value); }
    else if j == 4 { RaisesIffBelowAt4(words, position, value); }
    else { RaisesIffBelowAt5(words, position, value); }
  }

  /** For a value below 32, `UpdateIfGreater` leaves the larger of the register and the
      value in the register. */
  lemma UpdateRegisterGet(words: seq<bv32>, position: uint32, value: bv32)
    requires Bucket(position) < |words| && value < 32
    ensures RegisterAt(UpdateRegister(words, position, value), position)
            == Max(RegisterAt(words, position), value)
  {
    RaisesIffBelow(words, position, value);
    if RaisesAt(words, position, value) {
      SetRegisterGet(words, position, value);
    }
  }

  /** For a value below 32, `UpdateIfGreater` leaves every other register unchanged. */
  lemma UpdateRegisterKeeps(words: seq<bv32>, position: uint32, value: bv32, p: uint32)
    requires p != position && value < 32
    ensures RegisterAt(UpdateRegister(words, position, value), p) == RegisterAt(words, p)
  {
    if RaisesAt(words, position, value) {
      SetRegisterKeeps(words, position, value, p);
    }
  }

  class RegisterSet {
    /** The number of registers. */
    const Count: uint32

    /** The packed registers. */
    const M: array<bv32>

    /** `new RegisterSet(count)`: all registers zero, in enough words for `count` registers. */
    constructor(count: uint32)
      ensures Count == count && fresh(M)
      ensures M.Length == SizeForCount(count)
      ensures forall b :: 0 <= b < M.Length ==> M[b] == 0
    {
      Count := count;
      M := new bv32[SizeForCount(count)](_ => 0);
    }

    /** `new RegisterSet(count, initialValues)`: the registers are those packed in
        `initialValues`, which the set shares. */
    constructor WithValues(count: uint32, initialValues: array<bv32>)
      ensures Count == count && M == initialValues
    {
      Count := count;
      M := initialValues;
    }

    /** Whether register `position` lies inside `M`. */
    predicate InRange(position: uint32)
    {
      Bucket(position) < M.Length
    }

    /** `Get(position)`: register `position`, a value below 32. */
    function Get(position: uint32): (r: bv32)
      requires InRange(position)
      reads M
      ensures r == RegisterAt(M[..], position) && r < 32
    {
      var bucketPos := position / 6;
      var j := position - bucketPos * 6;
      GetField(M[bucketPos], j)
    }

    /** `Set(position, value)`: writes the register's word with the field replaced by
        `value`. A value above 31 is not masked and spills into the fields above. */
    method Set(position: uint32, value: bv32)
      requires InRange(position)
      modifies M
      ensures M[..] == SetRegister(old(M[..]), position, value)
      ensures value < 32 ==> Get(position) == value
      ensures value < 32 ==> forall p: uint32 :: InRange(p) && p != position ==> Get(p) == old(Get(p))
    {
      var bucketPos := position / 6;
      var j := position - bucketPos * 6;
      M[bucketPos] := SetField(M[bucketPos], j, value);
      if value < 32 {
        SetRegisterGet(old(M[..]), position, value);
        forall p: uint32 | InRange(p) && p != position
          ensures Get(p) == old(Get(p))
        {
          SetRegisterKeeps(old(M[..]), position, value, p);
        }
      }
    }

    /** `UpdateIfGreater(position, value)`: raises the register to `value` when the masked
        field is below `value` shifted into place, and reports whether it did. */
    method UpdateIfGreater(position: uint32, value: bv32) returns (updated: bool)
      requires InRange(position)
      modifies M
      ensures updated == RaisesAt(old(M[..]), position, value)
      ensures M[..] == UpdateRegister(old(M[..]), position, value)
      ensures value < 32 ==> Get(position) == Max(old(Get(position)), value)
      ensures value < 32 ==> forall p: uint32 :: InRange(p) && p != position ==> Get(p) == old(Get(p))
    {
      var bucket := position / 6;
      var j := position - bucket * 6;
      if Raises(M[bucket], j, value) {
        M[bucket] := SetField(M[bucket], j, value);
        updated := true;
      } else {
        updated := false;
      }
      if value < 32 {
        UpdateRegisterGet(old(M[..]), position, value);
        forall p: uint32 | InRange(p) && p != position
          ensures Get(p) == old(Get(p))
        {
          UpdateRegisterKeeps(old(M[..]), position, value, p);
        }
      }
    }

    /** `Merge(other)`: every register becomes the larger of its own and `other`'s, word
        by word. `other` needs at least as many words. */
    method Merge(other: RegisterSet)
      requires other.M.Length >= M.Length
      modifies M
      ensures forall b :: 0 <= b < M.Length ==> M[b] == MergeWord(old(M[b]), old(other.M[b]))
      ensures forall p: uint32 :: InRange(p) ==> Get(p) == Max(old(Get(p)), old(other.Get(p)))
    {
      var bucket := 0;
      while bucket < M.Length
        invariant 0 <= bucket <= M.Length
        invariant forall b :: 0 <= b < bucket ==> M[b] == MergeWord(old(M[b]), old(other.M[b]))
        invariant forall b :: bucket <= b < M.Length ==> M[b] == old(M[b])
        invariant forall b :: bucket <= b < other.M.Length ==> other.M[b] == old(other.M[b])
      {
        var word := MergeBucket(M[bucket], other.M[bucket]);
        M[bucket] := word;
        bucket := bucket + 1;
      }
      forall p: uint32 | InRange(p)
        ensures Get(p) == Max(old(Get(p)), old(other.Get(p)))
      {
        MergeWordField(old(M[p / 6]), old(other.M[p / 6]), Slot(p));
      }
    }
  }

  /** The inner loop of `Merge` on one bucket: the larger of each pair of masked fields,
      OR-ed together. */
  method MergeBucket(a: bv32, b: bv32) returns (word: bv32)
    ensures word == MergeWord(a, b)
  {
    word := 0;
    var j := 0;
    while j < 6
      invariant 0 <= j <= 6
      invariant word == MergePrefix(a, b, j)
    {
      var thisVal := a & FieldMask(j);
      var otherVal := b & FieldMask(j);
      MergeLoopStep(a, b, j, word, thisVal, otherVal);
      word := word | Max(thisVal, otherVal);
      j := j + 1;
    }
    MergePrefixDone(a, b, j);
  }

  /** One pass of the inner loop keeps its invariant. */
  lemma MergeLoopStep(a: bv32, b: bv32, j: nat, word: bv32, thisVal: bv32, otherVal: bv32)
    requires word == MergePrefix(a, b, j)
    requires thisVal == a & FieldMask(j) && otherVal == b & FieldMask(j)
    ensures word | Max(thisVal, otherVal) == MergePrefix(a, b, j + 1)
  {
    MergePrefixStep(a, b, j);
  }

  /** The inner loop ends after six steps, with the merged word. */
  lemma MergePrefixDone(a: bv32, b: bv32, k: nat)
    requires k == 6
    ensures MergePrefix(a, b, k) == MergeWord(a, b)
  {
    MergePrefixComplete(a, b);
  }
}
