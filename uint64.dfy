/** `UInt64.NumberOfLeadingZeros`: the leading-zero count of a 64-bit word, reduced to the
    32-bit cascade on whichever half holds the highest one bit. */
module UInt64 {
  import opened FixedWidth
  import opened UInt32

  lemma Pow2Of64()
    ensures Pow2(64) == 0x1_0000_0000_0000_0000
  {
    Pow2Values();
    Pow2Add(32, 32);
  }

  /** A number bracketed by two consecutive powers of two has the upper exponent as its
      digit count. */
  lemma BitLengthFromBracket(x: nat, b: nat)
    requires b > 0 && Pow2(b - 1) <= x < Pow2(b)
    ensures BitLength(x) == b
  {
    BitLengthAtMost(x, b);
    BitLengthAtMost(x, b - 1);
  }

  lemma MulMonotone(a: nat, b: nat, c: nat)
    requires a <= b
    ensures a * c <= b * c
  {
  }

  lemma DivBracket(x: nat, d: nat)
    requires d > 0
    ensures (x / d) * d <= x < (x / d + 1) * d
  {
  }

  lemma LowerBracket(x: nat, p: nat, hi: nat, lo: nat)
    requires hi * p <= x && lo <= hi
    ensures lo * p <= x
  {
    MulMonotone(lo, hi, p);
  }

  lemma UpperBracket(x: nat, p: nat, hi: nat, up: nat)
    requires x < (hi + 1) * p && hi < up
    ensures x < up * p
  {
    MulMonotone(hi + 1, up, p);
  }

  /** The high word of a number at least 2^k has `k` fewer digits than the number. */
  lemma BitLengthOfHighPart(x: nat, k: nat)
    requires x >= Pow2(k)
    ensures x / Pow2(k) > 0
    ensures BitLength(x) == BitLength(x / Pow2(k)) + k
  {
    var p := Pow2(k);
    var hi := x / p;
    DivBracket(x, p);
    DivIsZero(x, p);
    var b := BitLength(hi);
    BitLengthBounds(hi);
    HighPartBracket(x, p, hi, Pow2(b - 1), Pow2(b));
    ScaledBracket(x, k, b);
  }

  /** The bounds of the high part scaled back by `p`. */
  lemma HighPartBracket(x: nat, p: nat, hi: nat, lo: nat, up: nat)
    requires hi * p <= x < (hi + 1) * p && lo <= hi < up
    ensures lo * p <= x < up * p
  {
    LowerBracket(x, p, hi, lo);
    UpperBracket(x, p, hi, up);
  }

  /** A number between 2^(b-1) * 2^k and 2^b * 2^k has `b + k` digits. */
  lemma ScaledBracket(x: nat, k: nat, b: nat)
    requires b > 0 && Pow2(b - 1) * Pow2(k) <= x < Pow2(b) * Pow2(k)
    ensures BitLength(x) == b + k
  {
    Pow2Add(b - 1, k);
    Pow2Add(b, k);
    BitLengthFromBracket(x, b + k);
  }

  /** `(uint)(value >> 32)` and `(uint)value`: the high word is below 2^32, and a value
      whose high word is zero is its own low word. */
  lemma Words(value: uint64)
    ensures value / 0x1_0000_0000 < 0x1_0000_0000
    ensures value / 0x1_0000_0000 == 0 <==> value < 0x1_0000_0000
    ensures value < 0x1_0000_0000 ==> value % 0x1_0000_0000 == value
  {
    DivIsZero(value, 0x1_0000_0000);
  }

  /** What the cascade needs to know about `value` before it starts: the leading-zero
      count is 64 minus the digit count, and the word it continues with carries the
      highest one bit. */
  lemma WidthFacts(value: uint64)
    ensures LeadingZeros(value, 64) == 64 - BitLength(value)
    ensures value / 0x1_0000_0000 < 0x1_0000_0000
    ensures value != 0 && value / 0x1_0000_0000 == 0 ==>
      value % 0x1_0000_0000 == value && 0 < BitLength(value) <= 32
    ensures value / 0x1_0000_0000 != 0 ==>
      BitLength(value / 0x1_0000_0000) + 32 == BitLength(value)
  {
    Pow2Of64();
    Pow2Values();
    LeadingZerosIsWidthMinusBitLength(value, 64);
    Words(value);
    BitLengthAtMost(value, 32);
    if value / 0x1_0000_0000 != 0 {
      BitLengthOfHighPart(value, 32);
    }
  }

  /** `NumberOfLeadingZeros(ulong)`: the number of zero bits above the highest one bit,
      64 for zero. */
  method NumberOfLeadingZeros(value: uint64) returns (n: uint32)
    ensures n == LeadingZeros(value, 64)
    ensures n == 64 - BitLength(value)
  {
    WidthFacts(value);
    if value == 0 {
      return 64;
    }
    n := 1;
    var x: uint32 := value / 0x1_0000_0000;
    if x == 0 { n := n + 32; x := value % 0x1_0000_0000; }
    LeadingZerosOfWord(x);
    assert 0 < x && BitLength(x) + 32 == BitLength(value) + n - 1;
    x, n := CascadeStage(x, n, 16);
    x, n := CascadeStage(x, n, 8);
    x, n := CascadeStage(x, n, 4);
    x, n := CascadeStage(x, n, 2);
    TopBit(x);
    n := n - ShiftRight(x, 31);
  }

  /** A 64-bit value whose high word is zero has 32 more leading zeros as a 64-bit word
      than its low word has as a 32-bit word; otherwise the count is that of the high
      word. */
  lemma LeadingZerosSplit(value: uint64)
    ensures value < 0x1_0000_0000 ==> LeadingZeros(value, 64) == 32 + LeadingZeros(value, 32)
    ensures value >= 0x1_0000_0000 ==>
      LeadingZeros(value, 64) == LeadingZeros(value / 0x1_0000_0000, 32)
  {
    Pow2Of64();
    Pow2Values();
    LeadingZerosIsWidthMinusBitLength(value, 64);
    if value < 0x1_0000_0000 {
      LeadingZerosIsWidthMinusBitLength(value, 32);
    } else {
      BitLengthOfHighPart(value, 32);
      var hi := value / 0x1_0000_0000;
      assert hi < 0x1_0000_0000;
      LeadingZerosIsWidthMinusBitLength(hi, 32);
    }
  }

  /** Zero has 64 leading zeros. */
  lemma LeadingZerosOfZero()
    ensures LeadingZeros(0, 64) == 64
  {
    Pow2Of64();
    LeadingZerosIsWidthMinusBitLength(0, 64);
  }

  /** For non-zero `x` with `n` leading zeros, 2^(63 - n) <= x < 2^(64 - n). */
  lemma LeadingZerosBracket(x: uint64)
    requires x != 0
    ensures LeadingZeros(x, 64) <= 63
    ensures Pow2(63 - LeadingZeros(x, 64)) <= x < Pow2(64 - LeadingZeros(x, 64))
  {
    Pow2Of64();
    LeadingZerosIsWidthMinusBitLength(x, 64);
    BitLengthBounds(x);
  }
}
