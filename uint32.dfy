/** `UInt32.NumberOfLeadingZeros`: the leading-zero count of a 32-bit word, computed by
    a cascade of halving tests, and the binary-digit facts the cascade rests on. */
module UInt32 {
  import opened FixedWidth

  /** Number of binary digits of `x`: 0 for 0, otherwise floor(log2 x) + 1. */
  function BitLength(x: nat): nat
  {
    if x == 0 then 0 else 1 + BitLength(x / 2)
  }

  /** The `width`-digit binary numeral of `x`, most significant digit first
      (`Convert.ToString(x, 2).PadLeft(width, '0')`, with `true` for '1'). */
  function Binary(x: nat, width: nat): (r: seq<bool>)
    ensures |r| == width
  {
    if width == 0 then [] else Binary(x / 2, width - 1) + [x % 2 == 1]
  }

  /** Number of '0' digits before the first '1' (`TakeWhile(c => c == '0').Count()`). */
  function CountLeadingZeros(digits: seq<bool>): (r: nat)
    ensures r <= |digits|
  {
    if digits == [] || digits[0] then 0 else 1 + CountLeadingZeros(digits[1..])
  }

  /** The leading zeros of `x` written with `width` binary digits. */
  function LeadingZeros(x: nat, width: nat): nat
  {
    CountLeadingZeros(Binary(x, width))
  }

  /** `x >> k` on an unsigned word: `k` single-bit shifts, each dropping the lowest bit. */
  function ShiftRight(x: nat, k: nat): nat
  {
    if k == 0 then x else ShiftRight(x / 2, k - 1)
  }

  /** `x << k` on a `uint`: `k` doublings, with the bits pushed past bit 31 dropped. */
  function ShiftLeft(x: nat, k: nat): uint32
    decreases k
  {
    if k == 0 then x % 0x1_0000_0000 else ShiftLeft(2 * x, k - 1)
  }

  lemma DivisionUnique(x: nat, m: nat, q: nat, r: nat)
    requires 0 <= r < m && x == m * q + r
    ensures x / m == q
  {
    var q' := x / m;
    assert x == m * q' + x % m;
    if q' > q {
      MulLeft(m, q + 1, q');
      assert false;
    }
    if q' < q {
      MulLeft(m, q' + 1, q);
      assert false;
    }
  }

  lemma MulLeft(m: nat, a: nat, b: nat)
    requires a <= b
    ensures m * a <= m * b
  {
  }

  lemma DivDiv(x: nat, d: nat)
    requires d > 0
    ensures (x / 2) / d == x / (2 * d)
  {
    var a, r1 := x / 2, x % 2;
    var q, r2 := a / d, a % d;
    assert x == 2 * a + r1;
    assert a == d * q + r2;
    assert x == (2 * d) * q + (2 * r2 + r1);
    DivisionUnique(x, 2 * d, q, 2 * r2 + r1);
  }

  /** A right shift by `k` is division by 2^k. */
  lemma {:induction false} ShiftRightIsDivision(x: nat, k: nat)
    ensures ShiftRight(x, k) == x / Pow2(k)
  {
    if k > 0 {
      ShiftRightIsDivision(x / 2, k - 1);
      DivDiv(x, Pow2(k - 1));
    }
  }

  /** A left shift by `k` is multiplication by 2^k modulo 2^32. */
  lemma {:induction false} ShiftLeftIsMultiplication(x: nat, k: nat)
    ensures ShiftLeft(x, k) == (x * Pow2(k)) % 0x1_0000_0000
    decreases k
  {
    if k > 0 {
      ShiftLeftIsMultiplication(2 * x, k - 1);
      assert (2 * x) * Pow2(k - 1) == x * Pow2(k);
    }
  }

  lemma Pow2Values()
    ensures Pow2(1) == 2 && Pow2(2) == 4 && Pow2(4) == 16 && Pow2(8) == 256
    ensures Pow2(16) == 0x1_0000 && Pow2(24) == 0x100_0000 && Pow2(28) == 0x1000_0000
    ensures Pow2(30) == 0x4000_0000 && Pow2(31) == 0x8000_0000 && Pow2(32) == 0x1_0000_0000
  {
    assert Pow2(2) == 4;
    Pow2Add(2, 2);
    Pow2Add(4, 4);
    Pow2Add(8, 8);
    Pow2Add(8, 16);
    Pow2Add(4, 24);
    Pow2Add(2, 28);
    Pow2Add(1, 30);
    Pow2Add(16, 16);
  }

  lemma Pow2Of32()
    ensures Pow2(32) == 0x1_0000_0000
  {
    Pow2Values();
  }

  /** A number with `BitLength(x)` digits lies in [2^(BitLength(x) - 1), 2^BitLength(x)). */
  lemma {:induction false} BitLengthBounds(x: nat)
    ensures x < Pow2(BitLength(x))
    ensures x > 0 ==> Pow2(BitLength(x) - 1) <= x
  {
    if x > 0 {
      BitLengthBounds(x / 2);
    }
  }

  lemma BitLengthAtMost(x: nat, k: nat)
    ensures BitLength(x) <= k <==> x < Pow2(k)
  {
    BitLengthBounds(x);
    if BitLength(x) <= k {
      Pow2Monotone(BitLength(x), k);
    } else {
      Pow2Monotone(k, BitLength(x) - 1);
    }
  }

  /** Shifting a non-zero number left by `k` (without loss) adds `k` digits. */
  lemma {:induction false} BitLengthShift(x: nat, k: nat)
    requires x > 0
    ensures BitLength(x * Pow2(k)) == BitLength(x) + k
  {
    if k > 0 {
      BitLengthShift(x, k - 1);
      var y := x * Pow2(k - 1);
      MulLeft(x, 1, Pow2(k - 1));
      assert x * Pow2(k) == 2 * y;
      assert (2 * y) / 2 == y;
    }
  }

  lemma {:induction false} LeadingZerosSnoc(digits: seq<bool>, last: bool)
    ensures CountLeadingZeros(digits + [last]) ==
      if CountLeadingZeros(digits) < |digits| then CountLeadingZeros(digits)
      else |digits| + (if last then 0 else 1)
  {
    if digits != [] && !digits[0] {
      assert (digits + [last])[1..] == digits[1..] + [last];
      LeadingZerosSnoc(digits[1..], last);
    }
  }

  /** The digit-counting definition agrees with the digit count: a `width`-digit numeral
      of `x` has `width - BitLength(x)` leading zeros. */
  lemma {:induction false} LeadingZerosIsWidthMinusBitLength(x: nat, width: nat)
    requires x < Pow2(width)
    ensures BitLength(x) <= width
    ensures LeadingZeros(x, width) == width - BitLength(x)
  {
    BitLengthAtMost(x, width);
    if width > 0 {
      LeadingZerosIsWidthMinusBitLength(x / 2, width - 1);
      LeadingZerosSnoc(Binary(x / 2, width - 1), x % 2 == 1);
    }
  }

  lemma DivIsZero(x: nat, d: nat)
    requires d > 0
    ensures x / d == 0 <==> x < d
  {
    if x >= d {
      assert x / d >= 1;
    }
  }

  lemma MulStrict(x: nat, a: nat, b: nat)
    requires x < a && b > 0
    ensures x * b < a * b
  {
  }

  lemma ModSmall(y: nat, m: nat)
    requires y < m
    ensures y % m == y
  {
  }

  /** The test of one stage: `x` is below 2^(32 - k) exactly when it has at most `32 - k`
      digits. */
  lemma StageTest(x: nat, k: nat)
    requires k <= 32
    ensures x / Pow2(32 - k) == 0 <==> BitLength(x) <= 32 - k
  {
    DivIsZero(x, Pow2(32 - k));
    BitLengthAtMost(x, 32 - k);
  }

  /** The shift of one stage: below 2^(32 - k), `x * 2^k` stays below 2^32 and has `k`
      more digits. */
  lemma StageShift(x: nat, k: nat)
    requires k <= 32 && 0 < x < Pow2(32 - k)
    ensures x * Pow2(k) < 0x1_0000_0000
    ensures BitLength(x * Pow2(k)) == BitLength(x) + k
  {
    var a, b := Pow2(32 - k), Pow2(k);
    Pow2Add(32 - k, k);
    Pow2Of32();
    assert a * b == 0x1_0000_0000;
    MulStrict(x, a, b);
    BitLengthShift(x, k);
  }

  /** One stage of the cascade: testing `x >> (32 - k)` tells whether the top `k` bits are
      clear, and if so `x << k` loses nothing and adds `k` digits. */
  lemma CascadeStep(x: nat, k: nat)
    requires 0 < x < 0x1_0000_0000 && 0 < k <= 16
    ensures ShiftRight(x, 32 - k) == 0 <==> BitLength(x) <= 32 - k
    ensures ShiftRight(x, 32 - k) == 0 ==> BitLength(ShiftLeft(x, k)) == BitLength(x) + k
  {
    CascadeTest(x, k);
    if BitLength(x) <= 32 - k {
      CascadeShift(x, k);
    }
  }

  /** The test of one stage on the shifted word. */
  lemma CascadeTest(x: nat, k: nat)
    requires 0 < x < 0x1_0000_0000 && 0 < k <= 16
    ensures ShiftRight(x, 32 - k) == 0 <==> BitLength(x) <= 32 - k
  {
    ShiftRightIsDivision(x, 32 - k);
    StageTest(x, k);
  }

  /** The shift of one stage on the shifted word. */
  lemma CascadeShift(x: nat, k: nat)
    requires 0 < x < 0x1_0000_0000 && 0 < k <= 16 && BitLength(x) <= 32 - k
    ensures BitLength(ShiftLeft(x, k)) == BitLength(x) + k
  {
    BitLengthAtMost(x, 32 - k);
    var y := x * Pow2(k);
    StageShift(x, k);
    ModSmall(y, 0x1_0000_0000);
    ShiftLeftIsMultiplication(x, k);
    assert ShiftLeft(x, k) == y;
  }

  /** The final stage: once the top two bits are known not both clear, `x >> 31` is the
      top bit. */
  lemma TopBit(x: nat)
    requires x < 0x1_0000_0000 && BitLength(x) > 30
    ensures ShiftRight(x, 31) == (if BitLength(x) == 32 then 1 else 0)
  {
    Pow2Values();
    ShiftRightIsDivision(x, 31);
    BitLengthAtMost(x, 31);
    BitLengthAtMost(x, 32);
  }

  /** The digit-counting definition on a 32-bit word. */
  lemma LeadingZerosOfWord(x: uint32)
    ensures BitLength(x) <= 32
    ensures LeadingZeros(x, 32) == 32 - BitLength(x)
  {
    Pow2Values();
    LeadingZerosIsWidthMinusBitLength(x, 32);
  }

  /** One step of the cascade, `if (x >> (32 - k) == 0) { n += k; x <<= k; }`: when the
      top `k` bits of `x` are clear, `x` is shifted up by `k` and `n` counts the `k` zeros.
      Either way, digits gained by `x` equal the amount added to `n`, and afterwards the
      top `k` bits are not all clear. */
  method CascadeStage(x: uint32, n: uint32, k: nat) returns (x': uint32, n': uint32)
    requires 0 < x && 0 < k <= 16 && n <= 0x1_0000 && BitLength(x) > 32 - 2 * k
    ensures BitLength(x) <= 32 - k ==> n' == n + k && BitLength(x') == BitLength(x) + k
    ensures BitLength(x) > 32 - k ==> n' == n && x' == x
    ensures 0 < x' && 32 - k < BitLength(x') <= 32
    ensures BitLength(x') + n == BitLength(x) + n' && n <= n' <= n + k
  {
    CascadeStep(x, k);
    LeadingZerosOfWord(x);
    x', n' := x, n;
    if ShiftRight(x, 32 - k) == 0 {
      n' := n + k;
      x' := ShiftLeft(x, k);
    }
    LeadingZerosOfWord(x');
  }

  /** `NumberOfLeadingZeros(uint)`: the number of zero bits above the highest one bit,
      32 for zero. */
  method NumberOfLeadingZeros(i: uint32) returns (n: uint32)
    ensures n == LeadingZeros(i, 32)
    ensures n == 32 - BitLength(i)
  {
    LeadingZerosOfWord(i);
    if i == 0 {
      return 32;
    }
    var x: uint32 := i;
    n := 1;
    x, n := CascadeStage(x, n, 16);
    x, n := CascadeStage(x, n, 8);
    x, n := CascadeStage(x, n, 4);
    x, n := CascadeStage(x, n, 2);
    TopBit(x);
    n := n - ShiftRight(x, 31);
  }

  /** Zero has 32 leading zeros. */
  lemma LeadingZerosOfZero()
    ensures LeadingZeros(0, 32) == 32
  {
    Pow2Values();
    LeadingZerosIsWidthMinusBitLength(0, 32);
  }

  /** For non-zero `x` with `n` leading zeros, 2^(31 - n) <= x < 2^(32 - n); that is,
      floor(log2 x) == 31 - n. */
  lemma LeadingZerosBracket(x: uint32)
    requires x != 0
    ensures LeadingZeros(x, 32) <= 31
    ensures Pow2(31 - LeadingZeros(x, 32)) <= x < Pow2(32 - LeadingZeros(x, 32))
  {
    Pow2Values();
    LeadingZerosIsWidthMinusBitLength(x, 32);
    BitLengthBounds(x);
  }

  /** For `x >= 1`, `k = 32 - NumberOfLeadingZeros(x - 1)` is ceil(log2 x): the least `k`
      with x <= 2^k. */
  lemma CeilLog2ViaLeadingZeros(x: uint32)
    requires x >= 1
    ensures LeadingZeros(x - 1, 32) <= 32
    ensures var k := 32 - LeadingZeros(x - 1, 32);
      x <= Pow2(k) && (k == 0 || Pow2(k - 1) < x)
  {
    Pow2Values();
    LeadingZerosIsWidthMinusBitLength(x - 1, 32);
    BitLengthBounds(x - 1);
  }
}
