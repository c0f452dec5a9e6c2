/**
 * Bit arithmetic helpers (UsefulDotNetThings/General/Maths.cs).
 *
 * C# `int`, `uint` and `long` values are modelled by their two's-complement
 * bit patterns (`bv32`, `bv64`). C# arithmetic on them is unchecked, so it
 * wraps exactly as bit-vector arithmetic does. Dafny's `>>` on bit-vectors is
 * a logical shift, while C#'s `>>` on a signed `int` is arithmetic: `Sar`
 * spells that out, and `SignedGt` is the signed `>` on `int`.
 */
module Maths {

  import opened DotNet

  const SignBit: bv32 := 0x8000_0000

  // ---------------------------------------------------------------------------
  // Population count
  // ---------------------------------------------------------------------------

  /** The value (0 or 1) of bit `j` of `x`. */
  function BitValue(x: bv32, j: bv32): int
    requires j < 32
  {
    ((x >> j) & 1) as int
  }

  /** Reference count: how many of the low `k` bits of `x` are 1. */
  function OnesBelow(x: bv32, k: bv32): int
    requires k <= 32
    decreases k
  {
    if k == 0 then 0 else OnesBelow(x, k - 1) + BitValue(x, k - 1)
  }

  /** The number of 1 bits of `x`. */
  function PopCount(x: bv32): int
  {
    OnesBelow(x, 32)
  }

  /**
   * CountSetBits: the parallel population count of the source, computed in
   * wrapping `uint` arithmetic. Its result is the number of 1 bits.
   */
  function CountSetBits(i: bv32): (r: int)
    ensures r == PopCount(i)
    ensures 0 <= r <= 32
  {
    CountFromPairs(i);
    OnesBelowBounds(i, 32);
    TopByteSum(ByteCounts(NibbleCounts(PairCounts(i)))) as int
  }

  // The proof follows the algorithm: each step adds neighbouring fields, so
  // the sum over the fields of one width equals the sum over the fields of
  // half that width. Field values are compared as integers, one field at a
  // time, which keeps every bit-vector obligation small.

  /** The first step of the source: each pair of bits is replaced by its count. */
  function PairCounts(i: bv32): bv32
  {
    i - ((i >> 1) & 0x5555_5555)
  }

  /** The second step: neighbouring pair counts are added into nibbles. */

  function NibbleCounts(y: bv32): bv32
  {
    (y & 0x3333_3333) + ((y >> 2) & 0x3333_3333)
  }

  /** The third step: neighbouring nibble counts are added into bytes. */
  function ByteCounts(z: bv32): bv32
  {
    (z + (z >> 4)) & 0x0F0F_0F0F
  }

  /** The last step: the multiplication gathers the sum of the four bytes in the top byte. */
  function TopByteSum(w: bv32): bv32
  {
    (w * 0x0101_0101) >> 24
  }

  /** Bytes added into 16-bit halves: what the low half of the multiplication computes. */
  function HalfCounts(w: bv32): bv32
  {
    (w + (w >> 8)) & 0x00FF_00FF
  }

  function PairValue(x: bv32, j: bv32): int
    requires j < 16
  {
    ((x >> (2 * j)) & 3) as int
  }

  function NibbleValue(x: bv32, j: bv32): int
    requires j < 8
  {
    ((x >> (4 * j)) & 0xF) as int
  }

  function ByteValue(x: bv32, j: bv32): int
    requires j < 4
  {
    ((x >> (8 * j)) & 0xFF) as int
  }

  function HalfValue(x: bv32, j: bv32): int
    requires j < 2
  {
    ((x >> (16 * j)) & 0xFFFF) as int
  }

  function PairsBelow(x: bv32, k: bv32): int
    requires k <= 16
    decreases k
  {
    if k == 0 then 0 else PairsBelow(x, k - 1) + PairValue(x, k - 1)
  }

  function NibblesBelow(x: bv32, k: bv32): int
    requires k <= 8
    decreases k
  {
    if k == 0 then 0 else NibblesBelow(x, k - 1) + NibbleValue(x, k - 1)
  }

  function BytesBelow(x: bv32, k: bv32): int
    requires k <= 4
    decreases k
  {
    if k == 0 then 0 else BytesBelow(x, k - 1) + ByteValue(x, k - 1)
  }

  function EvenBits(i: bv32): bv32
  {
    i & 0x5555_5555
  }

  function OddBits(i: bv32): bv32
  {
    (i >> 1) & 0x5555_5555
  }

  /** The pair counts written as a sum without borrows. */
  function PairSums(i: bv32): bv32
  {
    EvenBits(i) + OddBits(i)
  }

  lemma SubtractionStep(i: bv32)
    ensures PairCounts(i) == PairSums(i)
  {
    SplitOddEven(i);
    AddSubCancel(EvenBits(i), OddBits(i));
  }

  lemma SplitOddEven(i: bv32)
    ensures i == EvenBits(i) + OddBits(i) + OddBits(i)
  {
  }

  lemma AddSubCancel(a: bv32, m: bv32)
    ensures (a + m + m) - m == a + m
  {
  }

  lemma PairField(i: bv32, j: bv32)
    requires j < 16
    ensures PairValue(PairSums(i), j) == BitValue(i, 2 * j) + BitValue(i, 2 * j + 1)
  {
  }

  lemma NibbleField(y: bv32, j: bv32)
    requires j < 8
    ensures NibbleValue(NibbleCounts(y), j) == PairValue(y, 2 * j) + PairValue(y, 2 * j + 1)
  {
  }

  lemma NibblesSmall(y: bv32)
    ensures NibbleCounts(y) & 0x8888_8888 == 0
  {
  }

  lemma ByteField(z: bv32, j: bv32)
    requires j < 4 && z & 0x8888_8888 == 0
    ensures ByteValue(ByteCounts(z), j) == NibbleValue(z, 2 * j) + NibbleValue(z, 2 * j + 1)
  {
  }

  lemma HalfField(w: bv32, j: bv32)
    requires j < 2 && w & 0xF0F0_F0F0 == 0
    ensures HalfValue(HalfCounts(w), j) == ByteValue(w, 2 * j) + ByteValue(w, 2 * j + 1)
  {
  }

  /** The multiplication by 0x0101_0101 sums the four bytes into the top byte. */
  lemma MultiplyStep(w: bv32)
    requires w & 0xF0F0_F0F0 == 0
    ensures TopByteSum(w) == (HalfCounts(w) + (HalfCounts(w) >> 16)) & 0xFF
  {
  }

  lemma HalvesSmall(w: bv32)
    requires w & 0xF0F0_F0F0 == 0
    ensures HalfCounts(w) & 0xFFE0_FFE0 == 0
  {
  }

  lemma FinalField(v: bv32)
    requires v & 0xFFE0_FFE0 == 0
    ensures ((v + (v >> 16)) & 0xFF) as int == HalfValue(v, 0) + HalfValue(v, 1)
  {
  }

  lemma {:induction false} PairsSumBits(i: bv32, k: bv32)
    requires k <= 16
    ensures PairsBelow(PairSums(i), k) == OnesBelow(i, 2 * k)
    decreases k
  {
    if k > 0 {
      var j := k - 1;
      PairsSumBits(i, j);
      PairField(i, j);
      assert OnesBelow(i, 2 * j + 2) == OnesBelow(i, 2 * j + 1) + BitValue(i, 2 * j + 1);
      assert OnesBelow(i, 2 * j + 1) == OnesBelow(i, 2 * j) + BitValue(i, 2 * j);
    }
  }

  lemma {:induction false} NibblesSumPairs(y: bv32, k: bv32)
    requires k <= 8
    ensures NibblesBelow(NibbleCounts(y), k) == PairsBelow(y, 2 * k)
    decreases k
  {
    if k > 0 {
      var j := k - 1;
      NibblesSumPairs(y, j);
      NibbleField(y, j);
      assert PairsBelow(y, 2 * j + 2) == PairsBelow(y, 2 * j + 1) + PairValue(y, 2 * j + 1);
      assert PairsBelow(y, 2 * j + 1) == PairsBelow(y, 2 * j) + PairValue(y, 2 * j);
    }
  }

  lemma {:induction false} BytesSumNibbles(z: bv32, k: bv32)
    requires k <= 4 && z & 0x8888_8888 == 0
    ensures BytesBelow(ByteCounts(z), k) == NibblesBelow(z, 2 * k)
    decreases k
  {
    if k > 0 {
      var j := k - 1;
      BytesSumNibbles(z, j);
      ByteField(z, j);
      assert NibblesBelow(z, 2 * j + 2) == NibblesBelow(z, 2 * j + 1) + NibbleValue(z, 2 * j + 1);
      assert NibblesBelow(z, 2 * j + 1) == NibblesBelow(z, 2 * j) + NibbleValue(z, 2 * j);
    }
  }

  lemma CountFromPairs(i: bv32)
    ensures TopByteSum(ByteCounts(NibbleCounts(PairCounts(i)))) as int == PopCount(i)
  {
    SubtractionStep(i);
    var i1 := PairCounts(i);
    var i2 := NibbleCounts(i1);
    NibblesSmall(i1);
    BytesSumNibbles(i2, 4);
    NibblesSumPairs(i1, 8);
    PairsSumBits(i, 16);
    CountFromBytes(ByteCounts(i2));
  }

  lemma CountFromBytes(w: bv32)
    requires w & 0xF0F0_F0F0 == 0
    ensures TopByteSum(w) as int == BytesBelow(w, 4)
  {
    MultiplyStep(w);
    SumOfHalves(w);
  }

  lemma SumOfHalves(w: bv32)
    requires w & 0xF0F0_F0F0 == 0
    ensures ((HalfCounts(w) + (HalfCounts(w) >> 16)) & 0xFF) as int == BytesBelow(w, 4)
  {
    HalvesSmall(w);
    FinalField(HalfCounts(w));
    HalvesSumBytes(w);
  }

  lemma HalvesSumBytes(w: bv32)
    requires w & 0xF0F0_F0F0 == 0
    ensures HalfValue(HalfCounts(w), 0) + HalfValue(HalfCounts(w), 1) == BytesBelow(w, 4)
  {
    HalfField(w, 0);
    HalfField(w, 1);
    BytesBelowFour(w);
  }

  lemma BytesBelowFour(w: bv32)
    ensures BytesBelow(w, 4) == ByteValue(w, 0) + ByteValue(w, 1) + ByteValue(w, 2) + ByteValue(w, 3)
  {
    assert BytesBelow(w, 2) == ByteValue(w, 0) + ByteValue(w, 1);
  }

  lemma {:induction false} OnesBelowBounds(x: bv32, k: bv32)
    requires k <= 32
    ensures 0 <= OnesBelow(x, k) <= k as int
    decreases k
  {
    if k > 0 {
      OnesBelowBounds(x, k - 1);
      assert BitValue(x, k - 1) <= 1;
    }
  }

  /** CountSetBits at the two extremes of `uint`. */
  lemma CountSetBitsExtremes()
    ensures CountSetBits(0) == 0
    ensures CountSetBits(0xFFFF_FFFF) == 32
  {
    AllOnes(32);
    NoOnes(32);
  }

  lemma {:induction false} NoOnes(k: bv32)
    requires k <= 32
    ensures OnesBelow(0, k) == 0
    decreases k
  {
    if k > 0 {
      NoOnes(k - 1);
    }
  }

  lemma {:induction false} AllOnes(k: bv32)
    requires k <= 32
    ensures OnesBelow(0xFFFF_FFFF, k) == k as int
    decreases k
  {
    if k > 0 {
      AllOnes(k - 1);
      assert BitValue(0xFFFF_FFFF, k - 1) == 1;
    }
  }

  // ---------------------------------------------------------------------------
  // Signed `int` helpers
  // ---------------------------------------------------------------------------

  /** The bit pattern of a non-negative `int`. */
  predicate NonNegative(x: bv32)
  {
    x & SignBit == 0
  }

  /** Widening an `int` to a `long` copies the sign bit into the upper half. */
  function SignExtend(x: bv32): bv64
  {
    if x & SignBit == 0 then x as bv64 else (x as bv64) | 0xFFFF_FFFF_0000_0000
  }

  // ---------------------------------------------------------------------------
  // Powers of two
  // ---------------------------------------------------------------------------

  /** 2 to the power `k` as a 32-bit pattern. */
  function Pow2Bits(k: bv32): bv32
    requires k < 32
  {
    1 << k
  }

  /** `x` is one of the powers of two an `int` can hold: 2^0 .. 2^30. */
  ghost predicate IsIntPowerOfTwo(x: bv32)
  {
    exists k: bv32 :: k < 31 && x == Pow2Bits(k)
  }

  /** IsPowerOfTwo(int): the bit test of the source. */
  predicate IsPowerOfTwo(number: bv32)
  {
    number & (number - 1) == 0
  }

  /** IsPowerOfTwo(long): the same bit test on 64 bits. */
  predicate IsPowerOfTwoLong(number: bv64)
  {
    number & (number - 1) == 0
  }

  /** On a positive `int` the bit test holds exactly for the powers of two. */
  lemma IsPowerOfTwoCorrect(n: bv32)
    requires n != 0 && NonNegative(n)
    ensures IsPowerOfTwo(n) <==> IsIntPowerOfTwo(n)
  {
    if IsPowerOfTwo(n) {
      var L := Width(n);
      WidthBounds(n);
      SingleBit(n, L);
      assert L - 1 < 31 && n == Pow2Bits(L - 1);
    }
    if IsIntPowerOfTwo(n) {
      var k: bv32 :| k < 31 && n == Pow2Bits(k);
      PowerBitTest(k);
    }
  }

  /** The test also accepts 0 and `int.MinValue`, neither of which is a positive power of two. */
  lemma IsPowerOfTwoEdgeCases()
    ensures IsPowerOfTwo(0) && IsPowerOfTwo(SignBit)
    ensures IsPowerOfTwoLong(0) && IsPowerOfTwoLong(0x8000_0000_0000_0000)
  {
  }

  /**
   * The `long` overload agrees with the `int` overload on every `int` value
   * except `int.MinValue`, which only the `int` overload accepts.
   */
  lemma IsPowerOfTwoOverloadsAgree(n: bv32)
    ensures n != SignBit ==> (IsPowerOfTwoLong(SignExtend(n)) <==> IsPowerOfTwo(n))
    ensures IsPowerOfTwo(SignBit) && !IsPowerOfTwoLong(SignExtend(SignBit))
  {
    if !NonNegative(n) && n != SignBit {
      NegativeNotPower(n);
      NegativeWideNotPower(n);
    }
  }

  lemma NegativeNotPower(n: bv32)
    requires !NonNegative(n) && n != SignBit
    ensures !IsPowerOfTwo(n)
  {
  }

  lemma NegativeWideNotPower(n: bv32)
    requires !NonNegative(n)
    ensures !IsPowerOfTwoLong((n as bv64) | 0xFFFF_FFFF_0000_0000)
  {
  }

  /** The number of significant bits of `x` (0 for 0). */
  function Width(x: bv32): (r: bv32)
    decreases x
  {
    if x == 0 then 0 else 1 + Width(x >> 1)
  }

  lemma {:induction false} WidthBounds(x: bv32)
    ensures Width(x) <= 32
    ensures Width(x) < 32 ==> x < Pow2Bits(Width(x))
    ensures x != 0 ==> Pow2Bits(Width(x) - 1) <= x
    decreases x
  {
    if x != 0 {
      WidthBounds(x >> 1);
    }
  }

  lemma SingleBit(n: bv32, L: bv32)
    requires 1 <= L <= 32 && n & (n - 1) == 0
    requires Pow2Bits(L - 1) <= n && (L < 32 ==> n < Pow2Bits(L))
    ensures n == Pow2Bits(L - 1)
  {
  }

  lemma PowerBitTest(k: bv32)
    requires k < 32
    ensures IsPowerOfTwo(Pow2Bits(k))
  {
  }

  // ---------------------------------------------------------------------------
  // Rounding to the nearest power of two
  //
  // RoundToNearestPowerOfTwo is modelled on the integer values of C# `int`s:
  // subtraction and increment wrap modulo 2^32 (`Wrap32`), `|` is the
  // two's-complement or of unbounded integers (`BitOr`) and `>>` is the
  // arithmetic shift, which is division rounding down (`Sar`).
  // ---------------------------------------------------------------------------

  /** Unchecked C# `int` arithmetic: the result is taken modulo 2^32 into the `int` range. */
  function Wrap32(x: int): (r: int)
    ensures IsInt32(r)
    ensures (r - x) % 0x1_0000_0000 == 0
    ensures IsInt32(x) ==> r == x
  {
    (x + 0x8000_0000) % 0x1_0000_0000 - 0x8000_0000
  }

  /** 2 to the power `k`. */
  function Pow2(k: nat): (r: int)
    ensures r >= 1
  {
    if k == 0 then 1 else 2 * Pow2(k - 1)
  }

  ghost predicate IsPow2(x: int)
  {
    exists k: nat :: x == Pow2(k)
  }

  /** C#'s `>>` on an `int`: an arithmetic shift, that is, division rounding towards minus infinity. */
  function Sar(x: int, k: nat): int
  {
    x / Pow2(k)
  }

  /** Measure for BitOr: 0 and -1 are the fixed points of halving. */
  function Magnitude(x: int): nat
  {
    if x < 0 then -x - 1 else x
  }

  /** Two's-complement bitwise or of unbounded integers, one low bit at a time. */
  function BitOr(a: int, b: int): int
    decreases Magnitude(a) + Magnitude(b)
  {
    if Magnitude(a) == 0 && Magnitude(b) == 0 then
      (if a == -1 || b == -1 then -1 else 0)
    else
      2 * BitOr(a / 2, b / 2) + (if a % 2 == 1 || b % 2 == 1 then 1 else 0)
  }

  /** The or-shift cascade of the source: every bit below the highest set bit becomes 1. */
  function Smear(x: int): int
  {
    var a := BitOr(x, Sar(x, 1));
    var b := BitOr(a, Sar(a, 2));
    var c := BitOr(b, Sar(b, 4));
    var d := BitOr(c, Sar(c, 8));
    BitOr(d, Sar(d, 16))
  }

  /** RoundToNearestPowerOfTwo: the next power above and the one below are compared with a strict `>`. */
  function RoundToNearestPowerOfTwo(number: int): (r: int)
    requires IsInt32(number)
  {
    var next := Wrap32(Smear(Wrap32(number - 1)) + 1);
    var prev := Sar(next, 1);
    if Wrap32(number - prev) > Wrap32(next - number) then next else prev
  }

  /** Distance between two integers. */
  function Dist(a: int, b: int): (d: int)
    ensures d >= 0
    ensures d == a - b || d == b - a
  {
    if a <= b then b - a else a - b
  }

  /**
   * For 1 <= n <= 2^30 the result is a power of two, no power of two is
   * nearer to n, and among the powers of two at the same distance it is
   * the smallest: ties go down.
   */
  lemma RoundToNearestIsNearest(n: int)
    requires 1 <= n <= 0x4000_0000
    ensures IsPow2(RoundToNearestPowerOfTwo(n))
    ensures forall k: nat :: Dist(n, RoundToNearestPowerOfTwo(n)) <= Dist(n, Pow2(k))
    ensures forall k: nat :: Dist(n, Pow2(k)) == Dist(n, RoundToNearestPowerOfTwo(n)) ==>
      RoundToNearestPowerOfTwo(n) <= Pow2(k)
  {
    var r := RoundToNearestPowerOfTwo(n);
    if n == 1 {
      RoundOne();
      assert r == Pow2(0);
      forall k: nat ensures Dist(n, r) <= Dist(n, Pow2(k)) {
      }
    } else {
      var L := RoundNeighbours(n);
      NearerOfNeighbours(n, L, r);
    }
  }

  lemma RoundOne()
    ensures RoundToNearestPowerOfTwo(1) == 1
  {
    assert Wrap32(1 - 1) == 0;
    SmearZero();
    assert Wrap32(Smear(0) + 1) == 1;
    assert Pow2(1) == 2;
    assert Sar(1, 1) == 0;
  }

  /** Above 1, the result is the power below or the power above n, chosen by a strict comparison. */
  lemma RoundNeighbours(n: int) returns (L: nat)
    requires 2 <= n <= 0x4000_0000
    ensures 1 <= L <= 30 && Pow2(L - 1) < n <= Pow2(L)
    ensures RoundToNearestPowerOfTwo(n) ==
      if n - Pow2(L - 1) > Pow2(L) - n then Pow2(L) else Pow2(L - 1)
  {
    var x := n - 1;
    L := BitLength(x);
    BitLengthBounds(x);
    Pow2Thirty();
    if L > 30 {
      Pow2Monotone(30, L - 1);
    }
    SmearTop(x, L);
    Pow2Monotone(L, 30);
    assert Sar(Pow2(L), 1) == Pow2(L - 1);
  }

  lemma Pow2Thirty()
    ensures Pow2(30) == 0x4000_0000
  {
    assert Pow2(5) == 32;
    Pow2Add(5, 5);
    Pow2Add(10, 10);
    Pow2Add(20, 10);
  }

  /** Choosing between the neighbouring powers with a strict `>` gives the nearest, lower on a tie. */
  lemma NearerOfNeighbours(n: int, L: nat, r: int)
    requires 1 <= L && Pow2(L - 1) < n <= Pow2(L)
    requires r == if n - Pow2(L - 1) > Pow2(L) - n then Pow2(L) else Pow2(L - 1)
    ensures IsPow2(r)
    ensures forall k: nat :: Dist(n, r) <= Dist(n, Pow2(k))
    ensures forall k: nat :: Dist(n, Pow2(k)) == Dist(n, r) ==> r <= Pow2(k)
  {
    forall k: nat
      ensures Dist(n, r) <= Dist(n, Pow2(k))
      ensures Dist(n, Pow2(k)) == Dist(n, r) ==> r <= Pow2(k)
    {
      if k < L {
        Pow2Monotone(k, L - 1);
      } else {
        Pow2Monotone(L, k);
      }
    }
  }

  /** A power of two up to 2^30 is returned unchanged. */
  lemma RoundFixesPowers(n: int)
    requires 1 <= n <= 0x4000_0000 && IsPow2(n)
    ensures RoundToNearestPowerOfTwo(n) == n
  {
    RoundToNearestIsNearest(n);
    var k: nat :| n == Pow2(k);
    assert Dist(n, RoundToNearestPowerOfTwo(n)) <= Dist(n, Pow2(k));
  }

  /** Examples of the downward tie rule: 3 and 12 lie halfway between two powers. */
  lemma RoundTiesGoDown()
    ensures RoundToNearestPowerOfTwo(3) == 2
    ensures RoundToNearestPowerOfTwo(12) == 8
  {
    var L3 := RoundNeighbours(3);
    Pow2Between(3, L3, 2);
    var L12 := RoundNeighbours(12);
    Pow2Between(12, L12, 4);
  }

  /** Pow2(L - 1) < n <= Pow2(L) pins down L. */
  lemma Pow2Between(n: int, L: nat, j: nat)
    requires 1 <= L && 1 <= j && Pow2(L - 1) < n <= Pow2(L) && Pow2(j - 1) < n <= Pow2(j)
    ensures L == j
  {
    if L < j {
      Pow2Monotone(L, j - 1);
    } else if j < L {
      Pow2Monotone(j, L - 1);
    }
  }

  // Proof of the or-shift cascade, on integers.

  lemma {:induction false} Pow2Monotone(i: nat, j: nat)
    requires i <= j
    ensures Pow2(i) <= Pow2(j)
    decreases j
  {
    if i < j {
      Pow2Monotone(i, j - 1);
    }
  }

  lemma {:induction false} Pow2Add(a: nat, b: nat)
    ensures Pow2(a + b) == Pow2(a) * Pow2(b)
    decreases b
  {
    if b > 0 {
      Pow2Add(a, b - 1);
    }
  }

  /** The number of significant bits of a non-negative integer. */
  function BitLength(x: nat): nat
  {
    if x == 0 then 0 else 1 + BitLength(x / 2)
  }

  lemma {:induction false} BitLengthBounds(x: nat)
    ensures x < Pow2(BitLength(x))
    ensures x > 0 ==> Pow2(BitLength(x) - 1) <= x
  {
    if x > 0 {
      BitLengthBounds(x / 2);
    }
  }

  lemma SmearZero()
    ensures Smear(0) == 0
  {
    forall k: nat ensures Sar(0, k) == 0 {
    }
    assert BitOr(0, 0) == 0;
  }

  /** `y` has its top `t` bits (of `L`) set and nothing above. */
  predicate TopBits(y: int, L: nat, t: nat)
  {
    t <= L && Pow2(L) - Pow2(L - t) <= y < Pow2(L)
  }

  /** For Pow2(L-1) <= x < Pow2(L) the cascade gives Pow2(L) - 1. */
  lemma SmearTop(x: int, L: nat)
    requires 1 <= L <= 30 && Pow2(L - 1) <= x < Pow2(L)
    ensures Smear(x) == Pow2(L) - 1
  {
    assert TopBits(x, L, 1);
    var a := BitOr(x, Sar(x, 1));
    SmearStep(x, L, 1, 1);
    var b := BitOr(a, Sar(a, 2));
    SmearStep(a, L, Min(2, L), 2);
    var c := BitOr(b, Sar(b, 4));
    SmearStep(b, L, Min(4, L), 4);
    var d := BitOr(c, Sar(c, 8));
    SmearStep(c, L, Min(8, L), 8);
    SmearStep(d, L, Min(16, L), 16);
    assert TopBits(Smear(x), L, L);
  }

  function Min(a: nat, b: nat): nat
  {
    if a <= b then a else b
  }

  /** One stage of the cascade doubles the run of top bits that are set. */
  lemma SmearStep(y: int, L: nat, t: nat, s: nat)
    requires 1 <= t && TopBits(y, L, t) && ((t == s && t < L) || t == L)
    ensures TopBits(BitOr(y, Sar(y, s)), L, Min(t + s, L))
  {
    if t == L {
      SmearStepFull(y, L, s);
    } else {
      SmearStepHalf(y, L, t);
    }
  }

  lemma SmearStepFull(y: int, L: nat, s: nat)
    requires TopBits(y, L, L)
    ensures TopBits(BitOr(y, Sar(y, s)), L, L)
  {
    var w := Sar(y, s);
    DivAtMost(y, Pow2(s));
    OrAtLeast(y, w);
    OrBelow(y, w, L);
  }

  lemma SmearStepHalf(y: int, L: nat, t: nat)
    requires 1 <= t < L && TopBits(y, L, t)
    ensures TopBits(BitOr(y, Sar(y, t)), L, Min(2 * t, L))
  {
    HighPartKept(y, L, t);
    ShiftedTopBits(y, L, t);
  }

  /** The shifted copy lies below the top `t` bits, so or-ing it in keeps them and adds at least its value. */
  lemma HighPartKept(y: int, L: nat, t: nat)
    requires 1 <= t < L && TopBits(y, L, t)
    ensures Pow2(L) - Pow2(L - t) + Sar(y, t) <= BitOr(y, Sar(y, t)) < Pow2(L)
  {
    var m := L - t;
    var pm := Pow2(m);
    var pt := Pow2(t);
    Pow2Add(m, t);
    var c := pt - 1;
    assert c * pm == pt * pm - pm;
    var z := y - c * pm;
    var w := Sar(y, t);
    DivBounds(y, pt, pm);
    OrHigh(c, z, w, m);
    OrAtLeast(z, w);
    OrBelow(z, w, m);
  }

  /** Shifting right by `t` moves the top `t` bits down next to the ones already set. */
  lemma ShiftedTopBits(y: int, L: nat, t: nat)
    requires 1 <= t < L && TopBits(y, L, t)
    ensures Sar(y, t) >= Pow2(L - t) - Pow2(L - Min(2 * t, L))
  {
    var m := L - t;
    var pm := Pow2(m);
    var pt := Pow2(t);
    Pow2Add(m, t);
    if 2 * t <= L {
      var q := Pow2(L - 2 * t);
      Pow2Add(L - 2 * t, t);
      assert (pm - q) * pt == pm * pt - q * pt;
      DivLower(y, pm - q, pt);
    } else {
      Pow2Monotone(m, t);
      assert (pm - 1) * pt == pm * pt - pt;
      DivLower(y, pm - 1, pt);
    }
  }

  lemma DivAtMost(y: int, d: int)
    requires y >= 0 && d >= 1
    ensures 0 <= y / d <= y
  {
  }

  lemma DivUnique(u: int, d: int, q: int, r: int)
    requires d > 0 && u == d * q + r && 0 <= r < d
    ensures u / d == q && u % d == r
  {
    assert q * d <= u;
    DivLower(u, q, d);
    assert u < (q + 1) * d;
    var q0 := u / d;
    assert u == d * q0 + u % d;
    assert q0 * d < (q + 1) * d;
    MulCancel(q0, q + 1, d);
  }

  lemma DivBounds(y: int, d: int, c: int)
    requires 0 <= y < c * d && d > 0
    ensures 0 <= y / d < c
  {
  }

  lemma DivLower(y: int, c: int, d: int)
    requires c * d <= y && d > 0
    ensures c <= y / d
  {
    var q := y / d;
    assert y == d * q + y % d;
    assert c * d < (q + 1) * d;
    MulCancel(c, q + 1, d);
  }

  lemma MulCancel(a: int, b: int, d: int)
    requires d > 0 && a * d < b * d
    ensures a < b
  {
    assert (b - a) * d > 0;
  }

  lemma {:induction false} OrWithZero(a: nat)
    ensures BitOr(a, 0) == a
    decreases a
  {
    if a > 0 {
      OrWithZero(a / 2);
    }
  }

  lemma {:induction false} OrAtLeast(a: int, b: int)
    requires a >= 0 && b >= 0
    ensures a <= BitOr(a, b) && b <= BitOr(a, b)
    decreases a + b
  {
    if a + b > 0 {
      OrAtLeast(a / 2, b / 2);
    }
  }

  lemma {:induction false} OrBelow(a: int, b: int, m: nat)
    requires 0 <= a < Pow2(m) && 0 <= b < Pow2(m)
    ensures 0 <= BitOr(a, b) < Pow2(m)
    decreases m
  {
    if m > 0 && a + b > 0 {
      OrBelow(a / 2, b / 2, m - 1);
    }
  }

  /** Or-ing into the low `m` bits leaves a high part that is a multiple of 2^m alone. */
  lemma {:induction false} OrHigh(c: int, z: int, w: int, m: nat)
    requires c >= 0 && 0 <= z < Pow2(m) && 0 <= w < Pow2(m)
    ensures BitOr(c * Pow2(m) + z, w) == c * Pow2(m) + BitOr(z, w)
    decreases m
  {
    if m == 0 {
      OrWithZero(c);
    } else {
      var H := c * Pow2(m);
      assert H == 2 * (c * Pow2(m - 1));
      OrHigh(c, z / 2, w / 2, m - 1);
      OrUnfold(H + z, w);
      OrUnfold(z, w);
    }
  }

  /** The recursive step of BitOr also holds at its base cases. */
  lemma OrUnfold(a: int, b: int)
    ensures BitOr(a, b) == 2 * BitOr(a / 2, b / 2) + (if a % 2 == 1 || b % 2 == 1 then 1 else 0)
  {
  }
}
