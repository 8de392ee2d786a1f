/** The decoding threshold: syndrome weight and a division by 10^8 done with one truncated high product. */
module Threshold {
  import opened Bits
  import opened Params
  import opened Words
  import opened Utilities
  import opened Gf2xMul
  import opened Gf2xSqr

  /** The number of set bits of v below n. */
  function Weight(v: nat, n: nat): (w: nat)
    ensures w <= n
  {
    if n == 0 then 0 else Weight(v, n - 1) + (if Bit(v, n - 1) then 1 else 0)
  }

  lemma WeightAppend(v: nat, n: nat, b: nat, k: nat)
    requires forall q: nat :: q < k ==> Bit(b, q) == Bit(v, n + q)
    ensures Weight(v, n + k) == Weight(v, n) + Weight(b, k)
  {
    hide RawBit, Bit;
    if k > 0 {
      WeightAppend(v, n, b, k - 1);
      assert Bit(b, k - 1) == Bit(v, n + (k - 1));
    }
  }

  lemma WeightZero(v: nat)
    ensures Weight(v, 0) == 0
  {
  }

  lemma WeightTail(v: nat, m: nat, n: nat)
    requires m <= n && forall i: nat :: m <= i < n ==> !Bit(v, i)
    ensures Weight(v, n) == Weight(v, m)
  {
    hide RawBit, Bit;
    if m < n { WeightTail(v, m, n - 1); }
  }

  /** __builtin_popcount of a byte. */
  function PopCount(b: Byte): nat { Weight(b, 8) }

  /** r_bits_vector_weight: the weight of the first r bits, the bits past them in the last byte masked off. */
  method RBitsVectorWeight(a: array<Word>, r: nat) returns (acc: nat)
    requires GoodR(r) && QWords(r) <= a.Length
    ensures acc == Weight(Val(a[..]), r)
  {
    hide RawBit, Bit, Val, GetByte, QWords, RBytes, LastByteMask, ByteAnd, Weight;
    RShape(r);
    acc := 0;
    WeightZero(Val(a[..]));
    for i := 0 to RBytes(r) - 1
      invariant acc == Weight(Val(a[..]), 8 * i)
    {
      ValGetByte(a[..], i);
      WeightAppend(Val(a[..]), 8 * i, GetByte(a[..], i), 8);
      acc := acc + PopCount(GetByte(a[..], i));
    }
    var last := RBytes(r) - 1;
    LastByteWeight(a[..], r);
    acc := acc + PopCount(ByteAnd(GetByte(a[..], last), LastByteMask(r)));
  }

  lemma LastByteWeight(s: seq<Word>, r: nat)
    requires GoodR(r) && QWords(r) <= |s| && 0 < RBytes(r) <= 8 * |s|
    ensures var last := RBytes(r) - 1;
            Weight(Val(s), r) == Weight(Val(s), 8 * last) + PopCount(ByteAnd(GetByte(s, last), LastByteMask(r)))
  {
    hide RawBit, Bit, Val, GetByte, QWords, RBytes, LastByteMask, ByteAnd, Weight;
    RShape(r);
    var last := RBytes(r) - 1;
    ValGetByte(s, last);
    var b := ByteAnd(GetByte(s, last), LastByteMask(r));
    WeightAppend(Val(s), 8 * last, b, r % 8);
    WeightTail(b, r % 8, 8);
  }

  // ----- The division

  const TEN8: nat := 100_000_000

  /** 2 to the power THRESHOLD_SHR_CONST. */
  const TWO26: nat := 0x400_0000

  /** The threshold of the specification: floor(T0 + T1 * S), but at least the minimum of the level. */
  function ThresholdSpec(level: Level, s: nat): nat {
    var t := (level.ThresholdCoeff0() + level.ThresholdCoeff1() * s) / TEN8;
    if t < level.ThresholdMin() then level.ThresholdMin() else t
  }

  /** MUL64HIGH: the high word of a product without the carry of its lowest partial product, in 64-bit
      arithmetic. */
  function Mul64High(a: Word, b: Word): Word {
    var aLo, bLo := a % TWO32, b % TWO32;
    var aHi, bHi := a / TWO32, b / TWO32;
    var mid := (((aHi * bLo) % TWO64 + (aLo * bHi) % TWO64) % TWO64) / TWO32;
    ((aHi * bHi) % TWO64 + mid) % TWO64
  }

  /** The numerators that occur: below 2^35, and with remainder at least 2. */
  predicate GoodNumerator(x: nat) {
    x < 8 * TWO32 && x % TEN8 >= 2
  }

  /** For such numerators nothing overflows and the truncated product divides exactly. */
  lemma DivideExact(x: Word)
    requires GoodNumerator(x)
    ensures Mul64High(x, THRESHOLD_MUL_CONST) / TWO26 == x / TEN8
  {
    var xLo, xHi := x % TWO32, x / TWO32;
    var mHi, mLo := 2882303761, 2221002493;
    assert THRESHOLD_MUL_CONST % TWO32 == mLo && THRESHOLD_MUL_CONST / TWO32 == mHi;
    var mid := xHi * mLo + xLo * mHi;
    assert xHi < 8;
    assert mid < TWO64;
    var res := xHi * mHi + mid / TWO32;
    assert res < TWO64;
    assert Mul64High(x, THRESHOLD_MUL_CONST) == res by { NoOverflow(x, xLo, xHi); }
    TruncatedQuotient(x, xLo, xHi, mid, res);
  }

  lemma NoOverflow(x: Word, xLo: nat, xHi: nat)
    requires xLo == x % TWO32 && xHi == x / TWO32 && xHi < 8
    ensures Mul64High(x, THRESHOLD_MUL_CONST) == xHi * 2882303761 + (xHi * 2221002493 + xLo * 2882303761) / TWO32
  {
    var m := THRESHOLD_MUL_CONST;
    assert m % TWO32 == 2221002493 && m / TWO32 == 2882303761;
    NoWrap(x, m, xHi * 2221002493, xLo * 2882303761, xHi * 2882303761);
  }

  /** Without overflow of the partial products or of their sums. */
  lemma NoWrap(a: Word, b: Word, p: nat, q: nat, h: nat)
    requires p == (a / TWO32) * (b % TWO32) && q == (a % TWO32) * (b / TWO32) && h == (a / TWO32) * (b / TWO32)
    requires p + q < TWO64 && h + TWO32 <= TWO64
    ensures Mul64High(a, b) == h + (p + q) / TWO32
  {
    hide *;
    Mul64HighIs(a, b, p, q, h);
    SumsFit(p, q, h);
  }

  lemma SumsFit(p: nat, q: nat, h: nat)
    requires p + q < TWO64 && h + TWO32 <= TWO64
    ensures (h % TWO64 + ((p % TWO64 + q % TWO64) % TWO64) / TWO32) % TWO64 == h + (p + q) / TWO32
  {
    var mid := (p + q) / TWO32;
    assert mid < TWO32;
    assert p % TWO64 == p && q % TWO64 == q && h % TWO64 == h;
  }

  lemma Mul64HighIs(a: Word, b: Word, p: nat, q: nat, h: nat)
    requires p == (a / TWO32) * (b % TWO32) && q == (a % TWO32) * (b / TWO32) && h == (a / TWO32) * (b / TWO32)
    ensures Mul64High(a, b) == (h % TWO64 + ((p % TWO64 + q % TWO64) % TWO64) / TWO32) % TWO64
  {
  }

  /** 10^8 * THRESHOLD_MUL_CONST = 2^90 + 875776, so the product is 2^64 times the quotient times 2^26 plus
      a term that, from remainder 2 on, outweighs the dropped partial product. */
  lemma TruncatedQuotient(x: nat, xLo: nat, xHi: nat, mid: nat, res: nat)
    requires GoodNumerator(x) && xLo < TWO32 && xHi < 8 && x == xHi * TWO32 + xLo
    requires mid == xHi * 2221002493 + xLo * 2882303761 && res == xHi * 2882303761 + mid / TWO32
    ensures res / TWO26 == x / TEN8
  {
    var q, m := x / TEN8, x % TEN8;
    assert x == TEN8 * q + m && q < 350;
    var c := mid % TWO32;
    assert mid == TWO32 * (mid / TWO32) + c;
    // x * M = res * 2^64 + c * 2^32 + xLo * mLo
    assert x * 12379400392853802749 == res * TWO64 + c * TWO32 + xLo * 2221002493;
    assert x * 12379400392853802749 == q * (TWO26 * TWO64) + q * 875776 + m * 12379400392853802749;
    assert res < TWO26 * (q + 1);
    assert res >= TWO26 * q;
  }

  /** No syndrome weight leaves remainder 0 or 1: the coefficients share a factor that excludes 1, and
      remainder 0 fixes the weight modulo 10^8 over that factor to a value past the largest weight. */
  lemma GoodWeights(level: Level, s: nat)
    requires s <= level.R()
    ensures GoodNumerator(level.ThresholdCoeff0() + level.ThresholdCoeff1() * s)
  {
    match level
    case Level1 => Weights1(s);
    case Level3 => Weights3(s);
    case Level5 => Weights5(s);
  }

  lemma Weights1(s: nat)
    requires s <= 12323
    ensures GoodNumerator(1353000000 + 697220 * s)
  {
    var x := 1353000000 + 697220 * s;
    var q, m := x / TEN8, x % TEN8;
    var k := 67650000 + 34861 * s - 5000000 * q;
    assert m == 20 * k;
    var t := 2488741 * q - 17352 * s - 33672666;
    assert s == 2488741 * k + 5000000 * t + 1350000;
  }

  lemma Weights3(s: nat)
    requires s <= 24659
    ensures GoodNumerator(1525880000 + 526500 * s)
  {
    var x := 1525880000 + 526500 * s;
    var q, m := x / TEN8, x % TEN8;
    var k := 3051760 + 1053 * s - 200000 * q;
    assert m == 500 * k;
    var t := 65717 * q - 346 * s - 1002763;
    assert s == 65717 * k + 200000 * t + 88080;
  }

  lemma Weights5(s: nat)
    requires s <= 40973
    ensures GoodNumerator(1787850000 + 402312 * s)
  {
    var x := 1787850000 + 402312 * s;
    var q, m := x / TEN8, x % TEN8;
    var k := 223481250 + 50289 * s - 12500000 * q;
    assert m == 8 * k;
    var t := 7766609 * q - 31246 * s - 138855320;
    assert s == 7766609 * k + 12500000 * t + 12418750;
  }

  /** get_threshold. */
  method GetThreshold(s: array<Word>, level: Level) returns (threshold: Byte)
    requires QWords(level.R()) <= s.Length
    ensures threshold == ThresholdSpec(level, Weight(Val(s[..]), level.R()))
  {
    hide RawBit, Bit, Val, Weight, ThresholdSpec;
    var weight := RBitsVectorWeight(s, level.R());
    threshold := ThresholdOf(weight, level);
  }

  /** Its arithmetic on the weight. */
  method ThresholdOf(weight: nat, level: Level) returns (threshold: Byte)
    requires weight <= level.R()
    ensures threshold == ThresholdSpec(level, weight)
  {
    hide RawBit, Bit, Mul64High, And, Or, ThresholdSpec, Blend32;
    ThresholdRange(level, weight);
    GoodWeights(level, weight);
    var thr: Word := level.ThresholdCoeff0() + level.ThresholdCoeff1() * weight;
    DivideExact(thr);
    thr := Mul64High(thr, THRESHOLD_MUL_CONST);
    thr := thr / TWO26;
    var mask := SecureL32Mask(thr, level.ThresholdMin());
    threshold := Blend32(mask, thr, level.ThresholdMin()) % 256;
  }

  lemma ThresholdRange(level: Level, s: nat)
    requires s <= level.R()
    ensures var x := level.ThresholdCoeff0() + level.ThresholdCoeff1() * s;
            && x < TWO64 && x / TEN8 < 256
            && ThresholdSpec(level, s) == if x / TEN8 < level.ThresholdMin() then level.ThresholdMin() else x / TEN8
    ensures level.ThresholdMin() < 256 && ThresholdSpec(level, s) < 256
  {
  }

  /** The threshold is the largest number that T0 + T1 * S reaches, in units of 10^-8, or the minimum of the level if
      that is larger. */
  lemma ThresholdIsFloor(level: Level, s: nat, k: nat)
    ensures ThresholdSpec(level, s) >= k <==>
            level.ThresholdMin() >= k || level.ThresholdCoeff0() + level.ThresholdCoeff1() * s >= TEN8 * k
  {
    var x := level.ThresholdCoeff0() + level.ThresholdCoeff1() * s;
    var q, m := x / TEN8, x % TEN8;
    assert x == TEN8 * q + m;
  }

  /** The threshold never exceeds half the range of the counters at levels 1 and 5; at level 3 this holds
      exactly for the syndromes of weight at most 21603. */
  lemma ThresholdFits(level: Level, s: nat)
    requires s <= level.R()
    ensures ThresholdSpec(level, s) <= Pow2(Slices(level.D()) - 1) <==> level != Level3 || s <= 21603
    ensures level.ThresholdMin() <= ThresholdSpec(level, s) < 256
  {
    assert Pow2(7) == 128 && Pow2(8) == 256;
  }
}
