/** Inversion in R_r: the table-driven program computes the power that the mathematics asks for. */
module Gf2xInv {
  import opened Bits
  import opened Ring
  import opened Params
  import opened Words
  import opened Frobenius
  import opened Inversion
  import opened Tables
  import opened Karatsuba
  import opened Gf2xMul
  import opened Gf2xSqr
  import opened KSqrAvx

  const K_SQR_THR: nat := 64

  /** gf2x_ctx: the implementations chosen at run time. */
  datatype KSqrImpl = KSqrPortable | KSqrAvx2 | KSqrAvx512
  datatype Ctx = Ctx(mul: MulImpl, kSqr: KSqrImpl)

  /** The padded buffers are large enough for every implementation. */
  lemma LevelSizes(level: Level)
    ensures GoodR(level.R()) && 2 * level.R() <= LaneSize(level.R())
    ensures QWords(level.R()) <= PaddedQWords(level) && 2 * RXmm(level.R()) <= PaddedQWords(level)
  {
    PaddedSizes(level);
  }

  /** The padded length is the width of the base multiplier times a power of two. */
  predicate Suits(m: MulImpl, level: Level) {
    PowerOfTwoTimes(PaddedQWords(level), m.BaseQWords())
  }

  /** The three base multipliers of the program, of 1, 8 and 16 words, suit every level. */
  lemma BasesSuit(m: MulImpl, level: Level)
    requires m.BaseQWords() == 1 || m.BaseQWords() == 8 || m.BaseQWords() == 16
    ensures Suits(m, level)
  {
    hide PowerOfTwoTimes;
    PaddedSizes(level);
    Powers256(m.BaseQWords());
  }

  lemma PaddedSizes(level: Level)
    ensures PaddedQWords(level) == match level case Level1 => 256 case Level3 => 512 case Level5 => 1024
  {
    match level
    case Level1 =>
    case Level3 =>
    case Level5 =>
  }

  lemma Powers256(base: nat)
    requires base == 1 || base == 8 || base == 16
    ensures PowerOfTwoTimes(256, base) && PowerOfTwoTimes(512, base) && PowerOfTwoTimes(1024, base)
  {
    assert base <= 8 ==> PowerOfTwoTimes(8, base);
    assert PowerOfTwoTimes(16, base);
    assert PowerOfTwoTimes(32, base);
    assert PowerOfTwoTimes(64, base);
    assert PowerOfTwoTimes(128, base);
    assert PowerOfTwoTimes(256, base);
    assert PowerOfTwoTimes(512, base);
  }

  method KSqr(k: KSqrImpl, c: array<Word>, a: array<Word>, l: nat, r: nat)
    requires GoodR(r) && QWords(r) <= a.Length == c.Length && a != c
    requires 2 * r <= LaneSize(r) && l < r && IsPadded(c[..], r)
    modifies c
    ensures Val(c[..]) == Permute(Val(a[..]), l, r, r)
    ensures IsPadded(c[..], r)
  {
    hide *;
    match k
    case KSqrPortable => KSqrPort(c, a, l, r);
    case KSqrAvx2 => KSqrAvx.KSqrAvx(false, c, a, l, r);
    case KSqrAvx512 => KSqrAvx.KSqrAvx(true, c, a, l, r);
  }

  /** g = f^(2^k), by repeated squaring up to the threshold and by one k-squaring above it. */
  method Power2k(ctx: Ctx, g: array<Word>, f: array<Word>, k: nat, l: nat, secBuf: array<Word>, r: nat)
    requires GoodR(r) && QWords(r) <= f.Length == g.Length && 2 * RXmm(r) <= f.Length && secBuf.Length == 2 * f.Length
    requires f != secBuf && g != secBuf && f != g
    requires 2 * r <= LaneSize(r) && l < r && InversePair(k, l, r)
    requires IsPadded(f[..], r) && IsPadded(g[..], r)
    modifies g, secBuf
    ensures Val(g[..]) == SqrN(Val(f[..]), k, r)
    ensures IsPadded(g[..], r)
  {
    hide RawBit, Bit, Val, QWords, RXmm, LaneSize, SqrN, Permute;
    if k <= K_SQR_THR {
      RepeatedSquaring(ctx.mul, g, f, k, secBuf, r);
    } else {
      KSqr(ctx.kSqr, g, f, l, r);
      PermuteIsSqrN(Val(f[..]), k, l, r);
    }
  }

  /** The loop body of gf2x_mod_inv. */
  method InvStep(ctx: Ctx, f: array<Word>, g: array<Word>, t: array<Word>, secBuf: array<Word>, level: Level, i: nat,
                 ghost va: nat)
    requires f.Length == g.Length == t.Length == PaddedQWords(level) && secBuf.Length == 2 * f.Length
    requires Suits(ctx.mul, level)
    requires f != g && f != t && g != t && f != secBuf && g != secBuf && t != secBuf && 1 <= i < MaxI(level)
    requires IsPadded(f[..], level.R()) && IsPadded(g[..], level.R()) && IsPadded(t[..], level.R())
    requires Val(f[..]) == Ones(va, Pow2(i - 1), level.R()) && Val(t[..]) == Ones(va, Exponent(level, i), level.R())
    modifies f, g, t, secBuf
    ensures IsPadded(f[..], level.R()) && IsPadded(g[..], level.R()) && IsPadded(t[..], level.R())
    ensures Val(f[..]) == Ones(va, Pow2(i), level.R()) && Val(t[..]) == Ones(va, Exponent(level, i + 1), level.R())
  {
    hide RawBit, Bit, Val, QWords, RXmm, LaneSize, SqrN, RMul, FoldMul, InWords, RPow, Pow2, PowerOfTwoTimes, Exp0K,
         Exp0L, Exp1K, Exp1L, InversePair, Exponent, PaddedQWords, Ones, GoodR, MaxI;
    var r := level.R();
    LevelSizes(level);
    TableSizes(level);
    TablesCorrect(level, i - 1);
    TablesCorrect(level, i);
    Pow2Def(i);
    OnesAdd(va, Pow2(i - 1), Pow2(i - 1), r);
    OnesAdd(va, Pow2(i), Exponent(level, i), r);
    Power2k(ctx, g, f, Exp0K(level)[i - 1], Exp0L(level)[i - 1], secBuf, r);
    PaddedInWords(f[..], r);
    PaddedInWords(g[..], r);
    ModMul(ctx.mul, f, g, f, r);
    if Exp1K(level)[i] != 0 {
      Power2k(ctx, g, f, Exp1K(level)[i], Exp1L(level)[i], secBuf, r);
      PaddedInWords(g[..], r);
      PaddedInWords(t[..], r);
      ModMul(ctx.mul, t, g, t, r);
    }
  }

  /** gf2x_mod_inv: c = a^(2^(r-1) - 2). */
  method ModInv(ctx: Ctx, c: array<Word>, a: array<Word>, level: Level)
    requires a.Length == c.Length == PaddedQWords(level) && Suits(ctx.mul, level)
    requires IsPadded(a[..], level.R()) && IsPadded(c[..], level.R())
    modifies c
    ensures Val(c[..]) == Inverse(Val(old(a[..])), level.R())
    ensures IsPadded(c[..], level.R())
  {
    hide RawBit, Bit, Val, QWords, RXmm, LaneSize, SqrN, RMul, RPow, Pow2, PowerOfTwoTimes, Exp0K, Exp0L, Exp1K, Exp1L,
         InversePair, Exponent, PaddedQWords, Ones, GoodR, Inverse, MaxI;
    var r := level.R();
    LevelSizes(level);
    TableSizes(level);
    ghost var va := Val(a[..]);
    var f := new Word[a.Length](_ => 0);
    var g := new Word[a.Length](_ => 0);
    var t := new Word[a.Length](_ => 0);
    var secBuf := new Word[2 * a.Length](_ => 0);
    ValZero(f[..]);
    ValZero(g[..]);
    ValZero(t[..]);
    CopyR(f, a, r);
    CopyR(t, a, r);
    ExponentEnds(level);
    OnesOne(va, r);
    Pow2Def(0);
    for i := 1 to MaxI(level)
      invariant IsPadded(f[..], r) && IsPadded(g[..], r) && IsPadded(t[..], r)
      invariant Val(f[..]) == Ones(va, Pow2(i - 1), r)
      invariant Val(t[..]) == Ones(va, Exponent(level, i), r)
      modifies f, g, t, secBuf
    {
      InvStep(ctx, f, g, t, secBuf, level, i, va);
    }
    ModSqrInPlace(ctx.mul, t, secBuf, r);
    InverseFromOnes(va, r);
    CopyR(c, t, r);
  }

  lemma TableSizes(level: Level)
    ensures |Exp0K(level)| == |Exp0L(level)| == |Exp1K(level)| == |Exp1L(level)| == MaxI(level) >= 2
  {
  }

  /** What the result of the inversion is worth: multiplied twice by a it gives a back, and it is the
      inverse of a exactly when a has one. */
  lemma ModInvMeaning(a: nat, b: nat, level: Level)
    requires Fits(a, level.R()) && Fits(b, level.R())
    ensures var r, c := level.R(), Inverse(a, level.R());
            && RMul(a, RMul(a, c, r), r) == a
            && (RMul(a, b, r) == 1 <==> RMul(a, c, r) == 1 && b == c)
  {
    hide *;
    ExponentEnds(level);
    InverseWeak(a, level.R());
    InverseOfUnit(a, b, level.R());
  }
}
