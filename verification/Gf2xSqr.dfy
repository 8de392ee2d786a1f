/** Squaring word by word, and k-squaring as a permutation of bits. */
module Gf2xSqr {
  import opened Bits
  import opened Poly
  import opened Ring
  import opened Params
  import opened Words
  import opened Frobenius
  import opened Karatsuba
  import opened Gf2xMul
  import MulBasePort
  import MulBasePclmul

  /** Appending a word to a polynomial appends its square to the square. */
  lemma SquareAppend(s: seq<Word>, t: seq<Word>, x: seq<Word>, y: seq<Word>)
    requires Val(t) == Mul(Val(s), Val(s)) && |t| == 2 * |s|
    requires Val(y) == Mul(Val(x), Val(x))
    ensures Val(t + y) == Mul(Val(s + x), Val(s + x))
  {
    hide RawBit, Bit, Val, Xor, Mul, Shl;
    var n := 64 * |s|;
    ValConcat(s, x);
    ValConcat(t, y);
    SquareXor(Val(s), Shl(Val(x), n));
    MulShl(Val(x), Shl(Val(x), n), n);
    MulShl(Val(x), Val(x), n);
    ShlShl(Mul(Val(x), Val(x)), n, n);
  }

  /** gf2x_sqr_port: every word squared separately. */
  method SqrPort(c: array<Word>, a: array<Word>, r: nat)
    requires GoodR(r) && QWords(r) <= a.Length && 2 * QWords(r) <= c.Length && c != a
    modifies c
    ensures Val(c[..2 * QWords(r)]) == Mul(Val(a[..QWords(r)]), Val(a[..QWords(r)]))
  {
    hide RawBit, Bit, Val, Mul, QWords;
    ghost var s := a[..];
    ValZero([]);
    MulZero(0);
    assert a[..0] == [] && c[..0] == [];
    for i := 0 to QWords(r)
      invariant Val(c[..2 * i]) == Mul(Val(s[..i]), Val(s[..i]))
    {
      ghost var t := c[..2 * i];
      MulBasePort.MulBasePort(c, 2 * i, a, i, a, i);
      assert c[..2 * i] == t;
      assert c[..2 * (i + 1)] == t + c[2 * i..2 * i + 2] && s[..i + 1] == s[..i] + [s[i]];
      ValOne([s[i]]);
      SquareAppend(s[..i], t, [s[i]], c[2 * i..2 * i + 2]);
    }
  }

  /** R_XMM. */
  function RXmm(r: nat): nat { DivideAndCeil(r, 128) }

  /** gf2x_sqr_pclmul: two words at a time. */
  method SqrPclmul(c: array<Word>, a: array<Word>, r: nat)
    requires GoodR(r) && 2 * RXmm(r) <= a.Length && 4 * RXmm(r) <= c.Length && c != a
    modifies c
    ensures Val(c[..4 * RXmm(r)]) == Mul(Val(a[..2 * RXmm(r)]), Val(a[..2 * RXmm(r)]))
  {
    hide *;
    ghost var s := a[..];
    ValZero([]);
    MulZero(0);
    assert a[..0] == [] && c[..0] == [];
    var i := 0;
    while i < RXmm(r) * 2
      invariant i % 2 == 0 && i <= RXmm(r) * 2
      invariant Val(c[..2 * i]) == Mul(Val(s[..i]), Val(s[..i]))
    {
      ghost var t := c[..2 * i];
      var va := MulBasePclmul.Load(a, i);
      var vr0, vr1 := MulBasePclmul.Clmul(va, va, false), MulBasePclmul.Clmul(va, va, true);
      c[2 * i], c[2 * i + 1] := vr0.lo, vr0.hi;
      c[2 * i + 2], c[2 * i + 3] := vr1.lo, vr1.hi;
      assert c[..2 * i] == t && s[i] == va.lo && s[i + 1] == va.hi;
      assert c[..2 * (i + 2)] == (t + [vr0.lo, vr0.hi]) + [vr1.lo, vr1.hi];
      assert s[..i + 2] == (s[..i] + [s[i]]) + [s[i + 1]];
      ClmulSquare(s[i], vr0, Mul(s[i], s[i]));
      ClmulSquare(s[i + 1], vr1, Mul(s[i + 1], s[i + 1]));
      SquareAppend(s[..i], t, [s[i]], [vr0.lo, vr0.hi]);
      SquareAppend(s[..i] + [s[i]], t + [vr0.lo, vr0.hi], [s[i + 1]], [vr1.lo, vr1.hi]);
      i := i + 2;
    }
  }

  lemma ClmulSquare(x: Word, z: MulBasePclmul.Xmm, p: nat)
    requires MulBasePclmul.XVal(z) == p
    ensures Val([x]) == x && Val([z.lo, z.hi]) == p
  {
    hide RawBit, Bit, Val, Xor, Shl;
    ValOne([x]);
    MulBasePclmul.Load2([z.lo, z.hi]);
  }

  /** The squaring that goes with the base multiplier, followed by the reduction: a = a^2 mod (x^r - 1). */
  method ModSqrInPlace(m: MulImpl, a: array<Word>, secBuf: array<Word>, r: nat)
    requires GoodR(r) && 2 * RXmm(r) <= a.Length && secBuf.Length == 2 * a.Length && a != secBuf
    requires IsPadded(a[..], r)
    modifies a, secBuf
    ensures Val(a[..]) == RMul(Val(old(a[..])), Val(old(a[..])), r)
    ensures IsPadded(a[..], r)
  {
    hide RawBit, Bit, Val, Mul, Red, Fold, Fits, QWords, RXmm;
    ghost var A, q := a[..], QWords(r);
    XmmSize(r);
    ValPrefix(A, q, r);
    ValPrefix(A, 2 * RXmm(r), r);
    MulFits(Val(A), Val(A), r, r);
    match m {
      case Port =>
        SqrPort(secBuf, a, r);
      case Pclmul =>
        SqrPclmul(secBuf, a, r);
        ghost var t := secBuf[..4 * RXmm(r)];
        ValPrefix(t, 2 * q, 2 * r);
        assert t[..2 * q] == secBuf[..2 * q];
      case OfWidth(_) =>
        FitsWider(Mul(Val(A), Val(A)), 2 * r, 128 * QWords(r));
        StoreWords(secBuf, 0, 2 * QWords(r), Mul(Val(a[..]), Val(a[..])));
    }
    RedPort(a, secBuf, r);
    RMulFits(Val(A), Val(A), r);
  }

  lemma XmmSize(r: nat)
    requires GoodR(r)
    ensures 1 <= QWords(r) <= 2 * RXmm(r) && r <= 64 * QWords(r)
  {
  }

  /** repeated_squaring: c = a^(2^n). */
  method RepeatedSquaring(m: MulImpl, c: array<Word>, a: array<Word>, n: nat, secBuf: array<Word>, r: nat)
    requires GoodR(r) && 2 * RXmm(r) <= a.Length == c.Length && secBuf.Length == 2 * a.Length
    requires a != secBuf && c != secBuf && a != c
    requires IsPadded(a[..], r) && IsPadded(c[..], r)
    modifies c, secBuf
    ensures Val(c[..]) == SqrN(Val(a[..]), n, r)
    ensures IsPadded(c[..], r)
  {
    hide RawBit, Bit, Val, Mul, Red, Fits, QWords, RXmm, RBytes;
    XmmSize(r);
    CopyR(c, a, r);
    for i := 0 to n
      invariant Val(c[..]) == SqrN(Val(a[..]), i, r) && IsPadded(c[..], r)
    {
      ModSqrInPlace(m, c, secBuf, r);
    }
  }

  /** c->val = a->val between padded polynomials. */
  method CopyR(c: array<Word>, a: array<Word>, r: nat)
    requires GoodR(r) && QWords(r) <= a.Length && QWords(r) <= c.Length && a != c
    requires IsPadded(a[..], r) && IsPadded(c[..], r)
    modifies c
    ensures Val(c[..]) == Val(a[..])
    ensures IsPadded(c[..], r)
  {
    hide RawBit, Bit, Val, QWords, RBytes;
    RShape(r);
    CopyBytes(c, a, RBytes(r));
    Ext(Val(c[..]), Val(a[..]));
  }

  // ----- k-squaring

  /** LAST_R_BYTE_MASK. */
  function LastByteMask(r: nat): (m: Byte)
    ensures forall i: nat :: Bit(m, i) == (i < r % 8)
  {
    ByteMask(r % 8);
    Mask(r % 8)
  }

  /** bit << j for one bit, as a byte. */
  function BitByte(b: bool, j: nat): (x: Byte)
    requires j < 8
    ensures forall i: nat :: Bit(x, i) == (b && i == j)
  {
    BitByteFits(b, j);
    if b then X(j) else 0
  }

  lemma BitByteFits(b: bool, j: nat)
    requires j < 8
    ensures b ==> X(j) < 256
  {
    hide RawBit, Bit, X;
    WordFits(X(j));
  }

  /** bike_memset of the bytes [from, to) to zero. */
  method ClearBytes(a: array<Word>, from: nat, to: nat)
    requires from <= to <= 8 * a.Length
    modifies a
    ensures forall p: nat :: Bit(Val(a[..]), p) == (Bit(Val(old(a[..])), p) && !(8 * from <= p < 8 * to))
  {
    hide RawBit, Bit, Val, WithByte;
    for j := from to to
      invariant forall p: nat :: Bit(Val(a[..]), p) == (Bit(Val(old(a[..])), p) && !(8 * from <= p < 8 * j))
    {
      ValWithByte(a[..], j, 0);
      StoreByte(a, j, 0);
    }
  }

  /** val->raw[R_BYTES - 1] &= LAST_R_BYTE_MASK. */
  method MaskLastByte(a: array<Word>, r: nat)
    requires GoodR(r) && QWords(r) <= a.Length
    modifies a
    ensures forall p: nat :: Bit(Val(a[..]), p) == (Bit(Val(old(a[..])), p) && !(r <= p < 8 * RBytes(r)))
  {
    hide RawBit, Bit, Val, QWords, RBytes, GetByte, WithByte, ByteAnd, LastByteMask;
    RShape(r);
    var last := RBytes(r) - 1;
    ghost var was := a[..];
    ValGetByte(was, last);
    var b := ByteAnd(GetByte(a[..], last), LastByteMask(r));
    ValWithByte(was, last, b);
    StoreByte(a, last, b);
    forall p: nat ensures Bit(Val(a[..]), p) == (Bit(Val(was), p) && !(r <= p < 8 * RBytes(r))) {
      if 8 * last <= p < 8 * last + 8 {
        assert Bit(b, p - 8 * last) == (Bit(Val(was), p) && p < r);
      }
    }
  }

  /** One step of the permutation: bit idx of the output becomes bit (l * idx) mod r of the input. */
  method SetPermutedBit(c: array<Word>, a: array<Word>, l: nat, r: nat, i: nat, j: nat)
    requires GoodR(r) && QWords(r) <= a.Length && QWords(r) <= c.Length && a != c && j < 8 && i < RBytes(r)
    requires Val(c[..]) == Permute(Val(a[..]), l, r, 8 * i + j)
    modifies c
    ensures Val(c[..]) == Permute(Val(a[..]), l, r, 8 * i + j + 1)
  {
    hide RawBit, Bit, Val, QWords, RBytes, GetByte, WithByte, Idx, Permute, BitByte, ByteOr;
    RShape(r);
    ghost var idx := 8 * i + j;
    var pos := Idx(l, 8 * i + j, r);
    ByteIndex(pos, pos / 8);
    ValGetByte(a[..], pos / 8);
    var bit := Bit(GetByte(a[..], pos / 8), pos % 8);
    ghost var was := c[..];
    ValGetByte(was, i);
    var b := ByteOr(GetByte(c[..], i), BitByte(bit, j));
    ValWithByte(was, i, b);
    StoreByte(c, i, b);
    forall p: nat ensures Bit(Val(c[..]), p) == Bit(Permute(Val(a[..]), l, r, idx + 1), p) {
      if 8 * i <= p < 8 * i + 8 {
        assert Bit(b, p - 8 * i) == (Bit(Val(was), p) || (bit && p == idx));
      }
    }
    Ext(Val(c[..]), Permute(Val(a[..]), l, r, idx + 1));
  }

  /** k_sqr_port: bit idx of c is bit (l * idx) mod r of a. */
  method KSqrPort(c: array<Word>, a: array<Word>, l: nat, r: nat)
    requires GoodR(r) && QWords(r) <= a.Length && QWords(r) <= c.Length && a != c
    requires IsPadded(c[..], r)
    modifies c
    ensures Val(c[..]) == Permute(Val(a[..]), l, r, r)
    ensures IsPadded(c[..], r)
  {
    hide RawBit, Bit, Val, QWords, RBytes, Idx, Permute;
    RShape(r);
    ClearBytes(c, 0, RBytes(r));
    Ext(Val(c[..]), Permute(Val(a[..]), l, r, 0));
    for i := 0 to RBytes(r)
      invariant Val(c[..]) == Permute(Val(a[..]), l, r, 8 * i)
    {
      for j := 0 to 8
        invariant Val(c[..]) == Permute(Val(a[..]), l, r, 8 * i + j)
      {
        SetPermutedBit(c, a, l, r, i, j);
      }
    }
    MaskLastByte(c, r);
    Ext(Val(c[..]), Permute(Val(a[..]), l, r, r));
  }
}
