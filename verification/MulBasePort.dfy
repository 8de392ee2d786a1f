/** The portable 64x64 carry-less multiplier: a masked 8-entry window table over the low 61 bits of b,
    and a schoolbook pass for its top three bits. */
module MulBasePort {
  import opened Bits
  import opened Poly
  import opened Words
  import opened Utilities

  /** The 128-bit polynomial held in two words. */
  function Pair(l: nat, h: nat): nat {
    Xor(l, Shl(h, 64))
  }

  /** Adding u * x^k to a pair of words, with the part that overflows the low word in the high one. */
  lemma PairAdd(l: Word, h: Word, u: Word, k: nat)
    requires k <= 64
    ensures Pair(WXor(l, WShl(u, k)), WXor(h, WShr(u, 64 - k))) == Xor(Pair(l, h), Shl(u, k))
  {
    hide RawBit, Bit, Xor, Shl, WXor, WShl, WShr;
    Ext(Pair(WXor(l, WShl(u, k)), WXor(h, WShr(u, 64 - k))), Xor(Pair(l, h), Shl(u, k)));
  }

  lemma PairIsVal(s: seq<Word>)
    requires |s| == 2
    ensures Val(s) == Pair(s[0], s[1])
  {
    hide *;
    assert Pair(s[0], s[1]) == Xor(s[0], Shl(s[1], 64)) by { PairDef(s[0], s[1]); }
    ValSplit(s, 1);
    ValOne(s[..1]);
    ValOne(s[1..]);
  }

  lemma PairDef(l: nat, h: nat)
    ensures Pair(l, h) == Xor(l, Shl(h, 64))
  {
  }

  /** LSB3(x) = x & 7. */
  function Lsb3(x: Word): (y: Word)
    ensures y == Low(x, 3) && y < 8
  {
    Pow2Words();
    assert Mask(3) == 7;
    Lsb3IsLow(x);
    WAnd(x, 7)
  }

  lemma Lsb3IsLow(x: Word)
    ensures WAnd(x, 7) == Low(x, 3)
  {
    hide *;
    Pow2Words();
    assert Mask(3) == 7;
    Ext(WAnd(x, 7), Low(x, 3));
  }

  /** The window table: u[k] = k * b. */
  ghost predicate Table(u: seq<Word>, b: nat) {
    |u| == 8 && forall k: nat :: k < 8 ==> u[k] == Mul(k, b)
  }

  /** Doubling in a word loses nothing below 63 bits. */
  lemma ShlOne(x: Word)
    requires Fits(x, 63)
    ensures WShl(x, 1) == 2 * x
  {
    hide RawBit, Bit, WShl, Shl, Low;
    Ext(WShl(x, 1), Cons(false, x));
  }

  lemma SmallFits(k: nat, b: nat)
    requires k < 4 && Fits(b, 61)
    ensures Fits(Mul(k, b), 63)
  {
    hide RawBit, Bit, Mul;
    assert Pow2(2) == 4;
    FitsPow2(k, 2);
    MulFits(k, b, 2, 61);
  }

  lemma {:induction false} MulSteps(k: nat, b: nat)
    requires k > 0
    ensures Mul(2 * k, b) == 2 * Mul(k, b)
    ensures Mul(2 * k + 1, b) == Xor(2 * Mul(k, b), b)
  {
    hide RawBit, Bit, Xor;
    assert (2 * k) / 2 == k && (2 * k + 1) / 2 == k && (2 * k) % 2 == 0 && (2 * k + 1) % 2 == 1;
    XorLaws(2 * Mul(k, b), 0, 0);
    XorLaws(2 * Mul(k, b), b, 0);
  }

  method BuildTable(b: Word) returns (u: array<Word>)
    requires Fits(b, 61)
    ensures fresh(u) && Table(u[..], b)
  {
    hide *;
    u := new Word[8](_ => 0);
    u[0] := 0;
    u[1] := b;
    u[2] := WShl(u[1], 1);
    u[3] := WXor(u[2], b);
    u[4] := WShl(u[2], 1);
    u[5] := WXor(u[4], b);
    u[6] := WShl(u[3], 1);
    u[7] := WXor(u[6], b);
    MulZero(b);
    MulOne(b);
    SmallFits(1, b);
    SmallFits(2, b);
    SmallFits(3, b);
    MulSteps(1, b);
    MulSteps(2, b);
    MulSteps(3, b);
    ShlOne(b);
    ShlOne(u[2]);
    ShlOne(u[3]);
    TableFrom(u[..], b);
  }

  lemma TableFrom(u: seq<Word>, b: nat)
    requires |u| == 8
    requires u[0] == Mul(0, b) && u[1] == Mul(1, b) && u[2] == Mul(2, b) && u[3] == Mul(3, b)
    requires u[4] == Mul(4, b) && u[5] == Mul(5, b) && u[6] == Mul(6, b) && u[7] == Mul(7, b)
    ensures Table(u, b)
  {
    hide Mul;
    forall k: nat | k < 8 ensures u[k] == Mul(k, b) {
      if k == 0 {} else if k == 1 {} else if k == 2 {} else if k == 3 {} else if k == 4 {} else if k == 5 {}
      else if k == 6 {}
    }
  }

  /** w ^ (x & m) for an all-ones or zero mask m. */
  lemma MaskedXor(w: Word, x: Word)
    ensures WXor(w, WAnd(x, MAX64)) == WXor(w, x) && WXor(w, WAnd(x, 0)) == w
  {
    hide RawBit, Bit, WXor, WAnd, Xor;
    Pow2Words();
    assert Mask(64) == MAX64;
    Ext(WXor(w, WAnd(x, MAX64)), WXor(w, x));
    Ext(WXor(w, WAnd(x, 0)), w);
  }

  /** Step 2, first window: the two low digits of a0. */
  method FirstWindow(u: array<Word>, a0: Word, ghost b: nat) returns (l: Word, h: Word)
    requires Table(u[..], b)
    ensures Pair(l, h) == Mul(Low(a0, 6), b)
  {
    hide RawBit, Bit, Xor, Mul, Low, Shl, Shr, WXor, WAnd, WShl, WShr, Table, Pair, SecureCmpeq64Mask, Lsb3;
    l, h := 0, 0;
    var x0, x1 := Lsb3(a0), Lsb3(WShr(a0, 3));
    TableAt(u[..], b, x0);
    TableAt(u[..], b, x1);
    WXorLaws(0, 0, 0);
    for i := 0 to 8
      invariant l == WXor(if x0 < i then u[x0] else 0, if x1 < i then WShl(u[x1], 3) else 0)
      invariant h == if x1 < i then WShr(u[x1], 61) else 0
    {
      MaskedXor(l, u[i]);
      l := WXor(l, WAnd(u[i], SecureCmpeq64Mask(x0, i)));
      MaskedXor(l, WShl(u[i], 3));
      l := WXor(l, WAnd(WShl(u[i], 3), SecureCmpeq64Mask(x1, i)));
      MaskedXor(h, WShr(u[i], 61));
      WXorLaws(WShr(u[i], 61), 0, 0);
      h := WXor(h, WAnd(WShr(u[i], 61), SecureCmpeq64Mask(x1, i)));
      Accumulate(if x0 < i then u[x0] else 0, if x1 < i then WShl(u[x1], 3) else 0, u[i], WShl(u[i], 3));
    }
    FirstWindowValue(a0, b, u[x0], u[x1]);
  }

  lemma TableAt(u: seq<Word>, b: nat, k: nat)
    requires Table(u, b) && k < 8
    ensures |u| == 8 && u[k] == Mul(k, b)
  {
  }

  lemma WXorLaws(a: Word, b: Word, c: Word)
    ensures WXor(a, 0) == a && WXor(0, a) == a && WXor(a, b) == WXor(b, a)
    ensures WXor(WXor(a, b), c) == WXor(a, WXor(b, c))
  {
    hide *;
    XorLaws(a, b, c);
  }

  lemma Accumulate(s0: Word, s1: Word, t0: Word, t1: Word)
    ensures WXor(WXor(0, s1), t0) == WXor(t0, s1)
    ensures WXor(WXor(s0, 0), t1) == WXor(s0, t1)
    ensures WXor(WXor(WXor(0, 0), t0), t1) == WXor(t0, t1)
  {
    hide RawBit, Bit, Xor, WXor;
    WXorLaws(0, s1, t0);
    WXorLaws(s1, t0, 0);
    WXorLaws(s0, 0, t1);
    WXorLaws(0, t0, t1);
    WXorLaws(t0, t1, 0);
  }

  lemma FirstWindowValue(a0: Word, b: nat, u0: Word, u1: Word)
    requires u0 == Mul(Low(a0, 3), b) && u1 == Mul(Low(Shr(a0, 3), 3), b)
    ensures Pair(WXor(u0, WShl(u1, 3)), WShr(u1, 61)) == Mul(Low(a0, 6), b)
  {
    hide RawBit, Bit, Xor, Shl, Shr, Low, Mul, WXor, WShl, WShr;
    PairAdd(u0, 0, u1, 3);
    WXorLaws(WShr(u1, 61), 0, 0);
    assert Pair(u0, 0) == u0 by { Ext(Pair(u0, 0), u0); }
    MulShl(Low(Shr(a0, 3), 3), b, 3);
    MulXorL(Low(a0, 3), Shl(Low(Shr(a0, 3), 3), 3), b);
    Ext(Xor(Low(a0, 3), Shl(Low(Shr(a0, 3), 3), 3)), Low(a0, 6));
  }

  /** Step 2, the windows at bits i and i + 3. */
  method NextWindow(u: array<Word>, a0: Word, i: nat, l0: Word, h0: Word, ghost b: nat) returns (l: Word, h: Word)
    requires Table(u[..], b) && i <= 61
    requires Pair(l0, h0) == Mul(Low(a0, i), b)
    ensures Pair(l, h) == Mul(Low(a0, i + 6), b)
  {
    hide RawBit, Bit, Xor, Mul, Low, Shl, Shr, WXor, WAnd, WShl, WShr, Table, Pair, SecureCmpeq64Mask, Lsb3;
    var g1: Word, g2: Word := 0, 0;
    var x1, x2 := Lsb3(WShr(a0, i)), Lsb3(WShr(a0, i + 3));
    TableAt(u[..], b, x1);
    TableAt(u[..], b, x2);
    for j := 0 to 8
      invariant g1 == if x1 < j then u[x1] else 0
      invariant g2 == if x2 < j then u[x2] else 0
    {
      MaskedXor(g1, u[j]);
      MaskedXor(g2, u[j]);
      WXorLaws(u[j], 0, 0);
      g1 := WXor(g1, WAnd(u[j], SecureCmpeq64Mask(x1, j)));
      g2 := WXor(g2, WAnd(u[j], SecureCmpeq64Mask(x2, j)));
    }
    l := WXor(l0, WXor(WShl(g1, i), WShl(g2, i + 3)));
    h := WXor(h0, WXor(WShr(g1, 64 - i), WShr(g2, 64 - (i + 3))));
    WXorLaws(l0, WShl(g1, i), WShl(g2, i + 3));
    WXorLaws(h0, WShr(g1, 64 - i), WShr(g2, 64 - (i + 3)));
    PairAdd(l0, h0, g1, i);
    PairAdd(WXor(l0, WShl(g1, i)), WXor(h0, WShr(g1, 64 - i)), g2, i + 3);
    WindowDigits(a0, i, b);
  }

  lemma WindowDigits(a: nat, i: nat, b: nat)
    ensures Mul(Low(a, i + 6), b) ==
            Xor(Xor(Mul(Low(a, i), b), Shl(Mul(Low(Shr(a, i), 3), b), i)), Shl(Mul(Low(Shr(a, i + 3), 3), b), i + 3))
  {
    hide RawBit, Bit, Xor, Mul, Low, Shl, Shr;
    var x1, x2 := Shl(Low(Shr(a, i), 3), i), Shl(Low(Shr(a, i + 3), 3), i + 3);
    Ext(Low(a, i + 6), Xor(Xor(Low(a, i), x1), x2));
    MulXorL(Xor(Low(a, i), x1), x2, b);
    MulXorL(Low(a, i), x1, b);
    MulShl(Low(Shr(a, i), 3), b, i);
    MulShl(Low(Shr(a, i + 3), 3), b, i + 3);
  }

  /** Step 3: bit i of b contributes a * x^i. */
  lemma TopBitStep(a: nat, b: nat, i: nat)
    ensures Mul(a, Low(b, i + 1)) == Xor(Mul(a, Low(b, i)), if Bit(b, i) then Shl(a, i) else 0)
  {
    hide RawBit, Bit, Xor, Mul, Low, Shl, X;
    var t := if Bit(b, i) then X(i) else 0;
    Ext(Low(b, i + 1), Xor(Low(b, i), t));
    MulXorR(a, Low(b, i), t);
    MulZero(a);
    forall j: nat ensures Bit(1, j) == (j == 0) { OneBit(j); }
    Ext(Shl(1, i), X(i));
    MulShl(1, a, i);
    MulOne(a);
  }

  /** (b >> i) & 1. */
  function BitAt(b: Word, i: nat): (x: Word)
    ensures x == if Bit(b, i) then 1 else 0
  {
    BitAtIsBit(b, i);
    WAnd(WShr(b, i), 1)
  }

  lemma BitAtIsBit(b: Word, i: nat)
    ensures WAnd(WShr(b, i), 1) == if Bit(b, i) then 1 else 0
  {
    hide RawBit, Bit, WAnd, WShr;
    forall j: nat ensures Bit(1, j) == (j == 0) { OneBit(j); }
    Ext(WAnd(WShr(b, i), 1), if Bit(b, i) then 1 else 0);
  }

  /** gf2x_mul_base_port: the full 128-bit product of two words. */
  method MulBasePort(c: array<Word>, co: nat, a: array<Word>, ao: nat, b: array<Word>, bo: nat)
    requires co + 2 <= c.Length && ao < a.Length && bo < b.Length
    modifies c
    ensures Val(c[co..co + 2]) == Mul(old(a[ao]), old(b[bo]))
    ensures forall k :: 0 <= k < c.Length && !(co <= k < co + 2) ==> c[k] == old(c[k])
  {
    hide RawBit, Bit, Xor, Mul, Low, Shl, Shr, WXor, WAnd, WShl, WShr, Table, Pair, SecureCmpeq64Mask, Lsb3, Pow2,
         Mask, Val;
    var a0, b0 := a[ao], b[bo];
    Pow2Words();
    assert Mask(61) == TWO64 / 8 - 1;
    var b0m := WAnd(b0, TWO64 / 8 - 1);
    assert b0m == Low(b0, 61) by { Ext(b0m, Low(b0, 61)); }
    var u := BuildTable(b0m);
    var l, h := FirstWindow(u, a0, b0m);
    var i := 6;
    while i < 64
      invariant i % 6 == 0 && 6 <= i <= 66
      invariant Table(u[..], b0m)
      invariant Pair(l, h) == Mul(Low(a0, i), b0m)
      modifies {}
    {
      l, h := NextWindow(u, a0, i, l, h, b0m);
      i := i + 6;
    }
    Ext(Low(a0, 66), a0);
    for j := 61 to 64
      invariant Pair(l, h) == Mul(a0, Low(b0, j))
      modifies {}
    {
      var mask := Neg64(BitAt(b0, j));
      TopBitStep(a0, b0, j);
      PairAdd(l, h, a0, j);
      XorLaws(Pair(l, h), 0, 0);
      MaskedXor(l, WShl(a0, j));
      MaskedXor(h, WShr(a0, 64 - j));
      l := WXor(l, WAnd(WShl(a0, j), mask));
      h := WXor(h, WAnd(WShr(a0, 64 - j), mask));
    }
    Ext(Low(b0, 64), b0);
    c[co] := l;
    c[co + 1] := h;
    assert c[co..co + 2] == [l, h];
    PairIsVal([l, h]);
  }
}
