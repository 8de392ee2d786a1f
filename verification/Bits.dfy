/** Natural numbers seen as bit strings, least significant bit first.  The same numbers are the
    machine words of the program and the polynomials over GF(2) that those words hold: bit i is
    the coefficient of x^i, and `Xor` is polynomial addition. */
module Bits {

  const TWO64: nat := 0x1_0000_0000_0000_0000
  const MAX64: nat := 0xFFFF_FFFF_FFFF_FFFF
  const TWO32: nat := 0x1_0000_0000
  const MAX32: nat := 0xFFFF_FFFF

  /** uint64_t, uint32_t and uint8_t. */
  type Word = w: nat | w < TWO64
  type Dword = w: nat | w < TWO32
  type Byte = w: nat | w < 256

  function Pow2(n: nat): (p: nat)
    ensures p >= 1
  {
    if n == 0 then 1 else 2 * Pow2(n - 1)
  }

  predicate RawBit(a: nat, i: nat) {
    if i == 0 then a % 2 == 1 else RawBit(a / 2, i - 1)
  }

  lemma RawBitBound(a: nat, i: nat, n: nat)
    requires a < Pow2(n) && n <= i
    ensures !RawBit(a, i)
  {
    if n > 0 { RawBitBound(a / 2, i - 1, n - 1); } else if i > 0 { RawBitBound(0, i - 1, 0); }
  }

  lemma Pow2Add(m: nat, n: nat)
    ensures Pow2(m + n) == Pow2(m) * Pow2(n)
  {
    if m > 0 { Pow2Add(m - 1, n); }
  }

  lemma Pow2Words()
    ensures Pow2(3) == 8 && Pow2(8) == 256 && Pow2(32) == TWO32 && Pow2(61) == TWO64 / 8 && Pow2(63) == TWO64 / 2
    ensures Pow2(64) == TWO64
  {
    hide Pow2;
    Pow2Def(0);
    Pow2Def(1);
    Pow2Add(1, 1);
    Pow2Add(2, 2);
    Pow2Add(4, 4);
    Pow2Add(8, 8);
    Pow2Add(16, 16);
    Pow2Add(32, 32);
    Pow2Add(1, 2);
    Pow2Add(1, 63);
    Pow2Add(3, 61);
  }

  lemma Pow2Def(n: nat)
    ensures Pow2(n) == if n == 0 then 1 else 2 * Pow2(n - 1)
  {
  }

  /** Bit i of a.  The postconditions say that bytes and words have no bit past their width. */
  predicate Bit(a: nat, i: nat): (b: bool)
    ensures b ==> i < 64 || a >= TWO64
    ensures b ==> i < 32 || a >= TWO32
    ensures b ==> i < 8 || a >= 256
    ensures b ==> a > 0
  {
    assert RawBit(a, i) ==> (i < 64 || a >= TWO64) && (i < 32 || a >= TWO32) && (i < 8 || a >= 256) && a > 0 by {
      Pow2Words();
      if a < TWO64 && i >= 64 { RawBitBound(a, i, 64); }
      if a < TWO32 && i >= 32 { RawBitBound(a, i, 32); }
      if a < 256 && i >= 8 { RawBitBound(a, i, 8); }
      if a == 0 { RawBitBound(a, i, 0); }
    }
    RawBit(a, i)
  }

  /** a is a polynomial of degree below n, that is, a number of at most n bits. */
  ghost predicate Fits(a: nat, n: nat) {
    forall i: nat :: Bit(a, i) ==> i < n
  }

  lemma {:induction false} Ext(a: nat, b: nat)
    requires forall i: nat :: Bit(a, i) == Bit(b, i)
    ensures a == b
    decreases a + b
  {
    assert Bit(a, 0) == Bit(b, 0);
    if a != 0 || b != 0 {
      forall i: nat ensures Bit(a / 2, i) == Bit(b / 2, i) { assert Bit(a, i + 1) == Bit(b, i + 1); }
      Ext(a / 2, b / 2);
    }
  }

  /** The number whose lowest bit is b and whose other bits are those of h. */
  function Cons(b: bool, h: nat): (c: nat)
    ensures Bit(c, 0) == b
    ensures forall i: nat :: Bit(c, i) == if i == 0 then b else Bit(h, i - 1)
  {
    2 * h + (if b then 1 else 0)
  }

  lemma Uncons(a: nat)
    ensures a == Cons(a % 2 == 1, a / 2)
    ensures forall i: nat :: Bit(a, i) == if i == 0 then a % 2 == 1 else Bit(a / 2, i - 1)
  {
  }

  function Xor(a: nat, b: nat): (c: nat)
    ensures forall i: nat :: Bit(c, i) == (Bit(a, i) != Bit(b, i))
    decreases a + b
  {
    if a == 0 then b else if b == 0 then a
    else
      Uncons(a); Uncons(b);
      Cons((a % 2 == 1) != (b % 2 == 1), Xor(a / 2, b / 2))
  }

  function And(a: nat, b: nat): (c: nat)
    ensures forall i: nat :: Bit(c, i) == (Bit(a, i) && Bit(b, i))
    ensures c <= a && c <= b
  {
    if a == 0 || b == 0 then 0
    else
      Uncons(a); Uncons(b);
      Cons(a % 2 == 1 && b % 2 == 1, And(a / 2, b / 2))
  }

  function Or(a: nat, b: nat): (c: nat)
    ensures forall i: nat :: Bit(c, i) == (Bit(a, i) || Bit(b, i))
    decreases a + b
  {
    if a == 0 then b else if b == 0 then a
    else
      Uncons(a); Uncons(b);
      Cons(a % 2 == 1 || b % 2 == 1, Or(a / 2, b / 2))
  }

  /** Multiplication by x^k. */
  function Shl(a: nat, k: nat): (c: nat)
    ensures forall i: nat :: Bit(c, i) == (i >= k && Bit(a, i - k))
  {
    if k == 0 then a else Cons(false, Shl(a, k - 1))
  }

  function Shr(a: nat, k: nat): (c: nat)
    ensures forall i: nat :: Bit(c, i) == Bit(a, i + k)
    ensures c <= a && (k > 0 && a > 0 ==> c < a)
    decreases k, a
  {
    if k == 0 then a
    else
      Uncons(a);
      Shr(a / 2, k - 1)
  }

  /** The low n bits of a. */
  function Low(a: nat, n: nat): (c: nat)
    ensures forall i: nat :: Bit(c, i) == (i < n && Bit(a, i))
    ensures c <= a && c < Pow2(n)
    decreases n, a
  {
    if n == 0 then 0
    else
      Uncons(a);
      Cons(a % 2 == 1, Low(a / 2, n - 1))
  }

  /** MASK(n): n one bits. */
  function Mask(n: nat): (c: nat)
    ensures forall i: nat :: Bit(c, i) == (i < n)
    ensures c == Pow2(n) - 1
  {
    if n == 0 then 0 else Cons(true, Mask(n - 1))
  }

  lemma {:induction false} FitsPow2(a: nat, n: nat)
    ensures Fits(a, n) <==> a < Pow2(n)
    ensures Fits(a, n) <==> Shr(a, n) == 0
    ensures Fits(a, n) <==> Low(a, n) == a
  {
    hide RawBit, Bit, Low, Shr;
    if a < Pow2(n) {
      forall i: nat | Bit(a, i) ensures i < n { if n <= i { BitBound(a, i, n); } }
    }
    if Fits(a, n) {
      Ext(Low(a, n), a);
      Ext(Shr(a, n), 0);
    }
    if i: nat :| Bit(a, i) && n <= i {
      assert Bit(Shr(a, n), i - n);
    }
  }

  lemma BitBound(a: nat, i: nat, n: nat)
    requires a < Pow2(n) && n <= i
    ensures !Bit(a, i)
  {
    RawBitBound(a, i, n);
  }

  lemma ZeroFits(r: nat)
    ensures Fits(0, r)
  {
  }

  lemma FitsWider(a: nat, m: nat, n: nat)
    requires Fits(a, m) && m <= n
    ensures Fits(a, n)
  {
    hide RawBit, Bit;
  }

  lemma Pow2Monotone(m: nat, n: nat)
    requires m <= n
    ensures Pow2(m) <= Pow2(n)
  {
    if m < n { Pow2Monotone(m, n - 1); }
  }
}
