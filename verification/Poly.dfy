/** GF(2)[x]: the natural numbers under `Xor` and carry-less multiplication. */
module Poly {
  import opened Bits

  /** Schoolbook product: one shifted copy of b for every set bit of a. */
  function Mul(a: nat, b: nat): nat {
    if a == 0 then 0 else Xor(if a % 2 == 1 then b else 0, 2 * Mul(a / 2, b))
  }

  /** The monomial x^j. */
  function X(j: nat): (c: nat)
    ensures forall i: nat :: Bit(c, i) == (i == j)
  {
    assert forall i: nat :: Bit(1, i) == (i == 0) by { Uncons(1); }
    Shl(1, j)
  }

  /** The polynomial with coefficients f(0), .., f(n - 1). */
  function FromBits(f: nat -> bool, n: nat): (c: nat)
    ensures forall i: nat :: Bit(c, i) == (i < n && f(i))
  {
    if n == 0 then 0 else Cons(f(0), FromBits((i: nat) => f(i + 1), n - 1))
  }

  // ----- Addition

  lemma XorDbl(a: nat, b: nat)
    ensures Xor(2 * a, 2 * b) == 2 * Xor(a, b)
    ensures Xor(2 * a + 1, 2 * b) == 2 * Xor(a, b) + 1
  {
    hide RawBit, Bit, Xor;
    Ext(Xor(Cons(false, a), Cons(false, b)), Cons(false, Xor(a, b)));
    Ext(Xor(Cons(true, a), Cons(false, b)), Cons(true, Xor(a, b)));
  }

  lemma XorLaws(a: nat, b: nat, c: nat)
    ensures Xor(a, b) == Xor(b, a)
    ensures Xor(a, Xor(b, c)) == Xor(Xor(a, b), c)
    ensures Xor(a, 0) == a && Xor(0, a) == a && Xor(a, a) == 0
    ensures Xor(a, Xor(a, b)) == b
  {
    hide Bit, Xor;
    Ext(Xor(a, b), Xor(b, a));
    Ext(Xor(a, Xor(b, c)), Xor(Xor(a, b), c));
    Ext(Xor(a, 0), a);
    Ext(Xor(0, a), a);
    Ext(Xor(a, a), 0);
    Ext(Xor(a, Xor(a, b)), b);
  }

  /** The sum of two sums, regrouped. */
  lemma XorSwap(a: nat, b: nat, c: nat, d: nat)
    ensures Xor(Xor(a, b), Xor(c, d)) == Xor(Xor(a, c), Xor(b, d))
  {
    hide Bit, Xor;
    Ext(Xor(Xor(a, b), Xor(c, d)), Xor(Xor(a, c), Xor(b, d)));
  }

  lemma ShlXor(a: nat, b: nat, k: nat)
    ensures Shl(Xor(a, b), k) == Xor(Shl(a, k), Shl(b, k))
  {
    hide Bit, Xor, Shl;
    Ext(Shl(Xor(a, b), k), Xor(Shl(a, k), Shl(b, k)));
  }

  lemma ShlShl(a: nat, j: nat, k: nat)
    ensures Shl(Shl(a, j), k) == Shl(a, j + k)
  {
    hide Bit, Shl;
    Ext(Shl(Shl(a, j), k), Shl(a, j + k));
  }

  /** Every number is its low part plus its shifted high part. */
  lemma Split(a: nat, n: nat)
    ensures a == Xor(Low(a, n), Shl(Shr(a, n), n))
  {
    hide Bit, Xor, Shl, Shr, Low;
    Ext(a, Xor(Low(a, n), Shl(Shr(a, n), n)));
  }

  // ----- Multiplication

  lemma MulZero(a: nat)
    ensures Mul(a, 0) == 0 && Mul(0, a) == 0
  {
    if a > 0 { MulZero(a / 2); }
  }

  lemma MulOne(a: nat)
    ensures Mul(a, 1) == a && Mul(1, a) == a
  {
    if a > 0 {
      MulOne(a / 2);
      XorDbl(0, a / 2);
    }
    assert Mul(0, a) == 0;
    XorLaws(a, 0, 0);
  }

  lemma {:induction false} MulDbl(a: nat, b: nat)
    ensures Mul(a, 2 * b) == 2 * Mul(a, b)
  {
    if a > 0 {
      MulDbl(a / 2, b);
      XorDbl(if a % 2 == 1 then b else 0, 2 * Mul(a / 2, b));
    }
  }

  /** Left distributivity. */
  lemma {:induction false} MulXorR(a: nat, b: nat, c: nat)
    ensures Mul(a, Xor(b, c)) == Xor(Mul(a, b), Mul(a, c))
  {
    hide Xor, Bit;
    if a == 0 {
      XorLaws(0, 0, 0);
    } else {
      MulXorR(a / 2, b, c);
      var p, q := 2 * Mul(a / 2, b), 2 * Mul(a / 2, c);
      XorDbl(Mul(a / 2, b), Mul(a / 2, c));
      if a % 2 == 1 { XorSwap(b, c, p, q); } else { XorLaws(p, q, 0); XorLaws(q, 0, 0); XorLaws(Xor(p, q), 0, 0); }
    }
  }

  lemma {:induction false} MulComm(a: nat, b: nat)
    ensures Mul(a, b) == Mul(b, a)
  {
    hide Xor, Bit;
    if a == 0 {
      MulZero(b);
    } else {
      var d := a % 2;
      MulComm(a / 2, b);
      MulDbl(b, a / 2);
      XorDbl(0, a / 2);
      XorLaws(a / 2, 0, 0);
      assert a == Xor(d, 2 * (a / 2)) by { XorLaws(d, 2 * (a / 2), 0); }
      MulXorR(b, d, 2 * (a / 2));
      MulOne(b);
      MulZero(b);
    }
  }

  /** Right distributivity. */
  lemma MulXorL(a: nat, b: nat, c: nat)
    ensures Mul(Xor(a, b), c) == Xor(Mul(a, c), Mul(b, c))
  {
    hide *;
    MulComm(Xor(a, b), c);
    MulXorR(c, a, b);
    MulComm(a, c);
    MulComm(b, c);
  }

  lemma {:induction false} MulAssoc(a: nat, b: nat, c: nat)
    ensures Mul(Mul(a, b), c) == Mul(a, Mul(b, c))
  {
    hide Xor, Bit;
    if a > 0 {
      MulAssoc(a / 2, b, c);
      var p := Mul(a / 2, b);
      MulXorL(if a % 2 == 1 then b else 0, 2 * p, c);
      MulComm(2 * p, c);
      MulDbl(c, p);
      MulComm(c, p);
      MulZero(c);
    } else {
      MulZero(c);
    }
  }

  lemma {:induction false} MulShl(a: nat, b: nat, k: nat)
    ensures Mul(Shl(a, k), b) == Shl(Mul(a, b), k)
    ensures Mul(b, Shl(a, k)) == Shl(Mul(b, a), k)
  {
    hide Xor, Bit;
    if k > 0 {
      MulShl(a, b, k - 1);
      MulDbl(b, Shl(a, k - 1));
      MulComm(b, 2 * Shl(a, k - 1));
      MulComm(b, Shl(a, k - 1));
    }
    MulComm(a, b);
    MulComm(Shl(a, k), b);
  }

  /** The degree of a product. */
  lemma {:induction false} MulFits(a: nat, b: nat, m: nat, n: nat)
    requires Fits(a, m) && Fits(b, n)
    ensures Fits(Mul(a, b), m + n)
  {
    hide RawBit, Bit, Xor;
    if a > 0 {
      if m == 0 { FitsPow2(a, 0); assert false; }
      Uncons(a);
      assert Fits(a / 2, m - 1) by { forall i: nat | Bit(a / 2, i) ensures i < m - 1 { assert Bit(a, i + 1); } }
      MulFits(a / 2, b, m - 1, n);
      var h := Mul(a / 2, b);
      assert Cons(false, h) == 2 * h;
      assert Fits(2 * h, m + n);
      assert Mul(a, b) == Xor(if a % 2 == 1 then b else 0, 2 * h);
    }
  }

  /** m is the degree of a. */
  ghost predicate Degree(a: nat, m: nat) {
    Bit(a, m) && Fits(a, m + 1)
  }

  /** Every polynomial but zero has a degree. */
  lemma DegreeExists(a: nat, n: nat) returns (m: nat)
    requires a != 0 && Fits(a, n)
    ensures m < n && Degree(a, m)
  {
    hide RawBit, Bit;
    if n == 0 {
      Ext(a, 0);
    } else if Bit(a, n - 1) {
      m := n - 1;
    } else {
      m := DegreeExists(a, n - 1);
    }
  }

  /** The degree of a product is the sum of the degrees. */
  lemma MulDegree(a: nat, b: nat, m: nat, n: nat)
    requires Degree(a, m) && Degree(b, n)
    ensures Degree(Mul(a, b), m + n)
  {
    hide RawBit, Bit, Xor, Mul, Shl, Low;
    var l := Low(a, m);
    Ext(a, Xor(l, X(m)));
    MulXorL(l, X(m), b);
    MulFitsTight(l, b, m, n);
    MulX(m, b);
    var p, q := Mul(l, b), Shl(b, m);
    assert Bit(q, m + n) && !Bit(p, m + n);
    forall i: nat | Bit(Xor(p, q), i) ensures i < m + n + 1 { assert Bit(p, i) || Bit(q, i); }
  }

  lemma MulX(m: nat, b: nat)
    ensures Mul(X(m), b) == Shl(b, m)
  {
    hide RawBit, Bit, Mul, Shl, X;
    assert Shl(1, m) == X(m) by {
      forall i: nat ensures Bit(1, i) == (i == 0) { OneBit(i); }
      Ext(Shl(1, m), X(m));
    }
    MulShl(1, b, m);
    MulOne(b);
  }

  lemma OneBit(i: nat)
    ensures Bit(1, i) == (i == 0)
  {
    Uncons(1);
  }

  /** Multiplying by a polynomial of degree at most n raises the degree by at most n. */
  lemma MulFitsTight(a: nat, b: nat, m: nat, n: nat)
    requires Fits(a, m) && Fits(b, n + 1)
    ensures Fits(Mul(a, b), m + n)
  {
    hide RawBit, Bit, Xor, Mul, Shl, Low;
    var k := Low(b, n);
    var t := if Bit(b, n) then X(n) else 0;
    Ext(b, Xor(k, t));
    MulXorR(a, k, t);
    MulFits(a, k, m, n);
    MulZero(a);
    MulX(n, a);
    MulComm(X(n), a);
    var p, q := Mul(a, k), Mul(a, t);
    forall i: nat | Bit(Xor(p, q), i) ensures i < m + n { assert Bit(p, i) || Bit(q, i); }
  }

  /** Freshman's dream: squaring is additive, because the cross terms cancel. */
  lemma SquareXor(a: nat, b: nat)
    ensures Mul(Xor(a, b), Xor(a, b)) == Xor(Mul(a, a), Mul(b, b))
  {
    hide *;
    MulXorL(a, b, Xor(a, b));
    MulXorR(a, a, b);
    MulXorR(b, a, b);
    MulComm(a, b);
    var p, q, m := Mul(a, a), Mul(b, b), Mul(a, b);
    XorLaws(m, q, 0);
    XorLaws(p, m, Xor(m, q));
  }

  // ----- The reference definition of the product

  /** The parity of the number of i < n with coefficient i of a and coefficient k - i of b set. */
  predicate Convolution(a: nat, b: nat, k: nat, n: nat) {
    n > 0 && (Convolution(a, b, k, n - 1) != (n - 1 <= k && Bit(a, n - 1) && Bit(b, k - (n - 1))))
  }

  lemma {:induction false} ConvolutionShift(a: nat, b: nat, k: nat, n: nat)
    ensures Convolution(a, b, k, n + 1) == ((Bit(a, 0) && Bit(b, k)) != (k > 0 && Convolution(a / 2, b, k - 1, n)))
  {
    Uncons(a);
    if n > 0 { ConvolutionShift(a, b, k, n - 1); }
  }

  /** Coefficient k of a product is the parity convolution of the coefficients of its factors. */
  lemma {:induction false} MulIsConvolution(a: nat, b: nat, k: nat, n: nat)
    requires k < n
    ensures Bit(Mul(a, b), k) == Convolution(a, b, k, n)
    decreases n
  {
    hide Xor;
    ConvolutionShift(a, b, k, n - 1);
    if k > 0 { MulIsConvolution(a / 2, b, k - 1, n - 1); }
    var h := Mul(a / 2, b);
    assert Cons(false, h) == 2 * h;
    XorLaws(2 * h, 0, 0);
  }
}
