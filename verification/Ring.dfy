/** The ring R_r = GF(2)[x]/(x^r - 1) in which BIKE computes; over GF(2), x^r - 1 = x^r + 1.
    Its elements are the numbers of at most r bits. */
module Ring {
  import opened Bits
  import opened Poly
  import opened Modular

  /** a mod (x^r - 1): add up the r-bit blocks of a. */
  function Red(a: nat, r: nat): nat
    requires r > 0
  {
    if Shr(a, r) == 0 then a else Xor(Low(a, r), Red(Shr(a, r), r))
  }

  function RMul(a: nat, b: nat, r: nat): nat
    requires r > 0
  {
    Red(Mul(a, b), r)
  }

  function RPow(a: nat, n: nat, r: nat): nat
    requires r > 0
  {
    if n == 0 then 1 else RMul(a, RPow(a, n - 1, r), r)
  }

  /** One folding step cut to r bits: what the program's reduction computes of any number. */
  function Fold(a: nat, r: nat): (c: nat)
    ensures forall p: nat {:trigger Bit(c, p)} :: Bit(c, p) == (p < r && (Bit(a, p) != Bit(a, p + r)))
  {
    FoldBits(a, r);
    Xor(Low(a, r), Low(Shr(a, r), r))
  }

  lemma FoldBits(a: nat, r: nat)
    ensures var c := Xor(Low(a, r), Low(Shr(a, r), r));
            forall p: nat {:trigger Bit(c, p)} :: Bit(c, p) == (p < r && (Bit(a, p) != Bit(a, p + r)))
  {
    hide *;
  }

  /** The program's product, for operands that need not be reduced. */
  function FoldMul(a: nat, b: nat, r: nat): nat {
    Fold(Mul(a, b), r)
  }

  /** The modulus x^r + 1. */
  function Modulus(r: nat): nat {
    Xor(Shl(1, r), 1)
  }

  lemma {:induction false} RedFits(a: nat, r: nat)
    requires r > 0
    ensures Fits(Red(a, r), r)
    ensures Fits(a, r) ==> Red(a, r) == a
  {
    hide RawBit, Bit, Xor, Low, Shr;
    FitsPow2(a, r);
    if Shr(a, r) != 0 { RedFits(Shr(a, r), r); }
  }

  lemma {:induction false} RedXor(a: nat, b: nat, r: nat)
    requires r > 0
    ensures Red(Xor(a, b), r) == Xor(Red(a, r), Red(b, r))
    decreases a + b
  {
    hide RawBit, Bit, Xor, Low, Shr;
    if Shr(a, r) == 0 && Shr(b, r) == 0 {
      FitsPow2(a, r);
      FitsPow2(b, r);
      RedFits(Xor(a, b), r);
    } else {
      RedUnfold(a, r);
      RedUnfold(b, r);
      RedUnfold(Xor(a, b), r);
      RedXor(Shr(a, r), Shr(b, r), r);
      Ext(Shr(Xor(a, b), r), Xor(Shr(a, r), Shr(b, r)));
      Ext(Low(Xor(a, b), r), Xor(Low(a, r), Low(b, r)));
      XorSwap(Low(a, r), Red(Shr(a, r), r), Low(b, r), Red(Shr(b, r), r));
    }
  }

  /** One folding step, whether or not a is already reduced. */
  lemma RedUnfold(a: nat, r: nat)
    requires r > 0
    ensures Red(a, r) == Xor(Low(a, r), Red(Shr(a, r), r))
  {
    hide RawBit, Bit, Xor, Low, Shr;
    if Shr(a, r) == 0 {
      FitsPow2(a, r);
      FitsPow2(0, r);
      XorLaws(a, 0, 0);
      assert Fits(0, r);
      RedFits(0, r);
    }
  }

  /** x^r = 1. */
  lemma RedShl(a: nat, r: nat)
    requires r > 0
    ensures Red(Shl(a, r), r) == Red(a, r)
  {
    hide RawBit, Bit, Xor, Low, Shr, Shl, Red;
    RedUnfold(Shl(a, r), r);
    Ext(Shr(Shl(a, r), r), a);
    Ext(Low(Shl(a, r), r), 0);
    XorLaws(Red(a, r), 0, 0);
  }

  /** A product may be reduced before or after. */
  lemma {:induction false} RedMul(a: nat, b: nat, r: nat)
    requires r > 0
    ensures Red(Mul(Red(a, r), b), r) == Red(Mul(a, b), r)
    ensures Red(Mul(b, Red(a, r)), r) == Red(Mul(b, a), r)
    decreases a
  {
    hide RawBit, Bit, Xor, Low, Shr, Shl, Mul;
    if Shr(a, r) != 0 {
      var l, h := Low(a, r), Shr(a, r);
      RedMul(h, b, r);
      MulXorL(l, Red(h, r), b);
      RedXor(Mul(l, b), Mul(Red(h, r), b), r);
      Split(a, r);
      MulXorL(l, Shl(h, r), b);
      MulShl(h, b, r);
      RedXor(Mul(l, b), Shl(Mul(h, b), r), r);
      RedShl(Mul(h, b), r);
    }
    MulComm(Red(a, r), b);
    MulComm(a, b);
  }

  lemma RMulComm(a: nat, b: nat, r: nat)
    requires r > 0
    ensures RMul(a, b, r) == RMul(b, a, r)
  {
    hide Mul, Red;
    MulComm(a, b);
  }

  lemma RMulAssoc(a: nat, b: nat, c: nat, r: nat)
    requires r > 0
    ensures RMul(RMul(a, b, r), c, r) == RMul(a, RMul(b, c, r), r)
  {
    hide Mul, Red;
    RedMul(Mul(a, b), c, r);
    RedMul(Mul(b, c), a, r);
    MulAssoc(a, b, c);
  }

  lemma RMulXor(a: nat, b: nat, c: nat, r: nat)
    requires r > 0
    ensures RMul(a, Xor(b, c), r) == Xor(RMul(a, b, r), RMul(a, c, r))
    ensures RMul(Xor(b, c), a, r) == Xor(RMul(b, a, r), RMul(c, a, r))
  {
    hide Mul, Red, Xor;
    MulXorR(a, b, c);
    RedXor(Mul(a, b), Mul(a, c), r);
    MulXorL(b, c, a);
    RedXor(Mul(b, a), Mul(c, a), r);
  }

  lemma RMulOne(a: nat, r: nat)
    requires r > 0 && Fits(a, r)
    ensures RMul(a, 1, r) == a && RMul(1, a, r) == a
  {
    hide Mul, Red;
    MulOne(a);
    RedFits(a, r);
  }

  lemma RMulFits(a: nat, b: nat, r: nat)
    requires r > 0
    ensures Fits(RMul(a, b, r), r)
  {
    RedFits(Mul(a, b), r);
  }

  /** Up to degree 3r - 1, where the program's operands stay, one fold is the whole reduction exactly below
      degree 2r. */
  lemma FoldIsRed(a: nat, r: nat)
    requires r > 0 && Fits(a, 3 * r)
    ensures Fold(a, r) == Red(a, r) <==> Fits(a, 2 * r)
  {
    hide RawBit, Bit, Xor, Low, Shr, Red, Fold;
    RedTwice(a, r);
    XorIsSame(Fold(a, r), Shr(a, 2 * r));
    FitsPow2(a, 2 * r);
  }

  /** Two folding steps. */
  lemma RedTwice(a: nat, r: nat)
    requires r > 0 && Fits(a, 3 * r)
    ensures Red(a, r) == Xor(Fold(a, r), Shr(a, 2 * r))
  {
    hide RawBit, Bit, Xor, Low, Shr, Red, Fold;
    var h, t := Shr(a, r), Shr(a, 2 * r);
    RedUnfold(a, r);
    RedUnfold(h, r);
    Ext(Shr(h, r), t);
    FitsAfterShift(a, r);
    RedFits(t, r);
    FoldIs(a, r);
    XorLaws(Low(a, r), Low(h, r), t);
  }

  lemma FoldIs(a: nat, r: nat)
    ensures Fold(a, r) == Xor(Low(a, r), Low(Shr(a, r), r))
  {
    hide Xor, Low, Shr;
  }

  lemma FitsAfterShift(a: nat, r: nat)
    requires Fits(a, 3 * r)
    ensures Fits(Shr(a, 2 * r), r)
  {
    hide RawBit, Bit, Shr;
    forall i: nat | Bit(Shr(a, 2 * r), i) ensures i < r { assert Bit(a, i + 2 * r); }
  }

  lemma XorIsSame(a: nat, t: nat)
    ensures Xor(a, t) == a <==> t == 0
  {
    hide RawBit, Bit, Xor;
    XorLaws(a, t, 0);
    XorLaws(a, a, 0);
  }

  /** The program's product of operands of degrees m and n is the product of the ring exactly when m + n is below
      2r; the program's operands have at most QWords(r) words, so that m + n is below 3r. */
  lemma FoldMulExact(a: nat, b: nat, m: nat, n: nat, r: nat)
    requires r > 0 && Degree(a, m) && Degree(b, n) && m + n < 3 * r
    ensures FoldMul(a, b, r) == RMul(a, b, r) <==> m + n < 2 * r
  {
    hide RawBit, Bit, Mul, Fold, Red;
    MulDegree(a, b, m, n);
    FoldIsRed(Mul(a, b), r);
  }

  /** Products of monomials from degree 2r on are lost, though none is zero in the ring. */
  lemma FoldMulDrops(i: nat, j: nat, r: nat)
    requires r > 0 && 2 * r <= i + j < 3 * r
    ensures FoldMul(X(i), X(j), r) == 0 && RMul(X(i), X(j), r) == X(i + j - 2 * r)
  {
    hide RawBit, Bit, Xor, Mul, Fold, Red, Shl, X, Fits;
    var k := i + j - 2 * r;
    MulX(i, X(j));
    Ext(Shl(X(j), i), X(i + j));
    Ext(Fold(X(i + j), r), 0);
    Ext(Shl(Shl(X(k), r), r), X(i + j));
    RedShl(Shl(X(k), r), r);
    RedShl(X(k), r);
    XFits(k, r);
    RedFits(X(k), r);
  }

  lemma XFits(j: nat, n: nat)
    requires j < n
    ensures Fits(X(j), n)
  {
    hide RawBit, Bit, X;
  }

  /** On ring elements the program's product is the product of the ring. */
  lemma FoldMulIsRMul(a: nat, b: nat, r: nat)
    requires r > 0 && Fits(a, r) && Fits(b, r)
    ensures FoldMul(a, b, r) == RMul(a, b, r)
  {
    hide RawBit, Bit, Mul, Fold, Red, Fits, Degree;
    if a == 0 || b == 0 {
      MulZero(a);
      MulZero(b);
      FoldZero(r);
    } else {
      var m := DegreeExists(a, r);
      var n := DegreeExists(b, r);
      FoldMulExact(a, b, m, n, r);
    }
  }

  lemma FoldZero(r: nat)
    requires r > 0
    ensures Fold(0, r) == 0 == Red(0, r)
  {
    hide RawBit, Bit, Fold;
    Ext(Fold(0, r), 0);
    RedFits(0, r);
    assert Fits(0, r);
  }

  lemma FoldXor(a: nat, b: nat, r: nat)
    ensures Fold(Xor(a, b), r) == Xor(Fold(a, r), Fold(b, r))
  {
    hide RawBit, Bit, Xor, Fold;
    Ext(Fold(Xor(a, b), r), Xor(Fold(a, r), Fold(b, r)));
  }

  /** The program's product of any d with a ring element: the part of d past r contributes without wrapping. */
  lemma FoldMulSplit(d: nat, h: nat, r: nat)
    requires r > 0 && Fits(h, r)
    ensures FoldMul(d, h, r) == Xor(RMul(Low(d, r), h, r), Low(Mul(Shr(d, r), h), r))
  {
    hide RawBit, Bit, Xor, Mul, Fold, RMul, Low, Shr, Shl;
    var l, u := Low(d, r), Shr(d, r);
    Split(d, r);
    MulXorL(l, Shl(u, r), h);
    FoldXor(Mul(l, h), Mul(Shl(u, r), h), r);
    assert Fits(l, r);
    FoldMulIsRMul(l, h, r);
    MulShl(u, h, r);
    FoldShl(Mul(u, h), r);
  }

  lemma FoldShl(q: nat, r: nat)
    ensures Fold(Shl(q, r), r) == Low(q, r)
  {
    hide RawBit, Bit, Fold, Low, Shl;
    Ext(Fold(Shl(q, r), r), Low(q, r));
  }

  /** x^r + 1 times a ring element is zero for the program too. */
  lemma FoldMulModulus(h: nat, r: nat)
    requires r > 0 && Fits(h, r)
    ensures FoldMul(Modulus(r), h, r) == 0
  {
    hide RawBit, Bit, Xor, Mul, Fold, Shl;
    MulXorL(Shl(1, r), 1, h);
    MulShl(1, h, r);
    MulOne(h);
    Ext(Fold(Xor(Shl(h, r), h), r), 0);
  }

  lemma FoldMulFits(a: nat, b: nat, r: nat)
    ensures Fits(FoldMul(a, b, r), r)
  {
    hide RawBit, Bit, Mul;
    assert FoldMul(a, b, r) == Fold(Mul(a, b), r);
  }

  lemma OneFits(r: nat)
    requires r > 0
    ensures Fits(1, r)
  {
    FitsPow2(1, r);
  }

  lemma RPowFits(a: nat, n: nat, r: nat)
    requires r > 0
    ensures Fits(RPow(a, n, r), r)
  {
    if n == 0 { OneFits(r); } else { RMulFits(a, RPow(a, n - 1, r), r); }
  }

  lemma {:induction false} RPowAdd(a: nat, m: nat, n: nat, r: nat)
    requires r > 0
    ensures RPow(a, m + n, r) == RMul(RPow(a, m, r), RPow(a, n, r), r)
  {
    hide RMul;
    if m == 0 {
      RPowFits(a, n, r);
      RMulOne(RPow(a, n, r), r);
    } else {
      RPowAdd(a, m - 1, n, r);
      RMulAssoc(a, RPow(a, m - 1, r), RPow(a, n, r), r);
    }
  }

  lemma {:induction false} RPowMul(a: nat, m: nat, n: nat, r: nat)
    requires r > 0
    ensures RPow(RPow(a, m, r), n, r) == RPow(a, Times(m, n), r)
  {
    hide RMul, Times;
    if n == 0 {
      TimesLaws(m, 0, 0);
    } else {
      RPowMul(a, m, n - 1, r);
      TimesLaws(m, 1, n - 1);
      RPowAdd(a, m, Times(m, n - 1), r);
    }
  }

  // ----- Red is division with remainder

  lemma {:induction false} RedQuotient(a: nat, r: nat) returns (q: nat)
    requires r > 0
    ensures a == Xor(Red(a, r), Mul(q, Modulus(r)))
    decreases a
  {
    hide RawBit, Bit, Xor, Low, Shr, Shl, Mul;
    if Shr(a, r) == 0 {
      q := 0;
      MulZero(Modulus(r));
      XorLaws(a, 0, 0);
    } else {
      var l, h := Low(a, r), Shr(a, r);
      var q' := RedQuotient(h, r);
      q := Xor(q', h);
      MulXorL(q', h, Modulus(r));
      MulXorR(h, Shl(1, r), 1);
      MulShl(1, h, r);
      MulOne(h);
      Split(a, r);
      assert Mul(h, Modulus(r)) == Xor(Shl(h, r), h);
      var m, p := Mul(q', Modulus(r)), Red(h, r);
      Ext(Xor(Xor(l, p), Xor(m, Xor(Shl(h, r), h))), Xor(Xor(l, Shl(h, r)), Xor(h, Xor(p, m))));
      XorLaws(h, 0, 0);
      XorLaws(Xor(l, Shl(h, r)), 0, 0);
    }
  }

  /** `Red(a, r)` is the one polynomial of degree below r congruent to a modulo x^r - 1. */
  lemma RedIsRemainder(a: nat, c: nat, r: nat)
    requires r > 0
    ensures c == Red(a, r) <==> Fits(c, r) && exists q: nat :: a == Xor(c, Mul(q, Modulus(r)))
  {
    hide RawBit, Bit, Xor, Low, Shr, Shl, Mul, Red, Modulus;
    if c == Red(a, r) {
      RedFits(a, r);
      var q := RedQuotient(a, r);
    }
    if Fits(c, r) && exists q: nat :: a == Xor(c, Mul(q, Modulus(r))) {
      var q: nat :| a == Xor(c, Mul(q, Modulus(r)));
      RedXor(c, Mul(q, Modulus(r)), r);
      RedFits(c, r);
      RedModulus(q, r);
      XorLaws(c, 0, 0);
    }
  }

  lemma RedModulus(q: nat, r: nat)
    requires r > 0
    ensures Red(Mul(q, Modulus(r)), r) == 0
  {
    hide RawBit, Bit, Xor, Low, Shr, Shl, Mul, Red;
    MulXorR(q, Shl(1, r), 1);
    MulShl(1, q, r);
    MulOne(q);
    RedXor(Shl(q, r), q, r);
    RedShl(q, r);
    XorLaws(Red(q, r), 0, 0);
  }
}
