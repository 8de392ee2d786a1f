/** Powers a^(2^k) in R_r: repeated squaring, and the permutation of coefficients that computes it
    in one pass (Observation 1 of ePrint 2020/298). */
module Frobenius {
  import opened Bits
  import opened Poly
  import opened Ring
  import opened Modular

  /** k successive squarings. */
  function SqrN(a: nat, k: nat, r: nat): nat
    requires r > 0
  {
    if k == 0 then a else
    var b := SqrN(a, k - 1, r);
    RMul(b, b, r)
  }

  function Idx(l: nat, p: nat, r: nat): (i: nat)
    requires r > 0
    ensures i < r
  {
    Rem(Times(l, p), r)
  }

  /** The polynomial whose coefficient p, for p < n, is coefficient (l * p) mod r of a. */
  function Permute(a: nat, l: nat, r: nat, n: nat): (c: nat)
    requires r > 0
    ensures forall p: nat :: Bit(c, p) == (p < n && Bit(a, Idx(l, p, r)))
  {
    FromBits((p: nat) => Bit(a, Idx(l, p, r)), n)
  }

  /** The sum of x^((i * m) mod r) over the exponents i < n of a. */
  ghost function Spread(a: nat, m: nat, n: nat, r: nat): nat
    requires r > 0
  {
    if n == 0 then 0
    else Xor(Spread(a, m, n - 1, r), if Bit(a, n - 1) then X(Idx(m, n - 1, r)) else 0)
  }

  lemma {:induction false} MonomialMul(i: nat, j: nat)
    ensures Mul(X(i), X(j)) == X(i + j)
  {
    hide Mul;
    MulShl(1, X(j), i);
    MulOne(X(j));
    ShlShl(1, j, i);
  }

  lemma {:induction false} MonomialRed(i: nat, r: nat)
    requires r > 0
    ensures Red(X(i), r) == X(Rem(i, r))
  {
    hide RawBit, Bit, Red, Shl, X, Rem, Times;
    if i < r {
      RemSmall(i, r);
      RedFits(X(i), r);
    } else {
      Ext(Shl(X(i - r), r), X(i));
      RedShl(X(i - r), r);
      MonomialRed(i - r, r);
      RemMultiple(i - r, 1, r);
      TimesLaws(r, 0, 0);
    }
  }

  lemma IdxDouble(m: nat, i: nat, r: nat)
    requires r > 0
    ensures Rem(Idx(m, i, r) + Idx(m, i, r), r) == Idx(2 * m, i, r)
  {
    hide Times, Rem;
    TimesLaws(Idx(m, i, r), 0, 0);
    RemTimes(Times(m, i), 2, r);
    TimesLaws(Times(m, i), 2, 0);
    TimesLaws(2, m, i);
    TimesLaws(m, 0, 0);
  }

  lemma {:induction false} SpreadSquare(a: nat, m: nat, n: nat, r: nat)
    requires r > 0
    ensures RMul(Spread(a, m, n, r), Spread(a, m, n, r), r) == Spread(a, 2 * m, n, r)
  {
    hide Bit, Xor, Mul, Red, X, Idx, Rem, Times;
    if n == 0 {
      MulZero(0);
      RedFits(0, r);
      assert Fits(0, r);
    } else {
      SpreadSquare(a, m, n - 1, r);
      var s := Spread(a, m, n - 1, r);
      var j := Idx(m, n - 1, r);
      var t := if Bit(a, n - 1) then X(j) else 0;
      SquareXor(s, t);
      RedXor(Mul(s, s), Mul(t, t), r);
      if Bit(a, n - 1) {
        MonomialMul(j, j);
        MonomialRed(j + j, r);
        IdxDouble(m, n - 1, r);
      } else {
        MulZero(0);
        RedFits(0, r);
        assert Fits(0, r);
      }
    }
  }

  lemma {:induction false} SpreadOne(a: nat, n: nat, r: nat)
    requires n <= r && r > 0
    ensures Spread(a, 1, n, r) == Low(a, n)
  {
    hide Bit, Xor, Shl, Low;
    if n > 0 {
      SpreadOne(a, n - 1, r);
      TimesLaws(n - 1, 0, 0);
      RemSmall(n - 1, r);
      Ext(Spread(a, 1, n, r), Low(a, n));
    } else {
      Ext(Low(a, 0), 0);
    }
  }

  lemma {:induction false} SqrNIsSpread(a: nat, k: nat, r: nat)
    requires r > 0 && Fits(a, r)
    ensures SqrN(a, k, r) == Spread(a, Pow2(k), r, r)
  {
    hide Bit, RMul, Low, Spread;
    if k == 0 {
      SpreadOne(a, r, r);
      FitsPow2(a, r);
    } else {
      SqrNIsSpread(a, k - 1, r);
      SpreadSquare(a, Pow2(k - 1), r, r);
    }
  }

  lemma {:induction false} SpreadBit(a: nat, m: nat, l: nat, n: nat, p: nat, r: nat)
    requires r > 0 && n <= r && p < r
    requires Inverses(l, m, r)
    ensures Bit(Spread(a, m, n, r), p) == (Idx(l, p, r) < n && Bit(a, Idx(l, p, r)))
  {
    hide Xor, RawBit, Bit, X, Rem, Times;
    if n > 0 {
      SpreadBit(a, m, l, n - 1, p, r);
      InversePermutation(l, m, n - 1, p, r);
    }
  }

  lemma {:induction false} SpreadFits(a: nat, m: nat, n: nat, r: nat)
    requires r > 0
    ensures Fits(Spread(a, m, n, r), r)
  {
    hide Xor, RawBit, Bit, Shl;
    if n > 0 {
      SpreadFits(a, m, n - 1, r);
    }
  }

  /** k-squaring by permutation: whenever l is the inverse of 2^k modulo r, moving coefficient
      (l * p) mod r to p computes k squarings. */
  lemma PermuteIsSqrN(a: nat, k: nat, l: nat, r: nat)
    requires r > 0 && Fits(a, r)
    requires Inverses(l, Pow2(k), r)
    ensures Permute(a, l, r, r) == SqrN(a, k, r)
  {
    hide Bit, Permute, Spread, SqrN;
    SqrNIsSpread(a, k, r);
    SpreadFits(a, Pow2(k), r, r);
    forall p: nat ensures Bit(Permute(a, l, r, r), p) == Bit(Spread(a, Pow2(k), r, r), p) {
      if p < r { SpreadBit(a, Pow2(k), l, r, p, r); }
    }
    Ext(Permute(a, l, r, r), Spread(a, Pow2(k), r, r));
  }

  lemma {:induction false} SqrNIsRPow(a: nat, k: nat, r: nat)
    requires r > 0 && Fits(a, r)
    ensures SqrN(a, k, r) == RPow(a, Pow2(k), r)
  {
    hide RMul;
    if k == 0 {
      assert RPow(a, 1, r) == RMul(a, RPow(a, 0, r), r);
      RMulOne(a, r);
    } else {
      SqrNIsRPow(a, k - 1, r);
      RPowAdd(a, Pow2(k - 1), Pow2(k - 1), r);
    }
  }
}
