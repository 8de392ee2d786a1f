/** Products and remainders.  `Times` and `Rem` name the two nonlinear operations, so that proofs can
    reason by the laws below alone. */
module Modular {
  function Times(x: nat, y: nat): nat { x * y }

  function Rem(x: nat, r: nat): (m: nat)
    requires r > 0
    ensures m < r
  {
    x % r
  }

  lemma TimesLaws(x: nat, y: nat, z: nat)
    ensures Times(x, y) == Times(y, x)
    ensures Times(Times(x, y), z) == Times(x, Times(y, z))
    ensures Times(1, x) == x && Times(x, 1) == x && Times(0, x) == 0 && Times(2, x) == x + x
    ensures Times(x, y + z) == Times(x, y) + Times(x, z)
  {
    assert (x * y) * z == x * (y * z);
    assert x * (y + z) == x * y + x * z;
  }

  lemma TimesSwap(a: nat, b: nat, c: nat, d: nat)
    ensures Times(Times(a, b), Times(c, d)) == Times(Times(a, c), Times(b, d))
  {
    hide *;
    TimesLaws(a, b, Times(c, d));
    TimesLaws(b, c, d);
    TimesLaws(c, b, d);
    TimesLaws(a, c, Times(b, d));
  }

  lemma DivModUnique(a: int, d: nat, q: int, m: nat)
    requires a == q * d + m && m < d
    ensures a / d == q && a % d == m
  {
    var q', m' := a / d, a % d;
    assert a == q' * d + m';
    SmallMultiple(q - q', d, m' - m);
  }

  lemma SmallMultiple(k: int, d: int, e: int)
    requires k * d == e && -d < e < d
    ensures k == 0
  {
    if k >= 1 { MulAtLeast(k, d); }
    if k <= -1 {
      assert (-k) * d == -e;
      MulAtLeast(-k, d);
    }
  }

  lemma MulAtLeast(k: int, d: int)
    requires k >= 1 && d >= 0
    ensures k * d >= d
  {
    assert k * d == (k - 1) * d + d;
  }

  lemma RemMultiple(x: nat, k: nat, r: nat)
    requires r > 0
    ensures Rem(x + Times(k, r), r) == Rem(x, r)
  {
    assert x + k * r == (x / r + k) * r + x % r;
    DivModUnique(x + k * r, r, x / r + k, x % r);
  }

  lemma RemSmall(x: nat, r: nat)
    requires x < r
    ensures Rem(x, r) == x
  {
  }

  lemma Quotient(x: nat, r: nat)
    requires r > 0
    ensures x == Times(x / r, r) + Rem(x, r)
  {
  }

  lemma RemTimes(x: nat, y: nat, r: nat)
    requires r > 0
    ensures Rem(Times(Rem(x, r), y), r) == Rem(Times(x, y), r)
    ensures Rem(Times(y, Rem(x, r)), r) == Rem(Times(x, y), r)
  {
    hide *;
    var q, m := x / r, Rem(x, r);
    Quotient(x, r);
    TimesLaws(y, Times(q, r), m);
    TimesLaws(y, q, r);
    TimesLaws(x, y, 0);
    TimesLaws(m, y, 0);
    RemMultiple(Times(m, y), Times(y, q), r);
  }

  lemma RemPlus(x: nat, y: nat, r: nat)
    requires r > 0
    ensures Rem(Rem(x, r) + y, r) == Rem(x + y, r)
  {
    hide *;
    Quotient(x, r);
    RemMultiple(Rem(x, r) + y, x / r, r);
  }

  /** l is the inverse of m modulo r. */
  predicate Inverses(l: nat, m: nat, r: nat)
    requires r > 0
  {
    Rem(Times(l, m), r) == Rem(1, r)
  }

  /** Multiplying by m and by its inverse are inverse permutations of the residues. */
  lemma InversePermutation(l: nat, m: nat, i: nat, p: nat, r: nat)
    requires i < r && p < r && Inverses(l, m, r)
    ensures Rem(Times(m, i), r) == p <==> i == Rem(Times(l, p), r)
  {
    hide Times, Rem;
    CancelInverse(l, m, i, r);
    TimesLaws(l, m, 0);
    CancelInverse(m, l, p, r);
  }

  lemma CancelInverse(l: nat, m: nat, i: nat, r: nat)
    requires i < r && Inverses(l, m, r)
    ensures Rem(Times(l, Rem(Times(m, i), r)), r) == i
  {
    hide Times, Rem;
    RemTimes(Times(m, i), l, r);
    TimesLaws(Times(m, i), l, 0);
    TimesLaws(l, m, i);
    RemTimes(Times(l, m), i, r);
    RemTimes(1, i, r);
    TimesLaws(i, 0, 0);
    RemSmall(i, r);
  }
}
