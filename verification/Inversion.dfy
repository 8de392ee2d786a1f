/** The mathematics of Algorithm 2 of ePrint 2020/298: inversion in R_r as the power
    a^(2^(r-1) - 2), computed along the binary expansion of r - 2. */
module Inversion {
  import opened Bits
  import opened Ring
  import opened Modular
  import opened Frobenius
  import opened Params

  /** a^(2^s - 1). */
  function Ones(a: nat, s: nat, r: nat): nat
    requires r > 0
  {
    RPow(a, Pow2(s) - 1, r)
  }

  lemma OnesAdd(a: nat, s: nat, u: nat, r: nat)
    requires r > 0
    ensures RMul(SqrN(Ones(a, s, r), u, r), Ones(a, u, r), r) == Ones(a, s + u, r)
  {
    hide RMul, SqrN, RPow, Times, Pow2;
    var n := Pow2(s) - 1;
    RPowFits(a, n, r);
    SqrNIsRPow(Ones(a, s, r), u, r);
    RPowMul(a, n, Pow2(u), r);
    RPowAdd(a, Times(n, Pow2(u)), Pow2(u) - 1, r);
    PowAdd(s, u);
    TimesLaws(Pow2(u), n, 1);
    TimesLaws(n, Pow2(u), 0);
    TimesLaws(Pow2(s), Pow2(u), 0);
  }

  lemma OnesOne(a: nat, r: nat)
    requires r > 0 && Fits(a, r)
    ensures Ones(a, 1, r) == a
  {
    assert RPow(a, 1, r) == RMul(a, RPow(a, 0, r), r);
    RMulOne(a, r);
  }

  /** The result of the inversion: a^(2^(r-1) - 2). */
  function Inverse(a: nat, r: nat): nat
    requires r > 1
  {
    RPow(a, Pow2(r - 1) - 2, r)
  }

  lemma InverseFromOnes(a: nat, r: nat)
    requires r > 2
    ensures RMul(Ones(a, r - 2, r), Ones(a, r - 2, r), r) == Inverse(a, r)
  {
    hide RMul, RPow;
    RPowAdd(a, Pow2(r - 2) - 1, Pow2(r - 2) - 1, r);
  }

  /** l is the inverse of 2^k modulo r. */
  predicate InversePair(k: nat, l: nat, r: nat)
    requires r > 0
  {
    Inverses(l, Pow2(k), r)
  }

  lemma InversePairAdd(k: nat, l: nat, k': nat, l': nat, k'': nat, l'': nat, r: nat)
    requires r > 0 && InversePair(k, l, r) && InversePair(k', l', r)
    requires k'' == k + k' && l'' == (l * l') % r
    ensures InversePair(k'', l'', r)
  {
    hide Pow2, Rem, Times;
    var m, m' := Pow2(k), Pow2(k');
    assert Pow2(k'') == Times(m, m') by { PowAdd(k, k'); }
    assert l'' == Rem(Times(l, l'), r) by { RemTimesDef(l, l', r); }
    RemTimes(Times(l, l'), Times(m, m'), r);
    TimesSwap(l, l', m, m');
    RemTimes(Times(l, m), Times(l', m'), r);
    RemTimes(1, Times(l', m'), r);
    TimesLaws(Times(l', m'), 0, 0);
  }

  lemma PowAdd(k: nat, k': nat)
    ensures Pow2(k + k') == Times(Pow2(k), Pow2(k'))
  {
    Pow2Add(k, k');
  }

  lemma RemTimesDef(l: nat, l': nat, r: nat)
    requires r > 0
    ensures (l * l') % r == Rem(Times(l, l'), r)
  {
  }

  /** When 2^(r-1) = 1 modulo r (for a prime r this is Fermat's little theorem), r - 1 squarings are the
      identity. */
  lemma SqrNIdentity(a: nat, r: nat)
    requires r > 1 && Fits(a, r) && InversePair(r - 1, 1, r)
    ensures SqrN(a, r - 1, r) == a
  {
    hide SqrN, RawBit, Bit, Permute, Times, Rem;
    PermuteIsSqrN(a, r - 1, 1, r);
    forall p: nat | p < r ensures Idx(1, p, r) == p {
      TimesLaws(p, 0, 0);
      RemSmall(p, r);
    }
    Ext(Permute(a, 1, r, r), a);
  }

  /** a * a * Inverse(a) = a for every a, unit or not. */
  lemma InverseWeak(a: nat, r: nat)
    requires r > 1 && Fits(a, r) && InversePair(r - 1, 1, r)
    ensures RMul(a, RMul(a, Inverse(a, r), r), r) == a
  {
    hide RMul, SqrN;
    SqrNIdentity(a, r);
    SqrNIsRPow(a, r - 1, r);
    var n := Pow2(r - 1);
    assert n >= 2;
    assert RPow(a, n, r) == RMul(a, RPow(a, n - 1, r), r);
    assert RPow(a, n - 1, r) == RMul(a, RPow(a, n - 2, r), r);
  }

  /** Inverse(a) inverts a if and only if anything does, and it is then the only inverse. */
  lemma InverseOfUnit(a: nat, b: nat, r: nat)
    requires r > 1 && Fits(a, r) && Fits(b, r) && InversePair(r - 1, 1, r)
    ensures RMul(a, b, r) == 1 <==> RMul(a, Inverse(a, r), r) == 1 && b == Inverse(a, r)
  {
    hide RMul, RPow;
    var c := Inverse(a, r);
    RPowFits(a, Pow2(r - 1) - 2, r);
    if RMul(a, b, r) == 1 {
      InverseWeak(a, r);
      var u := RMul(a, c, r);
      // u = (a*u)*b = a*b = 1
      RMulComm(a, b, r);
      RMulAssoc(b, a, u, r);
      RMulFits(a, c, r);
      RMulOne(u, r);
      assert u == 1;
      // b = b*(a*c) = (b*a)*c = c
      RMulAssoc(b, a, c, r);
      RMulOne(b, r);
      RMulOne(c, r);
    }
  }

  // ----- The exponent tables

  function MaxI(level: Level): nat {
    match level case Level1 => 14 case Level3 => 15 case Level5 => 16
  }

  function Exp0K(level: Level): seq<nat> {
    match level
    case Level1 => [1, 2, 4, 8, 16, 32, 64, 128, 256, 512, 1024, 2048, 4096, 8192]
    case Level3 => [1, 2, 4, 8, 16, 32, 64, 128, 256, 512, 1024, 2048, 4096, 8192, 16384]
    case Level5 => [1, 2, 4, 8, 16, 32, 64, 128, 256, 512, 1024, 2048, 4096, 8192, 16384, 32768]
  }

  function Exp0L(level: Level): seq<nat> {
    match level
    case Level1 => [6162, 3081, 3851, 5632, 22, 484, 119, 1838, 1742, 3106, 10650, 1608, 10157, 8816]
    case Level3 => [12330, 6165, 7706, 3564, 2711, 1139, 15053, 1258, 4388, 20524, 9538, 6393, 10486, 1715, 6804]
    case Level5 => [20487, 30730, 28169, 9443, 13001, 12376, 8302, 6618, 38760, 21582, 1660, 10409, 14669, 30338,
                    17745, 7520]
  }

  function Exp1K(level: Level): seq<nat> {
    match level
    case Level1 => [0, 0, 0, 0, 0, 1, 0, 0, 0, 0, 0, 0, 33, 4129]
    case Level3 => [0, 0, 0, 0, 1, 0, 17, 0, 0, 0, 0, 0, 0, 81, 8273]
    case Level5 => [0, 1, 0, 3, 0, 0, 0, 0, 0, 0, 0, 0, 0, 11, 0, 8203]
  }

  function Exp1L(level: Level): seq<nat> {
    match level
    case Level1 => [0, 0, 0, 0, 0, 6162, 0, 0, 0, 0, 0, 0, 242, 5717]
    case Level3 => [0, 0, 0, 0, 12330, 0, 13685, 0, 0, 0, 0, 0, 0, 23678, 19056]
    case Level5 => [0, 20487, 0, 15365, 0, 0, 0, 0, 0, 0, 0, 0, 0, 6302, 0, 10058]
  }

  /** The exponent r - 2 below bit i. */
  function Exponent(level: Level, i: nat): nat {
    (level.R() - 2) % Pow2(i)
  }

  /** What iteration i of the inversion needs of row i of the tables: row i of the first pair of
      tables is (2^i, its inverse), and row i of the second is ((r - 2) mod 2^i, its inverse) when
      bit i of r - 2 is set and zero when it is not. */
  ghost predicate TableRow(level: Level, i: nat)
    requires i < MaxI(level)
  {
    var r := level.R();
    && Exp0K(level)[i] == Pow2(i)
    && Exp0L(level)[i] < r && InversePair(Exp0K(level)[i], Exp0L(level)[i], r)
    && (i > 0 ==> Exponent(level, i + 1) == Exponent(level, i) + (if Exp1K(level)[i] != 0 then Pow2(i) else 0))
    && (Exp1K(level)[i] != 0 ==> Exp1K(level)[i] == Exponent(level, i))
    && Exp1L(level)[i] < r
    && (Exp1K(level)[i] != 0 ==> InversePair(Exp1K(level)[i], Exp1L(level)[i], r))
  }
}
