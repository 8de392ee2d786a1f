/** The two polynomial identities behind every Karatsuba step. */
module KaratsubaIdentity {
  import opened Bits
  import opened Poly

  /** lo + x^n * hi. */
  function Join(lo: nat, hi: nat, n: nat): (c: nat)
    ensures c == Xor(lo, Shl(hi, n))
  {
    Xor(lo, Shl(hi, n))
  }

  lemma ShlSum(a: nat, b: nat, c: nat, d: nat, k: nat)
    ensures Shl(Xor(Xor(Xor(a, b), c), d), k) == Xor(Xor(Xor(Shl(a, k), Shl(b, k)), Shl(c, k)), Shl(d, k))
  {
    hide *;
    ShlXor(a, b, k);
    ShlXor(Xor(a, b), c, k);
    ShlXor(Xor(Xor(a, b), c), d, k);
  }

  /** Three half-size products give the full product. */
  lemma ThreeProducts(al: nat, ah: nat, bl: nat, bh: nat, n: nat)
    ensures var l, h, m := Mul(al, bl), Mul(ah, bh), Mul(Xor(al, ah), Xor(bl, bh));
            Mul(Join(al, ah, n), Join(bl, bh, n)) == Join(Join(l, Xor(m, Xor(l, h)), n), h, 2 * n)
  {
    hide *;
    var l, h, m := Mul(al, bl), Mul(ah, bh), Mul(Xor(al, ah), Xor(bl, bh));
    var p, q := Mul(al, bh), Mul(ah, bl);
    CrossProducts(al, ah, bl, bh, n);
    MulXorL(al, ah, Xor(bl, bh));
    MulXorR(al, bl, bh);
    MulXorR(ah, bl, bh);
    Cancel(p, q, l, h);
    ShlXor(p, q, n);
    Regroup(l, Shl(p, n), Shl(q, n), Shl(h, 2 * n));
  }

  lemma CrossProducts(al: nat, ah: nat, bl: nat, bh: nat, n: nat)
    ensures Mul(Join(al, ah, n), Join(bl, bh, n)) ==
            Xor(Xor(Mul(al, bl), Shl(Mul(al, bh), n)), Xor(Shl(Mul(ah, bl), n), Shl(Mul(ah, bh), 2 * n)))
  {
    hide *;
    var b := Join(bl, bh, n);
    MulXorL(al, Shl(ah, n), b);
    MulXorR(al, bl, Shl(bh, n));
    MulShl(bh, al, n);
    MulShl(ah, b, n);
    MulXorR(ah, bl, Shl(bh, n));
    MulShl(bh, ah, n);
    ShlXor(Mul(ah, bl), Shl(Mul(ah, bh), n), n);
    ShlShl(Mul(ah, bh), n, n);
  }

  lemma Cancel(p: nat, q: nat, l: nat, h: nat)
    ensures Xor(Xor(Xor(l, p), Xor(q, h)), Xor(l, h)) == Xor(p, q)
  {
    hide RawBit, Bit, Xor;
    Ext(Xor(Xor(Xor(l, p), Xor(q, h)), Xor(l, h)), Xor(p, q));
  }

  lemma Regroup(l: nat, p: nat, q: nat, h: nat)
    ensures Xor(Xor(l, p), Xor(q, h)) == Xor(Xor(l, Xor(p, q)), h)
  {
    hide RawBit, Bit, Xor;
    Ext(Xor(Xor(l, p), Xor(q, h)), Xor(Xor(l, Xor(p, q)), h));
  }

  /** Assembling the result in four quarters: with t = l1 + h0, the middle quarters are
      t + l0 + m0 and t + m1 + h1. */
  lemma Quarters(l0: nat, l1: nat, h0: nat, h1: nat, m0: nat, m1: nat, n: nat)
    ensures var l, h, m, t := Join(l0, l1, n), Join(h0, h1, n), Join(m0, m1, n), Xor(l1, h0);
            Join(Join(l0, Xor(Xor(t, l0), m0), n), Join(Xor(Xor(t, m1), h1), h1, n), 2 * n)
            == Join(Join(l, Xor(m, Xor(l, h)), n), h, 2 * n)
  {
    hide *;
    var l, h, m, t := Join(l0, l1, n), Join(h0, h1, n), Join(m0, m1, n), Xor(l1, h0);
    ShlSum(l1, h0, l0, m0, n);
    ShlSum(l1, h0, m1, h1, 2 * n);
    ShlXor(Xor(Xor(t, m1), h1), Shl(h1, n), 2 * n);
    ShlShl(h1, n, 2 * n);
    ShlXor(m, Xor(l, h), n);
    ShlXor(l, h, n);
    ShlXor(m0, Shl(m1, n), n);
    ShlXor(l0, Shl(l1, n), n);
    ShlXor(h0, Shl(h1, n), n);
    ShlShl(m1, n, n);
    ShlShl(l1, n, n);
    ShlShl(h1, n, n);
    ShlXor(h0, Shl(h1, n), 2 * n);
    assert n + 2 * n == 3 * n;
    QuartersSum(l0, Shl(l0, n), Shl(l1, n), Shl(h0, n), Shl(m0, n), Shl(l1, 2 * n), Shl(h0, 2 * n), Shl(m1, 2 * n),
                Shl(h1, 2 * n), Shl(h1, 3 * n));
  }

  lemma QuartersSum(l0: nat, l0': nat, l1': nat, h0': nat, m0': nat, l1'': nat, h0'': nat, m1'': nat, h1'': nat,
                    h1''': nat)
    ensures Xor(Xor(l0, Xor(Xor(Xor(l1', h0'), l0'), m0')), Xor(Xor(Xor(Xor(l1'', h0''), m1''), h1''), h1'''))
            == Xor(Xor(Xor(l0, l1'), Xor(Xor(m0', m1''), Xor(Xor(l0', l1''), Xor(h0', h1'')))), Xor(h0'', h1'''))
  {
    hide RawBit, Bit, Xor;
    Ext(Xor(Xor(l0, Xor(Xor(Xor(l1', h0'), l0'), m0')), Xor(Xor(Xor(Xor(l1'', h0''), m1''), h1''), h1''')),
        Xor(Xor(Xor(l0, l1'), Xor(Xor(m0', m1''), Xor(Xor(l0', l1''), Xor(h0', h1'')))), Xor(h0'', h1''')));
  }

  /** The Karatsuba step as the program performs it: from the halves of the operands and the quarters
      of the three products to the four quarters of the result. */
  lemma KaratsubaStep(al: nat, ah: nat, bl: nat, bh: nat, l0: nat, l1: nat, h0: nat, h1: nat, m0: nat, m1: nat, n: nat)
    requires Join(l0, l1, n) == Mul(al, bl)
    requires Join(h0, h1, n) == Mul(ah, bh)
    requires Join(m0, m1, n) == Mul(Xor(al, ah), Xor(bl, bh))
    ensures var t := Xor(l1, h0);
            Join(Join(l0, Xor(Xor(t, l0), m0), n), Join(Xor(Xor(t, m1), h1), h1, n), 2 * n)
            == Mul(Join(al, ah, n), Join(bl, bh, n))
  {
    hide *;
    ThreeProducts(al, ah, bl, bh, n);
    Quarters(l0, l1, h0, h1, m0, m1, n);
  }
}
