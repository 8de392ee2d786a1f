/** The CLMUL base multiplier: 512x512 bits through two Karatsuba levels above a 2x2 one.  A 128-bit
    register is a pair of words, and the carry-less multiply instruction is the specified 64x64 product. */
module MulBasePclmul {
  import opened Bits
  import opened Poly
  import opened Words
  import opened KaratsubaIdentity

  datatype Xmm = Xmm(lo: Word, hi: Word)

  function XVal(x: Xmm): nat {
    Join(x.lo, x.hi, 64)
  }

  function XXor(x: Xmm, y: Xmm): (z: Xmm)
    ensures z.lo == Xor(x.lo, y.lo) && z.hi == Xor(x.hi, y.hi)
  {
    Xmm(WXor(x.lo, y.lo), WXor(x.hi, y.hi))
  }

  /** UNPACKLO, UNPACKHI, BSRLI(x, 8) and BSLLI(x, 8). */
  function UnpackLo(x: Xmm, y: Xmm): Xmm { Xmm(x.lo, y.lo) }

  function UnpackHi(x: Xmm, y: Xmm): Xmm { Xmm(x.hi, y.hi) }

  function Bsrli8(x: Xmm): Xmm { Xmm(x.hi, 0) }

  function Bslli8(x: Xmm): Xmm { Xmm(0, x.lo) }

  /** The instruction with immediate 0x00 (low words) or 0x11 (high words). */
  function Clmul(x: Xmm, y: Xmm, high: bool): (z: Xmm)
    ensures XVal(z) == if high then Mul(x.hi, y.hi) else Mul(x.lo, y.lo)
  {
    var p := if high then Mul(x.hi, y.hi) else Mul(x.lo, y.lo);
    ProductSplits(if high then x.hi else x.lo, if high then y.hi else y.lo);
    Xmm(Low(p, 64), Shr(p, 64))
  }

  lemma ProductSplits(a: Word, b: Word)
    ensures Low(Mul(a, b), 64) < TWO64 && Shr(Mul(a, b), 64) < TWO64
    ensures Mul(a, b) == Join(Low(Mul(a, b), 64), Shr(Mul(a, b), 64), 64)
  {
    hide RawBit, Bit, Xor, Mul, Low, Shl, Shr, Pow2;
    var p := Mul(a, b);
    WordFits(a);
    WordFits(b);
    MulFits(a, b, 64, 64);
    WordFits(Low(p, 64));
    assert Fits(Shr(p, 64), 64) by {
      forall i: nat | Bit(Shr(p, 64), i) ensures i < 64 { assert Bit(p, i + 64); }
    }
    WordFits(Shr(p, 64));
    Split(p, 64);
  }

  lemma XXorVal(x: Xmm, y: Xmm)
    ensures XVal(XXor(x, y)) == Xor(XVal(x), XVal(y))
  {
    hide RawBit, Bit, Xor, Shl, WXor, Join;
    ShlXor(x.hi, y.hi, 64);
    XorSwap(x.lo, y.lo, Shl(x.hi, 64), Shl(y.hi, 64));
  }

  /** One 2x2 product from three CLMULs. */
  lemma TwoByTwo(a: Xmm, b: Xmm, t0: Xmm, t1: Xmm, t4: Xmm)
    requires XVal(t0) == Mul(a.lo, b.lo) && XVal(t1) == Mul(a.hi, b.hi)
    requires XVal(t4) == Mul(Xor(a.lo, a.hi), Xor(b.lo, b.hi))
    ensures var m := XXor(t4, XXor(t0, t1));
            Join(XVal(XXor(t0, Bslli8(m))), XVal(XXor(t1, Bsrli8(m))), 128) == Mul(XVal(a), XVal(b))
  {
    hide RawBit, Bit, Xor, Shl, WXor, Mul, XXor, Join;
    var m := XXor(t4, XXor(t0, t1));
    XXorVal(t0, t1);
    XXorVal(t4, XXor(t0, t1));
    XXorVal(t0, Bslli8(m));
    XXorVal(t1, Bsrli8(m));
    ThreeProducts(a.lo, a.hi, b.lo, b.hi, 64);
    ShiftedMiddle(XVal(t0), XVal(t1), m);
  }

  lemma ShiftedMiddle(p: nat, q: nat, m: Xmm)
    ensures Join(Xor(p, XVal(Bslli8(m))), Xor(q, XVal(Bsrli8(m))), 128) == Join(Join(p, XVal(m), 64), q, 128)
  {
    hide RawBit, Bit, Xor, Shl;
    XorLaws(Shl(m.lo, 64), 0, 0);
    XorLaws(m.hi, 0, 0);
    assert Shl(0, 64) == 0 by { Ext(Shl(0, 64), 0); }
    ShlXor(q, m.hi, 128);
    ShlXor(m.lo, Shl(m.hi, 64), 64);
    ShlShl(m.hi, 64, 64);
    Shuffle(p, Shl(m.lo, 64), Shl(q, 128), Shl(m.hi, 128));
  }

  lemma Shuffle(p: nat, a: nat, q: nat, b: nat)
    ensures Xor(Xor(p, a), Xor(q, b)) == Xor(Xor(p, Xor(a, b)), q)
  {
    hide RawBit, Bit, Xor;
    Ext(Xor(Xor(p, a), Xor(q, b)), Xor(Xor(p, Xor(a, b)), q));
  }

  /** The 512-bit polynomial of four registers. */
  function Val4(c: (Xmm, Xmm, Xmm, Xmm)): nat {
    Join(Join(XVal(c.0), XVal(c.1), 128), Join(XVal(c.2), XVal(c.3), 128), 256)
  }

  /** gf2x_mul4_int: a 4x4 Karatsuba multiplication with nine carry-less products. */
  function Mul4Int(aLo: Xmm, aHi: Xmm, bLo: Xmm, bHi: Xmm): (Xmm, Xmm, Xmm, Xmm) {
    var aa := XXor(aLo, aHi);
    var bb := XXor(bLo, bHi);
    var xx := XXor(UnpackLo(aLo, aHi), UnpackHi(aLo, aHi));
    var yy := XXor(UnpackLo(bLo, bHi), UnpackHi(bLo, bHi));
    var uu := XXor(aa, Bsrli8(aa));
    var vv := XXor(bb, Bsrli8(bb));
    Combine(Clmul(aLo, bLo, false), Clmul(aLo, bLo, true), Clmul(aHi, bHi, false), Clmul(aHi, bHi, true),
            Clmul(xx, yy, false), Clmul(xx, yy, true), Clmul(aa, bb, false), Clmul(aa, bb, true),
            Clmul(uu, vv, false))
  }

  /** The additions at its end, on the nine products t[0], .., t[8]. */
  function Combine(t0: Xmm, t1: Xmm, t2: Xmm, t3: Xmm, t4: Xmm, t5: Xmm, t6: Xmm, t7: Xmm, t8: Xmm)
    : (Xmm, Xmm, Xmm, Xmm)
  {
    var t4 := XXor(t4, XXor(t0, t1));
    var t5 := XXor(t5, XXor(t2, t3));
    var t8 := XXor(t8, XXor(t6, t7));
    var lo0 := XXor(t0, Bslli8(t4));
    var lo1 := XXor(t1, Bsrli8(t4));
    var hi0 := XXor(t2, Bslli8(t5));
    var hi1 := XXor(t3, Bsrli8(t5));
    var mi0 := XXor(t6, Bslli8(t8));
    var mi1 := XXor(t7, Bsrli8(t8));
    var m := XXor(lo1, hi0);
    (lo0, XXor(XXor(lo0, mi0), m), XXor(XXor(hi1, mi1), m), hi1)
  }

  /** The four registers c hold the product of the two-register operands. */
  ghost predicate IsProduct(c: (Xmm, Xmm, Xmm, Xmm), aLo: Xmm, aHi: Xmm, bLo: Xmm, bHi: Xmm) {
    Val4(c) == Mul(Join(XVal(aLo), XVal(aHi), 128), Join(XVal(bLo), XVal(bHi), 128))
  }

  lemma Mul4IntCorrect(aLo: Xmm, aHi: Xmm, bLo: Xmm, bHi: Xmm)
    ensures IsProduct(Mul4Int(aLo, aHi, bLo, bHi), aLo, aHi, bLo, bHi)
  {
    hide RawBit, Bit, Xor, Shl, WXor, Mul, Join, Clmul, XVal, XXor, Val4, Low, Shr, Combine;
    var aa := XXor(aLo, aHi);
    var bb := XXor(bLo, bHi);
    var xx := XXor(UnpackLo(aLo, aHi), UnpackHi(aLo, aHi));
    var yy := XXor(UnpackLo(bLo, bHi), UnpackHi(bLo, bHi));
    var uu := XXor(aa, Bsrli8(aa));
    var vv := XXor(bb, Bsrli8(bb));
    XXorVal(aLo, aHi);
    XXorVal(bLo, bHi);
    CombineCorrect(aLo, aHi, bLo, bHi, aa, bb,
                   Clmul(aLo, bLo, false), Clmul(aLo, bLo, true), Clmul(aHi, bHi, false), Clmul(aHi, bHi, true),
                   Clmul(xx, yy, false), Clmul(xx, yy, true), Clmul(aa, bb, false), Clmul(aa, bb, true),
                   Clmul(uu, vv, false));
  }

  lemma CombineCorrect(aLo: Xmm, aHi: Xmm, bLo: Xmm, bHi: Xmm, aa: Xmm, bb: Xmm,
                       t0: Xmm, t1: Xmm, t2: Xmm, t3: Xmm, t4: Xmm, t5: Xmm, t6: Xmm, t7: Xmm, t8: Xmm)
    requires XVal(aa) == Xor(XVal(aLo), XVal(aHi)) && XVal(bb) == Xor(XVal(bLo), XVal(bHi))
    requires XVal(t0) == Mul(aLo.lo, bLo.lo) && XVal(t1) == Mul(aLo.hi, bLo.hi)
    requires XVal(t2) == Mul(aHi.lo, bHi.lo) && XVal(t3) == Mul(aHi.hi, bHi.hi)
    requires XVal(t6) == Mul(aa.lo, bb.lo) && XVal(t7) == Mul(aa.hi, bb.hi)
    requires XVal(t4) == Mul(Xor(aLo.lo, aLo.hi), Xor(bLo.lo, bLo.hi))
    requires XVal(t5) == Mul(Xor(aHi.lo, aHi.hi), Xor(bHi.lo, bHi.hi))
    requires XVal(t8) == Mul(Xor(aa.lo, aa.hi), Xor(bb.lo, bb.hi))
    ensures IsProduct(Combine(t0, t1, t2, t3, t4, t5, t6, t7, t8), aLo, aHi, bLo, bHi)
  {
    hide RawBit, Bit, Xor, Shl, WXor, Mul, Join, XVal, XXor;
    TwoByTwo(aLo, bLo, t0, t1, t4);
    TwoByTwo(aHi, bHi, t2, t3, t5);
    TwoByTwo(aa, bb, t6, t7, t8);
    var t4', t5', t8' := XXor(t4, XXor(t0, t1)), XXor(t5, XXor(t2, t3)), XXor(t8, XXor(t6, t7));
    var lo0, lo1, hi0 := XXor(t0, Bslli8(t4')), XXor(t1, Bsrli8(t4')), XXor(t2, Bslli8(t5'));
    var hi1, mi0, mi1 := XXor(t3, Bsrli8(t5')), XXor(t6, Bslli8(t8')), XXor(t7, Bsrli8(t8'));
    var m := XXor(lo1, hi0);
    XXorVal(lo1, hi0);
    XXorVal(lo0, mi0);
    XXorVal(XXor(lo0, mi0), m);
    XXorVal(hi1, mi1);
    XXorVal(XXor(hi1, mi1), m);
    var t := XVal(m);
    Rotate3(XVal(lo0), XVal(mi0), t);
    Rotate3(XVal(hi1), XVal(mi1), t);
    KaratsubaStep(XVal(aLo), XVal(aHi), XVal(bLo), XVal(bHi), XVal(lo0), XVal(lo1), XVal(hi0), XVal(hi1),
                  XVal(mi0), XVal(mi1), 128);
  }

  lemma Rotate3(a: nat, b: nat, t: nat)
    ensures Xor(Xor(a, b), t) == Xor(Xor(t, a), b) && Xor(Xor(a, b), t) == Xor(Xor(t, b), a)
  {
    hide RawBit, Bit, Xor;
    Ext(Xor(Xor(a, b), t), Xor(Xor(t, a), b));
    Ext(Xor(Xor(a, b), t), Xor(Xor(t, b), a));
  }

  function Load128(s: seq<Word>, i: nat): (x: Xmm)
    requires i + 2 <= |s|
    ensures x == Xmm(s[i], s[i + 1])
  {
    Xmm(s[i], s[i + 1])
  }

  /** The eight words of an operand, register by register. */
  lemma Load8(s: seq<Word>)
    requires |s| == 8
    ensures Val(s) == Val4((Load128(s, 0), Load128(s, 2), Load128(s, 4), Load128(s, 6)))
  {
    hide *;
    ValSplit(s, 4);
    Load4(s[..4]);
    Load4(s[4..]);
    Load8Def(s);
  }

  lemma Load8Def(s: seq<Word>)
    requires |s| == 8
    ensures Val4((Load128(s, 0), Load128(s, 2), Load128(s, 4), Load128(s, 6)))
         == Join(Join(XVal(Load128(s[..4], 0)), XVal(Load128(s[..4], 2)), 128),
                 Join(XVal(Load128(s[4..], 0)), XVal(Load128(s[4..], 2)), 128), 256)
  {
    hide Join;
  }

  lemma Load4(s: seq<Word>)
    requires |s| == 4
    ensures Val(s) == Join(XVal(Load128(s, 0)), XVal(Load128(s, 2)), 128)
  {
    hide Val, Bit, Xor, Shl, Join;
    ValSplit(s, 2);
    Load2(s[..2]);
    Load2(s[2..]);
  }

  lemma Load2(s: seq<Word>)
    requires |s| == 2
    ensures Val(s) == Join(s[0], s[1], 64)
  {
    hide Val, Bit, Xor, Shl, Join;
    ValSplit(s, 1);
    ValOne(s[..1]);
    ValOne(s[1..]);
  }

  lemma JoinXor(a: nat, b: nat, c: nat, d: nat, n: nat)
    ensures Join(Xor(a, b), Xor(c, d), n) == Xor(Join(a, c, n), Join(b, d, n))
  {
    hide *;
    ShlXor(c, d, n);
    XorSwap(a, b, Shl(c, n), Shl(d, n));
  }

  /** The registers that the 8x8 multiplier stores, from its three 4x4 products. */
  function Stored(lo: (Xmm, Xmm, Xmm, Xmm), hi: (Xmm, Xmm, Xmm, Xmm), mi: (Xmm, Xmm, Xmm, Xmm)): (c: seq<Xmm>)
    ensures |c| == 8
  {
    var m0, m1 := XXor(lo.2, hi.0), XXor(lo.3, hi.1);
    [lo.0, lo.1, XXor(XXor(mi.0, lo.0), m0), XXor(XXor(mi.1, lo.1), m1),
     XXor(XXor(mi.2, hi.2), m0), XXor(XXor(mi.3, hi.3), m1), hi.2, hi.3]
  }

  /** The 1024-bit polynomial of eight registers. */
  function Val8(c: seq<Xmm>): nat
    requires |c| == 8
  {
    Join(Val4((c[0], c[1], c[2], c[3])), Val4((c[4], c[5], c[6], c[7])), 512)
  }

  lemma QuarterXor(p0: Xmm, p1: Xmm, q0: Xmm, q1: Xmm, m0: Xmm, m1: Xmm)
    ensures Join(XVal(XXor(XXor(p0, q0), m0)), XVal(XXor(XXor(p1, q1), m1)), 128)
         == Xor(Xor(Join(XVal(p0), XVal(p1), 128), Join(XVal(q0), XVal(q1), 128)), Join(XVal(m0), XVal(m1), 128))
  {
    hide *;
    XXorVal(p0, q0);
    XXorVal(XXor(p0, q0), m0);
    XXorVal(p1, q1);
    XXorVal(XXor(p1, q1), m1);
    JoinXor(XVal(p0), XVal(q0), XVal(p1), XVal(q1), 128);
    JoinXor(Xor(XVal(p0), XVal(q0)), XVal(m0), Xor(XVal(p1), XVal(q1)), XVal(m1), 128);
  }

  lemma StoredCorrect(al: nat, ah: nat, bl: nat, bh: nat,
                      lo: (Xmm, Xmm, Xmm, Xmm), hi: (Xmm, Xmm, Xmm, Xmm), mi: (Xmm, Xmm, Xmm, Xmm))
    requires Val4(lo) == Mul(al, bl) && Val4(hi) == Mul(ah, bh) && Val4(mi) == Mul(Xor(al, ah), Xor(bl, bh))
    ensures Val8(Stored(lo, hi, mi)) == Mul(Join(al, ah, 256), Join(bl, bh, 256))
  {
    hide RawBit, Bit, Xor, Shl, WXor, Mul, Join, XVal, XXor;
    var l0, l1 := Join(XVal(lo.0), XVal(lo.1), 128), Join(XVal(lo.2), XVal(lo.3), 128);
    var h0, h1 := Join(XVal(hi.0), XVal(hi.1), 128), Join(XVal(hi.2), XVal(hi.3), 128);
    var m0, m1 := Join(XVal(mi.0), XVal(mi.1), 128), Join(XVal(mi.2), XVal(mi.3), 128);
    var t0, t1 := XXor(lo.2, hi.0), XXor(lo.3, hi.1);
    XXorVal(lo.2, hi.0);
    XXorVal(lo.3, hi.1);
    JoinXor(XVal(lo.2), XVal(hi.0), XVal(lo.3), XVal(hi.1), 128);
    QuarterXor(mi.0, mi.1, lo.0, lo.1, t0, t1);
    QuarterXor(mi.2, mi.3, hi.2, hi.3, t0, t1);
    var t := Xor(l1, h0);
    XorLaws(m0, l0, 0);
    Rotate3(l0, m0, t);
    Rotate3(m1, h1, t);
    KaratsubaStep(al, ah, bl, bh, l0, l1, h0, h1, m0, m1, 256);
  }

  /** The 4x4 product of two 256-bit halves given as register pairs. */
  lemma Mul4Value(aLo: Xmm, aHi: Xmm, bLo: Xmm, bHi: Xmm)
    ensures Val4(Mul4Int(aLo, aHi, bLo, bHi)) == Mul(Reg2(aLo, aHi), Reg2(bLo, bHi))
  {
    hide RawBit, Bit, Xor, Shl, WXor, Mul, Join, XVal, XXor, Mul4Int, Val4;
    Mul4IntCorrect(aLo, aHi, bLo, bHi);
  }

  function Reg2(x: Xmm, y: Xmm): nat {
    Join(XVal(x), XVal(y), 128)
  }

  function Load(a: array<Word>, i: nat): (x: Xmm)
    requires i + 2 <= a.Length
    reads a
    ensures x == Xmm(a[i], a[i + 1])
  {
    Xmm(a[i], a[i + 1])
  }

  /** The 8x8 product, from the registers of the operands to the stored registers. */
  lemma Product8(sa: seq<Word>, sb: seq<Word>, va0: Xmm, va1: Xmm, va2: Xmm, va3: Xmm, vb0: Xmm, vb1: Xmm, vb2: Xmm,
                 vb3: Xmm)
    requires |sa| == |sb| == 8
    requires [va0, va1, va2, va3] == [Load128(sa, 0), Load128(sa, 2), Load128(sa, 4), Load128(sa, 6)]
    requires [vb0, vb1, vb2, vb3] == [Load128(sb, 0), Load128(sb, 2), Load128(sb, 4), Load128(sb, 6)]
    ensures var r := Stored(Mul4Int(va0, va1, vb0, vb1), Mul4Int(va2, va3, vb2, vb3),
                            Mul4Int(XXor(va0, va2), XXor(va1, va3), XXor(vb0, vb2), XXor(vb1, vb3)));
            Val8(r) == Mul(Val(sa), Val(sb))
  {
    hide RawBit, Bit, Xor, Shl, WXor, Mul, Join, XVal, XXor, Mul4Int, Stored, Val8, Val;
    var al, ah, bl, bh := Reg2(va0, va1), Reg2(va2, va3), Reg2(vb0, vb1), Reg2(vb2, vb3);
    Mul4Value(va0, va1, vb0, vb1);
    Mul4Value(va2, va3, vb2, vb3);
    Mul4Value(XXor(va0, va2), XXor(va1, va3), XXor(vb0, vb2), XXor(vb1, vb3));
    RegXor(va0, va1, va2, va3);
    RegXor(vb0, vb1, vb2, vb3);
    StoredCorrect(al, ah, bl, bh, Mul4Int(va0, va1, vb0, vb1), Mul4Int(va2, va3, vb2, vb3),
                  Mul4Int(XXor(va0, va2), XXor(va1, va3), XXor(vb0, vb2), XXor(vb1, vb3)));
    assert va0 == Load128(sa, 0) && va1 == Load128(sa, 2) && va2 == Load128(sa, 4) && va3 == Load128(sa, 6);
    assert vb0 == Load128(sb, 0) && vb1 == Load128(sb, 2) && vb2 == Load128(sb, 4) && vb3 == Load128(sb, 6);
    Load8(sa);
    Load8(sb);
  }

  lemma RegXor(x0: Xmm, x1: Xmm, y0: Xmm, y1: Xmm)
    ensures Reg2(XXor(x0, y0), XXor(x1, y1)) == Xor(Reg2(x0, x1), Reg2(y0, y1))
  {
    hide RawBit, Bit, Xor, Shl, WXor, Join, XVal, XXor;
    XXorVal(x0, y0);
    XXorVal(x1, y1);
    JoinXor(XVal(x0), XVal(y0), XVal(x1), XVal(y1), 128);
  }

  lemma StoredVal(s: seq<Word>, r: seq<Xmm>)
    requires |s| == 16 && |r| == 8
    requires forall k :: 0 <= k < 8 ==> s[2 * k] == r[k].lo && s[2 * k + 1] == r[k].hi
    ensures Val(s) == Val8(r)
  {
    hide RawBit, Bit, Xor, Shl, Join, XVal, Val, Val4;
    ValSplit(s, 8);
    Load8(s[..8]);
    Load8(s[8..]);
    assert s[0] == r[0].lo && s[1] == r[0].hi && s[2] == r[1].lo && s[3] == r[1].hi;
    assert s[4] == r[2].lo && s[5] == r[2].hi && s[6] == r[3].lo && s[7] == r[3].hi;
    assert s[8] == r[4].lo && s[9] == r[4].hi && s[10] == r[5].lo && s[11] == r[5].hi;
    assert s[12] == r[6].lo && s[13] == r[6].hi && s[14] == r[7].lo && s[15] == r[7].hi;
  }

  /** gf2x_mul_base_pclmul: the full 1024-bit product of two 8-word operands. */
  method MulBasePclmul(c: array<Word>, co: nat, a: array<Word>, ao: nat, b: array<Word>, bo: nat)
    requires co + 16 <= c.Length && ao + 8 <= a.Length && bo + 8 <= b.Length
    modifies c
    ensures Val(c[co..co + 16]) == Mul(Val(old(a[ao..ao + 8])), Val(old(b[bo..bo + 8])))
    ensures forall k :: 0 <= k < c.Length && !(co <= k < co + 16) ==> c[k] == old(c[k])
  {
    hide *;
    ghost var sa, sb := a[ao..ao + 8], b[bo..bo + 8];
    var va0, va1, va2, va3 := Load(a, ao), Load(a, ao + 2), Load(a, ao + 4), Load(a, ao + 6);
    var vb0, vb1, vb2, vb3 := Load(b, bo), Load(b, bo + 2), Load(b, bo + 4), Load(b, bo + 6);
    var lo := Mul4Int(va0, va1, vb0, vb1);
    var hi := Mul4Int(va2, va3, vb2, vb3);
    var mi := Mul4Int(XXor(va0, va2), XXor(va1, va3), XXor(vb0, vb2), XXor(vb1, vb3));
    var r := Stored(lo, hi, mi);
    Product8(sa, sb, va0, va1, va2, va3, vb0, vb1, vb2, vb3);
    for i := 0 to 8
      invariant forall k :: 0 <= k < c.Length && !(co <= k < co + 16) ==> c[k] == old(c[k])
      invariant forall k :: 0 <= k < i ==> c[co + 2 * k] == r[k].lo && c[co + 2 * k + 1] == r[k].hi
    {
      c[co + 2 * i] := r[i].lo;
      c[co + 2 * i + 1] := r[i].hi;
    }
    StoredVal(c[co..co + 16], r);
  }
}
