/** The recursive, truncated, in-place Karatsuba multiplication over word arrays. */
module Karatsuba {
  import opened Bits
  import opened Poly
  import opened Words
  import opened KaratsubaIdentity
  import MulBasePort
  import MulBasePclmul

  type Width = n: nat | n >= 1 witness 1

  /** The base multiplier chosen at run time, and the number of words of its operands.  `OfWidth` stands for any
      multiplier that meets the contract of `MulBase` at its width, as the vector multiplier does at 16 words: the
      contract leaves it no choice of the words that it writes. */
  datatype MulImpl = Port | Pclmul | OfWidth(words: Width) {
    function BaseQWords(): (n: nat)
      ensures n >= 1
    {
      match this case Port => 1 case Pclmul => 8 case OfWidth(words) => words
    }
  }

  method MulBase(m: MulImpl, c: array<Word>, co: nat, a: array<Word>, ao: nat, b: array<Word>, bo: nat)
    requires co + 2 * m.BaseQWords() <= c.Length
    requires ao + m.BaseQWords() <= a.Length && bo + m.BaseQWords() <= b.Length
    modifies c
    ensures Val(c[co..co + 2 * m.BaseQWords()]) ==
            Mul(Val(old(a[ao..ao + m.BaseQWords()])), Val(old(b[bo..bo + m.BaseQWords()])))
    ensures forall k :: 0 <= k < c.Length && !(co <= k < co + 2 * m.BaseQWords()) ==> c[k] == old(c[k])
  {
    hide RawBit, Bit, Val, Mul, Fits;
    match m {
      case Port =>
        ValOne(a[ao..ao + 1]);
        ValOne(b[bo..bo + 1]);
        MulBasePort.MulBasePort(c, co, a, ao, b, bo);
      case Pclmul =>
        MulBasePclmul.MulBasePclmul(c, co, a, ao, b, bo);
      case OfWidth(n) =>
        var va, vb := Val(a[ao..ao + n]), Val(b[bo..bo + n]);
        MulFits(va, vb, 64 * n, 64 * n);
        StoreWords(c, co, 2 * n, Mul(va, vb));
    }
  }

  /** pad is base times a power of two. */
  predicate PowerOfTwoTimes(pad: nat, base: nat) {
    pad == base || (pad % 2 == 0 && pad > base && PowerOfTwoTimes(pad / 2, base))
  }

  /** A padded length above the base is even, and its half is again one. */
  lemma HalfOfPad(pad: nat, base: nat)
    requires PowerOfTwoTimes(pad, base) && pad != base
    ensures pad == 2 * (pad / 2) && PowerOfTwoTimes(pad / 2, base) && base <= pad / 2
  {
    AtLeastBase(pad / 2, base);
  }

  lemma AtLeastBase(pad: nat, base: nat)
    requires PowerOfTwoTimes(pad, base)
    ensures base <= pad
  {
  }

  /** The n words of s from index from on. */
  function Slice(s: seq<Word>, from: nat, n: nat): (t: seq<Word>)
    requires from + n <= |s|
    ensures |t| == n
  {
    s[from..from + n]
  }

  lemma SliceSplit(s: seq<Word>, from: nat, n: nat, half: nat)
    requires from + n <= |s| && half <= n
    ensures Slice(s, from, n)[..half] == Slice(s, from, half)
    ensures Slice(s, from, n)[half..] == Slice(s, from + half, n - half)
    ensures Slice(s, from, n) == Slice(s, from, half) + Slice(s, from + half, n - half)
  {
  }

  /** The words [from, to) of s are zero. */
  ghost predicate ZeroRange(s: seq<Word>, from: nat, to: nat)
    requires to <= |s|
  {
    forall k :: from <= k < to ==> s[k] == 0
  }

  lemma ZeroSlice(s: seq<Word>, from: nat, to: nat, x: nat, n: nat, zero: nat)
    requires to <= |s| && x + n <= to && from <= x + zero && ZeroRange(s, from, to) && zero <= n
    ensures ZeroRange(Slice(s, x, n), zero, n)
  {
  }

  /** s and t agree outside [from, to). */
  ghost predicate SameOutside(s: seq<Word>, t: seq<Word>, from: nat, to: nat) {
    |s| == |t| && forall k :: 0 <= k < |s| && !(from <= k < to) ==> s[k] == t[k]
  }

  lemma SliceUnchanged(s: seq<Word>, t: seq<Word>, from: nat, to: nat, x: nat, n: nat)
    requires SameOutside(s, t, from, to) && x + n <= |s| && (x + n <= from || to <= x)
    ensures Slice(s, x, n) == Slice(t, x, n)
  {
  }

  lemma SameChain(s: seq<Word>, t: seq<Word>, u: seq<Word>, f: nat, g: nat, f': nat, g': nat, from: nat, to: nat)
    requires SameOutside(s, t, f, g) && SameOutside(t, u, f', g')
    requires from <= f && from <= f' && g <= to && g' <= to
    ensures SameOutside(s, u, from, to)
  {
  }

  lemma SameWider(s: seq<Word>, t: seq<Word>, f: nat, g: nat, from: nat, to: nat)
    requires SameOutside(s, t, f, g) && from <= f && g <= to
    ensures SameOutside(s, t, from, to)
  {
  }

  /** karatzuba_add1: alah = a_lo + a_hi and blbh = b_lo + b_hi, written to scratch. */
  method KaratzubaAdd1(buf: array<Word>, so: nat, a: array<Word>, ao: nat, b: array<Word>, bo: nat, n: nat)
    requires so + 2 * n <= buf.Length && ao + 2 * n <= a.Length && bo + 2 * n <= b.Length
    requires (a == buf ==> ao + 2 * n <= so) && (b == buf ==> bo + 2 * n <= so)
    modifies buf
    ensures Slice(buf[..], so, n) == XorSeq(Slice(old(a[..]), ao, n), Slice(old(a[..]), ao + n, n))
    ensures Slice(buf[..], so + n, n) == XorSeq(Slice(old(b[..]), bo, n), Slice(old(b[..]), bo + n, n))
    ensures SameOutside(buf[..], old(buf[..]), so, so + 2 * n)
  {
    hide WXor, Xor, XorSeq, Bit, RawBit;
    ghost var was := buf[..];
    ghost var sa := XorSeq(Slice(a[..], ao, n), Slice(a[..], ao + n, n));
    ghost var sb := XorSeq(Slice(b[..], bo, n), Slice(b[..], bo + n, n));
    for i := 0 to n
      invariant forall k :: 0 <= k < buf.Length ==>
                  buf[k] == if so <= k < so + i then sa[k - so]
                            else if so + n <= k < so + n + i then sb[k - (so + n)]
                            else was[k]
    {
      var va0, va1 := a[ao + i], a[ao + i + n];
      var vb0, vb1 := b[bo + i], b[bo + i + n];
      assert sa[i] == WXor(va0, va1) && sb[i] == WXor(vb0, vb1);
      buf[so + i] := WXor(va0, va1);
      buf[so + n + i] := WXor(vb0, vb1);
    }
  }

  /** karatzuba_add2: z = x + y, where x and y are quarters of c and z is scratch. */
  method KaratzubaAdd2(buf: array<Word>, zo: nat, c: array<Word>, xo: nat, yo: nat, n: nat)
    requires zo + n <= buf.Length && xo + n <= c.Length && yo + n <= c.Length && buf != c
    modifies buf
    ensures Slice(buf[..], zo, n) == XorSeq(Slice(c[..], xo, n), Slice(c[..], yo, n))
    ensures SameOutside(buf[..], old(buf[..]), zo, zo + n)
  {
    hide WXor, Xor, XorSeq, Bit, RawBit;
    ghost var z := XorSeq(Slice(c[..], xo, n), Slice(c[..], yo, n));
    for i := 0 to n
      invariant forall k :: 0 <= k < buf.Length ==> buf[k] == if zo <= k < zo + i then z[k - zo] else old(buf[k])
    {
      buf[zo + i] := WXor(c[xo + i], c[yo + i]);
    }
  }

  /** karatzuba_add3: the two middle quarters of c, in place. */
  method KaratzubaAdd3(c: array<Word>, co: nat, buf: array<Word>, mo: nat, n: nat)
    requires co + 4 * n <= c.Length && mo + n <= buf.Length && buf != c
    modifies c
    ensures Slice(c[..], co, 4 * n) == Added(Slice(old(c[..]), co, 4 * n), Slice(buf[..], mo, n), n)
    ensures SameOutside(c[..], old(c[..]), co, co + 4 * n)
  {
    hide WXor, Xor, XorSeq, Bit, RawBit, Added;
    ghost var was, mid := c[..], Slice(buf[..], mo, n);
    ghost var want := Added(Slice(was, co, 4 * n), mid, n);
    for i := 0 to n
      invariant forall k :: 0 <= k < c.Length ==>
                  c[k] == if co + n <= k < co + n + i || co + 2 * n <= k < co + 2 * n + i then want[k - co] else was[k]
    {
      var vr0, vr1, vr2, vr3 := c[co + i], c[co + n + i], c[co + 2 * n + i], c[co + 3 * n + i];
      var vt := buf[mo + i];
      AddedAt(Slice(was, co, 4 * n), mid, n, i);
      c[co + n + i] := WXor(WXor(vt, vr0), vr1);
      c[co + 2 * n + i] := WXor(WXor(vt, vr2), vr3);
    }
    forall k | co <= k < co + 4 * n ensures c[k] == want[k - co] {
      if k < co + n { AddedAt(Slice(was, co, 4 * n), mid, n, k - co); }
      if k >= co + 3 * n { AddedAt(Slice(was, co, 4 * n), mid, n, k - co - 3 * n); }
    }
    assert Slice(c[..], co, 4 * n) == want;
  }

  /** The four quarters of c after the last pass, with mid added to its middle. */
  function Added(c: seq<Word>, mid: seq<Word>, n: nat): (r: seq<Word>)
    requires |c| == 4 * n && |mid| == n
    ensures |r| == 4 * n
  {
    (c[..n] + XorSeq(XorSeq(mid, c[..n]), c[n..2 * n])) +
    (XorSeq(XorSeq(mid, c[2 * n..3 * n]), c[3 * n..]) + c[3 * n..])
  }

  lemma AddedAt(c: seq<Word>, mid: seq<Word>, n: nat, i: nat)
    requires |c| == 4 * n && |mid| == n && i < n
    ensures var r := Added(c, mid, n);
            && r[i] == c[i] && r[n + i] == WXor(WXor(mid[i], c[i]), c[n + i])
            && r[2 * n + i] == WXor(WXor(mid[i], c[2 * n + i]), c[3 * n + i]) && r[3 * n + i] == c[3 * n + i]
  {
    hide WXor, XorSeq;
  }

  /** The result, from the three recursive products l, h and m. */
  lemma AssembledValue(sa: seq<Word>, sb: seq<Word>, l: seq<Word>, h: seq<Word>, m: seq<Word>, n: nat)
    requires |sa| == |sb| == |l| == |h| == |m| == 2 * n
    requires Val(l) == Mul(Val(sa[..n]), Val(sb[..n]))
    requires Val(h) == Mul(Val(sa[n..]), Val(sb[n..]))
    requires Val(m) == Mul(Xor(Val(sa[..n]), Val(sa[n..])), Xor(Val(sb[..n]), Val(sb[n..])))
    ensures Val(Added((l[..n] + m) + h[n..], XorSeq(l[n..], h[..n]), n)) == Mul(Val(sa), Val(sb))
  {
    hide RawBit, Bit, Val, Mul, Xor, Shl, WXor, XorSeq, Join;
    var t := XorSeq(l[n..], h[..n]);
    var c := (l[..n] + m) + h[n..];
    assert c[..n] == l[..n] && c[n..2 * n] == m[..n] && c[2 * n..3 * n] == m[n..] && c[3 * n..] == h[n..];
    ValXor(l[n..], h[..n]);
    ValXor(t, l[..n]);
    ValXor(t, m[n..]);
    ValXor(XorSeq(t, l[..n]), m[..n]);
    ValXor(XorSeq(t, m[n..]), h[n..]);
    var lo, hi := l[..n] + XorSeq(XorSeq(t, l[..n]), m[..n]), XorSeq(XorSeq(t, m[n..]), h[n..]) + h[n..];
    ValConcat(lo, hi);
    ValConcat(l[..n], XorSeq(XorSeq(t, l[..n]), m[..n]));
    ValConcat(XorSeq(XorSeq(t, m[n..]), h[n..]), h[n..]);
    ValSplit(sa, n);
    ValSplit(sb, n);
    ValSplit(l, n);
    ValSplit(h, n);
    ValSplit(m, n);
    assert 2 * (64 * n) == 64 * (2 * n);
    KaratsubaStep(Val(sa[..n]), Val(sa[n..]), Val(sb[..n]), Val(sb[n..]), Val(l[..n]), Val(l[n..]),
                  Val(h[..n]), Val(h[n..]), Val(m[..n]), Val(m[n..]), 64 * n);
  }

  /** A word sequence whose tail is zero has the value of its head. */
  lemma ValZeroTail(s: seq<Word>, n: nat)
    requires n <= |s| && ZeroRange(s, n, |s|)
    ensures Val(s) == Val(s[..n])
  {
    hide RawBit, Bit, Val, Shl, Xor;
    ValSplit(s, n);
    ValZero(s[n..]);
    Ext(Shl(0, 64 * n), 0);
    XorLaws(Val(s[..n]), 0, 0);
  }

  /** Zero upper half: the product is the product of the lower halves. */
  lemma SkippedHalf(sa: seq<Word>, sb: seq<Word>, c: seq<Word>, n: nat)
    requires n <= |sa| && n <= |sb| && 2 * n <= |c|
    requires ZeroRange(sa, n, |sa|) && ZeroRange(sb, n, |sb|) && ZeroRange(c, 2 * n, |c|)
    requires Val(c[..2 * n]) == Mul(Val(sa[..n]), Val(sb[..n]))
    ensures Val(c) == Mul(Val(sa), Val(sb))
  {
    hide *;
    ValZeroTail(sa, n);
    ValZeroTail(sb, n);
    ValZeroTail(c, 2 * n);
  }

  /** karatzuba: leaves the product of the pad-word operands at a[ao..] and b[bo..] in c[co..co + 2 * pad),
      given that their words from len on are zero.  Branches for an all-zero upper half are skipped, so
      unless len == pad the output must be zero on entry.  Scratch is used below so + 3 * (pad - base). */
  method Karatzuba(m: MulImpl, c: array<Word>, co: nat, a: array<Word>, ao: nat, b: array<Word>, bo: nat,
                   len: nat, pad: nat, buf: array<Word>, so: nat)
    requires PowerOfTwoTimes(pad, m.BaseQWords()) && len <= pad
    requires c != buf && a != c && b != c
    requires co + 2 * pad <= c.Length && ao + pad <= a.Length && bo + pad <= b.Length
    requires so + 3 * (pad - m.BaseQWords()) <= buf.Length
    requires (a == buf ==> ao + pad <= so) && (b == buf ==> bo + pad <= so)
    requires ZeroRange(a[..], ao + len, ao + pad) && ZeroRange(b[..], bo + len, bo + pad)
    requires len == pad || ZeroRange(c[..], co, co + 2 * pad)
    modifies c, buf
    ensures Val(Slice(c[..], co, 2 * pad)) == Mul(Val(Slice(old(a[..]), ao, pad)), Val(Slice(old(b[..]), bo, pad)))
    ensures SameOutside(c[..], old(c[..]), co, co + 2 * pad)
    ensures SameOutside(buf[..], old(buf[..]), so, so + 3 * (pad - m.BaseQWords()))
    decreases pad, 2
  {
    hide RawBit, Bit, Val, Mul, Xor, XorSeq, Slice, SameOutside, ZeroRange, PowerOfTwoTimes;
    ghost var A, B, C, S := a[..], b[..], c[..], buf[..];
    AtLeastBase(pad, m.BaseQWords());
    if len <= m.BaseQWords() {
      BaseCase(m, c, co, a, ao, b, bo, len, pad);
      assert buf[..] == S;
      SameRefl(S, so, so + 3 * (pad - m.BaseQWords()));
      return;
    }
    var half := pad / 2;
    var free := so + 3 * half;
    HalfOfPad(pad, m.BaseQWords());
    ZeroEmpty(A, ao + half);
    ZeroEmpty(B, bo + half);
    Karatzuba(m, c, co, a, ao, b, bo, half, half, buf, free);
    SameWider(c[..], C, co, co + 2 * half, co, co + 2 * pad);
    SameWider(buf[..], S, free, free + 3 * (half - m.BaseQWords()), so, so + 3 * (pad - m.BaseQWords()));
    if len <= half {
      ZeroUnchangedWhole(c[..], C, co, co + 2 * half, co + 2 * pad);
      LowerHalfOnly(A, ao, B, bo, c[..], co, len, half);
    } else {
      ghost var C1, S1 := c[..], buf[..];
      InputUnchanged(a, buf, A, S, ao, pad, ao + len, free, free + 3 * (half - m.BaseQWords()));
      InputUnchanged(b, buf, B, S, bo, pad, bo + len, free, free + 3 * (half - m.BaseQWords()));
      SliceSplit(A, ao, pad, half);
      SliceSplit(B, bo, pad, half);
      SliceSplit(a[..], ao, pad, half);
      SliceSplit(b[..], bo, pad, half);
      if len != pad { ZeroUnchangedWhole(c[..], C, co, co + 2 * half, co + 2 * pad); }
      UpperHalf(m, c, co, a, ao, b, bo, len, half, buf, so);
      SameChain(c[..], C1, C, co, co + 4 * half, co, co + 2 * pad, co, co + 2 * pad);
      SameChain(buf[..], S1, S, so, so + 3 * half + 3 * (half - m.BaseQWords()), so, so + 3 * (pad - m.BaseQWords()),
                so, so + 3 * (pad - m.BaseQWords()));
    }
  }

  /** The product of the lower halves is the whole product when the upper halves are zero. */
  lemma LowerHalfOnly(A: seq<Word>, ao: nat, B: seq<Word>, bo: nat, c: seq<Word>, co: nat, len: nat, half: nat)
    requires len <= half && ao + 2 * half <= |A| && bo + 2 * half <= |B| && co + 4 * half <= |c|
    requires ZeroRange(A, ao + len, ao + 2 * half) && ZeroRange(B, bo + len, bo + 2 * half)
    requires ZeroRange(c, co + 2 * half, co + 4 * half)
    requires Val(Slice(c, co, 2 * half)) == Mul(Val(Slice(A, ao, half)), Val(Slice(B, bo, half)))
    ensures Val(Slice(c, co, 4 * half)) == Mul(Val(Slice(A, ao, 2 * half)), Val(Slice(B, bo, 2 * half)))
  {
    hide *;
    ZeroSlice(A, ao + len, ao + 2 * half, ao, 2 * half, half);
    ZeroSlice(B, bo + len, bo + 2 * half, bo, 2 * half, half);
    ZeroSlice(c, co + 2 * half, co + 4 * half, co, 4 * half, 2 * half);
    SliceSplit(A, ao, 2 * half, half);
    SliceSplit(B, bo, 2 * half, half);
    SliceSplit(c, co, 4 * half, 2 * half);
    SkippedHalf(Slice(A, ao, 2 * half), Slice(B, bo, 2 * half), Slice(c, co, 4 * half), half);
  }

  lemma SameRefl(s: seq<Word>, from: nat, to: nat)
    ensures SameOutside(s, s, from, to)
  {
  }

  lemma ZeroEmpty(s: seq<Word>, x: nat)
    requires x <= |s|
    ensures ZeroRange(s, x, x)
  {
  }

  lemma ZeroUnchangedWhole(s: seq<Word>, t: seq<Word>, from: nat, to: nat, end: nat)
    requires SameOutside(s, t, from, to) && from <= to <= end <= |s| && ZeroRange(t, from, end)
    ensures ZeroRange(s, to, end)
  {
  }

  /** An operand is not touched when only other arrays, or scratch above it, are written. */
  lemma InputUnchanged(a: array<Word>, buf: array<Word>, A: seq<Word>, S: seq<Word>, ao: nat, n: nat, zero: nat,
                       from: nat, to: nat)
    requires SameOutside(buf[..], S, from, to) && |A| == a.Length
    requires if a == buf then A == S else a[..] == A
    requires ao + n <= a.Length && zero <= ao + n && (a == buf ==> ao + n <= from) && ZeroRange(A, zero, ao + n)
    ensures Slice(a[..], ao, n) == Slice(A, ao, n) && ZeroRange(a[..], zero, ao + n)
  {
  }

  /** The non-recursive case. */
  method BaseCase(m: MulImpl, c: array<Word>, co: nat, a: array<Word>, ao: nat, b: array<Word>, bo: nat,
                  len: nat, pad: nat)
    requires len <= m.BaseQWords() <= pad && a != c && b != c
    requires co + 2 * pad <= c.Length && ao + pad <= a.Length && bo + pad <= b.Length
    requires ZeroRange(a[..], ao + len, ao + pad) && ZeroRange(b[..], bo + len, bo + pad)
    requires len == pad || ZeroRange(c[..], co, co + 2 * pad)
    modifies c
    ensures Val(Slice(c[..], co, 2 * pad)) == Mul(Val(Slice(a[..], ao, pad)), Val(Slice(b[..], bo, pad)))
    ensures SameOutside(c[..], old(c[..]), co, co + 2 * pad)
  {
    hide RawBit, Bit, Val, Mul;
    ghost var n := m.BaseQWords();
    ghost var sa, sb := Slice(a[..], ao, pad), Slice(b[..], bo, pad);
    MulBase(m, c, co, a, ao, b, bo);
    assert sa[..n] == a[ao..ao + n] && sb[..n] == b[bo..bo + n];
    assert Slice(c[..], co, 2 * pad)[..2 * n] == c[co..co + 2 * n];
    SkippedHalf(sa, sb, Slice(c[..], co, 2 * pad), n);
  }

  /** The part of karatzuba that runs when the upper half is not empty: the other two products and the
      additions.  On entry c[co..co + 2 * half) holds the product of the lower halves. */
  method UpperHalf(m: MulImpl, c: array<Word>, co: nat, a: array<Word>, ao: nat, b: array<Word>, bo: nat,
                   len: nat, half: nat, buf: array<Word>, so: nat)
    requires PowerOfTwoTimes(half, m.BaseQWords()) && half < len <= 2 * half && m.BaseQWords() <= half
    requires c != buf && a != c && b != c
    requires co + 4 * half <= c.Length && ao + 2 * half <= a.Length && bo + 2 * half <= b.Length
    requires so + 3 * half + 3 * (half - m.BaseQWords()) <= buf.Length
    requires (a == buf ==> ao + 2 * half <= so) && (b == buf ==> bo + 2 * half <= so)
    requires ZeroRange(a[..], ao + len, ao + 2 * half) && ZeroRange(b[..], bo + len, bo + 2 * half)
    requires len == 2 * half || ZeroRange(c[..], co + 2 * half, co + 4 * half)
    requires Val(Slice(c[..], co, 2 * half)) == Mul(Val(Slice(a[..], ao, half)), Val(Slice(b[..], bo, half)))
    modifies c, buf
    ensures Val(Slice(c[..], co, 4 * half)) ==
            Mul(Val(Slice(old(a[..]), ao, 2 * half)), Val(Slice(old(b[..]), bo, 2 * half)))
    ensures SameOutside(c[..], old(c[..]), co, co + 4 * half)
    ensures SameOutside(buf[..], old(buf[..]), so, so + 3 * half + 3 * (half - m.BaseQWords()))
    decreases 2 * half, 1
  {
    hide RawBit, Bit, Val, Mul, Xor, XorSeq, Slice, SameOutside, ZeroRange, Added, PowerOfTwoTimes;
    ghost var A, B, C, S := a[..], b[..], c[..], buf[..];
    ghost var sa, sb, l := Slice(A, ao, 2 * half), Slice(B, bo, 2 * half), Slice(C, co, 2 * half);
    SliceSplit(A, ao, 2 * half, half);
    SliceSplit(B, bo, 2 * half, half);
    var free := so + 3 * half;
    ghost var end := free + 3 * (half - m.BaseQWords());
    MiddleOperands(m, c, co, a, ao, b, bo, len, half, buf, so);
    ghost var C1, S1 := c[..], buf[..];
    ghost var h := Slice(C1, co + 2 * half, 2 * half);
    SliceUnchanged(C1, C, co + 2 * half, co + 4 * half, co, 2 * half);
    ZeroEmpty(S1, so + half);
    ZeroEmpty(S1, so + half + half);
    Karatzuba(m, c, co + half, buf, so, buf, so + half, half, half, buf, free);
    ghost var C2, S2 := c[..], buf[..];
    ghost var mid := Slice(C2, co + half, 2 * half);
    SliceUnchanged(S2, S1, free, end, so + 2 * half, half);
    QuartersOf(C2, C1, co, half, l, h, mid);
    SumsOfHalves(sa, sb, half);
    AddMiddle(c, co, buf, so + 2 * half, half, sa, sb, l, h, mid);
    OutputFrame(c[..], C2, C1, C, co, half);
    SameChain(S2, S1, S, free, end, so, end, so, end);
  }

  lemma SumsOfHalves(sa: seq<Word>, sb: seq<Word>, n: nat)
    requires |sa| == |sb| == 2 * n
    ensures Val(XorSeq(sa[..n], sa[n..])) == Xor(Val(sa[..n]), Val(sa[n..]))
    ensures Val(XorSeq(sb[..n], sb[n..])) == Xor(Val(sb[..n]), Val(sb[n..]))
  {
    hide *;
    ValXor(sa[..n], sa[n..]);
    ValXor(sb[..n], sb[n..]);
  }

  lemma OutputFrame(c3: seq<Word>, c2: seq<Word>, c1: seq<Word>, c0: seq<Word>, co: nat, n: nat)
    requires SameOutside(c3, c2, co, co + 4 * n) && SameOutside(c2, c1, co + n, co + 3 * n)
    requires SameOutside(c1, c0, co + 2 * n, co + 4 * n)
    ensures SameOutside(c3, c0, co, co + 4 * n)
  {
    hide SameOutside;
    SameChain(c2, c1, c0, co + n, co + 3 * n, co + 2 * n, co + 4 * n, co, co + 4 * n);
    SameChain(c3, c2, c0, co, co + 4 * n, co, co + 4 * n, co, co + 4 * n);
  }

  /** Its last step. */
  method AddMiddle(c: array<Word>, co: nat, buf: array<Word>, mo: nat, n: nat, ghost sa: seq<Word>, ghost sb: seq<Word>,
                   ghost l: seq<Word>, ghost h: seq<Word>, ghost m: seq<Word>)
    requires co + 4 * n <= c.Length && mo + n <= buf.Length && buf != c
    requires |sa| == |sb| == |l| == |h| == |m| == 2 * n
    requires Val(l) == Mul(Val(sa[..n]), Val(sb[..n])) && Val(h) == Mul(Val(sa[n..]), Val(sb[n..]))
    requires Val(m) == Mul(Xor(Val(sa[..n]), Val(sa[n..])), Xor(Val(sb[..n]), Val(sb[n..])))
    requires Slice(c[..], co, 4 * n) == (l[..n] + m) + h[n..] && Slice(buf[..], mo, n) == XorSeq(l[n..], h[..n])
    modifies c
    ensures Val(Slice(c[..], co, 4 * n)) == Mul(Val(sa), Val(sb))
    ensures SameOutside(c[..], old(c[..]), co, co + 4 * n)
  {
    hide RawBit, Bit, Val, Mul, Xor, XorSeq, Slice, SameOutside, Added;
    AssembledValue(sa, sb, l, h, m, n);
    KaratzubaAdd3(c, co, buf, mo, n);
  }

  /** Its first steps: the product of the upper halves, then the operands of the middle product and the
      sum c1 + c2 in scratch. */
  method MiddleOperands(m: MulImpl, c: array<Word>, co: nat, a: array<Word>, ao: nat, b: array<Word>, bo: nat,
                        len: nat, half: nat, buf: array<Word>, so: nat)
    requires PowerOfTwoTimes(half, m.BaseQWords()) && half < len <= 2 * half && m.BaseQWords() <= half
    requires c != buf && a != c && b != c
    requires co + 4 * half <= c.Length && ao + 2 * half <= a.Length && bo + 2 * half <= b.Length
    requires so + 3 * half + 3 * (half - m.BaseQWords()) <= buf.Length
    requires (a == buf ==> ao + 2 * half <= so) && (b == buf ==> bo + 2 * half <= so)
    requires ZeroRange(a[..], ao + len, ao + 2 * half) && ZeroRange(b[..], bo + len, bo + 2 * half)
    requires len == 2 * half || ZeroRange(c[..], co + 2 * half, co + 4 * half)
    modifies c, buf
    ensures Val(Slice(c[..], co + 2 * half, 2 * half)) ==
            Mul(Val(Slice(old(a[..]), ao + half, half)), Val(Slice(old(b[..]), bo + half, half)))
    ensures Slice(buf[..], so, half) == XorSeq(Slice(old(a[..]), ao, half), Slice(old(a[..]), ao + half, half))
    ensures Slice(buf[..], so + half, half) == XorSeq(Slice(old(b[..]), bo, half), Slice(old(b[..]), bo + half, half))
    ensures Slice(buf[..], so + 2 * half, half) ==
            XorSeq(Slice(old(c[..]), co, 2 * half)[half..], Slice(c[..], co + 2 * half, 2 * half)[..half])
    ensures SameOutside(c[..], old(c[..]), co + 2 * half, co + 4 * half)
    ensures SameOutside(buf[..], old(buf[..]), so, so + 3 * half + 3 * (half - m.BaseQWords()))
    decreases 2 * half, 0
  {
    hide RawBit, Bit, Val, Mul, Xor, XorSeq, Slice, SameOutside, ZeroRange, Added, PowerOfTwoTimes;
    ghost var A, B, C, S := a[..], b[..], c[..], buf[..];
    var free := so + 3 * half;
    ghost var end := free + 3 * (half - m.BaseQWords());
    Karatzuba(m, c, co + 2 * half, a, ao + half, b, bo + half, len - half, half, buf, free);
    ghost var S1 := buf[..];
    InputUnchanged(a, buf, A, S, ao, 2 * half, ao + len, free, end);
    InputUnchanged(b, buf, B, S, bo, 2 * half, bo + len, free, end);
    SliceSplit(A, ao, 2 * half, half);
    SliceSplit(B, bo, 2 * half, half);
    SliceSplit(a[..], ao, 2 * half, half);
    SliceSplit(b[..], bo, 2 * half, half);
    MiddleSums(c, co, a, ao, b, bo, half, buf, so);
    SliceUnchanged(c[..], C, co + 2 * half, co + 4 * half, co, 2 * half);
    SliceSplit(c[..], co, 2 * half, half);
    SliceSplit(c[..], co + 2 * half, 2 * half, half);
    SameChain(buf[..], S1, S, so, so + 3 * half, free, end, so, end);
  }

  /** The sums of the halves of a, of the halves of b, and of the middle quarters of c. */
  method MiddleSums(c: array<Word>, co: nat, a: array<Word>, ao: nat, b: array<Word>, bo: nat, half: nat,
                    buf: array<Word>, so: nat)
    requires c != buf && a != c && b != c
    requires co + 4 * half <= c.Length && ao + 2 * half <= a.Length && bo + 2 * half <= b.Length
    requires so + 3 * half <= buf.Length
    requires (a == buf ==> ao + 2 * half <= so) && (b == buf ==> bo + 2 * half <= so)
    modifies buf
    ensures Slice(buf[..], so, half) == XorSeq(Slice(old(a[..]), ao, half), Slice(old(a[..]), ao + half, half))
    ensures Slice(buf[..], so + half, half) == XorSeq(Slice(old(b[..]), bo, half), Slice(old(b[..]), bo + half, half))
    ensures Slice(buf[..], so + 2 * half, half) ==
            XorSeq(Slice(c[..], co + half, half), Slice(c[..], co + 2 * half, half))
    ensures SameOutside(buf[..], old(buf[..]), so, so + 3 * half)
  {
    hide RawBit, Bit, Xor, XorSeq, Slice, SameOutside;
    ghost var S1 := buf[..];
    KaratzubaAdd1(buf, so, a, ao, b, bo, half);
    ghost var S2 := buf[..];
    KaratzubaAdd2(buf, so + 2 * half, c, co + half, co + 2 * half, half);
    ghost var S3 := buf[..];
    SliceUnchanged(S3, S2, so + 2 * half, so + 3 * half, so, half);
    SliceUnchanged(S3, S2, so + 2 * half, so + 3 * half, so + half, half);
    SameChain(S3, S2, S1, so + 2 * half, so + 3 * half, so, so + 2 * half, so, so + 3 * half);
  }

  /** The quarters of c before the last pass: l0, m0, m1, h1. */
  lemma QuartersOf(c: seq<Word>, c1: seq<Word>, co: nat, n: nat, l: seq<Word>, h: seq<Word>, m: seq<Word>)
    requires co + 4 * n <= |c| && SameOutside(c, c1, co + n, co + 3 * n)
    requires l == Slice(c1, co, 2 * n) && h == Slice(c1, co + 2 * n, 2 * n) && m == Slice(c, co + n, 2 * n)
    ensures Slice(c, co, 4 * n) == (l[..n] + m) + h[n..]
  {
  }
}
