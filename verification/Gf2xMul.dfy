/** Ring operations on padded word arrays: reduction, multiplication and addition. */
module Gf2xMul {
  import opened Bits
  import opened Poly
  import opened Ring
  import opened Params
  import opened Modular
  import opened Words
  import opened Karatsuba

  /** a is a padded polynomial: its words from index 0 hold a ring element, and every bit from r on is zero. */
  ghost predicate IsPadded(a: seq<Word>, r: nat) {
    Fits(Val(a), r)
  }

  /** r is odd; in particular no multiple of 8 or 64, so the shifts by its remainders are defined and the
      masks of the last byte and word are not empty. */
  predicate GoodR(r: nat) {
    r > 0 && r % 2 == 1
  }

  /** One word of the fold: a[i] plus the 64 bits of a that start at bit 64 * i + r. */
  function FoldWord(a: seq<Word>, r: nat, i: nat): Word
    requires GoodR(r) && i < QWords(r) && i + QWords(r) < |a|
  {
    var vt0 := a[i];
    var vt1 := WShl(a[i + QWords(r)], Trail(r));
    var vt2 := WShr(a[i + QWords(r) - 1], Lead(r));
    WXor(vt0, WOr(vt1, vt2))
  }

  /** r in words and in bytes. */
  lemma RShape(r: nat)
    requires GoodR(r)
    ensures r == 64 * (QWords(r) - 1) + Lead(r) && 0 < Lead(r) < 64 && Trail(r) == 64 - Lead(r)
    ensures r == 8 * (RBytes(r) - 1) + r % 8 && 0 < r % 8 && RBytes(r) <= 8 * QWords(r)
  {
    var k, t := r / 64, r % 64;
    var j, b := t / 8, t % 8;
    OddRest(r, 32 * k + 4 * j, b);
    DivModUnique(r + 63, 64, k + 1, t - 1);
    DivModUnique(r, 8, 8 * k + j, b);
    DivModUnique(r + 7, 8, 8 * k + j + 1, b - 1);
  }

  lemma OddRest(r: nat, h: nat, b: nat)
    requires r % 2 == 1 && r == 2 * h + b
    ensures b > 0
  {
    if b < 2 { DivModUnique(r, 2, h, b); }
  }

  /** Where bit 64 * i + j + r lies. */
  lemma FoldIndex(r: nat, i: nat, j: nat)
    requires GoodR(r) && j < 64
    ensures var p, q := 64 * i + j + r, QWords(r);
            if j >= Trail(r) then p / 64 == i + q && p % 64 == j - Trail(r)
            else p / 64 == i + q - 1 && p % 64 == j + Lead(r)
  {
    hide QWords, Lead, Trail;
    RShape(r);
  }

  /** The bits of one fold. */
  lemma FoldedPair(w: Word, high: Word, low: Word, t: nat, j: nat)
    requires 0 < t < 64 && j < 64
    ensures Bit(WXor(w, WOr(WShl(high, t), WShr(low, 64 - t))), j)
            == (Bit(w, j) != (if j >= t then Bit(high, j - t) else Bit(low, j + 64 - t)))
  {
    hide *;
    assert j < t ==> !Bit(WShl(high, t), j);
    assert j >= t ==> !Bit(low, j + (64 - t));
  }

  lemma FoldWordBit(a: seq<Word>, r: nat, i: nat, j: nat)
    requires GoodR(r) && i < QWords(r) && i + QWords(r) < |a| && j < 64
    ensures Bit(FoldWord(a, r, i), j) == (Bit(Val(a), 64 * i + j) != Bit(Val(a), 64 * i + j + r))
  {
    hide RawBit, Bit, Val, WXor, WOr, WShl, WShr, QWords, FoldWord, Lead, Trail;
    var p, q := 64 * i + j, QWords(r);
    RShape(r);
    FoldIndex(r, i, j);
    FoldWordDef(a, r, i);
    FoldedPair(a[i], a[i + q], a[i + q - 1], Trail(r), j);
    assert p / 64 == i && p % 64 == j;
  }

  /** LAST_R_QWORD_MASK. */
  function LastMask(r: nat): (m: Word)
    ensures forall i: nat :: Bit(m, i) == (i < Lead(r))
  {
    MaskIsWord(Lead(r));
    Mask(Lead(r))
  }

  lemma MaskIsWord(n: nat)
    requires n < 64
    ensures Mask(n) < TWO64
  {
    hide RawBit, Bit, Mask;
    WordFits(Mask(n));
  }

  /** The words of c after the fold, the masking of the last word and the cleaning of the padding. */
  ghost predicate Folded(a: seq<Word>, c: seq<Word>, r: nat)
    requires GoodR(r) && 2 * QWords(r) <= |a| && QWords(r) <= |c|
  {
    var q := QWords(r);
    && (forall i :: 0 <= i < q - 1 ==> c[i] == FoldWord(a, r, i))
    && c[q - 1] == WAnd(FoldWord(a, r, q - 1), LastMask(r))
    && (forall i :: q <= i < |c| ==> c[i] == 0)
  }

  lemma FoldValue(a: seq<Word>, c: seq<Word>, r: nat)
    requires GoodR(r) && 2 * QWords(r) <= |a| && QWords(r) <= |c|
    requires Folded(a, c, r)
    ensures Val(c) == Fold(Val(a), r)
  {
    hide *;
    var v := Fold(Val(a), r);
    forall p: nat ensures Bit(Val(c), p) == Bit(v, p) {
      FoldedBit(a, c, r, p);
      assert Bit(v, p) == (p < r && (Bit(Val(a), p) != Bit(Val(a), p + r)));
    }
    Ext(Val(c), v);
  }

  lemma FoldedBit(a: seq<Word>, c: seq<Word>, r: nat, p: nat)
    requires GoodR(r) && 2 * QWords(r) <= |a| && QWords(r) <= |c|
    requires Folded(a, c, r)
    ensures Bit(Val(c), p) == (p < r && (Bit(Val(a), p) != Bit(Val(a), p + r)))
  {
    hide RawBit, Bit, Val, WAnd, FoldWord, LastMask, QWords, Lead, Trail;
    var q := QWords(r);
    RShape(r);
    var i, j := p / 64, p % 64;
    assert p == 64 * i + j;
    assert p < r <==> i < q - 1 || (i == q - 1 && j < Lead(r));
    if i < q {
      FoldWordBit(a, r, i, j);
    } else if i < |c| {
      assert c[i] == 0;
    }
  }

  /** gf2x_red_port: c = a mod (x^r - 1), if a is a product of ring elements. */
  method RedPort(c: array<Word>, a: array<Word>, r: nat)
    requires GoodR(r) && 2 * QWords(r) <= a.Length && QWords(r) <= c.Length && a != c
    modifies c
    ensures Val(c[..]) == Fold(Val(a[..2 * QWords(r)]), r)
    ensures Fits(Val(a[..2 * QWords(r)]), 2 * r) ==> Val(c[..]) == Red(Val(a[..2 * QWords(r)]), r)
  {
    hide RawBit, Bit, Val, WAnd, Xor, Red, FoldWord, LastMask, Fold, Fits;
    var q := QWords(r);
    assert q >= 1;
    ghost var A := a[..2 * q];
    for i := 0 to q
      invariant forall k :: 0 <= k < i ==> c[k] == FoldWord(A, r, k)
    {
      FoldWordDef(A, r, i);
      var vt0, vt1, vt2 := a[i], a[i + q], a[i + q - 1];
      vt1 := WShl(vt1, Trail(r));
      vt2 := WShr(vt2, Lead(r));
      c[i] := WXor(vt0, WOr(vt1, vt2));
    }
    c[q - 1] := WAnd(c[q - 1], LastMask(r));
    for i := q to c.Length
      invariant forall k :: 0 <= k < q - 1 ==> c[k] == FoldWord(A, r, k)
      invariant c[q - 1] == WAnd(FoldWord(A, r, q - 1), LastMask(r))
      invariant forall k :: q <= k < i ==> c[k] == 0
    {
      c[i] := 0;
    }
    FoldValue(A, c[..], r);
    if Fits(Val(A), 2 * r) {
      FitsWider(Val(A), 2 * r, 3 * r);
      FoldIsRed(Val(A), r);
    }
  }

  lemma FoldWordDef(a: seq<Word>, r: nat, i: nat)
    requires GoodR(r) && i < QWords(r) && i + QWords(r) < |a|
    ensures FoldWord(a, r, i) ==
            WXor(a[i], WOr(WShl(a[i + QWords(r)], Trail(r)), WShr(a[i + QWords(r) - 1], Lead(r))))
  {
  }

  /** a holds a number of at most QWords(r) words.  Bits from r on may be set, as in data from outside. */
  ghost predicate InWords(a: seq<Word>, r: nat) {
    Fits(Val(a), 64 * QWords(r))
  }

  lemma PaddedInWords(a: seq<Word>, r: nat)
    requires IsPadded(a, r)
    ensures InWords(a, r)
  {
    hide RawBit, Bit, Val;
  }

  /** Its other words are zero. */
  lemma PaddedZero(a: seq<Word>, r: nat)
    requires InWords(a, r) && QWords(r) <= |a|
    ensures ZeroRange(a, QWords(r), |a|)
  {
    hide RawBit, Bit, Val;
    forall k | QWords(r) <= k < |a| ensures a[k] == 0 {
      forall j: nat ensures !Bit(a[k], j) {
        if j < 64 {
          assert (64 * k + j) / 64 == k && (64 * k + j) % 64 == j;
          assert Bit(Val(a), 64 * k + j) == Bit(a[k], j);
        }
      }
      Ext(a[k], 0);
    }
  }

  /** A short value is held by a prefix of its words. */
  lemma ValPrefix(s: seq<Word>, n: nat, m: nat)
    requires n <= |s| && m <= 64 * n && Fits(Val(s), m)
    ensures Val(s[..n]) == Val(s)
  {
    hide RawBit, Bit, Val;
    Ext(Val(s[..n]), Val(s));
  }

  /** gf2x_mod_mul_with_ctx: c = a * b mod (x^r - 1) for ring elements.  The output may alias an input: the
      product goes through a temporary. */
  method ModMul(m: MulImpl, c: array<Word>, a: array<Word>, b: array<Word>, r: nat)
    requires GoodR(r) && a.Length == b.Length == c.Length && QWords(r) <= c.Length
    requires PowerOfTwoTimes(c.Length, m.BaseQWords())
    requires InWords(a[..], r) && InWords(b[..], r)
    modifies c
    ensures Val(c[..]) == FoldMul(Val(old(a[..])), Val(old(b[..])), r)
    ensures IsPadded(old(a[..]), r) && IsPadded(old(b[..]), r) ==>
            Val(c[..]) == RMul(Val(old(a[..])), Val(old(b[..])), r)
    ensures IsPadded(c[..], r)
  {
    hide RawBit, Bit, Val, Mul, Red, Fits, Fold;
    var pad := c.Length;
    var t := new Word[2 * pad](_ => 0);
    var secureBuffer := new Word[3 * pad](_ => 0);
    PaddedZero(a[..], r);
    PaddedZero(b[..], r);
    ghost var va, vb := Val(a[..]), Val(b[..]);
    assert a[..] == Slice(a[..], 0, pad) && b[..] == Slice(b[..], 0, pad);
    Karatzuba(m, t, 0, a, 0, b, 0, QWords(r), pad, secureBuffer, 0);
    assert t[..] == Slice(t[..], 0, 2 * pad);
    MulFits(va, vb, 64 * QWords(r), 64 * QWords(r));
    ValPrefix(t[..], 2 * QWords(r), 128 * QWords(r));
    RedPort(c, t, r);
    FoldMulFits(va, vb, r);
    if Fits(va, r) && Fits(vb, r) { FoldMulIsRMul(va, vb, r); }
  }

  /** When that is the product of the ring: for any two operands that fill at most QWords(r) words, exactly if their
      degrees add up to less than 2r. */
  lemma ModMulExact(a: seq<Word>, b: seq<Word>, m: nat, n: nat, r: nat)
    requires r >= 128 && InWords(a, r) && InWords(b, r) && Degree(Val(a), m) && Degree(Val(b), n)
    ensures FoldMul(Val(a), Val(b), r) == RMul(Val(a), Val(b), r) <==> m + n < 2 * r
  {
    hide RawBit, Bit, Val, FoldMul, RMul;
    assert m < 64 * QWords(r) && n < 64 * QWords(r);
    FoldMulExact(Val(a), Val(b), m, n, r);
  }

  /** gf2x_mod_add: c = a + b. */
  method ModAdd(c: array<Word>, a: array<Word>, b: array<Word>)
    requires a.Length == b.Length == c.Length
    modifies c
    ensures Val(c[..]) == Xor(Val(old(a[..])), Val(old(b[..])))
  {
    hide RawBit, Bit, Val, Xor, WXor, XorSeq;
    ghost var A, B := a[..], b[..];
    for i := 0 to c.Length
      invariant forall k :: 0 <= k < i ==> c[k] == XorSeq(A, B)[k]
      invariant forall k :: i <= k < c.Length ==> a[k] == A[k]
      invariant forall k :: i <= k < c.Length ==> b[k] == B[k]
    {
      c[i] := WXor(a[i], b[i]);
    }
    assert c[..] == XorSeq(A, B);
    ValXor(A, B);
  }

  lemma XorFits(a: nat, b: nat, n: nat)
    requires Fits(a, n) && Fits(b, n)
    ensures Fits(Xor(a, b), n)
  {
    hide RawBit, Bit, Xor;
  }
}
