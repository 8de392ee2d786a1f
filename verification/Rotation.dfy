/** Rotation of a triplicated syndrome: duplication, the logarithmic barrel shifter over words and the
    in-place shift by less than a word. */
module Rotation {
  import opened Bits
  import opened Params
  import opened Words
  import opened Utilities
  import opened Modular
  import opened Gf2xMul

  // ----- UPTOPOW2

  /** The macro: smear the bits of v - 1 downwards, then add one. */
  function UptoPow2(v: nat): nat
    requires v > 0
  {
    var u0 := v - 1;
    var u1 := Or(u0, Shr(u0, 1));
    var u2 := Or(u1, Shr(u1, 2));
    var u3 := Or(u2, Shr(u2, 4));
    var u4 := Or(u3, Shr(u3, 8));
    var u5 := Or(u4, Shr(u4, 16));
    u5 + 1
  }

  /** Bit i of u is set when some bit of x among the n bits from i on is. */
  ghost predicate Smeared(u: nat, x: nat, n: nat) {
    forall i: nat :: Bit(u, i) <==> exists k: nat :: i <= k < i + n && Bit(x, k)
  }

  lemma SmearStep(u: nat, x: nat, n: nat)
    requires Smeared(u, x, n) && n > 0
    ensures Smeared(Or(u, Shr(u, n)), x, 2 * n)
  {
    hide RawBit, Bit, Or, Shr;
    var u' := Or(u, Shr(u, n));
    forall i: nat ensures Bit(u', i) <==> exists k: nat :: i <= k < i + 2 * n && Bit(x, k) {
      assert Bit(u', i) == (Bit(u, i) || Bit(u, i + n));
      if k: nat :| i <= k < i + 2 * n && Bit(x, k) {
        if k >= i + n { assert i + n <= k < (i + n) + n; }
      }
    }
  }

  lemma TopBitSet(x: nat)
    requires x > 0
    ensures Bit(x, BitLength(x) - 1)
  {
    hide RawBit, Bit, Low, Shr, Pow2, BitLength;
    var n := BitLength(x);
    FitsPow2(x, n);
    FitsPow2(x, n - 1);
    var i: nat :| Bit(x, i) && i >= n - 1;
    assert i == n - 1;
  }

  /** UPTOPOW2(v) is the least power of two that is at least v. */
  lemma UptoPow2Correct(v: nat)
    requires 0 < v <= TWO32
    ensures var n := BitLength(v - 1); UptoPow2(v) == Pow2(n) && v <= Pow2(n) < 2 * v
  {
    hide RawBit, Bit, Or, Shr, Pow2, Low, Mask;
    var x := v - 1;
    var n := BitLength(x);
    assert Smeared(x, x, 1);
    var u1 := Or(x, Shr(x, 1));
    SmearStep(x, x, 1);
    var u2 := Or(u1, Shr(u1, 2));
    SmearStep(u1, x, 2);
    var u3 := Or(u2, Shr(u2, 4));
    SmearStep(u2, x, 4);
    var u4 := Or(u3, Shr(u3, 8));
    SmearStep(u3, x, 8);
    var u5 := Or(u4, Shr(u4, 16));
    SmearStep(u4, x, 16);
    SmearedIsMask(u5, x);
    if x > 0 { Pow2Def(n); } else { Pow2Small(n); }
  }

  lemma Pow2Small(n: nat)
    requires n == BitLength(0)
    ensures Pow2(n) == 1
  {
  }

  lemma SmearedIsMask(u: nat, x: nat)
    requires x < TWO32 && Smeared(u, x, 32)
    ensures u == Pow2(BitLength(x)) - 1
  {
    hide RawBit, Bit, Or, Shr, Pow2, Low, Mask, BitLength;
    var n := BitLength(x);
    FitsPow2(x, n);
    forall i: nat ensures Bit(u, i) == Bit(Mask(n), i) {
      if i < n {
        TopBitSet(x);
        assert n - 1 < 32;
        assert i <= n - 1 < i + 32 && Bit(x, n - 1);
      }
    }
    Ext(u, Mask(n));
  }

  // ----- Periodic syndromes

  /** The first 64 * (3q - 1) bits of s repeat the r-bit polynomial v. */
  ghost predicate Repeats(s: seq<Word>, v: nat, r: nat)
    requires r > 0
  {
    Fits(v, r) && |s| == 3 * QWords(r) &&
    forall p: nat :: p < 64 * (3 * QWords(r) - 1) ==> Bit(Val(s), p) == Bit(v, Rem(p, r))
  }

  /** Word q + i of the duplicated syndrome continues the period. */
  function DupWord(s: seq<Word>, r: nat, i: nat): Word
    requires i + 1 < |s|
  {
    WOr(WShr(s[i], Trail(r)), WShl(s[i + 1], Lead(r)))
  }

  lemma DupIndex(r: nat, i: nat, j: nat)
    requires GoodR(r) && j < 64
    ensures var p := 64 * (QWords(r) + i) + j - r;
            p >= 0 && if j < Lead(r) then p / 64 == i && p % 64 == j + Trail(r)
                      else p / 64 == i + 1 && p % 64 == j - Lead(r)
  {
    hide QWords, Lead, Trail;
    RShape(r);
  }

  lemma DuplicatedPair(low: Word, high: Word, lead: nat, j: nat)
    requires 0 < lead < 64 && j < 64
    ensures Bit(WOr(WShr(low, 64 - lead), WShl(high, lead)), j)
            == if j < lead then Bit(low, j + 64 - lead) else Bit(high, j - lead)
  {
    hide *;
    assert j >= lead ==> !Bit(low, j + (64 - lead));
  }

  lemma DupWordBit(s: seq<Word>, r: nat, i: nat, j: nat)
    requires GoodR(r) && i + 1 < |s| && j < 64
    ensures 64 * (QWords(r) + i) + j >= r
    ensures Bit(DupWord(s, r, i), j) == Bit(Val(s), 64 * (QWords(r) + i) + j - r)
  {
    hide RawBit, Bit, Val, WOr, WShl, WShr, QWords, Lead, Trail, DupWord;
    RShape(r);
    DupIndex(r, i, j);
    DupWordDef(s, r, i);
    DuplicatedPair(s[i], s[i + 1], Lead(r), j);
  }

  /** The bits from r up to end repeat those r places below. */
  ghost predicate PeriodicTo(s: seq<Word>, r: nat, end: nat) {
    forall p: nat :: r <= p < end ==> Bit(Val(s), p) == Bit(Val(s), p - r)
  }

  lemma WithWord(s: seq<Word>, i: nat, w: Word)
    requires i < |s|
    ensures forall p: nat :: Bit(Val(s[i := w]), p) == if p / 64 == i then Bit(w, p % 64) else Bit(Val(s), p)
  {
    hide RawBit, Bit, Val;
  }

  lemma DupStep(s: seq<Word>, r: nat, i: nat)
    requires GoodR(r) && |s| == 3 * QWords(r) && QWords(r) >= 2 && i < 2 * QWords(r) - 1
    requires PeriodicTo(s, r, 64 * (QWords(r) + i))
    ensures PeriodicTo(s[QWords(r) + i := DupWord(s, r, i)], r, 64 * (QWords(r) + i + 1))
    ensures forall p: nat :: p < r ==> Bit(Val(s[QWords(r) + i := DupWord(s, r, i)]), p) == Bit(Val(s), p)
  {
    hide RawBit, Bit, Val, QWords, DupWord, Lead, Trail;
    RShape(r);
    var q := QWords(r);
    var s' := s[q + i := DupWord(s, r, i)];
    WithWord(s, q + i, DupWord(s, r, i));
    forall p: nat | r <= p < 64 * (q + i + 1) ensures Bit(Val(s'), p) == Bit(Val(s'), p - r) {
      if p / 64 == q + i {
        DupWordBit(s, r, i, p % 64);
        assert p == 64 * (q + i) + p % 64;
        assert (p - r) / 64 < q + i;
        assert Bit(Val(s'), p) == Bit(Val(s), p - r);
      } else {
        assert p < 64 * (q + i) && (p - r) / 64 < q + i;
        assert Bit(Val(s'), p) == Bit(Val(s), p);
        assert Bit(Val(s), p) == Bit(Val(s), p - r);
      }
      assert Bit(Val(s'), p - r) == Bit(Val(s), p - r);
    }
  }

  /** The completed last word of the first copy. */
  lemma CompletedPair(first: Word, last: Word, r: nat, j: nat)
    requires 0 < Lead(r) < 64 && j < 64
    ensures Bit(WOr(WShl(first, Lead(r)), WAnd(last, LastMask(r))), j)
            == if j < Lead(r) then Bit(last, j) else Bit(first, j - Lead(r))
  {
    hide RawBit, Bit, WOr, WShl, WAnd, LastMask, Lead;
  }

  /** The first assignment of dup: the last word of the first copy is completed. */
  lemma DupFirst(s: seq<Word>, r: nat)
    requires GoodR(r) && |s| == 3 * QWords(r) && QWords(r) >= 2
    ensures var q := QWords(r);
            var t := s[q - 1 := WOr(WShl(s[0], Lead(r)), WAnd(s[q - 1], LastMask(r)))];
            PeriodicTo(t, r, 64 * q) && forall p: nat :: p < r ==> Bit(Val(t), p) == Bit(Val(s), p)
  {
    hide RawBit, Bit, Val, QWords, Lead, Trail, WOr, WShl, WAnd, LastMask;
    RShape(r);
    var q := QWords(r);
    var w := WOr(WShl(s[0], Lead(r)), WAnd(s[q - 1], LastMask(r)));
    var t := s[q - 1 := w];
    forall j: nat | j < 64 ensures Bit(w, j) == if j < Lead(r) then Bit(s[q - 1], j) else Bit(s[0], j - Lead(r)) {
      CompletedPair(s[0], s[q - 1], r, j);
    }
    forall p: nat | p < 64 * q ensures Bit(Val(t), p) == Bit(Val(s), if p < r then p else p - r) {
      DupFirstBit(s, w, r, p);
    }
  }

  lemma DupFirstBit(s: seq<Word>, w: Word, r: nat, p: nat)
    requires GoodR(r) && |s| == 3 * QWords(r) && QWords(r) >= 2 && p < 64 * QWords(r)
    requires forall j: nat :: j < 64 ==>
             Bit(w, j) == if j < Lead(r) then Bit(s[QWords(r) - 1], j) else j >= Lead(r) && Bit(s[0], j - Lead(r))
    ensures Bit(Val(s[QWords(r) - 1 := w]), p) == Bit(Val(s), if p < r then p else p - r)
  {
    hide RawBit, Bit, Val, QWords, Lead, Trail;
    RShape(r);
    var q, j := QWords(r), p % 64;
    WithWord(s, q - 1, w);
    if p / 64 == q - 1 {
      assert p == 64 * (q - 1) + j;
      if j >= Lead(r) { DivModUnique(p - r, 64, 0, j - Lead(r)); }
    }
  }

  lemma PeriodicIsRem(s: seq<Word>, r: nat, end: nat, p: nat)
    requires r > 0 && PeriodicTo(s, r, end) && p < end
    ensures Bit(Val(s), p) == Bit(Val(s), Rem(p, r))
  {
    hide RawBit, Bit, Val, Rem;
    if p < r {
      RemSmall(p, r);
    } else {
      PeriodicIsRem(s, r, end, p - r);
      RemMultiple(p - r, 1, r);
      assert Times(1, r) == r;
    }
  }

  /** dup_port: three copies of the first r bits. */
  method DupPort(s: array<Word>, r: nat)
    requires GoodR(r) && s.Length == 3 * QWords(r) && QWords(r) >= 2
    modifies s
    ensures Repeats(s[..], Low(Val(old(s[..])), r), r)
    ensures s[s.Length - 1] == old(s[s.Length - 1])
  {
    hide RawBit, Bit, Val, QWords, DupWord, Lead, Trail, WOr, WShl, WShr, WAnd, LastMask, Low, Rem, PeriodicTo;
    var q := QWords(r);
    ghost var s0 := s[..];
    DupFirst(s[..], r);
    s[q - 1] := WOr(WShl(s[0], Lead(r)), WAnd(s[q - 1], LastMask(r)));
    for i := 0 to 2 * q - 1
      invariant PeriodicTo(s[..], r, 64 * (q + i))
      invariant forall p: nat :: p < r ==> Bit(Val(s[..]), p) == Bit(Val(s0), p)
      invariant s[s.Length - 1] == s0[s.Length - 1]
    {
      DupStep(s[..], r, i);
      DupWordDef(s[..], r, i);
      ghost var was := s[..];
      s[q + i] := WOr(WShr(s[i], Trail(r)), WShl(s[i + 1], Lead(r)));
      assert s[..] == was[q + i := DupWord(was, r, i)];
    }
    forall p: nat | p < 64 * (3 * q - 1) ensures Bit(Val(s[..]), p) == Bit(Low(Val(s0), r), Rem(p, r)) {
      PeriodicIsRem(s[..], r, 64 * (3 * q - 1), p);
    }
  }

  lemma DupWordDef(s: seq<Word>, r: nat, i: nat)
    requires i + 1 < |s|
    ensures DupWord(s, r, i) == WOr(WShr(s[i], Trail(r)), WShl(s[i + 1], Lead(r)))
  {
  }

  /** Duplicating again changes nothing. */
  lemma DupIdempotent(s: seq<Word>, t: seq<Word>, v: nat, r: nat)
    requires GoodR(r) && QWords(r) >= 2 && Repeats(s, v, r) && Repeats(t, Low(Val(s), r), r)
    requires t[|t| - 1] == s[|s| - 1]
    ensures s == t
  {
    hide RawBit, Bit, Val, QWords, Low, Rem;
    var q := QWords(r);
    RShape(r);
    forall p: nat ensures Bit(Val(s), p) == Bit(Val(t), p) {
      if p < 64 * (3 * q - 1) {
        RemSmall(Rem(p, r), r);
        assert Bit(Val(s), Rem(p, r)) == Bit(v, Rem(Rem(p, r), r));
      } else if p < 64 * (3 * q) {
        assert p / 64 == 3 * q - 1;
      }
    }
    Ext(Val(s), Val(t));
    ValInjective(s, t);
  }

  // ----- Rotation

  /** (x & ~mask) | (y & mask). */
  function Select(x: Word, y: Word, mask: Word): (z: Word)
    requires mask == 0 || mask == MAX64
    ensures z == if mask == 0 then x else y
  {
    SelectIs(x, y, mask);
    WOr(WAnd(x, WNot(mask)), WAnd(y, mask))
  }

  lemma SelectIs(x: Word, y: Word, mask: Word)
    requires mask == 0 || mask == MAX64
    ensures WOr(WAnd(x, WNot(mask)), WAnd(y, mask)) == if mask == 0 then x else y
  {
    hide RawBit, Bit, WOr, WAnd, WNot, Mask;
    Pow2Words();
    assert Mask(64) == MAX64;
    Ext(WOr(WAnd(x, WNot(mask)), WAnd(y, mask)), if mask == 0 then x else y);
  }

  /** The 64-bit mask of one barrel step, from the 32-bit comparison: all ones when qw >= idx. */
  function StepMask(qw: Dword, idx: Dword): (mask: Word)
    ensures mask == if qw >= idx then MAX64 else 0
  {
    Sub64((SecureL32Mask(qw, idx) + 1) % TWO32, 1)
  }

  /** *out = *in. */
  method CopyWords(out: array<Word>, inp: array<Word>)
    requires out.Length == inp.Length && out != inp
    modifies out
    ensures out[..] == inp[..]
  {
    for i := 0 to out.Length
      invariant forall k :: 0 <= k < i ==> out[k] == inp[k]
    {
      out[i] := inp[i];
    }
  }

  /** The first n words of out are those of inp from index shift on. */
  ghost predicate MovedDown(out: seq<Word>, inp: seq<Word>, n: nat, shift: nat) {
    n <= |out| && n + shift <= |inp| && forall k :: 0 <= k < n ==> out[k] == inp[k + shift]
  }

  /** The number of words by which rotr_big rotates when asked for qw: the steps add up to one less than twice the
      largest. */
  function BigShift(qw: nat, q: nat): nat
    requires q >= 2
  {
    var top := UptoPow2(q / 2);
    if qw < 2 * top then qw else 2 * top - 1
  }

  /** rotr_big: a right rotation by words, in log2 steps of halving size.  Every step keeps the words that the
      smaller steps still need. */
  method RotrBig(out: array<Word>, inp: array<Word>, qw: Dword, q: nat)
    requires q >= 2 && out.Length == inp.Length == 3 * q && out != inp && 3 * q < TWO32
    modifies out
    ensures MovedDown(out[..], inp[..], q + 1, BigShift(qw, q))
  {
    hide RawBit, Bit, UptoPow2, StepMask, Select, BitLength, MovedDown, Pow2, Progress, Span, BigShift;
    UptoPow2Correct(q / 2);
    CopyWords(out, inp);
    var idx := UptoPow2(q / 2);
    ghost var top := idx;
    ghost var n := BitLength(q / 2 - 1);
    var left: nat := qw;
    MovedNone(out[..], inp[..], q + 2 * top);
    ProgressStart(qw, top);
    while idx >= 1
      invariant (idx == 0 || idx == Pow2(n)) && Progress(qw, left, idx, top)
      invariant 0 <= left <= qw && MovedDown(out[..], inp[..], q + Span(idx), qw - left)
      decreases idx
    {
      ProgressStep(qw, left, idx, top, n);
      var mask := StepMask(left, idx);
      ghost var done := qw - left;
      left := left - (if mask == 0 then 0 else idx);
      BarrelPass(out, inp, idx, mask, q, done);
      if idx > 1 { n := n - 1; }
      idx := idx / 2;
    }
    ProgressEnd(qw, left, q);
  }

  /** The words past the q first ones that the steps from idx down still need. */
  function Span(idx: nat): nat { if idx == 0 then 1 else 2 * idx }

  /** What is left of the shift before the step of size idx. */
  ghost predicate Progress(qw: nat, left: nat, idx: nat, top: nat) {
    && left <= qw && 2 * idx + (qw - left) <= 2 * top
    && if qw < 2 * top then left < Span(idx) else qw - left == 2 * top - Span(idx)
  }

  lemma ProgressStart(qw: nat, top: nat)
    requires top > 0
    ensures Progress(qw, qw, top, top) && Span(top) == 2 * top
  {
  }

  lemma ProgressStep(qw: nat, left: nat, idx: nat, top: nat, n: nat)
    requires Progress(qw, left, idx, top) && idx == Pow2(n)
    ensures left <= qw && 2 * idx + (qw - left) <= 2 * top && Span(idx) == 2 * idx && Span(idx / 2) == idx
    ensures Progress(qw, if left >= idx then left - idx else left, idx / 2, top)
    ensures if idx > 1 then n > 0 && idx / 2 == Pow2(n - 1) else idx / 2 == 0
  {
    hide Pow2;
    Pow2Def(n);
    if n > 0 { DivModUnique(idx, 2, Pow2(n - 1), 0); }
  }

  lemma ProgressEnd(qw: nat, left: nat, q: nat)
    requires q >= 2 && Progress(qw, left, 0, UptoPow2(q / 2))
    ensures left <= qw && Span(0) == 1 && qw - left == BigShift(qw, q)
  {
    hide UptoPow2;
  }

  lemma MovedNone(out: seq<Word>, inp: seq<Word>, n: nat)
    requires out == inp && n <= |inp|
    ensures MovedDown(out, inp, n, 0)
  {
  }

  /** One pass of the barrel shifter over the first q + idx words. */
  method BarrelPass(out: array<Word>, inp: array<Word>, idx: nat, mask: Word, q: nat, ghost done: nat)
    requires out.Length == inp.Length == 3 * q && out != inp && idx >= 1
    requires mask == 0 || mask == MAX64
    requires q + 2 * idx + done <= 3 * q && MovedDown(out[..], inp[..], q + 2 * idx, done)
    modifies out
    ensures MovedDown(out[..], inp[..], q + idx, done + (if mask == 0 then 0 else idx))
  {
    hide RawBit, Bit, Select;
    for i := 0 to q + idx
      invariant forall k :: 0 <= k < i ==> out[k] == inp[k + done + (if mask == 0 then 0 else idx)]
      invariant forall k :: i <= k < q + 2 * idx ==> out[k] == inp[k + done]
    {
      out[i] := Select(out[i], out[i + idx], mask);
    }
  }

  /** One word of rotr_small. */
  function SmallWord(low: Word, next: Word, bits: nat): (w: Word)
    requires bits < 64
    ensures forall j: nat :: Bit(w, j) ==
              (j < 64 && if j + bits < 64 then Bit(low, j + bits) else Bit(next, j + bits - 64))
  {
    SmallWordBits(low, next, bits);
    WOr(WShr(low, bits), WAnd(WShl(next, if bits == 0 then 0 else 64 - bits), if bits == 0 then 0 else MAX64))
  }

  lemma SmallWordBits(low: Word, next: Word, bits: nat)
    requires bits < 64
    ensures var up, mask := if bits == 0 then 0 else 64 - bits, if bits == 0 then 0 else MAX64;
            var w := WOr(WShr(low, bits), WAnd(WShl(next, up), mask));
            forall j: nat :: Bit(w, j) ==
              (j < 64 && if j + bits < 64 then Bit(low, j + bits) else Bit(next, j + bits - 64))
  {
    hide RawBit, Bit, WOr, WAnd, WShl, WShr, Mask;
    Pow2Words();
    assert Mask(64) == MAX64;
  }

  /** rotr_small, which is called in place. */
  method RotrSmall(s: array<Word>, bits: nat, q: nat)
    requires bits < 64 && q < s.Length
    modifies s
    ensures forall i :: 0 <= i < q ==> s[i] == SmallWord(old(s[i]), old(s[i + 1]), bits)
  {
    hide RawBit, Bit, SmallWord;
    for i := 0 to q
      invariant forall k :: 0 <= k < i ==> s[k] == SmallWord(old(s[k]), old(s[k + 1]), bits)
      invariant forall k :: i <= k < s.Length ==> s[k] == old(s[k])
    {
      SmallWordDef(s[i], s[i + 1], bits);
      var mask := Sub64(0, if bits != 0 then 1 else 0);
      var highShift := if mask == 0 then 0 else 64 - bits;
      var lowPart := WShr(s[i], bits);
      var highPart := WAnd(WShl(s[i + 1], highShift), mask);
      s[i] := WOr(lowPart, highPart);
    }
  }

  lemma SmallWordDef(low: Word, next: Word, bits: nat)
    requires bits < 64
    ensures var mask := Sub64(0, if bits != 0 then 1 else 0);
            var highShift := if mask == 0 then 0 else 64 - bits;
            SmallWord(low, next, bits) == WOr(WShr(low, bits), WAnd(WShl(next, highShift), mask))
  {
    hide RawBit, Bit, WOr, WAnd, WShl, WShr;
  }

  /** The number of bits by which rotate_right_port rotates when asked for n. */
  function Shift(n: nat, q: nat): nat
    requires q >= 2
  {
    64 * BigShift(n / 64, q) + n % 64
  }

  /** A request below 128 * UPTOPOW2(q / 2) is met.  Others are cut down to the largest of those with the same bit
      offset,
      and whatever the request, the words read are words of the triplicated syndrome that continue its period. */
  lemma ShiftInRange(n: nat, q: nat)
    requires 2 <= q < TWO32
    ensures n < 128 * UptoPow2(q / 2) <==> Shift(n, q) == n
    ensures n >= 128 * UptoPow2(q / 2) ==> 128 * UptoPow2(q / 2) - 64 <= Shift(n, q) < 128 * UptoPow2(q / 2)
    ensures Shift(n, q) % 64 == n % 64
    ensures 64 * q + Shift(n, q) <= 64 * (3 * q - 1)
  {
    hide UptoPow2;
    UptoPow2Correct(q / 2);
  }

  /** The rotations that a list of indices asks for. */
  function Shifts(w: seq<Dword>, q: nat): (s: seq<nat>)
    requires q >= 2
    ensures |s| == |w| && forall j :: 0 <= j < |w| ==> s[j] == Shift(w[j], q)
  {
    seq(|w|, j requires 0 <= j < |w| => Shift(w[j], q))
  }

  /** rotate_right_port: bit p of the result is bit p + Shift(n) of the input, for every p in the first q words. */
  method RotateRightPort(out: array<Word>, inp: array<Word>, n: Dword, q: nat)
    requires q >= 2 && out.Length == inp.Length == 3 * q && out != inp && 3 * q < TWO32
    modifies out
    ensures forall p: nat :: p < 64 * q ==> Bit(Val(out[..]), p) == Bit(Val(inp[..]), p + Shift(n, q))
  {
    hide RawBit, Bit, Val, BigShift, SmallWord, MovedDown, Shift, UptoPow2;
    RotrBig(out, inp, n / 64, q);
    ghost var mid := out[..];
    RotrSmall(out, n % 64, q);
    RotatedBits(out[..], mid, inp[..], n, q);
  }

  lemma RotatedBits(out: seq<Word>, mid: seq<Word>, s: seq<Word>, n: nat, q: nat)
    requires q >= 2 && |out| == |mid| == |s| == 3 * q && MovedDown(mid, s, q + 1, BigShift(n / 64, q))
    requires forall i :: 0 <= i < q ==> out[i] == SmallWord(mid[i], mid[i + 1], n % 64)
    ensures forall p: nat :: p < 64 * q ==> Bit(Val(out), p) == Bit(Val(s), p + Shift(n, q))
  {
    hide RawBit, Bit, Val, SmallWord, BigShift;
    forall p: nat | p < 64 * q ensures Bit(Val(out), p) == Bit(Val(s), p + Shift(n, q)) {
      var i := p / 64;
      assert i < q;
      assert out[i] == SmallWord(mid[i], mid[i + 1], n % 64);
      RotatedBit(out, s, p, BigShift(n / 64, q), n % 64);
    }
  }

  lemma RotatedBit(out: seq<Word>, s: seq<Word>, p: nat, big: nat, bits: nat)
    requires p / 64 < |out| && p / 64 + 1 + big < |s| && bits < 64
    requires out[p / 64] == SmallWord(s[p / 64 + big], s[p / 64 + 1 + big], bits)
    ensures Bit(Val(out), p) == Bit(Val(s), p + (64 * big + bits))
  {
    hide RawBit, Bit, Val, SmallWord;
    var i, j, n := p / 64, p % 64, p + (64 * big + bits);
    if j + bits < 64 {
      DivModUnique(n, 64, i + big, j + bits);
    } else {
      DivModUnique(n, 64, i + 1 + big, j + bits - 64);
    }
  }

  /** On a triplicated syndrome the rotation is cyclic. */
  lemma RotationIsCyclic(out: seq<Word>, s: seq<Word>, v: nat, n: nat, r: nat)
    requires GoodR(r) && Repeats(s, v, r) && QWords(r) >= 2 && 64 * QWords(r) + n <= 64 * (3 * QWords(r) - 1)
    requires forall p: nat :: p < 64 * QWords(r) ==> Bit(Val(out), p) == Bit(Val(s), p + n)
    ensures forall p: nat :: p < r ==> Bit(Val(out), p) == Bit(v, Rem(p + n, r))
  {
    hide RawBit, Bit, Val, Rem, QWords, Lead, Trail;
    RShape(r);
  }
}
