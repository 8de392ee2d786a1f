/** Bit-sliced counters: slice j holds bit j of 64 * q counters side by side. */
module BitSlice {
  import opened Bits
  import opened Words
  import opened Utilities

  /** Slices as values, one row of q words per slice. */
  type Rows = seq<seq<Word>>

  ghost predicate Shape(u: Rows, slices: nat, q: nat) {
    |u| == slices && forall j :: 0 <= j < slices ==> |u[j]| == q
  }

  /** The number whose bit j, for j < n, is bit p of slice j. */
  function Column(u: Rows, n: nat, p: nat): nat
    requires n <= |u|
  {
    if n == 0 then 0 else Column(u, n - 1, p) + (if Bit(Val(u[n - 1]), p) then Pow2(n - 1) else 0)
  }

  lemma ColumnBound(u: Rows, n: nat, p: nat)
    requires n <= |u|
    ensures Column(u, n, p) < Pow2(n)
  {
    hide RawBit, Bit, Val;
    if n > 0 { ColumnBound(u, n - 1, p); }
  }

  lemma ColumnSame(u: Rows, t: Rows, n: nat, p: nat)
    requires n <= |u| && n <= |t| && forall j :: 0 <= j < n ==> u[j] == t[j]
    ensures Column(u, n, p) == Column(t, n, p)
  {
    hide RawBit, Bit, Val;
    if n > 0 { ColumnSame(u, t, n - 1, p); }
  }

  function AndSeq(s: seq<Word>, t: seq<Word>): (u: seq<Word>)
    requires |s| == |t|
    ensures |u| == |s| && forall k :: 0 <= k < |u| ==> u[k] == WAnd(s[k], t[k])
  {
    seq(|s|, k requires 0 <= k < |s| => WAnd(s[k], t[k]))
  }

  lemma SeqBits(s: seq<Word>, t: seq<Word>, p: nat)
    requires |s| == |t|
    ensures Bit(Val(XorSeq(s, t)), p) == (Bit(Val(s), p) != Bit(Val(t), p))
    ensures Bit(Val(AndSeq(s, t)), p) == (Bit(Val(s), p) && Bit(Val(t), p))
  {
    hide RawBit, Bit, Val, WXor, WAnd, XorSeq, AndSeq, Xor;
  }

  // ----- The sliced adder

  /** Adding x to slices j, .., n - 1 and propagating the carry: the new slices and the carry left over. */
  function SliceAdd(u: Rows, x: seq<Word>, j: nat, n: nat): (r: (Rows, seq<Word>))
    requires n <= |u| && forall k :: j <= k < n ==> |u[k]| == |x|
    ensures |r.0| == |u| && |r.1| == |x|
    ensures forall k :: 0 <= k < |u| ==> |r.0[k]| == |u[k]|
    ensures forall k :: 0 <= k < |u| && !(j <= k < n) ==> r.0[k] == u[k]
    decreases n - j
  {
    if j >= n then (u, x)
    else SliceAdd(u[j := XorSeq(u[j], x)], AndSeq(u[j], x), j + 1, n)
  }

  /** In every column the low n bits of the counter plus the incoming bit, with the leftover carry as bit n. */
  lemma {:induction false} SliceAddColumn(u: Rows, x: seq<Word>, j: nat, n: nat, p: nat)
    requires j <= n <= |u| && forall k :: j <= k < n ==> |u[k]| == |x|
    ensures var (t, carry) := SliceAdd(u, x, j, n);
            Column(t, n, p) + (if Bit(Val(carry), p) then Pow2(n) else 0)
            == Column(u, n, p) + (if Bit(Val(x), p) then Pow2(j) else 0)
    decreases n - j
  {
    hide RawBit, Bit, Val, XorSeq, AndSeq;
    if j < n {
      var u', x' := u[j := XorSeq(u[j], x)], AndSeq(u[j], x);
      SliceAddColumn(u', x', j + 1, n, p);
      SeqBits(u[j], x, p);
      ColumnChange(u, j, n, XorSeq(u[j], x), p);
    }
  }

  /** Replacing slice j changes every column by the change of its bit j. */
  lemma {:induction false} ColumnChange(u: Rows, j: nat, n: nat, row: seq<Word>, p: nat)
    requires j < n <= |u|
    ensures Column(u[j := row], n, p) - (if Bit(Val(row), p) then Pow2(j) else 0)
         == Column(u, n, p) - (if Bit(Val(u[j]), p) then Pow2(j) else 0)
  {
    hide RawBit, Bit, Val, Pow2;
    if j == n - 1 {
      ColumnSame(u[j := row], u, j, p);
    } else {
      ColumnChange(u, j, n - 1, row, p);
    }
  }

  /** When the counter has room, the sum is exact and no carry is lost. */
  lemma SliceAddExact(u: Rows, x: seq<Word>, n: nat, p: nat)
    requires n <= |u| && forall k :: 0 <= k < n ==> |u[k]| == |x|
    requires Column(u, n, p) + 1 < Pow2(n)
    ensures Column(SliceAdd(u, x, 0, n).0, n, p) == Column(u, n, p) + (if Bit(Val(x), p) then 1 else 0)
    ensures !Bit(Val(SliceAdd(u, x, 0, n).1), p)
  {
    hide RawBit, Bit, Val, SliceAdd;
    SliceAddColumn(u, x, 0, n, p);
    assert Pow2(0) == 1;
  }

  // ----- The sliced subtraction

  /** lsb_mask. */
  function LsbMask(val: nat): (m: Word)
    ensures m == if val % 2 == 1 then MAX64 else 0
  {
    if val % 2 == 1 then Sub64(0, 1) else 0
  }

  /** a ^ b ^ br. */
  function DiffWord(a: Word, b: Word, br: Word): Word {
    WXor(WXor(a, b), br)
  }

  /** The new borrow: ((~a) & b & (~br)) | (((~a) | b) & br). */
  function BorrowWord(a: Word, b: Word, br: Word): Word {
    WOr(WAnd(WAnd(WNot(a), b), WNot(br)), WAnd(WOr(WNot(a), b), br))
  }

  lemma SubtractBits(a: Word, b: Word, br: Word, k: nat)
    requires k < 64 && (b == 0 || b == MAX64)
    ensures Bit(DiffWord(a, b, br), k) == ((Bit(a, k) != (b != 0)) != Bit(br, k))
    ensures Bit(BorrowWord(a, b, br), k) ==
              ((!Bit(a, k) && b != 0 && !Bit(br, k)) || ((!Bit(a, k) || b != 0) && Bit(br, k)))
  {
    hide RawBit, Bit, WXor, WOr, WAnd, WNot, Xor, Mask;
    Pow2Words();
    assert Mask(64) == MAX64;
  }

  function DiffSeq(s: seq<Word>, b: Word, br: seq<Word>): (u: seq<Word>)
    requires |s| == |br|
    ensures |u| == |s| && forall k :: 0 <= k < |u| ==> u[k] == DiffWord(s[k], b, br[k])
  {
    seq(|s|, k requires 0 <= k < |s| => DiffWord(s[k], b, br[k]))
  }

  function BorrowSeq(s: seq<Word>, b: Word, br: seq<Word>): (u: seq<Word>)
    requires |s| == |br|
    ensures |u| == |s| && forall k :: 0 <= k < |u| ==> u[k] == BorrowWord(s[k], b, br[k])
  {
    seq(|s|, k requires 0 <= k < |s| => BorrowWord(s[k], b, br[k]))
  }

  lemma SubtractSeqBits(s: seq<Word>, b: Word, br: seq<Word>, p: nat)
    requires |s| == |br| && (b == 0 || b == MAX64) && p < 64 * |s|
    ensures Bit(Val(DiffSeq(s, b, br)), p) == ((Bit(Val(s), p) != (b != 0)) != Bit(Val(br), p))
    ensures Bit(Val(BorrowSeq(s, b, br)), p) ==
              ((!Bit(Val(s), p) && b != 0 && !Bit(Val(br), p)) || ((!Bit(Val(s), p) || b != 0) && Bit(Val(br), p)))
  {
    hide RawBit, Bit, Val, DiffSeq, BorrowSeq, DiffWord, BorrowWord;
    SubtractBits(s[p / 64], b, br[p / 64], p % 64);
  }

  /** Subtracting val from slices j, j + 1, .. with incoming borrow br. */
  function SliceSub(u: Rows, br: seq<Word>, val: nat, j: nat): (r: (Rows, seq<Word>))
    requires j <= |u| && forall k :: j <= k < |u| ==> |u[k]| == |br|
    ensures |r.0| == |u| && |r.1| == |br|
    ensures forall k :: 0 <= k < |u| ==> |r.0[k]| == |u[k]|
    ensures forall k :: 0 <= k < j ==> r.0[k] == u[k]
    decreases |u| - j
  {
    if j == |u| then (u, br)
    else
      SliceSub(u[j := DiffSeq(u[j], LsbMask(val), br)], BorrowSeq(u[j], LsbMask(val), br), val / 2, j + 1)
  }

  /** Ripple borrow in every column: the difference, with the final borrow as the missing power of two. */
  lemma {:induction false} SliceSubColumn(u: Rows, br: seq<Word>, val: nat, j: nat, p: nat)
    requires j <= |u| && p < 64 * |br| && forall k :: j <= k < |u| ==> |u[k]| == |br|
    requires val < Pow2(|u| - j)
    ensures var (t, out) := SliceSub(u, br, val, j);
            Column(t, |u|, p) + val * Pow2(j) + (if Bit(Val(br), p) then Pow2(j) else 0)
            == Column(u, |u|, p) + (if Bit(Val(out), p) then Pow2(|u|) else 0)
    decreases |u| - j
  {
    hide RawBit, Bit, Val, DiffSeq, BorrowSeq, DiffWord, BorrowWord;
    if j < |u| {
      var b := LsbMask(val);
      var u', br' := u[j := DiffSeq(u[j], b, br)], BorrowSeq(u[j], b, br);
      SliceSubColumn(u', br', val / 2, j + 1, p);
      SubtractSeqBits(u[j], b, br, p);
      ColumnChange(u, j, |u|, DiffSeq(u[j], b, br), p);
      ValHalf(val, j);
    } else {
      assert Pow2(0) == 1;
    }
  }

  lemma ValHalf(val: nat, j: nat)
    ensures val * Pow2(j) == (val / 2) * Pow2(j + 1) + (if val % 2 == 1 then Pow2(j) else 0)
  {
    var h := Pow2(j);
    assert val == 2 * (val / 2) + val % 2;
    assert (val / 2) * (2 * h) == (2 * (val / 2)) * h;
    if val % 2 == 1 { assert val * h == (2 * (val / 2)) * h + h; }
  }

  /** The whole subtraction: the difference modulo the range of the counter. */
  lemma SliceSubExact(u: Rows, br: seq<Word>, val: nat, p: nat)
    requires |u| > 0 && p < 64 * |br| && forall k :: 0 <= k < |u| ==> |u[k]| == |br|
    requires !Bit(Val(br), p)
    requires val < Pow2(|u|)
    ensures var t := SliceSub(u, br, val, 0).0;
            Column(t, |u|, p) == if Column(u, |u|, p) >= val then Column(u, |u|, p) - val
                                 else Column(u, |u|, p) + Pow2(|u|) - val
  {
    hide RawBit, Bit, Val, SliceSub;
    SliceSubColumn(u, br, val, 0, p);
    ColumnBound(SliceSub(u, br, val, 0).0, |u|, p);
    ColumnBound(u, |u|, p);
    assert Pow2(0) == 1;
  }

  /** The last slice is the sign. */
  lemma SignSlice(u: Rows, p: nat)
    requires |u| > 0
    ensures Bit(Val(u[|u| - 1]), p) <==> Column(u, |u|, p) >= Pow2(|u| - 1)
  {
    hide RawBit, Bit, Val;
    ColumnBound(u, |u| - 1, p);
  }
}
