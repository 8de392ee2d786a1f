/** The counter kernels of the portable decoder, over the array of slices. */
module DecodePortable {
  import opened Bits
  import opened Words
  import opened BitSlice

  /** The slices of the counter array. */
  ghost function RowsOf(upc: array2<Word>): (u: Rows)
    reads upc
    ensures Shape(u, upc.Length0, upc.Length1)
    ensures forall j, i :: 0 <= j < upc.Length0 && 0 <= i < upc.Length1 ==> u[j][i] == upc[j, i]
  {
    seq(upc.Length0, j requires 0 <= j < upc.Length0 reads upc =>
      seq(upc.Length1, i requires 0 <= i < upc.Length1 && 0 <= j < upc.Length0 reads upc => upc[j, i]))
  }

  lemma RowsEqual(u: Rows, t: Rows, slices: nat, q: nat)
    requires Shape(u, slices, q) && Shape(t, slices, q)
    requires forall j, i :: 0 <= j < slices && 0 <= i < q ==> u[j][i] == t[j][i]
    ensures u == t
  {
    forall j | 0 <= j < slices ensures u[j] == t[j] { }
  }

  /** bike_memset(&upc, 0, sizeof(upc)). */
  method ClearUpc(upc: array2<Word>)
    modifies upc
    ensures forall j, i :: 0 <= j < upc.Length0 && 0 <= i < upc.Length1 ==> upc[j, i] == 0
  {
    for j := 0 to upc.Length0
      invariant forall k, i :: 0 <= k < j && 0 <= i < upc.Length1 ==> upc[k, i] == 0
    {
      for i := 0 to upc.Length1
        invariant forall k, l :: 0 <= k < j && 0 <= l < upc.Length1 ==> upc[k, l] == 0
        invariant forall l :: 0 <= l < i ==> upc[j, l] == 0
      {
        upc[j, i] := 0;
      }
    }
  }

  lemma ClearedColumn(u: Rows, n: nat, p: nat)
    requires n <= |u| && forall j :: 0 <= j < n ==> forall i :: 0 <= i < |u[j]| ==> u[j][i] == 0
    ensures Column(u, n, p) == 0
  {
    hide RawBit, Bit, Val;
    if n > 0 {
      ClearedColumn(u, n - 1, p);
      ValZero(u[n - 1]);
    }
  }

  /** One row of the adder: slice j becomes slice ^ x and x becomes slice & x. */
  method AddRow(upc: array2<Word>, j: nat, x: array<Word>)
    requires j < upc.Length0 && upc.Length1 <= x.Length
    modifies upc, x
    ensures RowsOf(upc) == old(RowsOf(upc))[j := XorSeq(old(RowsOf(upc))[j], old(x[..upc.Length1]))]
    ensures x[..upc.Length1] == AndSeq(old(RowsOf(upc))[j], old(x[..upc.Length1]))
  {
    hide RawBit, Bit, WXor, WAnd, Xor, XorSeq, AndSeq, RowsOf;
    ghost var u, y, q := RowsOf(upc), x[..upc.Length1], upc.Length1;
    for i := 0 to upc.Length1
      invariant forall k, l :: 0 <= k < upc.Length0 && 0 <= l < q ==>
                  upc[k, l] == if k == j && l < i then XorSeq(u[j], y)[l] else u[k][l]
      invariant forall l :: 0 <= l < q ==> x[l] == if l < i then AndSeq(u[j], y)[l] else y[l]
    {
      var carry := WAnd(upc[j, i], x[i]);
      upc[j, i] := WXor(upc[j, i], x[i]);
      x[i] := carry;
    }
    RowsEqual(RowsOf(upc), u[j := XorSeq(u[j], y)], upc.Length0, q);
  }

  /** bit_sliced_adder_port. */
  method BitSlicedAdderPort(upc: array2<Word>, x: array<Word>, numOfSlices: nat)
    requires numOfSlices <= upc.Length0 && upc.Length1 <= x.Length
    modifies upc, x
    ensures RowsOf(upc) == SliceAdd(old(RowsOf(upc)), old(x[..upc.Length1]), 0, numOfSlices).0
    ensures x[..upc.Length1] == SliceAdd(old(RowsOf(upc)), old(x[..upc.Length1]), 0, numOfSlices).1
  {
    hide RawBit, Bit, XorSeq, AndSeq, RowsOf;
    ghost var u, y, q := RowsOf(upc), x[..upc.Length1], upc.Length1;
    for j := 0 to numOfSlices
      invariant SliceAdd(RowsOf(upc), x[..q], j, numOfSlices) == SliceAdd(u, y, 0, numOfSlices)
    {
      AddRow(upc, j, x);
    }
  }

  /** One row of the subtractor. */
  method SubtractRow(upc: array2<Word>, j: nat, b: Word, br: array<Word>)
    requires j < upc.Length0 && upc.Length1 == br.Length
    modifies upc, br
    ensures RowsOf(upc) == old(RowsOf(upc))[j := DiffSeq(old(RowsOf(upc))[j], b, old(br[..]))]
    ensures br[..] == BorrowSeq(old(RowsOf(upc))[j], b, old(br[..]))
  {
    hide RawBit, Bit, DiffWord, BorrowWord, DiffSeq, BorrowSeq, RowsOf;
    ghost var u, y, q := RowsOf(upc), br[..], upc.Length1;
    for i := 0 to upc.Length1
      invariant forall k, l :: 0 <= k < upc.Length0 && 0 <= l < q ==>
                  upc[k, l] == if k == j && l < i then DiffSeq(u[j], b, y)[l] else u[k][l]
      invariant forall l :: 0 <= l < q ==> br[l] == if l < i then BorrowSeq(u[j], b, y)[l] else y[l]
    {
      var a := upc[j, i];
      var tmp := BorrowWord(a, b, br[i]);
      upc[j, i] := DiffWord(a, b, br[i]);
      br[i] := tmp;
    }
    RowsEqual(RowsOf(upc), u[j := DiffSeq(u[j], b, y)], upc.Length0, q);
  }

  /** bit_slice_full_subtract_port. */
  method BitSliceFullSubtractPort(upc: array2<Word>, val: Byte)
    modifies upc
    ensures exists br: seq<Word> :: |br| == upc.Length1 && Val(br) == 0 &&
              RowsOf(upc) == SliceSub(old(RowsOf(upc)), br, val, 0).0
  {
    hide RawBit, Bit, Val, DiffSeq, BorrowSeq, RowsOf;
    var br := new Word[upc.Length1](_ => 0);
    ghost var u, zero := RowsOf(upc), br[..];
    ValZero(zero);
    var v: nat := val;
    for j := 0 to upc.Length0
      invariant SliceSub(RowsOf(upc), br[..], v, j).0 == SliceSub(u, zero, val, 0).0
      invariant fresh(br) && br.Length == upc.Length1
    {
      var lsbMask := LsbMask(v);
      v := v / 2;
      SubtractRow(upc, j, lsbMask, br);
    }
  }
}
