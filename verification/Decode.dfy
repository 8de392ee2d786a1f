/** The portable BGF decoder, refined to the polynomial decoder of module Bgf. */
module Decode {
  import opened Bits
  import opened Ring
  import opened Params
  import opened Words
  import opened RawBytes
  import opened Modular
  import opened Karatsuba
  import opened Gf2xMul
  import opened Gf2xSqr
  import opened Rotation
  import opened Utilities
  import opened BitSlice
  import opened DecodePortable
  import opened Threshold
  import opened Bgf
  import Gf2xInv

  // ----- Counting

  /** If the first n slices already hold the counter, the other slices are clear. */
  lemma {:induction false} ColumnLow(u: Rows, n: nat, m: nat, p: nat)
    requires n <= m <= |u| && Column(u, m, p) < Pow2(n)
    ensures Column(u, n, p) == Column(u, m, p)
  {
    hide RawBit, Bit, Val;
    if n < m {
      Pow2Monotone(n, m - 1);
      ColumnLow(u, n, m - 1, p);
    }
  }

  lemma {:induction false} ColumnExtend(u: Rows, t: Rows, n: nat, m: nat, p: nat)
    requires n <= m <= |u| && m <= |t| && forall j :: n <= j < m ==> u[j] == t[j]
    ensures Column(u, m, p) - Column(u, n, p) == Column(t, m, p) - Column(t, n, p)
  {
    hide RawBit, Bit, Val, Pow2;
    if n < m { ColumnExtend(u, t, n, m - 1, p); }
  }

  /** Adding one bit to a counter of at most j, in only LOG2_MSB(j + 1) slices, is exact. */
  lemma AddOne(u: Rows, x: seq<Word>, j: nat, slices: nat, p: nat)
    requires j < 511 && Shape(u, slices, |x|) && Log2Msb(j + 1) <= slices && Column(u, slices, p) <= j
    ensures var t := SliceAdd(u, x, 0, Log2Msb(j + 1)).0;
            Column(t, slices, p) == Column(u, slices, p) + (if Bit(Val(x), p) then 1 else 0)
  {
    hide RawBit, Bit, Val, SliceAdd, Column, Log2Msb, Pow2;
    var n := Log2Msb(j + 1);
    var t := SliceAdd(u, x, 0, n).0;
    Log2MsbTight(j + 1);
    ColumnLow(u, n, slices, p);
    SliceAddExact(u, x, n, p);
    ColumnExtend(u, t, n, slices, p);
  }

  lemma Log2Monotone(a: nat, b: nat)
    requires a <= b
    ensures Log2Msb(a) <= Log2Msb(b)
  {
  }

  /** The counters hold the number of unsatisfied checks among the first n indices. */
  ghost predicate Counts(u: Rows, v: nat, w: seq<nat>, n: nat, slices: nat, q: nat, r: nat)
    requires r > 0
  {
    Shape(u, slices, q) && n <= |w| &&
    (forall p: nat :: p < r ==> Column(u, slices, p) == Upc(v, w, p, n, r)) &&
    (forall p: nat :: p < 64 * q ==> Column(u, slices, p) <= n)
  }

  lemma CountStep(u: Rows, x: seq<Word>, v: nat, w: seq<nat>, n: nat, slices: nat, q: nat, r: nat)
    requires r > 0 && r <= 64 * q && Counts(u, v, w, n, slices, q, r) && n < |w| < 511 && |x| == q
    requires Log2Msb(n + 1) <= slices
    requires forall p: nat :: p < r ==> Bit(Val(x), p) == Bit(v, Rem(p + w[n], r))
    ensures Counts(SliceAdd(u, x, 0, Log2Msb(n + 1)).0, v, w, n + 1, slices, q, r)
  {
    hide RawBit, Bit, Val, SliceAdd, Column, Log2Msb, Rem;
    var t := SliceAdd(u, x, 0, Log2Msb(n + 1)).0;
    forall p: nat | p < 64 * q ensures Column(t, slices, p) <= n + 1 { AddOne(u, x, n, slices, p); }
    forall p: nat | p < r ensures Column(t, slices, p) == Upc(v, w, p, n + 1, r) { AddOne(u, x, n, slices, p); }
  }

  /** The lists and sizes for which the kernels are defined: wlist is the list of a key half, and w the rotations
      that it leads to. */
  ghost predicate Sizes(wlist: seq<Dword>, w: seq<nat>, q: nat, r: nat) {
    GoodR(r) && q == QWords(r) && q >= 2 && 3 * q < TWO32 && 0 < |w| < 511 && w == Shifts(wlist, q)
  }

  lemma PrefixBits(s: seq<Word>, n: nat)
    requires n <= |s|
    ensures forall p: nat :: p < 64 * n ==> Bit(Val(s[..n]), p) == Bit(Val(s), p)
  {
    hide RawBit, Bit, Val;
  }

  /** Step 1 of find_err1 and find_err2: the number of unsatisfied parity checks of every position. */
  method CountUpc(upc: array2<Word>, rotated: array<Word>, s: array<Word>, ghost v: nat, wlist: seq<Dword>,
                  ghost w: seq<nat>, q: nat, r: nat)
    requires Sizes(wlist, w, q, r) && upc.Length0 == Slices(|w|) && upc.Length1 == q
    requires rotated.Length == s.Length == 3 * q && rotated != s && Repeats(s[..], v, r)
    modifies upc, rotated
    ensures Counts(RowsOf(upc), v, w, |w|, Slices(|w|), q, r)
  {
    hide RawBit, Bit, Val, QWords, SliceAdd, Column, Log2Msb, Rem, UptoPow2, RowsOf, Repeats, Shift;
    RShape(r);
    ClearUpc(upc);
    ghost var rows := RowsOf(upc);
    forall p: nat ensures Column(rows, upc.Length0, p) == 0 { ClearedColumn(rows, upc.Length0, p); }
    for j := 0 to |wlist|
      invariant Counts(RowsOf(upc), v, w, j, Slices(|w|), q, r)
    {
      RotateRightPort(rotated, s, wlist[j], q);
      ShiftInRange(wlist[j], q);
      ghost var x := rotated[..q];
      PrefixBits(rotated[..], q);
      RotationIsCyclic(rotated[..], s[..], v, w[j], r);
      Log2Monotone(j + 1, |w|);
      CountStep(RowsOf(upc), x, v, w, j, Slices(|w|), q, r);
      BitSlicedAdderPort(upc, rotated, Log2Msb(j + 1));
    }
  }

  // ----- Classifying

  /** The last slice. */
  function LastSlice(upc: array2<Word>): (s: seq<Word>)
    requires upc.Length0 > 0
    reads upc
    ensures s == RowsOf(upc)[upc.Length0 - 1] && |s| == upc.Length1
  {
    var j := upc.Length0 - 1;
    seq(upc.Length1, i requires 0 <= i < upc.Length1 && 0 <= j < upc.Length0 reads upc => upc[j, i])
  }

  /** Step 3 of find_err1: black is the complement of the sign slice, and e flips where it is set. */
  method FlipBlack(e: array<Word>, black: array<Word>, last: seq<Word>, r: nat)
    requires GoodR(r) && QWords(r) <= e.Length && QWords(r) <= black.Length && QWords(r) <= |last| && e != black
    modifies e, black
    ensures forall p: nat :: p < 8 * RBytes(r) ==> Bit(Val(black[..]), p) == !Bit(Val(last), p)
    ensures forall p: nat :: Bit(Val(e[..]), p) ==
              if p < 8 * RBytes(r) then Bit(Val(old(e[..])), p) == Bit(Val(last), p) else Bit(Val(old(e[..])), p)
  {
    hide RawBit, Bit, Val, QWords, RBytes, GetByte, WithByte, ByteNot, ByteXor;
    RShape(r);
    for j := 0 to RBytes(r)
      invariant forall p: nat :: p < 8 * j ==> Bit(Val(black[..]), p) == !Bit(Val(last), p)
      invariant forall p: nat :: Bit(Val(e[..]), p) ==
                  if p < 8 * j then Bit(Val(old(e[..])), p) == Bit(Val(last), p) else Bit(Val(old(e[..])), p)
    {
      ValGetByte(last, j);
      ValGetByte(e[..], j);
      var sumMsb := ByteNot(GetByte(last, j));
      ValWithByte(black[..], j, sumMsb);
      ValWithByte(e[..], j, ByteXor(GetByte(e[..], j), sumMsb));
      StoreByte(black, j, sumMsb);
      StoreByte(e, j, ByteXor(GetByte(e[..], j), sumMsb));
    }
  }

  /** Step 5 of find_err1: gray is set where black is not and the sign slice is clear. */
  method MarkGray(gray: array<Word>, black: array<Word>, last: seq<Word>, r: nat)
    requires GoodR(r) && QWords(r) <= gray.Length && QWords(r) <= black.Length && QWords(r) <= |last| && gray != black
    modifies gray
    ensures forall p: nat :: p < 8 * RBytes(r) ==>
              Bit(Val(gray[..]), p) == (!Bit(Val(black[..]), p) && !Bit(Val(last), p))
  {
    hide RawBit, Bit, Val, QWords, RBytes, GetByte, WithByte, ByteNot, ByteAnd;
    RShape(r);
    for j := 0 to RBytes(r)
      invariant forall p: nat :: p < 8 * j ==>
                  Bit(Val(gray[..]), p) == (!Bit(Val(black[..]), p) && !Bit(Val(last), p))
    {
      ValGetByte(last, j);
      ValGetByte(black[..], j);
      var b := ByteAnd(ByteNot(GetByte(black[..], j)), ByteNot(GetByte(last, j)));
      ValWithByte(gray[..], j, b);
      StoreByte(gray, j, b);
    }
  }

  /** Step 3 of find_err2: e flips where the mask is set and the sign slice is clear. */
  method FlipMasked(e: array<Word>, mask: array<Word>, last: seq<Word>, r: nat)
    requires GoodR(r) && QWords(r) <= e.Length && QWords(r) <= mask.Length && QWords(r) <= |last| && e != mask
    modifies e
    ensures forall p: nat :: Bit(Val(e[..]), p) ==
              (Bit(Val(old(e[..])), p) != (p < 8 * RBytes(r) && Bit(Val(mask[..]), p) && !Bit(Val(last), p)))
  {
    hide RawBit, Bit, Val, QWords, RBytes, GetByte, WithByte, ByteNot, ByteXor, ByteAnd;
    RShape(r);
    for j := 0 to RBytes(r)
      invariant forall p: nat :: Bit(Val(e[..]), p) ==
                  (Bit(Val(old(e[..])), p) != (p < 8 * j && Bit(Val(mask[..]), p) && !Bit(Val(last), p)))
    {
      ValGetByte(last, j);
      ValGetByte(mask[..], j);
      ValGetByte(e[..], j);
      var sumMsb := ByteNot(GetByte(last, j));
      var b := ByteXor(GetByte(e[..], j), ByteAnd(GetByte(mask[..], j), sumMsb));
      ValWithByte(e[..], j, b);
      StoreByte(e, j, b);
    }
  }

  /** The counters minus the threshold: the sign slice is clear exactly where the count reaches it. */
  ghost predicate Signs(t: Rows, v: nat, w: seq<nat>, threshold: nat, slices: nat, q: nat, r: nat)
    requires r > 0 && slices > 0
  {
    Shape(t, slices, q) && forall p: nat :: p < r ==>
      var c := Upc(v, w, p, |w|, r);
      Column(t, slices, p) == if c >= threshold then c - threshold else c + Pow2(slices) - threshold
  }

  lemma SubtractSigns(u: Rows, br: seq<Word>, v: nat, w: seq<nat>, threshold: nat, slices: nat, q: nat, r: nat)
    requires r > 0 && slices > 0 && r <= 64 * q && Counts(u, v, w, |w|, slices, q, r)
    requires |br| == q && Val(br) == 0 && threshold < Pow2(slices)
    ensures Signs(SliceSub(u, br, threshold, 0).0, v, w, threshold, slices, q, r)
  {
    hide RawBit, Bit, Val, SliceSub, Column, Upc, Pow2;
    forall p: nat | p < r
      ensures Column(SliceSub(u, br, threshold, 0).0, slices, p) ==
              var c := Upc(v, w, p, |w|, r); if c >= threshold then c - threshold else c + Pow2(slices) - threshold
    {
      SliceSubExact(u, br, threshold, p);
    }
  }

  lemma SignIsReaches(t: Rows, v: nat, w: seq<nat>, threshold: nat, q: nat, r: nat, p: nat)
    requires r > 0 && p < r && 0 < |w| < 511 && Signs(t, v, w, threshold, Slices(|w|), q, r)
    requires threshold < Pow2(Slices(|w|))
    ensures Bit(Val(t[Slices(|w|) - 1]), p) == !Reaches(Upc(v, w, p, |w|, r), threshold, Pow2(Slices(|w|) - 1))
  {
    hide RawBit, Bit, Val, Column, Upc, Pow2, Log2Msb;
    var n := Slices(|w|);
    Log2MsbTight(|w|);
    Pow2Def(n);
    SignSlice(t, p);
  }

  /** Adding one to every counter below r, modulo the range. */
  lemma AddOnes(t: Rows, x: seq<Word>, slices: nat, q: nat, r: nat)
    requires slices > 0 && Shape(t, slices, q) && |x| == q && r <= 64 * q
    requires forall p: nat :: p < r ==> Bit(Val(x), p)
    ensures var t' := SliceAdd(t, x, 0, slices).0;
            Shape(t', slices, q) && forall p: nat :: p < r ==>
              Column(t', slices, p) == if Column(t, slices, p) + 1 == Pow2(slices) then 0 else Column(t, slices, p) + 1
  {
    hide RawBit, Bit, Val, SliceAdd, Column, Pow2;
    var t' := SliceAdd(t, x, 0, slices).0;
    forall p: nat | p < r
      ensures Column(t', slices, p) == if Column(t, slices, p) + 1 == Pow2(slices) then 0 else Column(t, slices, p) + 1
    {
      SliceAddColumn(t, x, 0, slices, p);
      ColumnBound(t, slices, p);
      ColumnBound(t', slices, p);
      Pow2Def(0);
    }
  }

  /** The counters after l increments. */
  ghost predicate Raised(u: Rows, t: Rows, l: nat, slices: nat, q: nat, r: nat)
    requires slices > 0
  {
    Shape(t, slices, q) && Shape(u, slices, q) && forall p: nat :: p < r ==>
      Column(u, slices, p) == if Column(t, slices, p) + l >= Pow2(slices) then Column(t, slices, p) + l - Pow2(slices)
                              else Column(t, slices, p) + l
  }

  lemma RaiseStep(u: Rows, t: Rows, x: seq<Word>, l: nat, slices: nat, q: nat, r: nat)
    requires slices > 0 && Raised(u, t, l, slices, q, r) && l + 1 < Pow2(slices) && |x| == q && r <= 64 * q
    requires forall p: nat :: p < r ==> Bit(Val(x), p)
    ensures Raised(SliceAdd(u, x, 0, slices).0, t, l + 1, slices, q, r)
  {
    hide RawBit, Bit, Val, SliceAdd, Column, Pow2;
    AddOnes(u, x, slices, q, r);
    forall p: nat | p < r ensures Column(t, slices, p) < Pow2(slices) { ColumnBound(t, slices, p); }
  }

  /** After DELTA increments the sign slice is clear, at a position that is not black, exactly when its count
      misses the threshold by at most DELTA. */
  lemma GrayIsNear(u: Rows, t: Rows, v: nat, w: seq<nat>, threshold: nat, q: nat, r: nat, p: nat)
    requires r > 0 && p < r && 3 < |w| < 511 && Signs(t, v, w, threshold, Slices(|w|), q, r)
    requires threshold < Pow2(Slices(|w|)) && Raised(u, t, DELTA, Slices(|w|), q, r)
    ensures var c := Upc(v, w, p, |w|, r);
            (!Reaches(c, threshold, Pow2(Slices(|w|) - 1)) && !Bit(Val(u[Slices(|w|) - 1]), p))
            <==> c < threshold <= c + DELTA
  {
    hide RawBit, Bit, Val, Column, Upc, Pow2, Log2Msb;
    var n := Slices(|w|);
    Log2MsbTight(|w|);
    Pow2Def(n);
    SignSlice(u, p);
  }

  // ----- find_err1, find_err2

  /** The first r bits of a are the polynomial v; whatever follows them is not used. */
  ghost predicate AgreesBelow(a: seq<Word>, v: nat, r: nat) {
    forall p: nat :: p < r ==> Bit(Val(a), p) == Bit(v, p)
  }

  /** bike_memset(x, 0xff, n). */
  method SetOnes(x: array<Word>, n: nat)
    requires n <= 8 * x.Length
    modifies x
    ensures forall p: nat :: p < 8 * n ==> Bit(Val(x[..]), p)
  {
    hide RawBit, Bit, Val, WithByte, Mask;
    Pow2Words();
    assert Mask(8) == 0xFF;
    for j := 0 to n
      invariant forall p: nat :: p < 8 * j ==> Bit(Val(x[..]), p)
    {
      ValWithByte(x[..], j, 0xFF);
      StoreByte(x, j, 0xFF);
    }
  }

  /** Counting, then subtracting the threshold. */
  method CountAndSubtract(upc: array2<Word>, rotated: array<Word>, s: array<Word>, ghost v: nat, wlist: seq<Dword>,
                          ghost w: seq<nat>, threshold: Byte, q: nat, r: nat)
    requires Sizes(wlist, w, q, r) && 63 < |w| && upc.Length0 == Slices(|w|) && upc.Length1 == q
    requires rotated.Length == s.Length == 3 * q && rotated != s && Repeats(s[..], v, r)
    modifies upc, rotated
    ensures Signs(RowsOf(upc), v, w, threshold, Slices(|w|), q, r)
  {
    hide RawBit, Bit, Val, QWords, SliceSub, Column, RowsOf, Repeats, UptoPow2, Counts, Signs, Pow2;
    RShape(r);
    CountUpc(upc, rotated, s, v, wlist, w, q, r);
    ghost var u := RowsOf(upc);
    BitSliceFullSubtractPort(upc, threshold);
    ghost var br: seq<Word> :| |br| == q && Val(br) == 0 && RowsOf(upc) == SliceSub(u, br, threshold, 0).0;
    ByteInRange(|w|);
    SubtractSigns(u, br, v, w, threshold, Slices(|w|), q, r);
  }

  lemma ByteInRange(d: nat)
    requires 63 < d
    ensures 256 <= Pow2(Slices(d)) && Slices(d) > 0
  {
    assert Pow2(8) == 256;
    Pow2Monotone(8, Slices(d));
  }

  /** find_err1 for one half of the error. */
  method FindErr1Half(e: array<Word>, black: array<Word>, gray: array<Word>, s: array<Word>, ghost v: nat,
                      wlist: seq<Dword>, ghost w: seq<nat>, threshold: Byte, q: nat, r: nat)
    requires Sizes(wlist, w, q, r) && 63 < |w| && s.Length == 3 * q && Repeats(s[..], v, r)
    requires q <= e.Length && q <= black.Length && q <= gray.Length
    requires e != black && e != gray && black != gray && s != e && s != black && s != gray
    requires Fits(Val(e[..]), r)
    modifies e, black, gray
    ensures Val(e[..]) == Xor(Val(old(e[..])), Black(v, w, threshold, Pow2(Slices(|w|) - 1), r))
    ensures AgreesBelow(black[..], Black(v, w, threshold, Pow2(Slices(|w|) - 1), r), r)
    ensures AgreesBelow(gray[..], Gray(v, w, threshold, r), r)
    ensures Fits(Val(e[..]), r)
  {
    hide RawBit, Bit, Val, QWords, RBytes, SliceAdd, Column, RowsOf, Repeats, UptoPow2, Signs, Raised, Pow2, Xor,
         Black, Gray, Upc, Reaches, Log2Msb, LastSlice;
    RShape(r);
    ghost var slices, half, b := Slices(|w|), Pow2(Slices(|w|) - 1), Black(v, w, threshold, Pow2(Slices(|w|) - 1), r);
    ByteInRange(|w|);
    var rotated := new Word[3 * q](_ => 0);
    var upc := new Word[Slices(|wlist|), q]((_, _) => 0);
    ghost var e0 := Val(e[..]);
    CountAndSubtract(upc, rotated, s, v, wlist, w, threshold, q, r);
    ghost var t := RowsOf(upc);
    forall p: nat | p < r ensures Bit(Val(t[slices - 1]), p) == !Bit(b, p) {
      SignIsReaches(t, v, w, threshold, q, r, p);
    }
    FlipBlack(e, black, LastSlice(upc), r);
    MaskLastByte(e, r);
    Ext(Val(e[..]), Xor(e0, b));
    assert AgreesBelow(black[..], b, r);
    ghost var flipped, marked := e[..], black[..];
    RaisedZero(t, slices, q, r);
    for l := 0 to DELTA
      invariant Raised(RowsOf(upc), t, l, slices, q, r)
      modifies rotated, upc
    {
      SetOnes(rotated, RBytes(r));
      PrefixBits(rotated[..], q);
      assert rotated[..][..q] == rotated[..q];
      RaiseStep(RowsOf(upc), t, rotated[..q], l, slices, q, r);
      BitSlicedAdderPort(upc, rotated, Slices(|wlist|));
    }
    MarkGray(gray, black, LastSlice(upc), r);
    ghost var u := RowsOf(upc);
    forall p: nat | p < r ensures Bit(Val(gray[..]), p) == Bit(Gray(v, w, threshold, r), p) {
      GrayIsNear(u, t, v, w, threshold, q, r, p);
      assert Bit(Val(black[..]), p) == Bit(b, p);
    }
    assert e[..] == flipped && black[..] == marked;
  }

  lemma RaisedZero(t: Rows, slices: nat, q: nat, r: nat)
    requires slices > 0 && Shape(t, slices, q)
    ensures Raised(t, t, 0, slices, q, r)
  {
    hide RawBit, Bit, Val, Column, Pow2;
    forall p: nat | p < r ensures Column(t, slices, p) < Pow2(slices) { ColumnBound(t, slices, p); }
  }

  /** find_err2 for one half of the error. */
  method FindErr2Half(e: array<Word>, mask: array<Word>, ghost m: nat, s: array<Word>, ghost v: nat,
                      wlist: seq<Dword>, ghost w: seq<nat>, threshold: Byte, q: nat, r: nat)
    requires Sizes(wlist, w, q, r) && 63 < |w| && s.Length == 3 * q && Repeats(s[..], v, r)
    requires q <= e.Length && q <= mask.Length && e != mask && s != e && s != mask
    requires Fits(Val(e[..]), r) && AgreesBelow(mask[..], m, r)
    modifies e
    ensures Val(e[..]) == Xor(Val(old(e[..])), And(m, Black(v, w, threshold, Pow2(Slices(|w|) - 1), r)))
    ensures Fits(Val(e[..]), r)
  {
    hide RawBit, Bit, Val, QWords, RBytes, SliceAdd, Column, RowsOf, Repeats, UptoPow2, Signs, Pow2, Xor, And, Black,
         Upc, Reaches, Log2Msb, LastSlice;
    RShape(r);
    ghost var slices, b := Slices(|w|), Black(v, w, threshold, Pow2(Slices(|w|) - 1), r);
    ByteInRange(|w|);
    var rotated := new Word[3 * q](_ => 0);
    var upc := new Word[Slices(|wlist|), q]((_, _) => 0);
    ghost var e0 := Val(e[..]);
    CountAndSubtract(upc, rotated, s, v, wlist, w, threshold, q, r);
    ghost var t := RowsOf(upc);
    forall p: nat | p < r ensures Bit(Val(t[slices - 1]), p) == !Bit(b, p) {
      SignIsReaches(t, v, w, threshold, q, r, p);
    }
    FlipMasked(e, mask, LastSlice(upc), r);
    MaskLastByte(e, r);
    Ext(Val(e[..]), Xor(e0, And(m, b)));
  }

  // ----- The syndrome

  /** compute_syndrome. */
  method ComputeSyndrome(m: MulImpl, s: array<Word>, c0: array<Word>, h0: array<Word>, q: nat, r: nat)
    requires GoodR(r) && q == QWords(r) && q >= 2 && s.Length == 3 * q
    requires c0.Length == h0.Length >= q && PowerOfTwoTimes(c0.Length, m.BaseQWords())
    requires InWords(c0[..], r) && InWords(h0[..], r) && s != c0 && s != h0
    modifies s
    ensures Repeats(s[..], FoldMul(Val(c0[..]), Val(h0[..]), r), r)
  {
    hide RawBit, Bit, Val, QWords, RBytes, RMul, FoldMul, Low, Repeats, PowerOfTwoTimes;
    RShape(r);
    var padS := new Word[c0.Length](_ => 0);
    ModMul(m, padS, c0, h0, r);
    ghost var v := FoldMul(Val(c0[..]), Val(h0[..]), r);
    CopyBytes(s, padS, RBytes(r));
    Ext(Low(Val(s[..]), r), v);
    DupPort(s, r);
  }

  /** The padded operands of the decoder. */
  datatype Operands = Operands(c0: array<Word>, h0: array<Word>, pk: array<Word>)

  /** They hold the polynomials of the input. */
  ghost predicate Loaded(o: Operands, m: MulImpl, inp: Input)
    reads o.c0, o.h0, o.pk
  {
    var r := inp.level.R();
    && GoodR(r) && 2 <= QWords(r) <= o.c0.Length && o.c0.Length == o.h0.Length == o.pk.Length
    && PowerOfTwoTimes(o.c0.Length, m.BaseQWords())
    && InWords(o.c0[..], r) && InWords(o.h0[..], r) && InWords(o.pk[..], r)
    && Val(o.c0[..]) == inp.c0 && Val(o.h0[..]) == inp.h0 && Val(o.pk[..]) == inp.pk
  }

  /** recompute_syndrome: the syndrome of the ciphertext corrected by e. */
  method RecomputeSyndrome(m: MulImpl, s: array<Word>, o: Operands, e0: array<Word>, e1: array<Word>, r: nat,
                           ghost inp: Input)
    requires r == inp.level.R() && Loaded(o, m, inp) && s.Length == 3 * QWords(r)
    requires QWords(r) <= e0.Length && QWords(r) <= e1.Length && Fits(Val(e0[..]), r) && Fits(Val(e1[..]), r)
    requires s != o.c0 && s != o.h0 && s != o.pk && s != e0 && s != e1
    modifies s
    ensures Repeats(s[..], Syndrome(inp, Err(Val(e0[..]), Val(e1[..]))), r)
  {
    hide RawBit, Bit, Val, QWords, RBytes, FoldMul, RMul, Xor, Repeats, PowerOfTwoTimes, Fits;
    RShape(r);
    var tmp := new Word[o.c0.Length](_ => 0);
    var padE0 := new Word[o.c0.Length](_ => 0);
    var padE1 := new Word[o.c0.Length](_ => 0);
    ValZero(padE0[..]);
    ValZero(padE1[..]);
    ZeroFits(r);
    CopyR(padE0, e0, r);
    CopyR(padE1, e1, r);
    PaddedInWords(padE0[..], r);
    PaddedInWords(padE1[..], r);
    ModMul(m, tmp, padE1, o.pk, r);
    PaddedInWords(tmp[..], r);
    XorFits(Val(tmp[..]), Val(o.c0[..]), 64 * QWords(r));
    ModAdd(tmp, tmp, o.c0);
    XorFits(Val(tmp[..]), Val(padE0[..]), 64 * QWords(r));
    ModAdd(tmp, tmp, padE0);
    ComputeSyndrome(m, s, tmp, o.h0, QWords(r), r);
  }

  // ----- The decoder

  /** The rotations that the index list of a key half leads to. */
  function KeyShifts(w: seq<Dword>, level: Level): (s: seq<nat>)
    ensures |s| == |w|
  {
    Shifts(w, QWords(level.R()))
  }

  ghost predicate KeyLists(inp: Input, w0: seq<Dword>, w1: seq<Dword>) {
    inp.w0 == KeyShifts(w0, inp.level) && inp.w1 == KeyShifts(w1, inp.level)
  }

  /** At every level the kernels are defined for every list. */
  lemma DecoderSizes(level: Level, w: seq<Dword>)
    requires |w| == level.D()
    ensures Sizes(w, KeyShifts(w, level), QWords(level.R()), level.R()) && 63 < |w|
    ensures QWords(level.R()) <= PaddedQWords(level)
  {
    hide Shifts;
  }

  /** An index below r is rotated by itself. */
  lemma KeyShiftsOfIndices(w: seq<Dword>, level: Level)
    requires forall j :: 0 <= j < |w| ==> w[j] < level.R()
    ensures KeyShifts(w, level) == w
  {
    hide UptoPow2, Shift;
    var q := QWords(level.R());
    LargestStep(level);
    forall j | 0 <= j < |w| ensures KeyShifts(w, level)[j] == w[j] { ShiftInRange(w[j], q); }
  }

  lemma LargestStep(level: Level)
    ensures 2 <= QWords(level.R()) < TWO32 && level.R() <= 128 * UptoPow2(QWords(level.R()) / 2)
  {
    hide UptoPow2;
    var q := QWords(level.R());
    UptoPow2Correct(q / 2);
    var n := BitLength(q / 2 - 1);
    match level
    case Level1 => assert Pow2(6) == 64; assert q == 193 && Pow2(n) == UptoPow2(96); PowerAbove(n, 96, 7);
    case Level3 => assert Pow2(7) == 128; assert q == 386 && Pow2(n) == UptoPow2(193); PowerAbove(n, 193, 8);
    case Level5 => assert Pow2(8) == 256; assert q == 641 && Pow2(n) == UptoPow2(320); PowerAbove(n, 320, 9);
  }

  lemma PowerAbove(n: nat, v: nat, k: nat)
    requires v <= Pow2(n) && k > 0 && Pow2(k - 1) < v
    ensures Pow2(n) >= Pow2(k)
  {
    if n < k { Pow2Monotone(n, k - 1); } else { Pow2Monotone(k, n); }
  }

  /** find_err1. */
  method FindErr1(e: (array<Word>, array<Word>), black: (array<Word>, array<Word>), gray: (array<Word>, array<Word>),
                  s: array<Word>, ghost v: nat, w0: seq<Dword>, w1: seq<Dword>, threshold: Byte, q: nat, r: nat,
                  ghost inp: Input)
    requires Separate(e, black, gray, s) && Lengths(e, q) && Lengths(black, q) && Lengths(gray, q)
    requires inp.Valid() && r == inp.level.R() && q == QWords(r) && KeyLists(inp, w0, w1)
    requires s.Length == 3 * q && Repeats(s[..], v, r)
    requires Fits(Val(e.0[..]), r) && Fits(Val(e.1[..]), r)
    modifies e.0, e.1, black.0, black.1, gray.0, gray.1
    ensures Err(Val(e.0[..]), Val(e.1[..])) == Flip1(inp, v, old(Err(Val(e.0[..]), Val(e.1[..]))), threshold)
    ensures ThresholdPass(inp, v, threshold, old(Err(Val(e.0[..]), Val(e.1[..]))), Err(Val(e.0[..]), Val(e.1[..])))
    ensures AgreesBelow(black.0[..], Black(v, inp.w0, threshold, Half(inp.level), r), r)
    ensures AgreesBelow(black.1[..], Black(v, inp.w1, threshold, Half(inp.level), r), r)
    ensures AgreesBelow(gray.0[..], Gray(v, inp.w0, threshold, r), r)
    ensures AgreesBelow(gray.1[..], Gray(v, inp.w1, threshold, r), r)
    ensures Fits(Val(e.0[..]), r) && Fits(Val(e.1[..]), r)
  {
    hide RawBit, Bit, Val, QWords, Repeats, Pow2, Xor, Black, Gray, Sizes, AgreesBelow, Log2Msb, ThresholdPass;
    ghost var before := Err(Val(e.0[..]), Val(e.1[..]));
    DecoderSizes(inp.level, w0);
    DecoderSizes(inp.level, w1);
    FindErr1Half(e.0, black.0, gray.0, s, v, w0, inp.w0, threshold, q, r);
    ghost var x, b, g := e.0[..], black.0[..], gray.0[..];
    FindErr1Half(e.1, black.1, gray.1, s, v, w1, inp.w1, threshold, q, r);
    assert e.0[..] == x && black.0[..] == b && gray.0[..] == g;
    Flip1Is(inp, v, before, threshold);
  }

  /** find_err2. */
  method FindErr2(e: (array<Word>, array<Word>), mask: (array<Word>, array<Word>), ghost m: Err,
                  s: array<Word>, ghost v: nat, w0: seq<Dword>, w1: seq<Dword>, threshold: Byte, q: nat, r: nat,
                  ghost inp: Input)
    requires e.0 != e.1 && {e.0, e.1} !! {mask.0, mask.1, s} && s !in {mask.0, mask.1}
    requires Lengths(e, q) && Lengths(mask, q)
    requires inp.Valid() && r == inp.level.R() && q == QWords(r) && KeyLists(inp, w0, w1)
    requires threshold == MajorityThreshold(inp.level)
    requires s.Length == 3 * q && Repeats(s[..], v, r)
    requires Fits(Val(e.0[..]), r) && Fits(Val(e.1[..]), r)
    requires AgreesBelow(mask.0[..], m.e0, r) && AgreesBelow(mask.1[..], m.e1, r)
    modifies e.0, e.1
    ensures Err(Val(e.0[..]), Val(e.1[..])) == Flip2(inp, v, old(Err(Val(e.0[..]), Val(e.1[..]))), m)
    ensures MaskedPass(inp, v, threshold, m, old(Err(Val(e.0[..]), Val(e.1[..]))), Err(Val(e.0[..]), Val(e.1[..])))
    ensures Fits(Val(e.0[..]), r) && Fits(Val(e.1[..]), r)
  {
    hide RawBit, Bit, Val, QWords, Repeats, Pow2, Xor, And, Black, Sizes, AgreesBelow, Log2Msb, MaskedPass;
    ghost var before := Err(Val(e.0[..]), Val(e.1[..]));
    DecoderSizes(inp.level, w0);
    DecoderSizes(inp.level, w1);
    FindErr2Half(e.0, mask.0, m.e0, s, v, w0, inp.w0, threshold, q, r);
    ghost var x := e.0[..];
    FindErr2Half(e.1, mask.1, m.e1, s, v, w1, inp.w1, threshold, q, r);
    assert e.0[..] == x;
    Flip2Is(inp, v, before, m);
  }

  ghost predicate Separate(e: (array<Word>, array<Word>), black: (array<Word>, array<Word>),
                           gray: (array<Word>, array<Word>), s: array<Word>) {
    && e.0 != e.1 && black.0 != black.1 && gray.0 != gray.1
    && {e.0, e.1} !! {black.0, black.1} && {e.0, e.1} !! {gray.0, gray.1} && {black.0, black.1} !! {gray.0, gray.1}
    && s !in {e.0, e.1, black.0, black.1, gray.0, gray.1}
  }

  ghost predicate Lengths(e: (array<Word>, array<Word>), q: nat) {
    q <= e.0.Length && q <= e.1.Length
  }

  /** One iteration of the main loop: after it, e is the next guess and s its syndrome. */
  method Iteration(m: MulImpl, e: (array<Word>, array<Word>), black: (array<Word>, array<Word>),
                   gray: (array<Word>, array<Word>), s: array<Word>, o: Operands, w0: seq<Dword>, w1: seq<Dword>,
                   level: Level, iter: nat, ghost inp: Input)
    requires Separate(e, black, gray, s) && inp.Valid() && level == inp.level && Loaded(o, m, inp)
    requires {o.c0, o.h0, o.pk} !! {e.0, e.1, black.0, black.1, gray.0, gray.1, s}
    requires Lengths(e, QWords(level.R())) && Lengths(black, QWords(level.R())) && Lengths(gray, QWords(level.R()))
    requires KeyLists(inp, w0, w1) && s.Length == 3 * QWords(level.R())
    requires Fits(Val(e.0[..]), level.R()) && Fits(Val(e.1[..]), level.R())
    requires Repeats(s[..], Syndrome(inp, Err(Val(e.0[..]), Val(e.1[..]))), level.R())
    modifies e.0, e.1, black.0, black.1, gray.0, gray.1, s
    ensures Err(Val(e.0[..]), Val(e.1[..])) == Iterate(inp, old(Err(Val(e.0[..]), Val(e.1[..]))), iter)
    ensures Fits(Val(e.0[..]), level.R()) && Fits(Val(e.1[..]), level.R())
    ensures Repeats(s[..], Syndrome(inp, Err(Val(e.0[..]), Val(e.1[..]))), level.R())
  {
    hide RawBit, Bit, Val, QWords, Repeats, Pow2, Flip1, Flip2, Black, Gray, AgreesBelow, Syndrome, ThresholdSpec,
         Weight, Half, MajorityThreshold, PowerOfTwoTimes, ThresholdPass, MaskedPass;
    var r := level.R();
    var q := QWords(r);
    ghost var err := Err(Val(e.0[..]), Val(e.1[..]));
    ghost var v := Syndrome(inp, err);
    var threshold := GetThreshold(s, level);
    RShape(r);
    WeightOfRepeats(s[..], v, r);
    FindErr1(e, black, gray, s, v, w0, w1, threshold, q, r, inp);
    RecomputeSyndrome(m, s, o, e.0, e.1, r, inp);
    if iter >= 1 { return; }
    MajorityIsByte(level);
    ghost var err1 := Err(Val(e.0[..]), Val(e.1[..]));
    ghost var b := Err(Black(v, inp.w0, threshold, Half(level), r), Black(v, inp.w1, threshold, Half(level), r));
    ghost var g := Err(Gray(v, inp.w0, threshold, r), Gray(v, inp.w1, threshold, r));
    FindErr2(e, black, b, s, Syndrome(inp, err1), w0, w1, (level.D() + 1) / 2 + 1, q, r, inp);
    RecomputeSyndrome(m, s, o, e.0, e.1, r, inp);
    ghost var err2 := Err(Val(e.0[..]), Val(e.1[..]));
    FindErr2(e, gray, g, s, Syndrome(inp, err2), w0, w1, (level.D() + 1) / 2 + 1, q, r, inp);
    RecomputeSyndrome(m, s, o, e.0, e.1, r, inp);
  }

  lemma MajorityIsByte(level: Level)
    ensures MajorityThreshold(level) == (level.D() + 1) / 2 + 1 < 256
  {
  }

  lemma WeightOfRepeats(s: seq<Word>, v: nat, r: nat)
    requires r > 0 && Repeats(s, v, r) && QWords(r) >= 2 && r <= 64 * QWords(r)
    ensures Weight(Val(s), r) == Weight(v, r)
  {
    hide RawBit, Bit, Val, QWords, Weight, Repeats;
    forall p: nat | p < r ensures Bit(v, p) == Bit(Val(s), 0 + p) { RepeatsBelow(s, v, r, p); }
    WeightAppend(Val(s), 0, v, r);
    WeightZero(Val(s));
  }

  lemma RepeatsBelow(s: seq<Word>, v: nat, r: nat, p: nat)
    requires p < r && Repeats(s, v, r) && QWords(r) >= 2 && r <= 64 * QWords(r)
    ensures Bit(Val(s), p) == Bit(v, p)
  {
    hide RawBit, Bit, Val, QWords, Rem;
    RemSmall(p, r);
  }

  /** decode: the program computes the polynomial decoder, for every ciphertext and key. */
  method DecodePort(m: MulImpl, e: (array<Word>, array<Word>), c0: seq<Byte>, h0: seq<Byte>, pk: seq<Byte>,
                    w0: seq<Dword>, w1: seq<Dword>, level: Level, ghost inp: Input)
    requires inp == Input(level, ByteVal(c0), ByteVal(h0), ByteVal(pk), KeyShifts(w0, level), KeyShifts(w1, level))
    requires inp.Valid()
    requires |c0| == |h0| == |pk| == RBytes(level.R()) && Gf2xInv.Suits(m, level)
    requires e.0 != e.1 && Lengths(e, QWords(level.R()))
    modifies e.0, e.1
    ensures Err(Val(e.0[..]), Val(e.1[..])) == Bgf.Decode(inp)
    ensures Fits(Val(e.0[..]), level.R()) && Fits(Val(e.1[..]), level.R())
  {
    hide RawBit, Bit, Val, QWords, Repeats, Pow2, Syndrome, Iterate, FoldMul, Low, PowerOfTwoTimes, PaddedQWords,
         Sizes, Fits, Run, Loaded, Bgf.Decode, ByteVal;
    var r := level.R();
    var q := QWords(r);
    DecoderSizes(level, w0);
    TwoWords(level);
    var o := LoadOperands(m, c0, h0, pk, level, inp);
    var s := new Word[3 * q](_ => 0);
    LoadedMeans(o, m, inp);
    ComputeSyndrome(m, s, o.c0, o.h0, q, r);
    ghost var first := s[..];
    DupPort(s, r);
    DupIdempotent(first, s[..], FoldMul(inp.c0, inp.h0, r), r);
    ClearWords(e.0);
    ClearWords(e.1);
    FirstSyndrome(inp);
    ZeroFits(r);
    Iterations(m, e, s, o, w0, w1, level, inp);
  }

  /** The main loop of decode. */
  method Iterations(m: MulImpl, e: (array<Word>, array<Word>), s: array<Word>, o: Operands, w0: seq<Dword>,
                    w1: seq<Dword>, level: Level, ghost inp: Input)
    requires inp.Valid() && level == inp.level && Loaded(o, m, inp) && KeyLists(inp, w0, w1)
    requires e.0 != e.1 && s !in {e.0, e.1} && {o.c0, o.h0, o.pk} !! {e.0, e.1, s}
    requires Lengths(e, QWords(level.R())) && s.Length == 3 * QWords(level.R())
    requires Err(Val(e.0[..]), Val(e.1[..])) == Run(inp, 0)
    requires Fits(Val(e.0[..]), level.R()) && Fits(Val(e.1[..]), level.R())
    requires Repeats(s[..], Syndrome(inp, Run(inp, 0)), level.R())
    modifies e.0, e.1, s
    ensures Err(Val(e.0[..]), Val(e.1[..])) == Bgf.Decode(inp)
    ensures Fits(Val(e.0[..]), level.R()) && Fits(Val(e.1[..]), level.R())
  {
    hide RawBit, Bit, Val, QWords, Repeats, Pow2, Syndrome, Iterate, PowerOfTwoTimes, Fits, Loaded;
    var q := QWords(level.R());
    var b0 := new Word[q](_ => 0);
    var b1 := new Word[q](_ => 0);
    var g0 := new Word[q](_ => 0);
    var g1 := new Word[q](_ => 0);
    for iter := 0 to MAX_IT
      invariant Err(Val(e.0[..]), Val(e.1[..])) == Run(inp, iter)
      invariant Fits(Val(e.0[..]), level.R()) && Fits(Val(e.1[..]), level.R())
      invariant Repeats(s[..], Syndrome(inp, Run(inp, iter)), level.R())
      invariant Loaded(o, m, inp)
      modifies e.0, e.1, b0, b1, g0, g1, s
    {
      Iteration(m, e, (b0, b1), (g0, g1), s, o, w0, w1, level, iter, inp);
    }
  }

  /** c0.val = ct->c0, h0.val = sk->bin[0], pk.val = sk->pk. */
  method LoadOperands(m: MulImpl, c0: seq<Byte>, h0: seq<Byte>, pk: seq<Byte>, level: Level, ghost inp: Input)
    returns (o: Operands)
    requires inp.level == level && inp.c0 == ByteVal(c0) && inp.h0 == ByteVal(h0) && inp.pk == ByteVal(pk)
    requires |c0| == |h0| == |pk| == RBytes(level.R()) && Gf2xInv.Suits(m, level)
    ensures fresh(o.c0) && fresh(o.h0) && fresh(o.pk) && Loaded(o, m, inp)
  {
    hide RawBit, Bit, Val, QWords, RBytes, Fits, PowerOfTwoTimes, PaddedQWords, ByteVal;
    TwoWords(level);
    Gf2xInv.LevelSizes(level);
    var r, n := level.R(), PaddedQWords(level);
    RShape(r);
    var a := LoadRaw(c0, n);
    var b := LoadRaw(h0, n);
    var c := LoadRaw(pk, n);
    BytesInWords(a[..], c0, r);
    BytesInWords(b[..], h0, r);
    BytesInWords(c[..], pk, r);
    o := Operands(a, b, c);
  }

  lemma BytesInWords(a: seq<Word>, raw: seq<Byte>, r: nat)
    requires GoodR(r) && |raw| == RBytes(r) && Val(a) == ByteVal(raw)
    ensures InWords(a, r)
  {
    hide RawBit, Bit, Val, ByteVal;
    RShape(r);
  }

  lemma LoadedMeans(o: Operands, m: MulImpl, inp: Input)
    requires Loaded(o, m, inp)
    ensures var r := inp.level.R();
            && o.c0.Length == o.h0.Length >= QWords(r) && PowerOfTwoTimes(o.c0.Length, m.BaseQWords())
            && InWords(o.c0[..], r) && InWords(o.h0[..], r)
            && Val(o.c0[..]) == inp.c0 && Val(o.h0[..]) == inp.h0
  {
  }

  lemma TwoWords(level: Level)
    ensures GoodR(level.R()) && QWords(level.R()) >= 2
  {
  }

  /** bike_memset(e, 0, sizeof(*e)). */
  method ClearWords(a: array<Word>)
    modifies a
    ensures Val(a[..]) == 0
  {
    hide RawBit, Bit, Val;
    for i := 0 to a.Length
      invariant forall k :: 0 <= k < i ==> a[k] == 0
    {
      a[i] := 0;
    }
    ValZero(a[..]);
  }
}
