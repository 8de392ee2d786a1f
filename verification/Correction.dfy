/** What the counters of the decoder count, and which errors it is sure to correct. */
module Correction {
  import opened Bits
  import opened Poly
  import opened Ring
  import opened Modular
  import opened Params
  import opened Threshold
  import opened Sampling
  import opened SparseVectors
  import opened Bgf
  import opened Classification

  // ----- What the counters count

  /** Column p of the parity check matrix of h: the syndrome of a single error at position p. */
  function Column(h: nat, p: nat, r: nat): nat
    requires r > 0
  {
    RMul(h, X(p), r)
  }

  /** It is h, cyclically shifted by p. */
  lemma ColumnBit(h: nat, p: nat, q: nat, r: nat)
    requires p < r && Fits(h, r)
    ensures Bit(Column(h, p, r), q) == (q < r && Bit(h, if q >= p then q - p else q + r - p))
  {
    hide RawBit, Bit, Mul, Shl, X, RMul, Fold;
    XFits(p, r);
    FoldMulIsRMul(h, X(p), r);
    MulComm(h, X(p));
    MulX(p, h);
  }

  /** Of a sparse h: the positions p + w modulo r. */
  lemma ColumnHits(w: seq<nat>, p: nat, q: nat, r: nat)
    requires p < r && ValidIndices(w, r)
    ensures Bit(Column(ListPoly(w, 0, r), p, r), q) <==> exists j :: 0 <= j < |w| && q == Rem(p + w[j], r)
  {
    hide RawBit, Bit, Column, ListPoly, Rem, Distinct;
    var h := ListPoly(w, 0, r);
    assert Fits(h, r);
    ColumnBit(h, p, q, r);
    forall j | 0 <= j < |w| ensures Rem(p + w[j], r) == if p + w[j] < r then p + w[j] else p + w[j] - r {
      RemShort(p, w[j], r);
    }
    if q < r {
      var b := if q >= p then q - p else q + r - p;
      assert Bit(h, b) == (b + 0 in w);
      if b in w {
        var j :| 0 <= j < |w| && w[j] == b;
        assert q == Rem(p + w[j], r);
      }
    }
  }

  /** The count of a position is the number of set syndrome bits in its column. */
  lemma CountIsOverlap(s: nat, w: seq<nat>, p: nat, r: nat)
    requires p < r && ValidIndices(w, r)
    ensures Upc(s, w, p, |w|, r) == Weight(And(s, Column(ListPoly(w, 0, r), p, r)), r)
  {
    hide RawBit, Bit, And, Xor, Mask, Upc, Weight, Column, ListPoly, Rem, ValidIndices, Misses, Clear;
    var v := And(s, Column(ListPoly(w, 0, r), p, r));
    var u := Xor(v, Mask(r));
    forall j | 0 <= j < |w| ensures Bit(s, Rem(p + w[j], r)) == Bit(v, Rem(p + w[j], r)) {
      ColumnHits(w, p, Rem(p + w[j], r), r);
    }
    SameUpc(s, v, w, p, |w|, r);
    UpcComplement(v, w, p, |w|, r);
    WeightComplement(v, r, r);
    MissCount(u, w, p, |w|, r);
    ClearCount(u, r);
    MissesAreClear(s, w, p, r);
  }

  lemma {:induction false} SameUpc(s: nat, v: nat, w: seq<nat>, p: nat, n: nat, r: nat)
    requires r > 0 && n <= |w| && forall j :: 0 <= j < n ==> Bit(s, Rem(p + w[j], r)) == Bit(v, Rem(p + w[j], r))
    ensures Upc(s, w, p, n, r) == Upc(v, w, p, n, r)
  {
    hide RawBit, Bit, Rem;
    if n > 0 { SameUpc(s, v, w, p, n - 1, r); }
  }

  lemma MissesAreClear(s: nat, w: seq<nat>, p: nat, r: nat)
    requires p < r && ValidIndices(w, r)
    ensures var u := Xor(And(s, Column(ListPoly(w, 0, r), p, r)), Mask(r)); Misses(u, w, p, |w|, r) == Clear(u, r)
  {
    hide RawBit, Bit, And, Xor, Mask, Column, ListPoly, Rem, ValidIndices;
    var c := Column(ListPoly(w, 0, r), p, r);
    var u := Xor(And(s, c), Mask(r));
    forall q: nat ensures q in Misses(u, w, p, |w|, r) <==> q in Clear(u, r) {
      ColumnHits(w, p, q, r);
    }
  }

  // ----- When an iteration finds the error

  /** The positions that e flips at the threshold of its syndrome are those where it differs from x. */
  ghost predicate FlipsDifference(inp: Input, x: Err, e: Err) {
    var r, s, half := inp.level.R(), Syndrome(inp, e), Half(inp.level);
    var t := ThresholdAt(inp, s);
    && (forall p: nat :: p < r ==>
         ((Count0(inp, s, p) >= t || Count0(inp, s, p) + half < t) <==> Bit(e.e0, p) != Bit(x.e0, p)))
    && (forall p: nat :: p < r ==>
         ((Count1(inp, s, p) >= t || Count1(inp, s, p) + half < t) <==> Bit(e.e1, p) != Bit(x.e1, p)))
  }

  lemma PassFinds(inp: Input, x: Err, e: Err, e': Err)
    requires x.Fit(inp.level.R()) && e.Fit(inp.level.R())
    requires ThresholdPass(inp, Syndrome(inp, e), ThresholdAt(inp, Syndrome(inp, e)), e, e')
    ensures e' == x <==> FlipsDifference(inp, x, e)
  {
    hide RawBit, Bit, Count0, Count1, ThresholdAt, Syndrome, Half;
    if FlipsDifference(inp, x, e) {
      Ext(e'.e0, x.e0);
      Ext(e'.e1, x.e1);
    }
  }

  /** Under a zero syndrome a masked pass flips nothing. */
  lemma ZeroPassStays(inp: Input, mask: Err, e: Err, e': Err)
    requires MaskedPass(inp, 0, MajorityThreshold(inp.level), mask, e, e')
    ensures e' == e
  {
    hide RawBit, Bit, Upc, MajorityThreshold;
    MajorityFits(inp.level);
    forall p: nat ensures Count0(inp, 0, p) == 0 == Count1(inp, 0, p) {
      UpcOfZero(inp.w0, p, |inp.w0|, inp.level.R());
      UpcOfZero(inp.w1, p, |inp.w1|, inp.level.R());
    }
    Ext(e'.e0, e.e0);
    Ext(e'.e1, e.e1);
  }

  lemma FirstFinds(inp: Input, x: Err, e: Err)
    requires x.Fit(inp.level.R()) && e.Fit(inp.level.R()) && Syndrome(inp, x) == 0 && FlipsDifference(inp, x, e)
    ensures Iterate(inp, e, 0) == x
  {
    hide *;
    var e1, e2, black, gray := FirstIteration(inp, e);
    PassFinds(inp, x, e, e1);
    ZeroPassStays(inp, black, e1, e2);
    ZeroPassStays(inp, gray, e2, Iterate(inp, e, 0));
  }

  /** An iteration finds the error of the ciphertext if the positions it flips first are those where its guess is
      wrong, and after the first iteration only then.  In the first iteration the other two passes undo nothing. */
  lemma IterationFinds(inp: Input, x: Err, e: Err, iter: nat)
    requires Honest(inp, x) && e.Fit(inp.level.R())
    ensures FlipsDifference(inp, x, e) ==> Iterate(inp, e, iter) == x
    ensures iter >= 1 && Iterate(inp, e, iter) == x ==> FlipsDifference(inp, x, e)
  {
    hide *;
    HonestFits(inp, x);
    if iter >= 1 {
      LaterIteration(inp, e, iter);
      PassFinds(inp, x, e, Iterate(inp, e, iter));
    } else if FlipsDifference(inp, x, e) {
      ErrorHasZeroSyndrome(inp, x);
      FirstFinds(inp, x, e);
    }
  }

  lemma HonestFits(inp: Input, x: Err)
    requires Honest(inp, x)
    ensures x.Fit(inp.level.R()) && Fits(inp.h0, inp.level.R())
  {
  }

  /** So decoding succeeds if that happens to any guess of its run. */
  lemma DecodeCorrects(inp: Input, x: Err, n: nat)
    requires Honest(inp, x) && n < MAX_IT && FlipsDifference(inp, x, Run(inp, n))
    ensures Run(inp, n + 1) == x && Bgf.Decode(inp) == x
  {
    hide FlipsDifference, Iterate, Bgf.Decode, Honest;
    RunFits(inp, n);
    IterationFinds(inp, x, Run(inp, n), n);
    DecodeFinds(inp, x, n + 1);
  }

  lemma DecodeAtOnce(inp: Input, x: Err)
    requires Honest(inp, x) && FlipsDifference(inp, x, Err(0, 0))
    ensures Run(inp, 1) == Bgf.Decode(inp) == x
  {
    hide Honest, FlipsDifference, Bgf.Decode, Run, Syndrome, FoldMul;
    FirstSyndrome(inp);
    DecodeCorrects(inp, x, 0);
  }

  // ----- Few errors

  lemma {:induction false} UpcXor(a: nat, b: nat, w: seq<nat>, p: nat, n: nat, r: nat)
    requires n <= |w| && r > 0
    ensures Upc(Xor(a, b), w, p, n, r) <= Upc(a, w, p, n, r) + Upc(b, w, p, n, r)
    ensures Upc(a, w, p, n, r) <= Upc(Xor(a, b), w, p, n, r) + Upc(b, w, p, n, r)
  {
    hide RawBit, Bit, Xor, Rem;
    if n > 0 { UpcXor(a, b, w, p, n - 1, r); }
  }

  /** Column j of h and column p of h' have at most m common positions. */
  ghost predicate Meet(h: nat, j: nat, h': nat, p: nat, m: nat, r: nat)
    requires r > 0
  {
    Weight(And(Column(h, j, r), Column(h', p, r)), r) <= m
  }

  lemma TimesNext(k: nat, m: nat)
    ensures Times(k + 1, m) == Times(k, m) + m
  {
    hide *;
    TimesLaws(m, k, 1);
    TimesLaws(k, m, 0);
    TimesLaws(k + 1, m, 0);
  }

  /** A sum of columns that meet column p in at most m positions each. */
  lemma {:induction false} SumOfColumns(h: nat, d: nat, n: nat, w: seq<nat>, p: nat, m: nat, r: nat)
    requires n <= r && p < r && ValidIndices(w, r)
    requires forall j: nat :: j < n && Bit(d, j) ==> Meet(h, j, ListPoly(w, 0, r), p, m, r)
    ensures Upc(RMul(h, Low(d, n), r), w, p, |w|, r) <= Times(Weight(d, n), m)
  {
    hide RawBit, Bit, Upc, RMul, Low, Xor, And, X, ListPoly, ValidIndices, Column, Times;
    if n == 0 {
      NoColumns(h, d, w, p, r);
      TimesLaws(0, m, 0);
    } else {
      SumOfColumns(h, d, n - 1, w, p, m, r);
      var a, c := Low(d, n - 1), if Bit(d, n - 1) then X(n - 1) else 0;
      Ext(Low(d, n), Xor(a, c));
      RMulXor(h, a, c, r);
      UpcXor(RMul(h, a, r), RMul(h, c, r), w, p, |w|, r);
      TimesNext(Weight(d, n - 1), m);
      if Bit(d, n - 1) {
        assert Meet(h, n - 1, ListPoly(w, 0, r), p, m, r);
        ColumnCount(h, n - 1, w, p, r);
      } else {
        RMulZero(h, r);
        UpcOfZero(w, p, |w|, r);
      }
    }
  }

  lemma NoColumns(h: nat, d: nat, w: seq<nat>, p: nat, r: nat)
    requires r > 0
    ensures Upc(RMul(h, Low(d, 0), r), w, p, |w|, r) == 0
  {
    hide RawBit, Bit, Upc, RMul;
    RMulZero(h, r);
    UpcOfZero(w, p, |w|, r);
  }

  lemma ColumnCount(h: nat, j: nat, w: seq<nat>, p: nat, r: nat)
    requires p < r && ValidIndices(w, r)
    ensures Upc(RMul(h, X(j), r), w, p, |w|, r) == Weight(And(Column(h, j, r), Column(ListPoly(w, 0, r), p, r)), r)
  {
    hide RMul, X, Upc, Weight, And, ListPoly, ValidIndices;
    CountIsOverlap(Column(h, j, r), w, p, r);
  }

  /** A column meets itself in all of its positions. */
  lemma {:induction false} OwnColumn(w: seq<nat>, p: nat, n: nat, r: nat)
    requires p < r && n <= |w| && ValidIndices(w, r)
    ensures Upc(Column(ListPoly(w, 0, r), p, r), w, p, n, r) == n
  {
    hide RawBit, Bit, Column, ListPoly, Rem, ValidIndices;
    if n > 0 {
      OwnColumn(w, p, n - 1, r);
      ColumnHits(w, p, Rem(p + w[n - 1], r), r);
    }
  }

  lemma {:induction false} WeightFlip(d: nat, p: nat, n: nat)
    requires Bit(d, p)
    ensures Weight(d, n) == Weight(Xor(d, X(p)), n) + (if p < n then 1 else 0)
  {
    hide RawBit, Bit, Xor, X;
    if n > 0 { WeightFlip(d, p, n - 1); }
  }

  lemma LowAll(d: nat, r: nat)
    requires Fits(d, r)
    ensures Low(d, r) == d
  {
    hide RawBit, Bit, Low;
    FitsPow2(d, r);
  }

  /** The syndrome of an error with halves d and d'. */
  function SyndromeOf(h: nat, d: nat, h': nat, d': nat, r: nat): nat
    requires r > 0
  {
    Xor(RMul(h, d, r), RMul(h', d', r))
  }

  /** The count of a correct position: every error column adds at most m. */
  lemma CorrectCount(h: nat, w: seq<nat>, d: nat, h': nat, d': nat, p: nat, m: nat, r: nat)
    requires p < r && ValidIndices(w, r) && Fits(d, r) && Fits(d', r)
    requires forall j: nat :: j < r && Bit(d, j) ==> Meet(h, j, ListPoly(w, 0, r), p, m, r)
    requires forall j: nat :: j < r && Bit(d', j) ==> Meet(h', j, ListPoly(w, 0, r), p, m, r)
    ensures Upc(SyndromeOf(h, d, h', d', r), w, p, |w|, r) <= Times(Weight(d, r) + Weight(d', r), m)
  {
    hide RawBit, Bit, Upc, RMul, Xor, Weight, Meet, ListPoly, ValidIndices, Times, Low;
    LowAll(d, r);
    LowAll(d', r);
    SumOfColumns(h, d, r, w, p, m, r);
    SumOfColumns(h', d', r, w, p, m, r);
    UpcXor(RMul(h, d, r), RMul(h', d', r), w, p, |w|, r);
    TimesLaws(m, Weight(d, r), Weight(d', r));
    TimesLaws(Weight(d, r), m, 0);
    TimesLaws(Weight(d', r), m, 0);
    TimesLaws(Weight(d, r) + Weight(d', r), m, 0);
  }

  /** The count of a wrong position: its own column gives all its checks, and every other takes at most m away. */
  lemma WrongCount(w: seq<nat>, d: nat, h': nat, d': nat, p: nat, m: nat, r: nat)
    requires p < r && ValidIndices(w, r) && Fits(d, r) && Fits(d', r) && Bit(d, p)
    requires forall j: nat :: j < r && Bit(d, j) && j != p ==> Meet(ListPoly(w, 0, r), j, ListPoly(w, 0, r), p, m, r)
    requires forall j: nat :: j < r && Bit(d', j) ==> Meet(h', j, ListPoly(w, 0, r), p, m, r)
    ensures Upc(SyndromeOf(ListPoly(w, 0, r), d, h', d', r), w, p, |w|, r) + Times(Weight(d, r) + Weight(d', r), m)
            >= |w| + m
  {
    hide *;
    var h, rest := ListPoly(w, 0, r), Xor(d, X(p));
    RestOf(d, p, r);
    WeightFlip(d, p, r);
    CorrectCount(h, w, rest, h', d', p, m, r);
    OwnColumn(w, p, |w|, r);
    WithoutColumn(h, d, h', d', p, r);
    UpcXor(SyndromeOf(h, d, h', d', r), SyndromeOf(h, rest, h', d', r), w, p, |w|, r);
    TimesNext(Weight(rest, r) + Weight(d', r), m);
  }

  lemma RestOf(d: nat, p: nat, r: nat)
    requires p < r && Fits(d, r) && Bit(d, p)
    ensures Fits(Xor(d, X(p)), r)
    ensures forall j: nat :: Bit(Xor(d, X(p)), j) <==> Bit(d, j) && j != p
  {
    hide RawBit, Bit, Xor, X;
  }

  /** A column is what the syndrome loses with its position. */
  lemma WithoutColumn(h: nat, d: nat, h': nat, d': nat, p: nat, r: nat)
    requires r > 0
    ensures var rest := SyndromeOf(h, Xor(d, X(p)), h', d', r);
            Column(h, p, r) == Xor(SyndromeOf(h, d, h', d', r), rest)
  {
    hide RawBit, Bit, RMul, Xor, X;
    var c, a, b, f := RMul(h, X(p), r), RMul(h, Xor(d, X(p)), r), RMul(h', d', r), RMul(h, d, r);
    RMulXor(h, d, X(p), r);
    assert a == Xor(f, c);
    Ext(c, Xor(Xor(f, b), Xor(a, b)));
  }

  /** Where the guess e is wrong about x. */
  function Difference(x: Err, e: Err): Err { Err(Xor(e.e0, x.e0), Xor(e.e1, x.e1)) }

  /** The number of wrong positions. */
  function Distance(x: Err, e: Err, r: nat): nat {
    Weight(Difference(x, e).e0, r) + Weight(Difference(x, e).e1, r)
  }

  /** A key: two lists of D distinct positions, the first half and the product with the public key. */
  ghost predicate Key(inp: Input) {
    var r := inp.level.R();
    && ValidIndices(inp.w0, r) && ValidIndices(inp.w1, r) && |inp.w0| == |inp.w1| == inp.level.D()
    && inp.h0 == ListPoly(inp.w0, 0, r) && RMul(inp.pk, inp.h0, r) == ListPoly(inp.w1, 0, r)
  }

  /** No column of a position of d has more than m positions in common with another column. */
  ghost predicate MeetRarely(inp: Input, d: Err, m: nat) {
    var r := inp.level.R();
    var h0, h1 := ListPoly(inp.w0, 0, r), ListPoly(inp.w1, 0, r);
    && (forall j: nat, p: nat :: j < r && p < r && Bit(d.e0, j) && j != p ==> Meet(h0, j, h0, p, m, r))
    && (forall j: nat, p: nat :: j < r && p < r && Bit(d.e0, j) ==> Meet(h0, j, h1, p, m, r))
    && (forall j: nat, p: nat :: j < r && p < r && Bit(d.e1, j) ==> Meet(h1, j, h0, p, m, r))
    && (forall j: nat, p: nat :: j < r && p < r && Bit(d.e1, j) && j != p ==> Meet(h1, j, h1, p, m, r))
  }

  /** The syndrome of a guess under a key. */
  lemma SyndromeOfGuess(inp: Input, x: Err, e: Err)
    requires Honest(inp, x) && e.Fit(inp.level.R()) && Key(inp)
    ensures var r, d := inp.level.R(), Difference(x, e);
            && d.Fit(r)
            && Syndrome(inp, e) == SyndromeOf(ListPoly(inp.w0, 0, r), d.e0, ListPoly(inp.w1, 0, r), d.e1, r)
  {
    hide RawBit, Bit, Xor, RMul, Syndrome, ListPoly, ValidIndices;
    SyndromeOfDifference(inp, RMul(inp.pk, inp.h0, inp.level.R()), x, e);
  }

  /** Counts of all positions of both halves: at most a bound where d is clear, and short of D by less than that where
      d is set. */
  ghost predicate CountsBounded(inp: Input, d: Err, s: nat, bound: nat, m: nat) {
    var r := inp.level.R();
    && (forall p: nat :: p < r ==>
          if Bit(d.e0, p) then Count0(inp, s, p) + bound >= inp.level.D() + m else Count0(inp, s, p) <= bound)
    && (forall p: nat :: p < r ==>
          if Bit(d.e1, p) then Count1(inp, s, p) + bound >= inp.level.D() + m else Count1(inp, s, p) <= bound)
  }

  lemma CountsAreBounded(inp: Input, d: Err, m: nat)
    requires Key(inp) && d.Fit(inp.level.R()) && MeetRarely(inp, d, m)
    ensures var r := inp.level.R();
            var s := SyndromeOf(ListPoly(inp.w0, 0, r), d.e0, ListPoly(inp.w1, 0, r), d.e1, r);
            CountsBounded(inp, d, s, Times(Weight(d.e0, r) + Weight(d.e1, r), m), m)
  {
    hide RawBit, Bit, Xor, RMul, SyndromeOf, Upc, Weight, Meet, ListPoly, ValidIndices, Times;
    var r := inp.level.R();
    var h0, h1 := ListPoly(inp.w0, 0, r), ListPoly(inp.w1, 0, r);
    SyndromeSwap(h0, d.e0, h1, d.e1, r);
    forall p: nat | p < r
      ensures var n, c := Times(Weight(d.e0, r) + Weight(d.e1, r), m),
                          Count0(inp, SyndromeOf(h0, d.e0, h1, d.e1, r), p);
              if Bit(d.e0, p) then c + n >= inp.level.D() + m else c <= n
    {
      if Bit(d.e0, p) {
        WrongCount(inp.w0, d.e0, h1, d.e1, p, m, r);
      } else {
        CorrectCount(h0, inp.w0, d.e0, h1, d.e1, p, m, r);
      }
    }
    forall p: nat | p < r
      ensures var n, c := Times(Weight(d.e0, r) + Weight(d.e1, r), m),
                          Count1(inp, SyndromeOf(h0, d.e0, h1, d.e1, r), p);
              if Bit(d.e1, p) then c + n >= inp.level.D() + m else c <= n
    {
      if Bit(d.e1, p) {
        WrongCount(inp.w1, d.e1, h0, d.e0, p, m, r);
      } else {
        CorrectCount(h1, inp.w1, d.e1, h0, d.e0, p, m, r);
      }
    }
  }

  lemma SyndromeSwap(h: nat, d: nat, h': nat, d': nat, r: nat)
    requires r > 0
    ensures SyndromeOf(h, d, h', d', r) == SyndromeOf(h', d', h, d, r)
  {
    hide RMul, Xor;
    XorLaws(RMul(h, d, r), RMul(h', d', r), 0);
  }

  lemma HalfAboveD(level: Level)
    ensures level.D() < Half(level)
  {
    Log2MsbTight(level.D());
  }

  /** An iteration corrects a guess, whatever its number, if its threshold lies between the largest count that a correct
      position can have and the smallest of a wrong one: with t wrong positions whose columns meet others in at most m
      places, between t * m and D - (t - 1) * m. */
  lemma IterationCorrects(inp: Input, x: Err, e: Err, m: nat, iter: nat)
    requires Honest(inp, x) && e.Fit(inp.level.R()) && Key(inp) && MeetRarely(inp, Difference(x, e), m)
    requires var t, n := ThresholdAt(inp, Syndrome(inp, e)), Times(Distance(x, e, inp.level.R()), m);
             n < t <= inp.level.D() && t + n <= inp.level.D() + m
    ensures FlipsDifference(inp, x, e) && Iterate(inp, e, iter) == x
  {
    hide *;
    SyndromeOfGuess(inp, x, e);
    CountsAreBounded(inp, Difference(x, e), m);
    DistanceIs(x, e, inp.level.R());
    BoundsFlip(inp, x, e, Times(Distance(x, e, inp.level.R()), m), m);
    IterationFinds(inp, x, e, iter);
  }

  lemma DistanceIs(x: Err, e: Err, r: nat)
    ensures Distance(x, e, r) == Weight(Difference(x, e).e0, r) + Weight(Difference(x, e).e1, r)
  {
    hide Weight, Difference;
  }

  lemma BoundsFlip(inp: Input, x: Err, e: Err, n: nat, m: nat)
    requires CountsBounded(inp, Difference(x, e), Syndrome(inp, e), n, m)
    requires var t := ThresholdAt(inp, Syndrome(inp, e)); n < t <= inp.level.D() && t + n <= inp.level.D() + m
    ensures FlipsDifference(inp, x, e)
  {
    hide RawBit, Bit, Xor, Count0, Count1, ThresholdAt, Syndrome, Half;
    HalfAboveD(inp.level);
  }

  // ----- At the smallest threshold

  lemma {:induction false} WeightXor(a: nat, b: nat, n: nat)
    ensures Weight(Xor(a, b), n) <= Weight(a, n) + Weight(b, n)
  {
    hide RawBit, Bit, Xor;
    if n > 0 { WeightXor(a, b, n - 1); }
  }

  lemma ColumnWeight(w: seq<nat>, p: nat, r: nat)
    requires p < r && ValidIndices(w, r)
    ensures Weight(Column(ListPoly(w, 0, r), p, r), r) == |w|
  {
    hide RawBit, Bit, And, Upc, Weight, Column, ListPoly, ValidIndices;
    var c := Column(ListPoly(w, 0, r), p, r);
    OwnColumn(w, p, |w|, r);
    CountIsOverlap(c, w, p, r);
    Ext(And(c, c), c);
  }

  lemma {:induction false} HalfSyndromeWeight(w: seq<nat>, d: nat, n: nat, r: nat)
    requires n <= r && r > 0 && ValidIndices(w, r)
    ensures Weight(RMul(ListPoly(w, 0, r), Low(d, n), r), r) <= Times(Weight(d, n), |w|)
  {
    hide RawBit, Bit, Weight, RMul, Low, Xor, X, ListPoly, ValidIndices, Times;
    var h := ListPoly(w, 0, r);
    if n == 0 {
      RMulZero(h, r);
      WeightOfZero(r);
    } else {
      HalfSyndromeWeight(w, d, n - 1, r);
      var a, c := Low(d, n - 1), if Bit(d, n - 1) then X(n - 1) else 0;
      Ext(Low(d, n), Xor(a, c));
      RMulXor(h, a, c, r);
      WeightXor(RMul(h, a, r), RMul(h, c, r), r);
      TimesNext(Weight(d, n - 1), |w|);
      WeightNext(d, n - 1);
      if Bit(d, n - 1) {
        ColumnWeight(w, n - 1, r);
      } else {
        RMulZero(h, r);
        WeightOfZero(r);
      }
    }
  }

  lemma WeightNext(d: nat, n: nat)
    ensures Weight(d, n + 1) == Weight(d, n) + (if Bit(d, n) then 1 else 0)
  {
  }

  /** Every wrong position sets at most D bits of the syndrome. */
  lemma SyndromeWeight(inp: Input, x: Err, e: Err)
    requires Honest(inp, x) && e.Fit(inp.level.R()) && Key(inp)
    ensures Weight(Syndrome(inp, e), inp.level.R()) <= Times(Distance(x, e, inp.level.R()), inp.level.D())
  {
    hide RawBit, Bit, Weight, RMul, Low, Xor, ListPoly, ValidIndices, Times, Syndrome;
    var r, d := inp.level.R(), Difference(x, e);
    var h0, h1 := ListPoly(inp.w0, 0, r), ListPoly(inp.w1, 0, r);
    SyndromeOfGuess(inp, x, e);
    LowAll(d.e0, r);
    LowAll(d.e1, r);
    HalfSyndromeWeight(inp.w0, d.e0, r, r);
    HalfSyndromeWeight(inp.w1, d.e1, r, r);
    WeightXor(RMul(h0, d.e0, r), RMul(h1, d.e1, r), r);
    TimesLaws(inp.level.D(), Weight(d.e0, r), Weight(d.e1, r));
    TimesLaws(Weight(d.e0, r), inp.level.D(), 0);
    TimesLaws(Weight(d.e1, r), inp.level.D(), 0);
    TimesLaws(Weight(d.e0, r) + Weight(d.e1, r), inp.level.D(), 0);
  }

  /** Fewer wrong positions than THRESHOLD_MIN leave a syndrome too light for a larger threshold. */
  lemma SmallestThreshold(level: Level, weight: nat, k: nat)
    requires k < level.ThresholdMin() && weight <= Times(k, level.D())
    ensures ThresholdSpec(level, weight) == level.ThresholdMin() && 2 * level.ThresholdMin() == level.D() + 1
  {
    var top := (level.ThresholdMin() - 1) * level.D();
    assert weight <= top by {
      assert k * level.D() + (level.ThresholdMin() - 1 - k) * level.D() == top;
    }
    match level
    case Level1 => assert top == 2485;
    case Level3 => assert top == 5253;
    case Level5 => assert top == 9316;
  }

  /** Every guess with few wrong positions is corrected by the next iteration: if their columns meet other columns in at
      most m positions each, t wrong positions are few when t * m is below THRESHOLD_MIN. */
  lemma FewErrors(inp: Input, x: Err, e: Err, m: nat, iter: nat)
    requires Honest(inp, x) && e.Fit(inp.level.R()) && Key(inp) && MeetRarely(inp, Difference(x, e), m) && m > 0
    requires Times(Distance(x, e, inp.level.R()), m) < inp.level.ThresholdMin()
    ensures FlipsDifference(inp, x, e) && Iterate(inp, e, iter) == x
  {
    hide RawBit, Bit, Weight, Syndrome, Honest, Key, MeetRarely, Distance, FlipsDifference, Iterate, ThresholdSpec,
         Difference;
    var k := Distance(x, e, inp.level.R());
    SyndromeWeight(inp, x, e);
    if k > 0 { MulAtLeast(m, k); }
    SmallestThreshold(inp.level, Weight(Syndrome(inp, e), inp.level.R()), k);
    IterationCorrects(inp, x, e, m, iter);
  }

  /** So decoding corrects every error of t positions with t * m below THRESHOLD_MIN, and in its first iteration. */
  lemma FewErrorsDecode(inp: Input, x: Err, m: nat)
    requires Honest(inp, x) && Key(inp) && MeetRarely(inp, x, m) && m > 0
    requires Times(Weight(x.e0, inp.level.R()) + Weight(x.e1, inp.level.R()), m) < inp.level.ThresholdMin()
    ensures Run(inp, 1) == Bgf.Decode(inp) == x
  {
    hide *;
    FromZero(x, inp.level.R());
    FewErrors(inp, x, Err(0, 0), m, 0);
    DecodeAtOnce(inp, x);
  }

  lemma FromZero(x: Err, r: nat)
    ensures Err(0, 0).Fit(r) && Difference(x, Err(0, 0)) == x
    ensures Distance(x, Err(0, 0), r) == Weight(x.e0, r) + Weight(x.e1, r)
  {
    hide RawBit, Bit, Xor, Weight;
    ZeroFits(r);
    XorLaws(x.e0, 0, 0);
    XorLaws(x.e1, 0, 0);
  }
}
