/** The Black-Gray-Flip decoder on polynomials: the reference that the program refines, and its algebra. */
module Bgf {
  import opened Bits
  import opened Poly
  import opened Ring
  import opened Params
  import opened Modular
  import opened Threshold

  /** What the decoder is given: the ciphertext polynomial, the first half of the secret key and its public
      key as polynomials, and the rotations that the index lists of both halves lead to.  Polynomials from outside
      may have the padding bits of their last byte set. */
  datatype Input = Input(level: Level, c0: nat, h0: nat, pk: nat, w0: seq<nat>, w1: seq<nat>) {
    ghost predicate Valid() {
      var r := level.R();
      && Fits(c0, 8 * RBytes(r)) && Fits(h0, 8 * RBytes(r)) && Fits(pk, 8 * RBytes(r))
      && |w0| == level.D() && |w1| == level.D()
    }
  }

  /** An error vector. */
  datatype Err = Err(e0: nat, e1: nat) {
    ghost predicate Fit(r: nat) { Fits(e0, r) && Fits(e1, r) }
  }

  /** Unsatisfied parity checks of position p: the number of the first n rotations w with syndrome bit
      (p + w) mod r set. */
  function Upc(s: nat, w: seq<nat>, p: nat, n: nat, r: nat): (c: nat)
    requires n <= |w| && r > 0
    ensures c <= n
  {
    if n == 0 then 0 else Upc(s, w, p, n - 1, r) + (if Bit(s, Rem(p + w[n - 1], r)) then 1 else 0)
  }

  /** The decision read off the sign slice of a counter with range 2 * half: the count reaches the threshold,
      or misses it by more than half. */
  predicate Reaches(upc: nat, threshold: nat, half: nat) {
    upc >= threshold || upc + half < threshold
  }

  /** The positions whose count reaches the threshold. */
  function Black(s: nat, w: seq<nat>, threshold: nat, half: nat, r: nat): (b: nat)
    requires r > 0
    ensures forall p: nat :: Bit(b, p) == (p < r && Reaches(Upc(s, w, p, |w|, r), threshold, half))
  {
    FromBits((p: nat) => Reaches(Upc(s, w, p, |w|, r), threshold, half), r)
  }

  /** The positions that miss the threshold by at most DELTA. */
  function Gray(s: nat, w: seq<nat>, threshold: nat, r: nat): (g: nat)
    requires r > 0
    ensures forall p: nat :: Bit(g, p) == (p < r && Upc(s, w, p, |w|, r) < threshold <= Upc(s, w, p, |w|, r) + DELTA)
  {
    FromBits((p: nat) => Upc(s, w, p, |w|, r) < threshold <= Upc(s, w, p, |w|, r) + DELTA, r)
  }

  function Half(level: Level): nat { Pow2(Slices(level.D()) - 1) }

  /** The syndrome of the ciphertext corrected by e: h0 * (c0 + e0 + pk * e1). */
  function Syndrome(inp: Input, e: Err): nat {
    FoldMul(Xor(Xor(FoldMul(e.e1, inp.pk, inp.level.R()), inp.c0), e.e0), inp.h0, inp.level.R())
  }

  /** find_err1: flip the black positions. */
  function Flip1(inp: Input, s: nat, e: Err, threshold: nat): Err {
    var r, half := inp.level.R(), Half(inp.level);
    Err(Xor(e.e0, Black(s, inp.w0, threshold, half, r)), Xor(e.e1, Black(s, inp.w1, threshold, half, r)))
  }

  /** find_err2: flip the positions of a mask whose count reaches the majority threshold. */
  function Flip2(inp: Input, s: nat, e: Err, mask: Err): Err {
    var r, half, t := inp.level.R(), Half(inp.level), MajorityThreshold(inp.level);
    Err(Xor(e.e0, And(mask.e0, Black(s, inp.w0, t, half, r))), Xor(e.e1, And(mask.e1, Black(s, inp.w1, t, half, r))))
  }

  function MajorityThreshold(level: Level): nat { (level.D() + 1) / 2 + 1 }

  /** One iteration. */
  function Iterate(inp: Input, e: Err, iter: nat): Err {
    var r := inp.level.R();
    var s := Syndrome(inp, e);
    var threshold := ThresholdSpec(inp.level, Weight(s, r));
    var e' := Flip1(inp, s, e, threshold);
    if iter >= 1 then e'
    else
      var half := Half(inp.level);
      var black := Err(Black(s, inp.w0, threshold, half, r), Black(s, inp.w1, threshold, half, r));
      var gray := Err(Gray(s, inp.w0, threshold, r), Gray(s, inp.w1, threshold, r));
      var e'' := Flip2(inp, Syndrome(inp, e'), e', black);
      Flip2(inp, Syndrome(inp, e''), e'', gray)
  }

  /** The error vector after n iterations. */
  function Run(inp: Input, n: nat): Err {
    if n == 0 then Err(0, 0) else Iterate(inp, Run(inp, n - 1), n - 1)
  }

  function Decode(inp: Input): Err { Run(inp, MAX_IT) }

  // ----- Properties

  /** An honest instance: key polynomials without padding bits, and a ciphertext made from the error x. */
  ghost predicate Honest(inp: Input, x: Err) {
    var r := inp.level.R();
    && Fits(inp.h0, r) && Fits(inp.pk, r) && x.Fit(r)
    && inp.c0 == Xor(x.e0, RMul(x.e1, inp.pk, r))
  }

  /** In the ring, the syndrome is the product that it is meant to be. */
  lemma SyndromeInRing(inp: Input, e: Err)
    requires Fits(inp.c0, inp.level.R()) && Fits(inp.h0, inp.level.R()) && Fits(inp.pk, inp.level.R()) &&
             e.Fit(inp.level.R())
    ensures var r := inp.level.R();
            Syndrome(inp, e) == RMul(Xor(Xor(RMul(e.e1, inp.pk, r), inp.c0), e.e0), inp.h0, r)
  {
    hide RawBit, Bit, Xor, RMul, FoldMul;
    var r := inp.level.R();
    FoldMulIsRMul(e.e1, inp.pk, r);
    RMulFits(e.e1, inp.pk, r);
    FoldMulIsRMul(Xor(Xor(RMul(e.e1, inp.pk, r), inp.c0), e.e0), inp.h0, r);
  }

  /** With h1 = pk * h0 and a ciphertext made from the error x, the syndrome of any run of the decoder depends
      only on the difference between that error and the current guess. */
  lemma SyndromeOfDifference(inp: Input, h1: nat, x: Err, e: Err)
    requires Honest(inp, x) && e.Fit(inp.level.R()) && RMul(inp.pk, inp.h0, inp.level.R()) == h1
    ensures var r := inp.level.R();
            Syndrome(inp, e) == Xor(RMul(inp.h0, Xor(e.e0, x.e0), r), RMul(h1, Xor(e.e1, x.e1), r))
  {
    hide RawBit, Bit, Xor, RMul, Syndrome;
    var r := inp.level.R();
    var d0, d1 := Xor(e.e0, x.e0), Xor(e.e1, x.e1);
    var a, b := RMul(e.e1, inp.pk, r), RMul(x.e1, inp.pk, r);
    RMulFits(x.e1, inp.pk, r);
    assert Fits(inp.c0, r);
    SyndromeInRing(inp, e);
    Ext(Xor(Xor(a, Xor(x.e0, b)), e.e0), Xor(d0, Xor(a, b)));
    RMulXor(inp.pk, e.e1, x.e1, r);
    RMulXor(inp.h0, d0, RMul(d1, inp.pk, r), r);
    RMulAssoc(d1, inp.pk, inp.h0, r);
    RMulComm(d0, inp.h0, r);
    RMulComm(d1, h1, r);
  }

  /** The first syndrome is that of the zero guess. */
  lemma FirstSyndrome(inp: Input)
    ensures Run(inp, 0) == Err(0, 0)
    ensures Syndrome(inp, Err(0, 0)) == FoldMul(inp.c0, inp.h0, inp.level.R())
  {
    hide RawBit, Bit, Xor, Mul;
    MulZero(inp.pk);
    Ext(Fold(0, inp.level.R()), 0);
    XorLaws(inp.c0, 0, 0);
  }

  /** At the threshold of find_err2 black means that the count reaches it, at every level and for every syndrome. */
  lemma BlackAtMajority(level: Level, s: nat, w: seq<nat>, p: nat)
    requires p < level.R()
    ensures Bit(Black(s, w, MajorityThreshold(level), Half(level), level.R()), p)
            <==> Upc(s, w, p, |w|, level.R()) >= MajorityThreshold(level)
  {
    hide RawBit, Bit, Black, Upc;
    MajorityFits(level);
  }

  /** The threshold of find_err2 is the smallest number that is a majority of D by two. */
  lemma MajorityFits(level: Level)
    ensures level.ThresholdMin() < MajorityThreshold(level) <= Half(level)
    ensures 2 * MajorityThreshold(level) == level.D() + 3
  {
    ThresholdFits(level, 0);
  }

  // ----- What an iteration does

  /** The unsatisfied checks of position p of the first and of the second half, under the syndrome s. */
  function Count0(inp: Input, s: nat, p: nat): nat { Upc(s, inp.w0, p, |inp.w0|, inp.level.R()) }

  function Count1(inp: Input, s: nat, p: nat): nat { Upc(s, inp.w1, p, |inp.w1|, inp.level.R()) }

  /** The threshold that the decoder computes for the syndrome s. */
  function ThresholdAt(inp: Input, s: nat): nat { ThresholdSpec(inp.level, Weight(s, inp.level.R())) }

  /** From e to e', exactly those positions are flipped whose count under the syndrome s reaches the threshold t, or
      misses it by more than half the range of the counters. */
  ghost predicate ThresholdPass(inp: Input, s: nat, t: nat, e: Err, e': Err) {
    var r, half := inp.level.R(), Half(inp.level);
    && (forall p: nat {:trigger Bit(e'.e0, p)} :: Bit(e'.e0, p) ==
         (Bit(e.e0, p) != (p < r && (Count0(inp, s, p) >= t || Count0(inp, s, p) + half < t))))
    && (forall p: nat {:trigger Bit(e'.e1, p)} :: Bit(e'.e1, p) ==
         (Bit(e.e1, p) != (p < r && (Count1(inp, s, p) >= t || Count1(inp, s, p) + half < t))))
  }

  /** From e to e', exactly those positions of the mask are flipped whose count under the syndrome s reaches t. */
  ghost predicate MaskedPass(inp: Input, s: nat, t: nat, mask: Err, e: Err, e': Err) {
    var r := inp.level.R();
    && (forall p: nat {:trigger Bit(e'.e0, p)} :: Bit(e'.e0, p) ==
         (Bit(e.e0, p) != (p < r && Bit(mask.e0, p) && Count0(inp, s, p) >= t)))
    && (forall p: nat {:trigger Bit(e'.e1, p)} :: Bit(e'.e1, p) ==
         (Bit(e.e1, p) != (p < r && Bit(mask.e1, p) && Count1(inp, s, p) >= t)))
  }

  /** The mask holds exactly the positions whose count under the syndrome s misses t by at most DELTA. */
  ghost predicate NearMisses(inp: Input, s: nat, t: nat, mask: Err) {
    var r := inp.level.R();
    && (forall p: nat :: Bit(mask.e0, p) == (p < r && Count0(inp, s, p) < t <= Count0(inp, s, p) + DELTA))
    && (forall p: nat :: Bit(mask.e1, p) == (p < r && Count1(inp, s, p) < t <= Count1(inp, s, p) + DELTA))
  }

  lemma Flip1Is(inp: Input, s: nat, e: Err, t: nat)
    ensures ThresholdPass(inp, s, t, e, Flip1(inp, s, e, t))
  {
    hide RawBit, Bit, Xor, Black, Upc, Half;
  }

  lemma Flip2Is(inp: Input, s: nat, e: Err, mask: Err)
    ensures MaskedPass(inp, s, MajorityThreshold(inp.level), mask, e, Flip2(inp, s, e, mask))
  {
    hide RawBit, Bit, Xor, And, Black, Upc, Half, MajorityThreshold;
    MajorityFits(inp.level);
  }

  /** Every iteration but the first is one pass, at the threshold of the syndrome of its guess. */
  lemma LaterIteration(inp: Input, e: Err, iter: nat)
    requires iter >= 1
    ensures var s := Syndrome(inp, e); ThresholdPass(inp, s, ThresholdAt(inp, s), e, Iterate(inp, e, iter))
  {
    hide RawBit, Bit, Flip1, Flip2, ThresholdPass, Syndrome, ThresholdSpec, Weight, Black, Gray, Half;
    Flip1Is(inp, Syndrome(inp, e), e, ThresholdAt(inp, Syndrome(inp, e)));
  }

  /** The first iteration makes three passes, each under the syndrome of the guess that the pass before it has left: the
      pass of every iteration; one at the majority threshold over what that has flipped; and one at the majority
      threshold over what had missed the first threshold by at most DELTA. */
  lemma FirstIteration(inp: Input, e: Err) returns (e1: Err, e2: Err, black: Err, gray: Err)
    ensures var s, m := Syndrome(inp, e), MajorityThreshold(inp.level);
            var t := ThresholdAt(inp, s);
            && ThresholdPass(inp, s, t, e, e1)
            && black == Err(Xor(e.e0, e1.e0), Xor(e.e1, e1.e1))
            && MaskedPass(inp, Syndrome(inp, e1), m, black, e1, e2)
            && NearMisses(inp, s, t, gray)
            && MaskedPass(inp, Syndrome(inp, e2), m, gray, e2, Iterate(inp, e, 0))
  {
    hide RawBit, Bit, Xor, Flip1, Flip2, ThresholdPass, MaskedPass, NearMisses, Half, Syndrome, ThresholdSpec, Weight,
         MajorityThreshold, Black, Gray;
    var r, half, s := inp.level.R(), Half(inp.level), Syndrome(inp, e);
    var t := ThresholdAt(inp, s);
    black := Err(Black(s, inp.w0, t, half, r), Black(s, inp.w1, t, half, r));
    gray := Err(Gray(s, inp.w0, t, r), Gray(s, inp.w1, t, r));
    e1 := Flip1(inp, s, e, t);
    e2 := Flip2(inp, Syndrome(inp, e1), e1, black);
    Flip1Is(inp, s, e, t);
    Flip1Difference(inp, s, e, t);
    Flip2Is(inp, Syndrome(inp, e1), e1, black);
    GrayIs(inp, s, t);
    Flip2Is(inp, Syndrome(inp, e2), e2, gray);
  }

  lemma Flip1Difference(inp: Input, s: nat, e: Err, t: nat)
    ensures var r, half, e1 := inp.level.R(), Half(inp.level), Flip1(inp, s, e, t);
            && Xor(e.e0, e1.e0) == Black(s, inp.w0, t, half, r)
            && Xor(e.e1, e1.e1) == Black(s, inp.w1, t, half, r)
  {
    hide RawBit, Bit, Xor, Black, Half;
    XorLaws(e.e0, Black(s, inp.w0, t, Half(inp.level), inp.level.R()), 0);
    XorLaws(e.e1, Black(s, inp.w1, t, Half(inp.level), inp.level.R()), 0);
  }

  lemma GrayIs(inp: Input, s: nat, t: nat)
    ensures NearMisses(inp, s, t, Err(Gray(s, inp.w0, t, inp.level.R()), Gray(s, inp.w1, t, inp.level.R())))
  {
    hide RawBit, Bit, Gray, Upc;
  }

  /** So the second guess of a run comes from the zero guess in three passes. */
  lemma RunStarts(inp: Input) returns (e1: Err, e2: Err, black: Err, gray: Err)
    ensures var s, m := Syndrome(inp, Err(0, 0)), MajorityThreshold(inp.level);
            var t := ThresholdAt(inp, s);
            && ThresholdPass(inp, s, t, Err(0, 0), e1)
            && black == Err(Xor(0, e1.e0), Xor(0, e1.e1))
            && MaskedPass(inp, Syndrome(inp, e1), m, black, e1, e2)
            && NearMisses(inp, s, t, gray)
            && MaskedPass(inp, Syndrome(inp, e2), m, gray, e2, Run(inp, 1))
  {
    hide Xor, Iterate, ThresholdAt, ThresholdPass, MaskedPass, NearMisses, Syndrome, MajorityThreshold;
    e1, e2, black, gray := FirstIteration(inp, Err(0, 0));
    assert Run(inp, 1) == Iterate(inp, Run(inp, 0), 0);
  }

  /** And every later guess from the one before it in one pass; the result is the fifth after the zero guess. */
  lemma RunSteps(inp: Input, n: nat)
    requires n >= 1
    ensures var s := Syndrome(inp, Run(inp, n)); ThresholdPass(inp, s, ThresholdAt(inp, s), Run(inp, n), Run(inp,
            n + 1))
    ensures Decode(inp) == Run(inp, 5)
  {
    hide Iterate, ThresholdAt, ThresholdPass, Syndrome;
    LaterIteration(inp, Run(inp, n), n);
  }

  // ----- Guesses that stay

  /** Under the syndrome s no position is black, neither for the threshold that belongs to s nor for the majority. */
  ghost predicate Quiet(inp: Input, s: nat) {
    var r, half, m := inp.level.R(), Half(inp.level), MajorityThreshold(inp.level);
    var t := ThresholdSpec(inp.level, Weight(s, r));
    && Black(s, inp.w0, t, half, r) == 0 && Black(s, inp.w1, t, half, r) == 0
    && Black(s, inp.w0, m, half, r) == 0 && Black(s, inp.w1, m, half, r) == 0
  }

  /** A syndrome under which all counts stay below the smallest threshold of the level is quiet. */
  lemma LowCountsAreQuiet(inp: Input, s: nat)
    requires inp.level == Level3 ==> Weight(s, inp.level.R()) <= 21603
    requires forall p: nat :: p < inp.level.R() ==>
             Upc(s, inp.w0, p, |inp.w0|, inp.level.R()) < inp.level.ThresholdMin()
    requires forall p: nat :: p < inp.level.R() ==>
             Upc(s, inp.w1, p, |inp.w1|, inp.level.R()) < inp.level.ThresholdMin()
    ensures Quiet(inp, s)
  {
    hide RawBit, Bit, Black, Upc, Weight, ThresholdSpec, MajorityThreshold;
    var level, r := inp.level, inp.level.R();
    MajorityFits(level);
    ThresholdFits(level, Weight(s, r));
    var t := ThresholdSpec(level, Weight(s, r));
    BlackNone(s, inp.w0, t, level);
    BlackNone(s, inp.w1, t, level);
    BlackNone(s, inp.w0, MajorityThreshold(level), level);
    BlackNone(s, inp.w1, MajorityThreshold(level), level);
  }

  lemma BlackNone(s: nat, w: seq<nat>, t: nat, level: Level)
    requires t <= Half(level) && forall p: nat :: p < level.R() ==> Upc(s, w, p, |w|, level.R()) < t
    ensures Black(s, w, t, Half(level), level.R()) == 0
  {
    hide RawBit, Bit, Black, Upc, Half;
    Ext(Black(s, w, t, Half(level), level.R()), 0);
  }

  lemma UpcOfZero(w: seq<nat>, p: nat, n: nat, r: nat)
    requires n <= |w| && r > 0
    ensures Upc(0, w, p, n, r) == 0
  {
    hide RawBit, Bit, Rem;
    if n > 0 { UpcOfZero(w, p, n - 1, r); }
  }

  lemma WeightOfZero(n: nat)
    ensures Weight(0, n) == 0
  {
    hide RawBit, Bit;
    if n > 0 { WeightOfZero(n - 1); }
  }

  /** The zero syndrome is quiet, whatever the key. */
  lemma ZeroIsQuiet(inp: Input)
    ensures Quiet(inp, 0)
  {
    hide RawBit, Bit, Black, Upc, Weight, ThresholdSpec, Quiet;
    var r := inp.level.R();
    WeightOfZero(r);
    forall p: nat | p < r ensures Upc(0, inp.w0, p, |inp.w0|, r) == 0 == Upc(0, inp.w1, p, |inp.w1|, r) {
      UpcOfZero(inp.w0, p, |inp.w0|, r);
      UpcOfZero(inp.w1, p, |inp.w1|, r);
    }
    LowCountsAreQuiet(inp, 0);
  }

  lemma AndZero(m: nat)
    ensures And(m, 0) == 0
  {
  }

  /** A guess with a quiet syndrome, in particular with a zero one, is final: an iteration does not change it. */
  lemma QuietStays(inp: Input, e: Err, iter: nat)
    requires Quiet(inp, Syndrome(inp, e))
    ensures Iterate(inp, e, iter) == e
  {
    hide RawBit, Bit, Xor, And, Black, Gray, Syndrome, Weight, ThresholdSpec, Half, MajorityThreshold;
    var r, s := inp.level.R(), Syndrome(inp, e);
    var t := ThresholdSpec(inp.level, Weight(s, r));
    AndZero(0);
    AndZero(Gray(s, inp.w0, t, r));
    AndZero(Gray(s, inp.w1, t, r));
    XorLaws(e.e0, 0, 0);
    XorLaws(e.e1, 0, 0);
  }

  /** Once a run has reached a guess with a quiet syndrome, every later iteration and the final result are that
      guess. */
  lemma {:induction false} RunIsStable(inp: Input, m: nat, n: nat)
    requires m <= n && Quiet(inp, Syndrome(inp, Run(inp, m)))
    ensures Run(inp, n) == Run(inp, m)
    decreases n
  {
    hide Syndrome, Iterate, Quiet;
    if m < n {
      RunIsStable(inp, m, n - 1);
      QuietStays(inp, Run(inp, n - 1), n - 1);
    }
  }

  /** The error of the ciphertext has zero syndrome. */
  lemma ErrorHasZeroSyndrome(inp: Input, x: Err)
    requires Honest(inp, x)
    ensures Syndrome(inp, x) == 0
  {
    hide RawBit, Bit, Xor, RMul, Syndrome;
    var r := inp.level.R();
    var h1 := RMul(inp.pk, inp.h0, r);
    SyndromeOfDifference(inp, h1, x, x);
    XorLaws(x.e0, 0, 0);
    XorLaws(x.e1, 0, 0);
    RMulZero(inp.h0, r);
    RMulZero(h1, r);
    XorLaws(0, 0, 0);
  }

  /** The ring element that a ciphertext polynomial stands for in all syndromes under a unit h0: its low part plus the
      trace that its bits from r on leave. */
  function Effective(inp: Input, inv: nat): nat {
    Xor(Low(inp.c0, inp.level.R()), PaddingTrace(inp, inv))
  }

  function PaddingTrace(inp: Input, inv: nat): nat {
    RMul(Low(Mul(Shr(inp.c0, inp.level.R()), inp.h0), inp.level.R()), inv, inp.level.R())
  }

  lemma EffectiveFits(inp: Input, inv: nat)
    ensures Fits(Low(inp.c0, inp.level.R()), inp.level.R()) && Fits(PaddingTrace(inp, inv), inp.level.R())
    ensures Fits(Effective(inp, inv), inp.level.R())
  {
    hide RawBit, Bit, Xor, RMul, Low, Shr, Mul;
    RMulFits(Low(Mul(Shr(inp.c0, inp.level.R()), inp.h0), inp.level.R()), inv, inp.level.R());
  }

  /** Every syndrome is a product in the ring, whatever bits of the ciphertext polynomial are set. */
  lemma SyndromeOfEffective(inp: Input, e: Err, inv: nat)
    requires Fits(inp.h0, inp.level.R()) && Fits(inp.pk, inp.level.R()) && e.Fit(inp.level.R())
    requires RMul(inp.h0, inv, inp.level.R()) == 1
    ensures var r := inp.level.R();
            Syndrome(inp, e) == RMul(Xor(Xor(e.e0, RMul(e.e1, inp.pk, r)), Effective(inp, inv)), inp.h0, r)
  {
    hide RawBit, Bit, Xor, RMul, FoldMul, Low, Shr, Mul;
    var r := inp.level.R();
    var b := RMul(e.e1, inp.pk, r);
    FoldMulIsRMul(e.e1, inp.pk, r);
    RMulFits(e.e1, inp.pk, r);
    var d := Xor(Xor(b, inp.c0), e.e0);
    FoldMulSplit(d, inp.h0, r);
    Ext(Shr(d, r), Shr(inp.c0, r));
    var l, g, z := Low(d, r), Low(Mul(Shr(inp.c0, r), inp.h0), r), PaddingTrace(inp, inv);
    assert Fits(g, r);
    RMulFits(g, inv, r);
    UnitSolves(z, inp.h0, inv, g, r);
    RMulXor(inp.h0, l, z, r);
    Ext(Xor(l, z), Xor(Xor(e.e0, b), Xor(Low(inp.c0, r), z)));
  }

  /** For a unit h0 and every ciphertext polynomial, a guess has zero syndrome exactly if it explains the ring element
      that the ciphertext stands for. */
  lemma ZeroSyndromeExplains(inp: Input, e: Err, inv: nat)
    requires Fits(inp.h0, inp.level.R()) && Fits(inp.pk, inp.level.R()) && e.Fit(inp.level.R())
    requires RMul(inp.h0, inv, inp.level.R()) == 1
    ensures Syndrome(inp, e) == 0 <==> Effective(inp, inv) == Xor(e.e0, RMul(e.e1, inp.pk, inp.level.R()))
  {
    hide RawBit, Bit, Xor, RMul, Syndrome, Effective;
    var r := inp.level.R();
    var x, v := Xor(e.e0, RMul(e.e1, inp.pk, r)), Effective(inp, inv);
    SyndromeOfEffective(inp, e, inv);
    RMulFits(e.e1, inp.pk, r);
    EffectiveFits(inp, inv);
    UnitSolves(Xor(x, v), inp.h0, inv, 0, r);
    RMulComm(0, inv, r);
    RMulZero(inv, r);
    XorZero(x, v);
  }

  /** Two ciphertext polynomials have the same syndrome, for any one guess and then for all, exactly if they stand for
      the same ring element. */
  lemma SameSyndrome(inp: Input, c: nat, e: Err, inv: nat)
    requires Fits(inp.h0, inp.level.R()) && Fits(inp.pk, inp.level.R()) && e.Fit(inp.level.R())
    requires RMul(inp.h0, inv, inp.level.R()) == 1
    ensures Syndrome(inp, e) == Syndrome(inp.(c0 := c), e) <==> Effective(inp, inv) == Effective(inp.(c0 := c), inv)
  {
    hide RawBit, Bit, Xor, RMul, Syndrome, Effective;
    var r, other := inp.level.R(), inp.(c0 := c);
    var x, v, u := Xor(e.e0, RMul(e.e1, inp.pk, r)), Effective(inp, inv), Effective(other, inv);
    SyndromeOfEffective(inp, e, inv);
    SyndromeOfEffective(other, e, inv);
    RMulFits(e.e1, inp.pk, r);
    EffectiveFits(inp, inv);
    EffectiveFits(other, inv);
    UnitCancels(Xor(x, v), Xor(x, u), inp.h0, inv, r);
    XorLaws(x, v, 0);
    XorLaws(x, u, 0);
  }

  lemma UnitCancels(a: nat, b: nat, h: nat, inv: nat, r: nat)
    requires r > 1 && Fits(a, r) && Fits(b, r) && RMul(h, inv, r) == 1
    ensures RMul(a, h, r) == RMul(b, h, r) <==> a == b
  {
    hide RawBit, Bit, RMul;
    RMulAssoc(a, h, inv, r);
    RMulAssoc(b, h, inv, r);
    RMulOne(a, r);
    RMulOne(b, r);
  }

  lemma XorZero(a: nat, b: nat)
    ensures Xor(a, b) == 0 <==> a == b
  {
    hide RawBit, Bit, Xor;
    XorLaws(a, b, 0);
    if Xor(a, b) == 0 { XorLaws(a, 0, 0); }
  }

  lemma UnitSolves(d: nat, h: nat, inv: nat, g: nat, r: nat)
    requires r > 1 && Fits(d, r) && Fits(g, r) && RMul(h, inv, r) == 1
    ensures RMul(d, h, r) == g <==> d == RMul(g, inv, r)
  {
    hide RawBit, Bit, RMul;
    RMulAssoc(d, h, inv, r);
    RMulOne(d, r);
    RMulAssoc(g, inv, h, r);
    RMulComm(h, inv, r);
    RMulOne(g, r);
  }

  /** A ciphertext polynomial without bits from r on stands for itself. */
  lemma EffectiveOfReduced(inp: Input, inv: nat)
    requires Fits(inp.c0, inp.level.R())
    ensures Effective(inp, inv) == inp.c0
  {
    hide RawBit, Bit, Xor, RMul, Low, Shr, Mul;
    var r := inp.level.R();
    FitsPow2(inp.c0, r);
    MulZero(inp.h0);
    Ext(Low(0, r), 0);
    RMulComm(0, inv, r);
    RMulZero(inv, r);
    XorLaws(inp.c0, 0, 0);
  }

  /** Then a guess has zero syndrome exactly if it is an error that explains the ciphertext. */
  lemma ZeroSyndromeReduced(inp: Input, e: Err, inv: nat)
    requires Fits(inp.c0, inp.level.R()) && Fits(inp.h0, inp.level.R()) && Fits(inp.pk, inp.level.R()) &&
             e.Fit(inp.level.R())
    requires RMul(inp.h0, inv, inp.level.R()) == 1
    ensures Syndrome(inp, e) == 0 <==> inp.c0 == Xor(e.e0, RMul(e.e1, inp.pk, inp.level.R()))
  {
    hide RawBit, Bit, Xor, RMul, Syndrome, Effective;
    ZeroSyndromeExplains(inp, e, inv);
    EffectiveOfReduced(inp, inv);
  }

  /** The decoder knows the ciphertext polynomial by its syndromes only. */
  lemma {:induction false} SameRuns(inp: Input, c: nat, n: nat)
    requires forall e: Err :: Syndrome(inp.(c0 := c), e) == Syndrome(inp, e)
    ensures Run(inp.(c0 := c), n) == Run(inp, n)
  {
    hide RawBit, Bit, Xor, And, Syndrome, Black, Gray, Weight, ThresholdSpec;
    if n > 0 { SameRuns(inp, c, n - 1); }
  }

  /** The same input with x^r + 1 added to its ciphertext polynomial. */
  function Twin(inp: Input): Input {
    inp.(c0 := Xor(inp.c0, Modulus(inp.level.R())))
  }

  /** Adding t to the ciphertext polynomial adds its product with h0 to every syndrome. */
  lemma AddedSyndrome(inp: Input, t: nat, e: Err)
    ensures Syndrome(inp.(c0 := Xor(inp.c0, t)), e) == Xor(Syndrome(inp, e), FoldMul(t, inp.h0, inp.level.R()))
  {
    hide RawBit, Bit, Xor, Mul, Fold;
    var r := inp.level.R();
    var b := FoldMul(e.e1, inp.pk, r);
    var d := Xor(Xor(b, inp.c0), e.e0);
    Ext(Xor(Xor(b, Xor(inp.c0, t)), e.e0), Xor(d, t));
    MulXorL(d, t, inp.h0);
    FoldXor(Mul(d, inp.h0), Mul(t, inp.h0), r);
  }

  lemma TwinSyndrome(inp: Input, e: Err)
    requires Fits(inp.h0, inp.level.R())
    ensures Syndrome(Twin(inp), e) == Syndrome(inp, e)
  {
    hide RawBit, Bit, Xor, FoldMul, Modulus, Syndrome;
    var r := inp.level.R();
    AddedSyndrome(inp, Modulus(r), e);
    FoldMulModulus(inp.h0, r);
    XorLaws(Syndrome(inp, e), 0, 0);
  }

  /** All runs on it are the same. */
  lemma TwinRun(inp: Input, n: nat)
    requires Fits(inp.h0, inp.level.R())
    ensures Run(Twin(inp), n) == Run(inp, n)
  {
    hide Modulus, Syndrome, Fits, Run;
    forall e: Err ensures Syndrome(Twin(inp), e) == Syndrome(inp, e) { TwinSyndrome(inp, e); }
    SameRuns(inp, Twin(inp).c0, n);
  }

  lemma RMulZero(a: nat, r: nat)
    requires r > 0
    ensures RMul(a, 0, r) == 0
  {
    MulZero(a);
    RedFits(0, r);
    assert Fits(0, r);
  }

  /** Decoding ends with the first guess of a run that has a quiet syndrome. */
  lemma DecodeEnds(inp: Input, m: nat)
    requires m <= MAX_IT && Quiet(inp, Syndrome(inp, Run(inp, m)))
    ensures Decode(inp) == Run(inp, m)
  {
    hide *;
    RunIsStable(inp, m, MAX_IT);
    DecodeDef(inp);
  }

  /** Decoding succeeds as soon as any iteration finds the error. */
  lemma DecodeFinds(inp: Input, x: Err, m: nat)
    requires Honest(inp, x) && m <= MAX_IT && Run(inp, m) == x
    ensures Decode(inp) == x
  {
    hide *;
    ErrorHasZeroSyndrome(inp, x);
    ZeroIsQuiet(inp);
    DecodeEnds(inp, m);
  }

  lemma DecodeDef(inp: Input)
    ensures Decode(inp) == Run(inp, MAX_IT)
  {
    hide Run;
  }

  /** Every guess of every run is a pair of ring elements. */
  lemma {:induction false} RunFits(inp: Input, n: nat)
    ensures Fits(Run(inp, n).e0, inp.level.R()) && Fits(Run(inp, n).e1, inp.level.R())
  {
    hide RawBit, Bit, Xor, And, Black, Gray, Syndrome, ThresholdSpec, Weight;
    if n > 0 { RunFits(inp, n - 1); }
  }

  /** Black positions are those whose count reaches the threshold, whenever the threshold is at most half the
      range: for every syndrome at levels 1 and 5, and up to weight 21603 at level 3. */
  lemma BlackIsAtLeast(level: Level, s: nat, w: seq<nat>, p: nat)
    requires p < level.R() && (level == Level3 ==> Weight(s, level.R()) <= 21603)
    ensures var t := ThresholdSpec(level, Weight(s, level.R()));
            Bit(Black(s, w, t, Half(level), level.R()), p) <==> Upc(s, w, p, |w|, level.R()) >= t
  {
    hide RawBit, Bit, Black, Upc, Weight, ThresholdSpec;
    ThresholdFits(level, Weight(s, level.R()));
  }
}
