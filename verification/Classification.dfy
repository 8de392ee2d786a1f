/** How far the classification of positions by the decoder is the intended comparison, at level 3, where the
    threshold can exceed half the range of the counters. */
module Classification {
  import opened Bits
  import opened Params
  import opened Modular
  import opened Poly
  import opened Ring
  import opened Threshold
  import opened Sampling
  import opened SparseVectors
  import opened Bgf

  const R3: nat := 24659

  // ----- A bound on counts

  ghost function Clear(s: nat, n: nat): set<nat> { set q: nat | q < n && !Bit(s, q) }

  lemma {:induction false} ClearCount(s: nat, n: nat)
    ensures |Clear(s, n)| == n - Weight(s, n)
  {
    hide RawBit, Bit;
    if n == 0 {
      assert Clear(s, 0) == {};
    } else {
      ClearCount(s, n - 1);
      assert Clear(s, n) == if Bit(s, n - 1) then Clear(s, n - 1) else Clear(s, n - 1) + {n - 1};
    }
  }

  /** The clear positions that the first n key indices hit. */
  ghost function Misses(s: nat, w: seq<nat>, p: nat, n: nat, r: nat): set<nat>
    requires n <= |w| && r > 0
  {
    set i: nat | i < n && !Bit(s, Rem(p + w[i], r)) :: Rem(p + w[i], r)
  }

  lemma RemInjective(p: nat, a: nat, b: nat, r: nat)
    requires a < r && b < r && p < r && Rem(p + a, r) == Rem(p + b, r)
    ensures a == b
  {
    RemShort(p, a, r);
    RemShort(p, b, r);
  }

  lemma RemShort(p: nat, a: nat, r: nat)
    requires a < r && p < r
    ensures Rem(p + a, r) == if p + a < r then p + a else p + a - r
  {
    if p + a < r { RemSmall(p + a, r); } else { RemMultiple(p + a - r, 1, r); RemSmall(p + a - r, r); }
  }

  lemma {:induction false} MissCount(s: nat, w: seq<nat>, p: nat, n: nat, r: nat)
    requires n <= |w| && p < r && ValidIndices(w, r)
    ensures |Misses(s, w, p, n, r)| == n - Upc(s, w, p, n, r)
  {
    hide RawBit, Bit, Rem, Misses, ValidIndices;
    if n == 0 {
      NoMisses(s, w, p, r);
    } else {
      MissCount(s, w, p, n - 1, r);
      MissStep(s, w, p, n - 1, r);
    }
  }

  lemma NoMisses(s: nat, w: seq<nat>, p: nat, r: nat)
    requires r > 0
    ensures Misses(s, w, p, 0, r) == {}
  {
    hide RawBit, Bit, Rem;
  }

  /** One more key index adds a position that none before it has hit. */
  lemma MissStep(s: nat, w: seq<nat>, p: nat, n: nat, r: nat)
    requires n < |w| && p < r && ValidIndices(w, r)
    ensures var q, before := Rem(p + w[n], r), Misses(s, w, p, n, r);
            q !in before && Misses(s, w, p, n + 1, r) == if Bit(s, q) then before else before + {q}
  {
    hide RawBit, Bit, Rem;
    forall i: nat | i < n ensures Rem(p + w[i], r) != Rem(p + w[n], r) {
      if Rem(p + w[i], r) == Rem(p + w[n], r) { RemInjective(p, w[i], w[n], r); }
    }
  }

  lemma SubsetSize(a: set<nat>, b: set<nat>)
    requires a <= b
    ensures |a| <= |b|
  {
    assert b == a + (b - a);
  }

  /** A list of distinct key indices cannot avoid more set bits than the syndrome has clear ones. */
  lemma UpcAtLeast(s: nat, w: seq<nat>, p: nat, r: nat)
    requires p < r && ValidIndices(w, r)
    ensures Upc(s, w, p, |w|, r) + (r - Weight(s, r)) >= |w|
  {
    hide RawBit, Bit, Upc, Weight, ValidIndices, Rem;
    MissCount(s, w, p, |w|, r);
    ClearCount(s, r);
    SubsetSize(Misses(s, w, p, |w|, r), Clear(s, r));
  }

  lemma {:induction false} UpcComplement(s: nat, w: seq<nat>, p: nat, n: nat, r: nat)
    requires n <= |w| && r > 0
    ensures Upc(Xor(s, Mask(r)), w, p, n, r) == n - Upc(s, w, p, n, r)
  {
    hide RawBit, Bit, Xor, Mask, Rem;
    if n > 0 { UpcComplement(s, w, p, n - 1, r); }
  }

  lemma {:induction false} WeightComplement(s: nat, n: nat, r: nat)
    requires n <= r
    ensures Weight(Xor(s, Mask(r)), n) == n - Weight(s, n)
  {
    hide RawBit, Bit, Xor, Mask;
    if n > 0 { WeightComplement(s, n - 1, r); }
  }

  /** Nor can it hit more set bits than there are. */
  lemma UpcAtMost(s: nat, w: seq<nat>, p: nat, r: nat)
    requires p < r && ValidIndices(w, r)
    ensures Upc(s, w, p, |w|, r) <= Weight(s, r)
  {
    hide RawBit, Bit, Xor, Mask, Upc, Weight, ValidIndices;
    UpcAtLeast(Xor(s, Mask(r)), w, p, r);
    UpcComplement(s, w, p, |w|, r);
    WeightComplement(s, r, r);
  }

  /** For a key of distinct indices a syndrome lighter than the smallest threshold of the level is quiet: a guess that
      leaves it is final. */
  lemma LightIsQuiet(inp: Input, s: nat)
    requires ValidIndices(inp.w0, inp.level.R()) && ValidIndices(inp.w1, inp.level.R())
    requires Weight(s, inp.level.R()) < inp.level.ThresholdMin()
    ensures Quiet(inp, s)
  {
    hide RawBit, Bit, Upc, Weight, ValidIndices, Quiet;
    var r := inp.level.R();
    forall p: nat | p < r
      ensures Upc(s, inp.w0, p, |inp.w0|, r) <= Weight(s, r) && Upc(s, inp.w1, p, |inp.w1|, r) <= Weight(s, r)
    {
      UpcAtMost(s, inp.w0, p, r);
      UpcAtMost(s, inp.w1, p, r);
    }
    LowCountsAreQuiet(inp, s);
  }

  // ----- A list that meets the bound

  /** The clear positions below n, and the set ones. */
  function Positions(s: nat, n: nat, isSet: bool): (w: seq<nat>)
    ensures |w| == if isSet then Weight(s, n) else n - Weight(s, n)
    ensures forall k :: 0 <= k < |w| ==> w[k] < n && Bit(s, w[k]) == isSet
    ensures Distinct(w)
  {
    hide RawBit, Bit;
    if n == 0 then [] else Positions(s, n - 1, isSet) + (if Bit(s, n - 1) == isSet then [n - 1] else [])
  }

  /** d indices, clear positions first. */
  function ClearFirst(s: nat, r: nat, d: nat): (w: seq<nat>)
    requires d <= r
    ensures |w| == d && ValidIndices(w, r)
    ensures forall k :: 0 <= k < d ==> Bit(s, w[k]) == (k >= r - Weight(s, r))
  {
    hide RawBit, Bit, Weight, Positions;
    (Positions(s, r, false) + Positions(s, r, true))[..d]
  }

  lemma {:induction false} ClearFirstUpc(s: nat, r: nat, d: nat, n: nat)
    requires n <= d <= r && r > 0
    ensures var z := r - Weight(s, r);
            Upc(s, ClearFirst(s, r, d), 0, n, r) == if n <= z then 0 else n - z
  {
    hide RawBit, Bit, Rem, ClearFirst, Weight;
    if n > 0 {
      ClearFirstUpc(s, r, d, n - 1);
      RemSmall(ClearFirst(s, r, d)[n - 1], r);
    }
  }

  // ----- The exact range

  /** At level 3, with the threshold computed from the syndrome, a position is classified black exactly when its
      count reaches the threshold. */
  ghost predicate Compares(s: nat, w: seq<nat>, p: nat) {
    var t := ThresholdSpec(Level3, Weight(s, R3));
    Bit(Black(s, w, t, Half(Level3), R3), p) <==> Upc(s, w, p, |w|, R3) >= t
  }

  /** The thresholds around the ends of the range. */
  lemma Thresholds3(weight: nat)
    requires weight <= R3
    ensures var t := ThresholdSpec(Level3, weight);
            && (weight <= 21603 ==> t <= 128) && (weight >= 21604 ==> t >= 129)
            && (weight <= 24642 ==> t <= 144) && (weight >= 24557 ==> t >= 144) && t <= 145
  {
    var x := 1525880000 + 526500 * weight;
    assert weight <= 21603 ==> x < 12900000000;
    assert weight >= 21604 ==> x >= 12900000000;
  }

  lemma Half3()
    ensures Half(Level3) == 128
  {
    assert Pow2(7) == 128;
  }

  lemma BlackIs(s: nat, w: seq<nat>, t: nat, p: nat)
    requires p < R3
    ensures Bit(Black(s, w, t, Half(Level3), R3), p) <==>
            Upc(s, w, p, |w|, R3) >= t || Upc(s, w, p, |w|, R3) + 128 < t
  {
    hide RawBit, Bit, Black, Upc;
    Half3();
  }

  /** The comparison is right for every key and every position exactly for syndromes of weight at most 21603 or
      at least 24572.  In between there is a key of distinct indices and a position that is flipped although
      almost none of its checks fails. */
  lemma ClassificationExact(s: nat)
    ensures (forall w: seq<nat>, p: nat :: ValidIndices(w, R3) && |w| == Level3.D() && p < R3 ==> Compares(s, w, p))
            <==> Weight(s, R3) <= 21603 || Weight(s, R3) >= 24572
  {
    hide RawBit, Bit, Black, Upc, Weight, ValidIndices, ThresholdSpec, Half, Reaches, ClearFirst;
    var weight := Weight(s, R3);
    var t := ThresholdSpec(Level3, weight);
    Thresholds3(weight);
    if weight <= 21603 || weight >= 24572 {
      forall w: seq<nat>, p: nat | ValidIndices(w, R3) && |w| == Level3.D() && p < R3 ensures Compares(s, w, p) {
        UpcAtLeast(s, w, p, R3);
        BlackIs(s, w, t, p);
      }
    } else {
      var w := ClearFirst(s, R3, Level3.D());
      ClearFirstUpc(s, R3, Level3.D(), Level3.D());
      BlackIs(s, w, t, 0);
      assert !Compares(s, w, 0);
    }
  }

  // ----- An input of the decoder outside the range

  /** The sum of x^(d * j) over j < n. */
  function Comb(d: nat, n: nat): nat {
    if n == 0 then 0 else Xor(Comb(d, n - 1), X(d * (n - 1)))
  }

  /** Multiplied by d one bits side by side it gives d * n of them. */
  lemma {:induction false} CombMul(d: nat, n: nat)
    ensures Mul(Comb(d, n), Mask(d)) == Mask(d * n) && Fits(Comb(d, n), d * n + 1)
  {
    hide RawBit, Bit, Xor, Mul, Mask, X, Shl;
    if n == 0 {
      MulZero(Mask(d));
      Ext(Mask(d * n), 0);
    } else {
      CombMul(d, n - 1);
      var k := d * (n - 1);
      assert d * n == k + d;
      MulXorL(Comb(d, n - 1), X(k), Mask(d));
      MulX(k, Mask(d));
      Ext(Xor(Mask(k), Shl(Mask(d), k)), Mask(d * n));
      forall i: nat | Bit(Comb(d, n), i) ensures i < d * n + 1 { assert Bit(Comb(d, n - 1), i) || i == k; }
    }
  }

  /** A key half of d neighbouring bits. */
  function Run0(d: nat): (w: seq<nat>)
    ensures |w| == d && forall i :: 0 <= i < d ==> w[i] == i
  {
    seq(d, i requires 0 <= i < d => i)
  }

  lemma Run0IsMask(d: nat, r: nat)
    requires d <= r
    ensures ListPoly(Run0(d), 0, r) == Mask(d) && ValidIndices(Run0(d), r)
  {
    hide RawBit, Bit, ListPoly, Mask;
    forall p: nat ensures Bit(ListPoly(Run0(d), 0, r), p) == Bit(Mask(d), p) {
      if p < d { assert Run0(d)[p] == p + 0; }
    }
    Ext(ListPoly(Run0(d), 0, r), Mask(d));
  }

  /** A ciphertext polynomial and the two halves of a key at level 3, with any public key: the product of c0 and h0 is
      a block of d * n one bits. */
  function BlockInput(d: nat, n: nat, pk: nat): Input
    requires d <= R3
  {
    Input(Level3, Comb(d, n), Mask(d), pk, Run0(d), ClearFirst(Mask(d * n), R3, d))
  }

  /** The syndrome that the decoder starts from. */
  lemma BlockSyndrome(d: nat, n: nat, pk: nat)
    requires d <= R3 && d * n < R3
    ensures Syndrome(BlockInput(d, n, pk), Err(0, 0)) == Mask(d * n)
  {
    hide RawBit, Bit, Xor, Mul, Mask, Comb, FoldMul, Syndrome, Fits, Red, ClearFirst, Run, RMul;
    var inp := BlockInput(d, n, pk);
    FirstSyndrome(inp);
    CombMul(d, n);
    FitsWider(Comb(d, n), d * n + 1, R3);
    MaskFits(d, R3);
    FoldMulIsRMul(Comb(d, n), Mask(d), R3);
    MaskFits(d * n, R3);
    RedFits(Mask(d * n), R3);
    RMulIs(Comb(d, n), Mask(d), R3);
  }

  lemma RMulIs(a: nat, b: nat, r: nat)
    requires r > 0
    ensures RMul(a, b, r) == Red(Mul(a, b), r)
  {
  }

  lemma MaskFits(n: nat, r: nat)
    requires n <= r
    ensures Fits(Mask(n), r)
  {
    hide RawBit, Bit, Mask;
  }

  /** The first flip of the decoder sets position p of the second half although none of its parity checks fails. */
  ghost predicate FlipsUnfailed(inp: Input, p: nat)
    requires |inp.w1| > 0
  {
    var s, r := Syndrome(inp, Err(0, 0)), inp.level.R();
    && Upc(s, inp.w1, p, |inp.w1|, r) == 0
    && Bit(Flip1(inp, s, Err(0, 0), ThresholdSpec(inp.level, Weight(s, r))).e1, p)
  }

  /** What a key requires of its lists and its first half, and a ciphertext of its polynomial. */
  ghost predicate Ordinary(inp: Input) {
    var r := inp.level.R();
    && inp.Valid() && Fits(inp.c0, r)
    && ValidIndices(inp.w0, r) && ValidIndices(inp.w1, r) && inp.h0 == ListPoly(inp.w0, 0, r)
  }

  /** Such an input of the decoder, for any public key: c0 is the sum of x^(103 * j) for j < 238 and h0 the sum of x^i
      for i < 103.  The syndrome has weight 24514, the threshold is 144, and position 0 is flipped because its count,
      zero, misses the threshold by more than 128. */
  lemma FlippedWithoutFailedChecks(pk: nat)
    requires Fits(pk, R3)
    ensures var inp := BlockInput(Level3.D(), 238, pk); Ordinary(inp) && FlipsUnfailed(inp, 0)
  {
    hide RawBit, Bit, Xor, Black, Upc, Weight, ValidIndices, Half, Reaches, ClearFirst, Mask, Comb, Syndrome, Fits,
         ListPoly, ThresholdSpec, Run0;
    var d := Level3.D();
    var inp := BlockInput(d, 238, pk);
    BlockSyndrome(d, 238, pk);
    BlockOrdinary(d, 238, pk);
    MaskWeight(d * 238, R3);
    Thresholds3(24514);
    ClearFirstUpc(Mask(d * 238), R3, d, d);
    BlackIs(Mask(d * 238), inp.w1, ThresholdSpec(Level3, 24514), 0);
    var b := Black(Mask(d * 238), inp.w1, ThresholdSpec(Level3, 24514), Half(Level3), R3);
    XorLaws(0, b, 0);
  }

  lemma BlockOrdinary(d: nat, n: nat, pk: nat)
    requires d == Level3.D() && d * n < R3 && Fits(pk, R3)
    ensures Ordinary(BlockInput(d, n, pk))
  {
    hide RawBit, Bit, Mask, Comb, Fits, ListPoly, Distinct, ClearFirst, RBytes;
    CombMul(d, n);
    FitsWider(Comb(d, n), d * n + 1, R3);
    MaskFits(d, R3);
    Run0IsMask(d, R3);
    BytesHoldR(Level3);
    FitsWider(Comb(d, n), R3, 8 * RBytes(R3));
    FitsWider(Mask(d), R3, 8 * RBytes(R3));
    FitsWider(pk, R3, 8 * RBytes(R3));
    assert forall i :: 0 <= i < d ==> Run0(d)[i] < R3;
  }

  lemma {:induction false} MaskWeight(k: nat, n: nat)
    ensures Weight(Mask(k), n) == if n < k then n else k
  {
    hide RawBit, Bit, Mask;
    if n > 0 { MaskWeight(k, n - 1); }
  }
}
