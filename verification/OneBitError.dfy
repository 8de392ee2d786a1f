/** An input of level 1 that the decoder corrects: a single wrong bit, anywhere in the first half. */
module OneBitError {
  import opened Bits
  import opened Poly
  import opened Ring
  import opened Modular
  import opened Params
  import opened Threshold
  import opened Sampling
  import opened SparseVectors
  import opened Bgf
  import opened Classification
  import opened Correction

  const R1: nat := 12323

  /** The positions i * i for i < 71. */
  function Squares(): (w: seq<nat>)
    ensures |w| == 71 && forall i :: 0 <= i < 71 ==> w[i] == i * i
  {
    seq(71, i requires 0 <= i < 71 => i * i)
  }

  /** The halves of the key are x^0 + x^1 + x^4 + .. + x^4900 and x^0 + x^1 + .. + x^70, the public key is any, and the
      ciphertext polynomial is x^j. */
  function OneBit(j: nat, pk: nat): Input {
    Input(Level1, X(j), ListPoly(Squares(), 0, R1), pk, Squares(), Run0(71))
  }

  /** Column j of the first half. */
  function SquareColumn(j: nat): nat { Column(ListPoly(Squares(), 0, R1), j, R1) }

  // ----- Bounding counts

  /** If the syndrome bits that a key half meets at p are among n positions, the count is at most n. */
  lemma CountAtMost(s: nat, w: seq<nat>, p: nat, r: nat, f: nat -> nat, n: nat)
    requires p < r && ValidIndices(w, r)
    requires forall i :: 0 <= i < |w| && Bit(s, Rem(p + w[i], r)) ==> exists u: nat :: u < n && Rem(p + w[i], r) == f(u)
    ensures Upc(s, w, p, |w|, r) <= n
  {
    hide RawBit, Bit, Xor, Mask, Rem, Upc, ValidIndices;
    var c := Xor(s, Mask(r));
    UpcComplement(s, w, p, |w|, r);
    MissCount(c, w, p, |w|, r);
    ImageCount(f, n);
    SubsetSize(Misses(c, w, p, |w|, r), Image(f, n));
  }

  ghost function Image(f: nat -> nat, n: nat): set<nat> { set u: nat | u < n :: f(u) }

  lemma {:induction false} ImageCount(f: nat -> nat, n: nat)
    ensures |Image(f, n)| <= n
  {
    if n == 0 {
      assert Image(f, 0) == {};
    } else {
      ImageCount(f, n - 1);
      assert Image(f, n) == Image(f, n - 1) + {f(n - 1)};
    }
  }

  // ----- Differences of squares

  /** The i below 71 with i * i - k * k == d for some k: one for every |i - k|, which has the parity of d. */
  function Root(d: int, u: nat): nat { RootAt(d, if d % 2 == 1 then 2 * u + 1 else 2 * u + 2) }

  /** The one with |i - k| == c. */
  function RootAt(d: int, c: nat): nat
    requires c > 0
  {
    if d >= 0 then (d / c + c) / 2 else if -d / c >= c then (-d / c - c) / 2 else 0
  }

  lemma SquarePair(i: nat, k: nat) returns (u: nat)
    requires i < 71 && k < 71 && i != k
    ensures u < 35 && i == Root(i * i - k * k, u)
  {
    var c := if i > k then i - k else k - i;
    DifferenceOfSquares(i, k, c);
    u := RootOfDifference(i * i - k * k, c, i, k);
  }

  lemma RootOfDifference(d: int, c: nat, i: nat, k: nat) returns (u: nat)
    requires i > k ==> c == i - k && d == Times(c, i + k)
    requires i <= k ==> c == k - i > 0 && d + Times(c, i + k) == 0
    ensures u == (c - 1) / 2 && i == Root(d, u)
  {
    hide RootAt, Times;
    SameParity(c, i + k, if i > k then k else i);
    u := (c - 1) / 2;
    RootIs(d, c, i, k);
  }

  lemma DifferenceOfSquares(i: nat, k: nat, c: nat)
    requires if i > k then c == i - k else c == k - i
    ensures (i > k ==> i * i - k * k == Times(c, i + k)) && (i <= k ==> k * k - i * i == Times(c, i + k))
  {
  }

  lemma RootIs(d: int, c: nat, i: nat, k: nat)
    requires i > k ==> c == i - k && d == Times(c, i + k)
    requires i <= k ==> c == k - i > 0 && d + Times(c, i + k) == 0
    ensures RootAt(d, c) == i
  {
    DivModUnique(if i > k then d else -d, c, i + k, 0);
    MulAtLeast(i + k, c);
  }

  lemma SameParity(c: nat, t: nat, k: nat)
    requires t == c + 2 * k && c > 0
    ensures Times(c, t) % 2 == c % 2 && Times(c, t) > 0
  {
    hide Times;
    ProductParity(c / 2, t / 2, c % 2);
  }

  lemma ProductParity(q: nat, v: nat, b: nat)
    requires 2 * q + b > 0 && 2 * v + b > 0 && b <= 1
    ensures Times(2 * q + b, 2 * v + b) % 2 == b && Times(2 * q + b, 2 * v + b) > 0
  {
    hide Times;
    var c, t := 2 * q + b, 2 * v + b;
    TimesLaws(c, v, v);
    TimesLaws(c, v + v, b);
    TimesLaws(b, q, q);
    TimesLaws(b, c, 0);
    TimesLaws(c, t, 0);
    TimesPositive(c, t);
  }

  lemma TimesPositive(c: nat, t: nat)
    requires c > 0 && t > 0
    ensures Times(c, t) > 0
  {
    MulAtLeast(c, t);
  }

  /** Two offsets of at most 4900 that lead to the same position differ by the difference of their origins. */
  function Offset(j: nat, p: nat): int {
    if j - p > R1 / 2 then j - p - R1 else if p - j > R1 / 2 then j - p + R1 else j - p
  }

  lemma SamePosition(p: nat, a: nat, j: nat, b: nat)
    requires p < R1 && j < R1 && a <= 4900 && b <= 4900 && Rem(p + a, R1) == Rem(j + b, R1)
    ensures a - b == Offset(j, p)
  {
    hide Rem;
    RemShort(p, a, R1);
    RemShort(j, b, R1);
  }

  lemma SquareBound(i: nat)
    requires i < 71
    ensures 0 <= i * i <= 4900
  {
    assert i * i + (70 - i) * i + (70 - i) * 70 == 4900;
  }

  lemma SquaresAreIndices()
    ensures ValidIndices(Squares(), R1)
  {
    var w := Squares();
    forall i, k | 0 <= i < k < 71 ensures w[i] != w[k] { SmallerSquare(i, k); }
    forall i | 0 <= i < 71 ensures w[i] < R1 { SquareBound(i); }
  }

  lemma SmallerSquare(i: nat, k: nat)
    requires i < k
    ensures i * i < k * k
  {
    var t := k - i;
    assert k * k == i * i + t * (i + k);
    MulAtLeast(t, i + k);
  }

  /** Two columns of the first half have at most 35 positions in common. */
  lemma SquareColumns(j: nat, p: nat)
    requires j < R1 && p < R1 && j != p
    ensures Upc(SquareColumn(j), Squares(), p, 71, R1) <= 35
  {
    hide RawBit, Bit, Column, ListPoly, Rem, Upc, ValidIndices, Root, Offset;
    var w, s, d := Squares(), SquareColumn(j), Offset(j, p);
    var f := (u: nat) => Rem(p + Root(d, u) * Root(d, u), R1);
    SquaresAreIndices();
    forall i | 0 <= i < 71 && Bit(s, Rem(p + w[i], R1)) ensures exists u: nat :: u < 35 && Rem(p + w[i], R1) == f(u) {
      var u := SquareHit(j, p, i);
      assert f(u) == Rem(p + w[i], R1);
    }
    CountAtMost(s, w, p, R1, f, 35);
  }

  lemma SquareHit(j: nat, p: nat, i: nat) returns (u: nat)
    requires j < R1 && p < R1 && j != p && i < 71
    requires Bit(SquareColumn(j), Rem(p + Squares()[i], R1))
    ensures u < 35 && i == Root(Offset(j, p), u)
  {
    hide RawBit, Bit, Column, ListPoly, Rem, ValidIndices, Root;
    SquaresAreIndices();
    ColumnHits(Squares(), j, Rem(p + i * i, R1), R1);
    var k :| 0 <= k < 71 && Rem(p + i * i, R1) == Rem(j + Squares()[k], R1);
    SquareBound(i);
    SquareBound(k);
    SamePosition(p, i * i, j, k * k);
    u := SquarePair(i, k);
  }

  lemma FarSquares(k: nat, l: nat)
    requires k >= l + 9
    ensures k * k - l * l > 70
  {
    var t := k - l;
    assert k * k - l * l == t * t + 2 * (l * t);
    MulAtLeast(t - 8, 9);
    assert t * t == (t - 9) * (t - 9) + 18 * t - 81;
  }

  /** Position k * k of a column of the first half. */
  function Spot(j: nat, k: nat): nat { Rem(j + k * k, R1) }

  /** Those for the 17 roots around k. */
  function Near(j: nat, k: nat, u: nat): nat { Spot(j, if k + u < 8 then 0 else k + u - 8) }

  /** Position p + i of the block is a position of column j. */
  ghost predicate BlockHits(j: nat, p: nat, i: nat) {
    Bit(SquareColumn(j), Rem(p + i, R1))
  }

  lemma RootOfHit(j: nat, p: nat, i: nat) returns (k: nat)
    requires j < R1 && p < R1 && i < 71 && BlockHits(j, p, i)
    ensures k < 71 && Rem(p + i, R1) == Spot(j, k) && i - k * k == Offset(j, p)
  {
    hide RawBit, Bit, Column, ListPoly, Rem, ValidIndices, Offset;
    SquaresAreIndices();
    ColumnHits(Squares(), j, Rem(p + i, R1), R1);
    k :| 0 <= k < 71 && Rem(p + i, R1) == Rem(j + Squares()[k], R1);
    SquareBound(k);
    SamePosition(p, i, j, k * k);
  }

  /** The roots of the squares in a window of 71 positions lie close together. */
  lemma CloseRoot(j: nat, p: nat, i: nat, k: nat, l: nat) returns (m: nat)
    requires j < R1 && p < R1 && i < 71 && l < 71 && i - k * k == Offset(j, p) && BlockHits(j, p, l)
    ensures k < m + 9 && m < k + 9 && Rem(p + l, R1) == Spot(j, m)
  {
    hide BlockHits, Rem, Spot, Offset;
    m := RootOfHit(j, p, l);
    if k >= m + 9 { FarSquares(k, m); }
    if m >= k + 9 { FarSquares(m, k); }
  }

  lemma NearHit(j: nat, p: nat, i: nat, k: nat, l: nat) returns (u: nat)
    requires j < R1 && p < R1 && i < 71 && l < 71 && BlockHits(j, p, l)
    requires i - k * k == Offset(j, p)
    ensures u < 17 && Rem(p + l, R1) == Near(j, k, u)
  {
    hide BlockHits, Rem, Spot, Offset;
    var m := CloseRoot(j, p, i, k, l);
    u := m + 8 - k;
  }

  lemma BlockCount(j: nat, p: nat, i: nat, k: nat)
    requires j < R1 && p < R1 && i < 71 && i - k * k == Offset(j, p)
    ensures Upc(SquareColumn(j), Run0(71), p, 71, R1) <= 17
  {
    hide RawBit, Bit, SquareColumn, Rem, Upc, ValidIndices, Near, Offset, Mask, ListPoly;
    var f := (u: nat) => Near(j, k, u);
    Run0IsMask(71, R1);
    forall l | 0 <= l < 71 && Bit(SquareColumn(j), Rem(p + Run0(71)[l], R1))
      ensures exists u: nat :: u < 17 && Rem(p + Run0(71)[l], R1) == f(u)
    {
      var u := NearHit(j, p, i, k, l);
      assert f(u) == Near(j, k, u);
    }
    CountAtMost(SquareColumn(j), Run0(71), p, R1, f, 17);
  }

  /** A column of the first half and one of the second have at most 17 positions in common. */
  lemma BlockColumns(j: nat, p: nat)
    requires j < R1 && p < R1
    ensures Upc(SquareColumn(j), Run0(71), p, 71, R1) <= 17
  {
    hide RawBit, Bit, SquareColumn, Rem, Upc, ValidIndices, Offset, Mask, ListPoly;
    if i: nat :| i < 71 && BlockHits(j, p, i) {
      var k := RootOfHit(j, p, i);
      BlockCount(j, p, i, k);
    } else {
      Run0IsMask(71, R1);
      forall l | 0 <= l < 71 ensures !Bit(SquareColumn(j), Rem(p + Run0(71)[l], R1)) { assert !BlockHits(j, p, l); }
      CountAtMost(SquareColumn(j), Run0(71), p, R1, (u: nat) => u, 0);
    }
  }

  // ----- The decoder on it

  lemma OneBitOrdinary(j: nat, pk: nat)
    requires j < R1 && Fits(pk, R1)
    ensures OneBit(j, pk).Valid() && Ordinary(OneBit(j, pk))
  {
    hide RawBit, Bit, X, ListPoly, RBytes, ValidIndices, Squares, Run0, Fits, Mask;
    var inp := OneBit(j, pk);
    SquaresAreIndices();
    Run0IsMask(71, R1);
    XFits(j, R1);
    ListPolyFits(Squares(), 0, R1);
    BytesHoldR(Level1);
    FitsWider(inp.c0, R1, 8 * RBytes(R1));
    FitsWider(inp.h0, R1, 8 * RBytes(R1));
    FitsWider(pk, R1, 8 * RBytes(R1));
  }

  lemma OneBitHonest(j: nat, pk: nat)
    requires j < R1 && Fits(pk, R1)
    ensures Honest(OneBit(j, pk), Err(X(j), 0))
  {
    hide RawBit, Bit, X, Xor, RMul, ListPoly;
    XFits(j, R1);
    ZeroFits(R1);
    RMulComm(0, pk, R1);
    RMulZero(pk, R1);
    XorLaws(X(j), 0, 0);
    assert Fits(OneBit(j, pk).h0, R1);
  }

  /** The syndrome is column j, and only position j has it for its own. */
  lemma OneBitFlips(j: nat, pk: nat)
    requires j < R1
    ensures FlipsDifference(OneBit(j, pk), Err(X(j), 0), Err(0, 0))
  {
    hide RawBit, Bit, X, ListPoly, Column, Upc, Weight, ThresholdSpec, Syndrome, Squares, Run0,
         ValidIndices;
    var inp := OneBit(j, pk);
    var s := SquareColumn(j);
    OneBitSyndrome(j, pk);
    SquaresAreIndices();
    ColumnWeight(Squares(), j, R1);
    TimesLaws(71, 0, 0);
    SmallestThreshold(Level1, 71, 1);
    OwnColumn(Squares(), j, 71, R1);
    assert ThresholdAt(inp, s) == 36;
    forall p: nat | p < R1
      ensures Count1(inp, s, p) <= 17 && if p == j then Count0(inp, s, p) == 71 else Count0(inp, s, p) <= 35
    {
      BlockColumns(j, p);
      if p != j { SquareColumns(j, p); }
    }
    HalfAboveD(Level1);
  }

  lemma OneBitSyndrome(j: nat, pk: nat)
    requires j < R1
    ensures Syndrome(OneBit(j, pk), Err(0, 0)) == SquareColumn(j)
  {
    hide RawBit, Bit, X, ListPoly, FoldMul, RMul, Run, Syndrome;
    var h := ListPoly(Squares(), 0, R1);
    FirstSyndrome(OneBit(j, pk));
    XFits(j, R1);
    assert Fits(h, R1);
    FoldMulIsRMul(X(j), h, R1);
    RMulComm(X(j), h, R1);
  }

  /** Whatever the public key, the decoder finds the error x^j in the first half, and finds it in the first
      iteration. */
  lemma OneBitIsCorrected(j: nat, pk: nat)
    requires j < R1 && Fits(pk, R1)
    ensures var inp := OneBit(j, pk);
            && inp.Valid() && Ordinary(inp) && Honest(inp, Err(X(j), 0))
            && Run(inp, 1) == Bgf.Decode(inp) == Err(X(j), 0)
  {
    hide *;
    OneBitOrdinary(j, pk);
    OneBitHonest(j, pk);
    OneBitFlips(j, pk);
    DecodeAtOnce(OneBit(j, pk), Err(X(j), 0));
  }
}
