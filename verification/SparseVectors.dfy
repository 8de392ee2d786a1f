/** Sparse polynomials given by the lists of their set positions. */
module SparseVectors {
  import opened Bits
  import opened Poly
  import opened Words
  import opened Utilities
  import opened Threshold
  import opened Sampling

  const HALF32: int := 0x8000_0000

  // ----- From lists to words

  /** (int32_t)(a - b). */
  function SignedDiff(a: Dword, b: nat): (d: int)
    requires b < HALF32
    ensures -HALF32 <= d < HALF32
    ensures a < HALF32 ==> d == a - b
    ensures a == IDX_INVALID_VAL ==> d < 0
  {
    if a - b >= HALF32 then a - b - TWO32 else a - b
  }

  /** (size_t)(d >> 6) with an arithmetic shift. */
  function PosQw(d: int): Word
    requires -HALF32 <= d < HALF32
  {
    if d >= 0 then d / 64 else TWO64 + d / 64
  }

  /** BIT(d & MASK(6)). */
  function PosBit(d: int): (c: Word)
    ensures forall i: nat :: Bit(c, i) == (i == d % 64)
  {
    XIsWord(d % 64);
    X(d % 64)
  }

  lemma XIsWord(n: nat)
    requires n < 64
    ensures X(n) < TWO64
  {
    hide RawBit, Bit, X;
    WordFits(X(n));
  }

  /** A comparison of 32-bit truncations finds exactly the word of a position that is not negative. */
  lemma PosQwIs(d: int, i: nat)
    requires -HALF32 <= d < HALF32 && i < HALF32 / 64
    ensures PosQw(d) % TWO32 == i <==> d >= 0 && d / 64 == i
  {
    if d < 0 {
      assert -HALF32 / 64 <= d / 64 < 0;
      assert PosQw(d) % TWO32 == TWO32 + d / 64;
    }
  }

  /** -1 + !cmp. */
  function MatchMask(cmp: Dword): (m: Word)
    requires cmp <= 1
    ensures m == if cmp == 1 then MAX64 else 0
  {
    (MAX64 + (if cmp == 0 then 1 else 0)) % TWO64
  }

  lemma MaskedBit(b: Word, cmp: Dword, q: nat)
    requires cmp <= 1
    ensures Bit(WAnd(b, MatchMask(cmp)), q) == (cmp == 1 && Bit(b, q))
  {
    hide RawBit, Bit, WAnd, Mask;
    Pow2Words();
    assert Mask(64) == MAX64;
  }

  /** One of the first n signed differences is p. */
  ghost predicate Hits(d: seq<int>, n: nat, p: int)
    requires n <= |d|
  {
    exists j :: 0 <= j < n && d[j] == p
  }

  lemma HitsStep(d: seq<int>, n: nat, p: int)
    requires n < |d|
    ensures Hits(d, n + 1, p) == (Hits(d, n, p) || d[n] == p)
  {
  }

  ghost predicate Small(d: seq<int>) {
    forall j :: 0 <= j < |d| ==> -HALF32 <= d[j] < HALF32
  }

  /** The value of one word: every position is looked at, and masked out unless it lies in word i. */
  method FillWord(posQw: array<Word>, posBit: array<Word>, ghost d: seq<int>, i: nat) returns (val: Word)
    requires Small(d) && |d| == posQw.Length == posBit.Length && i < HALF32 / 64
    requires forall j :: 0 <= j < |d| ==> posQw[j] == PosQw(d[j]) && posBit[j] == PosBit(d[j])
    ensures forall q: nat :: Bit(val, q) == (q < 64 && Hits(d, |d|, 64 * i + q))
  {
    hide RawBit, Bit, WAnd, WOr, Hits, PosQw, PosBit, MatchMask;
    val := 0;
    NoHits(d);
    for j := 0 to posQw.Length
      invariant forall q: nat :: Bit(val, q) == (q < 64 && Hits(d, j, 64 * i + q))
    {
      var cmp := SecureCmp32(posQw[j] % TWO32, i);
      ghost var before := val;
      val := WOr(val, WAnd(posBit[j], MatchMask(cmp)));
      PosQwIs(d[j], i);
      forall q: nat ensures Bit(val, q) == (q < 64 && Hits(d, j + 1, 64 * i + q)) {
        MaskedBit(posBit[j], cmp, q);
        HitsStep(d, j, 64 * i + q);
      }
    }
  }

  lemma NoHits(d: seq<int>)
    ensures forall p :: !Hits(d, 0, p)
  {
  }

  /** The differences of an index list. */
  ghost function Diffs(wlist: seq<Dword>, firstPos: nat): (d: seq<int>)
    requires firstPos < HALF32
    ensures |d| == |wlist| && Small(d)
    ensures forall j :: 0 <= j < |d| ==> d[j] == SignedDiff(wlist[j], firstPos)
  {
    seq(|wlist|, j requires 0 <= j < |wlist| => SignedDiff(wlist[j], firstPos))
  }

  /** secure_set_bits_port: position p is set exactly when p + firstPos is in the list.  Entries below firstPos,
      past the end of the array, or marked invalid set nothing. */
  method SecureSetBitsPort(a: array<Word>, firstPos: nat, wlist: seq<Dword>)
    requires firstPos < HALF32 && 64 * a.Length <= HALF32
    modifies a
    ensures forall p: nat :: Bit(Val(a[..]), p) == (p < 64 * a.Length && Hits(Diffs(wlist, firstPos), |wlist|, p))
  {
    hide RawBit, Bit, Val, Hits, PosQw, PosBit;
    ghost var d := Diffs(wlist, firstPos);
    var posQw := new Word[|wlist|](_ => 0);
    var posBit := new Word[|wlist|](_ => 0);
    for i := 0 to |wlist|
      invariant forall j :: 0 <= j < i ==> posQw[j] == PosQw(d[j]) && posBit[j] == PosBit(d[j])
      modifies posQw, posBit
    {
      var w := SignedDiff(wlist[i], firstPos);
      posQw[i] := PosQw(w);
      posBit[i] := PosBit(w);
    }
    for i := 0 to a.Length
      invariant forall j :: 0 <= j < |wlist| ==> posQw[j] == PosQw(d[j]) && posBit[j] == PosBit(d[j])
      invariant forall k, q: nat :: 0 <= k < i ==> Bit(a[k], q) == (q < 64 && Hits(d, |d|, 64 * k + q))
      modifies a
    {
      a[i] := FillWord(posQw, posBit, d, i);
    }
    forall p: nat ensures Bit(Val(a[..]), p) == (p < 64 * a.Length && Hits(d, |d|, p)) {
      assert p == 64 * (p / 64) + p % 64;
    }
  }

  // ----- Half vectors

  /** The polynomial of degree below r whose coefficient p is set when p + lo is in the list. */
  function ListPoly(s: seq<nat>, lo: nat, r: nat): (v: nat)
    ensures forall p: nat :: Bit(v, p) == (p < r && p + lo in s)
  {
    FromBits((p: nat) => p + lo in s, r)
  }

  lemma ListPolyFits(s: seq<nat>, lo: nat, r: nat)
    ensures Fits(ListPoly(s, lo, r), r)
  {
    hide RawBit, Bit, ListPoly;
  }

  /** For a list of ordinary indices, invalid entries apart, the words hold its polynomial. */
  lemma HitsIsMembership(wlist: seq<Dword>, firstPos: nat, p: nat)
    requires firstPos < HALF32 && p + firstPos < HALF32
    requires forall j :: 0 <= j < |wlist| ==> wlist[j] < HALF32 || wlist[j] == IDX_INVALID_VAL
    ensures Hits(Diffs(wlist, firstPos), |wlist|, p) <==> p + firstPos in wlist
  {
    var d := Diffs(wlist, firstPos);
    if j :| 0 <= j < |d| && d[j] == p { assert wlist[j] == p + firstPos; }
    if j :| 0 <= j < |wlist| && wlist[j] == p + firstPos { assert d[j] == p; }
  }

  // ----- Weight

  /** The number of values of [lo, lo + n) in s. */
  ghost function CountIn(s: seq<nat>, lo: nat, n: nat): nat {
    |set x | x in s && lo <= x < lo + n|
  }

  lemma CountInStep(s: seq<nat>, lo: nat, n: nat)
    ensures CountIn(s, lo, n + 1) == CountIn(s, lo, n) + (if lo + n in s then 1 else 0)
  {
    var a, b := set x | x in s && lo <= x < lo + n, set x | x in s && lo <= x < lo + n + 1;
    assert b == if lo + n in s then a + {lo + n} else a;
  }

  /** The weight of a half vector is the number of indices of its range in the list. */
  lemma {:induction false} ListPolyWeight(s: seq<nat>, lo: nat, r: nat, n: nat)
    requires n <= r
    ensures Weight(ListPoly(s, lo, r), n) == CountIn(s, lo, n)
  {
    hide RawBit, Bit, ListPoly, CountIn;
    if n == 0 {
      CountNone(s, lo);
    } else {
      ListPolyWeight(s, lo, r, n - 1);
      CountInStep(s, lo, n - 1);
    }
  }

  lemma CountNone(s: seq<nat>, lo: nat)
    ensures CountIn(s, lo, 0) == 0
  {
    assert (set x | x in s && lo <= x < lo + 0) == {};
  }

  lemma CountSplit(s: seq<nat>, m: nat, n: nat)
    ensures CountIn(s, 0, m + n) == CountIn(s, 0, m) + CountIn(s, m, n)
  {
    var a, b := set x | x in s && 0 <= x < 0 + m, set x | x in s && m <= x < m + n;
    assert (set x | x in s && 0 <= x < 0 + (m + n)) == a + b;
  }

  /** A list without repetition has as many values as entries. */
  lemma {:induction false} CountAll(s: seq<nat>, n: nat)
    requires ValidIndices(s, n)
    ensures CountIn(s, 0, n) == |s|
  {
    if |s| == 0 {
      assert (set x | x in s && 0 <= x < 0 + n) == {};
    } else {
      var t, x := s[..|s| - 1], s[|s| - 1];
      CountAll(t, n);
      assert s == t + [x];
      assert x !in t;
      assert (set y | y in s && 0 <= y < 0 + n) == (set y | y in t && 0 <= y < 0 + n) + {x};
    }
  }

  /** A key half made from a list of distinct positions has exactly as many set bits as the list is long. */
  lemma KeyWeight(s: seq<nat>, r: nat)
    requires ValidIndices(s, r)
    ensures Weight(ListPoly(s, 0, r), r) == |s|
  {
    hide *;
    ListPolyWeight(s, 0, r, r);
    CountAll(s, r);
  }

  /** The two halves of an error vector share the weight of the list. */
  lemma ErrorWeight(s: seq<nat>, r: nat)
    requires ValidIndices(s, 2 * r)
    ensures Weight(ListPoly(s, 0, r), r) + Weight(ListPoly(s, r, r), r) == |s|
  {
    hide *;
    ListPolyWeight(s, 0, r, r);
    ListPolyWeight(s, r, r, r);
    CountSplit(s, r, r);
    CountAll(s, r + r);
  }
}
