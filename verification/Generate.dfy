/** Secret keys and error vectors of fixed weight, drawn from the generator under an expanded seed. */
module Generate {
  import opened Bits
  import opened Params
  import opened Words
  import opened RawBytes
  import opened Gf2xMul
  import opened Gf2xSqr
  import opened Threshold
  import opened AesCtrPrf
  import opened Sampling
  import opened SparseVectors
  import Gf2xInv

  /** The build option UNIFORM_SAMPLING, or the default. */
  datatype SamplingMode = FisherYatesMode | UniformMode

  const MAX_PRF_INVOCATION: nat := MAX32

  // ----- Error vectors

  /** The index list of the error vector under the generator enc. */
  function ErrorList(mode: SamplingMode, level: Level, enc: Cipher): (s: seq<nat>)
    ensures |s| == level.T()
  {
    hide Draw;
    var d := Draws(enc, 0);
    match mode
    case FisherYatesMode => FisherYates(d, level.T(), 2 * level.R(), 0)
    case UniformMode => FixedLength(d, level.MaxRandIndicesT(), level.T(), 2 * level.R()).out
  }

  /** The two halves of the error vector. */
  function Error0(mode: SamplingMode, level: Level, enc: Cipher): nat {
    ListPoly(ErrorList(mode, level, enc), 0, level.R())
  }

  function Error1(mode: SamplingMode, level: Level, enc: Cipher): nat {
    ListPoly(ErrorList(mode, level, enc), level.R(), level.R())
  }

  /** The two halves are the indices below r and those from r on, shifted down. */
  ghost predicate Splits(e0: nat, e1: nat, s: seq<nat>, r: nat) {
    && (forall p: nat :: Bit(e0, p) == (p < r && p in s))
    && (forall p: nat :: Bit(e1, p) == (p < r && p + r in s))
  }

  lemma HalvesSplit(mode: SamplingMode, level: Level, enc: Cipher)
    ensures Splits(Error0(mode, level, enc), Error1(mode, level, enc), ErrorList(mode, level, enc), level.R())
  {
    hide RawBit, Bit, ErrorList, ListPoly;
    var s, r := ErrorList(mode, level, enc), level.R();
    forall p: nat ensures Bit(ListPoly(s, 0, r), p) == (p < r && p in s) { assert p + 0 == p; }
  }

  ghost predicate OrdinaryIndices(s: seq<nat>) {
    forall k :: 0 <= k < |s| ==> s[k] < HALF32 || s[k] == IDX_INVALID_VAL
  }

  /** Every entry of the fixed-length output is invalid or a draw of the bit length of z. */
  lemma {:induction false} FixedLengthEntries(d: nat -> Dword, n: nat, t: nat, z: Dword)
    requires 0 < z < HALF32 / 2
    ensures OrdinaryIndices(FixedLength(d, n, t, z).out)
  {
    hide Masked, FixedLength;
    if n == 0 {
      FixedLengthStart(seq<Dword>(t, _ => IDX_INVALID_VAL), d, t, z);
    } else {
      FixedLengthEntries(d, n - 1, t, z);
      FixedLengthSnoc(d, n - 1, t, z);
      MaskedMeans(d(n - 1), z);
    }
  }

  /** Every entry of the list fits a signed 32-bit number or is invalid. */
  lemma ErrorListEntries(mode: SamplingMode, level: Level, enc: Cipher)
    ensures OrdinaryIndices(ErrorList(mode, level, enc))
  {
    hide FisherYates, FixedLength, Draws, OrdinaryIndices;
    match mode
    case FisherYatesMode => FisherYatesEntries(Draws(enc, 0), level.T(), 2 * level.R());
    case UniformMode => FixedLengthEntries(Draws(enc, 0), level.MaxRandIndicesT(), level.T(), 2 * level.R());
  }

  lemma FisherYatesEntries(d: nat -> Dword, num: nat, max: nat)
    requires num <= max < HALF32
    ensures OrdinaryIndices(FisherYates(d, num, max, 0))
  {
    hide FisherYates;
    FisherYatesDistinct(d, num, max, 0);
    var s := FisherYates(d, num, max, 0);
    assert forall k :: 0 <= k < |s| ==> 0 + k <= s[k] < HALF32;
  }

  /** Entry i of the list of the Fisher-Yates sampler, from the bytes of the stream: the four that draw it, from the
      start of the stream for the last entry on, scaled to [i, 2r). */
  lemma ErrorEntry(level: Level, enc: Cipher, i: nat, l: nat)
    requires i < level.T() && i <= l
    requires var rand := ByteVal(Stream(enc, 4 * (level.T() - 1 - i), 4));
             TWO32 * (l - i) <= rand * (2 * level.R() - i) < TWO32 * (l - i + 1)
    ensures var s := ErrorList(FisherYatesMode, level, enc); s[i] == if l in s[i + 1..] then i else l
  {
    hide FisherYates, Stream, ByteVal, Draws;
    SampleEntry(enc, 0, level.T(), 2 * level.R(), i, l);
  }

  /** The weight of the error vector: exactly T for the Fisher-Yates sampler, whatever the stream; for the uniform
      sampler the number of distinct valid draws, up to T. */
  lemma ErrorVectorWeight(mode: SamplingMode, level: Level, enc: Cipher)
    ensures var weight := Weight(Error0(mode, level, enc), level.R()) + Weight(Error1(mode, level, enc), level.R());
            match mode
            case FisherYatesMode => weight == level.T()
            case UniformMode =>
              var found := |Accepted(Draws(enc, 0), level.MaxRandIndicesT(), 2 * level.R())|;
              weight == if found < level.T() then found else level.T()
  {
    hide FisherYates, FixedLength, Accepted, Draws, ListPoly, Weight, ValidIndices;
    var d, r := Draws(enc, 0), level.R();
    match mode
    case FisherYatesMode =>
      FisherYatesValid(d, level.T(), 2 * r);
      ErrorWeight(FisherYates(d, level.T(), 2 * r, 0), r);
    case UniformMode =>
      FixedLengthWeight(d, level.MaxRandIndicesT(), level.T(), r);
  }

  lemma FisherYatesValid(d: nat -> Dword, num: nat, max: nat)
    requires num <= max
    ensures ValidIndices(FisherYates(d, num, max, 0), max)
  {
    hide FisherYates;
    FisherYatesDistinct(d, num, max, 0);
  }

  lemma FixedLengthWeight(d: nat -> Dword, n: nat, t: nat, r: nat)
    requires 2 * r < TWO32
    ensures var s, found := FixedLength(d, n, t, 2 * r).out, |Accepted(d, n, 2 * r)|;
            Weight(ListPoly(s, 0, r), r) + Weight(ListPoly(s, r, r), r) == if found < t then found else t
  {
    hide FixedLength, Accepted, ListPoly, Weight, ValidIndices, CountIn, Window;
    var s, found := FixedLength(d, n, t, 2 * r), Accepted(d, n, 2 * r);
    FixedLengthIsPrefix(d, n, t, 2 * r);
    if |found| >= t {
      ErrorWeight(s.out, r);
    } else {
      FixedLengthWindow(d, n, t, 2 * r);
      ListPolyWeight(s.out, 0, r, r);
      ListPolyWeight(s.out, r, r, r);
      CountSplit(s.out, r, r);
      CountAll(found, r + r);
      SameCount(s, found, 2 * r);
    }
  }

  lemma SameCount(s: Slots, found: seq<nat>, z: Dword)
    requires Window(s, found, z) && |found| < |s.out|
    ensures CountIn(s.out, 0, z) == CountIn(found, 0, z)
  {
    hide Window;
    forall x: nat | x < z ensures x in s.out <==> x in found { WindowMember(s, found, z, x); }
    assert (set x | x in s.out && 0 <= x < 0 + z) == (set x | x in found && 0 <= x < 0 + z);
  }

  /** One half of the error vector: its bits, then the cleaning of the padding, which also drops the indices that
      belong to the other half. */
  method SetHalf(a: array<Word>, firstPos: nat, wlist: seq<Dword>, level: Level)
    requires a.Length == PaddedQWords(level) && (firstPos == 0 || firstPos == level.R())
    requires OrdinaryIndices(wlist)
    modifies a
    ensures Val(a[..]) == ListPoly(wlist, firstPos, level.R()) && IsPadded(a[..], level.R())
  {
    hide RawBit, Bit, Val, ListPoly, Hits, QWords, RBytes;
    var r := level.R();
    Gf2xInv.PaddedSizes(level);
    HalfSizes(level);
    SecureSetBitsPort(a, firstPos, wlist);
    MaskLastByte(a, r);
    ClearBytes(a, RBytes(r), 8 * a.Length);
    forall p: nat ensures Bit(Val(a[..]), p) == Bit(ListPoly(wlist, firstPos, r), p) {
      if p < r { HitsIsMembership(wlist, firstPos, p); }
    }
    Ext(Val(a[..]), ListPoly(wlist, firstPos, r));
  }

  lemma HalfSizes(level: Level)
    ensures GoodR(level.R()) && QWords(level.R()) <= PaddedQWords(level) && 2 * level.R() < HALF32 / 2
    ensures level.R() <= 8 * RBytes(level.R()) <= 64 * PaddedQWords(level)
  {
    Gf2xInv.PaddedSizes(level);
  }

  /** generate_error_vector: it always succeeds. */
  method GenerateErrorVector(mode: SamplingMode, e: (array<Word>, array<Word>), level: Level, enc: Cipher)
    requires e.0 != e.1 && e.0.Length == e.1.Length == PaddedQWords(level)
    modifies e.0, e.1
    ensures Val(e.0[..]) == Error0(mode, level, enc) && Val(e.1[..]) == Error1(mode, level, enc)
    ensures Splits(Val(e.0[..]), Val(e.1[..]), ErrorList(mode, level, enc), level.R())
    ensures IsPadded(e.0[..], level.R()) && IsPadded(e.1[..], level.R())
  {
    hide RawBit, Bit, Val, ListPoly, PaddedQWords, ErrorList, IsPadded, OrdinaryIndices, Splits;
    var wlist := ErrorIndices(mode, level, enc);
    ErrorListEntries(mode, level, enc);
    SetHalf(e.0, 0, wlist, level);
    SetHalf(e.1, level.R(), wlist, level);
    HalvesSplit(mode, level, enc);
  }

  /** Its list of indices. */
  method ErrorIndices(mode: SamplingMode, level: Level, enc: Cipher) returns (wlist: seq<Dword>)
    ensures wlist == ErrorList(mode, level, enc)
  {
    hide FisherYates, FixedLength, Draw;
    var prf: Prf := InitPrfState(enc, MAX_PRF_INVOCATION);
    var out := new Dword[level.T()](_ => 0);
    var ok;
    match mode {
      case FisherYatesMode =>
        ok := SampleIndicesFisherYates(out, level.T(), 2 * level.R(), prf);
      case UniformMode =>
        ok := SampleErrorVecIndicesPort(out, level.T(), 2 * level.R(), level.MaxRandIndicesT(), prf);
    }
    assert ok;
    wlist := out[..level.T()];
  }

  // ----- Secret keys

  /** generate_sparse_rep_for_sk: a list of D distinct positions and its polynomial.  The Fisher-Yates sampler
      succeeds if 4 bytes a position can be served; the rejection sampler if the draws that can be served contain
      D distinct positions. */
  method GenerateSparseRepForSk(mode: SamplingMode, a: array<Word>, level: Level, prf: Prf)
    returns (ok: bool, wlist: seq<Dword>)
    requires Aligned(prf) && a.Length == PaddedQWords(level)
    modifies a, prf, prf.buffer
    ensures prf.buffer == old(prf.buffer)
    ensures var d, budget := Draws(prf.enc, old(prf.Position())), old(Available(prf));
            ok == match mode
                  case FisherYatesMode => budget >= 4 * level.D()
                  case UniformMode => |Accepted(d, budget / 4, level.R())| >= level.D()
    ensures ok ==> Aligned(prf) && prf.Position() >= old(prf.Position())
    ensures ok ==> KeyList(wlist, mode, level, prf.enc, old(prf.Position()), prf.Position())
    ensures ok ==> 16 * prf.remInvocations - prf.currPosInBuffer + prf.Position()
                   == old(16 * prf.remInvocations - prf.currPosInBuffer + prf.Position())
    ensures ok ==> Val(a[..]) == ListPoly(wlist, 0, level.R()) && IsPadded(a[..], level.R())
  {
    hide RawBit, Bit, Val, ListPoly, PaddedQWords, IsPadded, KeyList, Accepted, Draws, ValidIndices;
    ok, wlist := DrawKeyList(mode, level, prf);
    if !ok { return; }
    KeyListFacts(wlist, mode, level, prf.enc, old(prf.Position()), prf.Position());
    SetKeyBits(a, wlist, level);
  }

  /** Its list. */
  method DrawKeyList(mode: SamplingMode, level: Level, prf: Prf) returns (ok: bool, wlist: seq<Dword>)
    requires Aligned(prf)
    modifies prf, prf.buffer
    ensures prf.buffer == old(prf.buffer)
    ensures var d, budget := Draws(prf.enc, old(prf.Position())), old(Available(prf));
            ok == match mode
                  case FisherYatesMode => budget >= 4 * level.D()
                  case UniformMode => |Accepted(d, budget / 4, level.R())| >= level.D()
    ensures ok ==> Aligned(prf) && prf.Position() >= old(prf.Position())
    ensures ok ==> KeyList(wlist, mode, level, prf.enc, old(prf.Position()), prf.Position())
    ensures ok ==> 16 * prf.remInvocations - prf.currPosInBuffer + prf.Position()
                   == old(16 * prf.remInvocations - prf.currPosInBuffer + prf.Position())
  {
    hide FisherYates, Accepted, Draws, FirstDistinct, ValidIndices, KeyList;
    var wlistTemp := new Dword[level.D()](_ => 0);
    ghost var n;
    match mode {
      case FisherYatesMode =>
        ok := SampleIndicesFisherYates(wlistTemp, level.D(), level.R(), prf);
        FisherYatesList(level, prf.enc, old(prf.Position()));
      case UniformMode =>
        ok, n := GenerateIndicesModZ(wlistTemp, level.D(), level.R(), prf);
        if ok { UniformList(wlistTemp[..level.D()], level, prf.enc, old(prf.Position()), n); }
    }
    wlist := wlistTemp[..];
    assert wlist == wlistTemp[..level.D()];
  }

  /** What the list of a key half is. */
  ghost predicate KeyList(s: seq<nat>, mode: SamplingMode, level: Level, enc: Cipher, from: nat, to: nat) {
    && |s| == level.D() && ValidIndices(s, level.R())
    && match mode
       case FisherYatesMode => to == from + 4 * level.D() && s == FisherYates(Draws(enc, from), level.D(), level.R(), 0)
       case UniformMode =>
         to >= from && (to - from) % 4 == 0 && FirstDistinct(s, Draws(enc, from), (to - from) / 4, level.R())
  }

  /** The same for the list of a key half, which takes 4 bytes an index. */
  lemma KeyEntry(s: seq<nat>, level: Level, enc: Cipher, from: nat, to: nat, i: nat, l: nat)
    requires KeyList(s, FisherYatesMode, level, enc, from, to) && i < level.D() && i <= l
    requires var rand := ByteVal(Stream(enc, from + 4 * (level.D() - 1 - i), 4));
             TWO32 * (l - i) <= rand * (level.R() - i) < TWO32 * (l - i + 1)
    ensures to == from + 4 * level.D() && s[i] == if l in s[i + 1..] then i else l
  {
    hide FisherYates, Stream, ByteVal, Draws, ValidIndices;
    SampleEntry(enc, from, level.D(), level.R(), i, l);
  }

  lemma FisherYatesList(level: Level, enc: Cipher, from: nat)
    ensures KeyList(FisherYates(Draws(enc, from), level.D(), level.R(), 0), FisherYatesMode, level, enc, from,
                    from + 4 * level.D())
  {
    hide FisherYates, Draws, ValidIndices;
    FisherYatesValid(Draws(enc, from), level.D(), level.R());
  }

  lemma UniformList(s: seq<nat>, level: Level, enc: Cipher, from: nat, n: nat)
    requires |s| == level.D() && FirstDistinct(s, Draws(enc, from), n, level.R())
    ensures KeyList(s, UniformMode, level, enc, from, from + 4 * n)
  {
    hide FirstDistinct, Draws, ValidIndices;
    FirstDistinctValid(s, Draws(enc, from), n, level.R());
  }

  lemma FirstDistinctValid(s: seq<nat>, d: nat -> Dword, n: nat, z: nat)
    requires FirstDistinct(s, d, n, z)
    ensures ValidIndices(s, z)
  {
    hide Masked;
  }

  /** A list of positions below R needs no masking. */
  method SetKeyBits(a: array<Word>, wlist: seq<Dword>, level: Level)
    requires a.Length == PaddedQWords(level) && ValidIndices(wlist, level.R())
    modifies a
    ensures Val(a[..]) == ListPoly(wlist, 0, level.R()) && IsPadded(a[..], level.R())
  {
    hide RawBit, Bit, Val, ListPoly, Hits, QWords, RBytes;
    Gf2xInv.PaddedSizes(level);
    HalfSizes(level);
    SecureSetBitsPort(a, 0, wlist);
    forall p: nat ensures Bit(Val(a[..]), p) == Bit(ListPoly(wlist, 0, level.R()), p) {
      if p < 64 * a.Length { HitsIsMembership(wlist, 0, p); }
    }
    Ext(Val(a[..]), ListPoly(wlist, 0, level.R()));
  }

  /** The 32-bit draws that a fresh generator can serve. */
  const ALL_DRAWS: nat := 4 * MAX_PRF_INVOCATION

  /** n is the first number of draws with num distinct values below z. */
  ghost predicate FirstCount(d: nat -> Dword, n: nat, num: nat, z: nat) {
    n > 0 && |Accepted(d, n, z)| == num && |Accepted(d, n - 1, z)| < num
  }

  /** When key generation succeeds: with the rejection sampler, the draws that the generator can serve must contain D
      distinct positions, and those after the first such number of draws again. */
  ghost predicate KeyGenSucceeds(mode: SamplingMode, level: Level, enc: Cipher) {
    mode.FisherYatesMode? ||
    exists n: nat :: n <= ALL_DRAWS && FirstCount(Draws(enc, 0), n, level.D(), level.R()) &&
                     |Accepted(Draws(enc, 4 * n), ALL_DRAWS - n, level.R())| >= level.D()
  }

  lemma FirstCountUnique(d: nat -> Dword, m: nat, n: nat, num: nat, z: nat)
    requires FirstCount(d, m, num, z) && FirstCount(d, n, num, z)
    ensures m == n
  {
    hide Accepted;
    if m < n { AcceptedPrefix(d, m, n - 1, z); }
    if n < m { AcceptedPrefix(d, n, m - 1, z); }
  }

  /** The outcome of the rejection sampler for both halves decides the success. */
  lemma UniformOutcome(level: Level, enc: Cipher, first: bool, n: nat, second: bool)
    requires first == (|Accepted(Draws(enc, 0), ALL_DRAWS, level.R())| >= level.D())
    requires first ==> n <= ALL_DRAWS && FirstCount(Draws(enc, 0), n, level.D(), level.R())
    requires first ==> second == (|Accepted(Draws(enc, 4 * n), ALL_DRAWS - n, level.R())| >= level.D())
    ensures (first && second) == KeyGenSucceeds(UniformMode, level, enc)
  {
    hide Accepted, Draws, FirstCount;
    forall k: nat | k <= ALL_DRAWS && FirstCount(Draws(enc, 0), k, level.D(), level.R())
      ensures first && k == n
    {
      AcceptedPrefix(Draws(enc, 0), k, ALL_DRAWS, level.R());
      FirstCountIs(Draws(enc, 0), k, level.D(), level.R());
      FirstCountUnique(Draws(enc, 0), k, n, level.D(), level.R());
    }
  }

  lemma FirstCountIs(d: nat -> Dword, n: nat, num: nat, z: nat)
    requires FirstCount(d, n, num, z)
    ensures |Accepted(d, n, z)| == num
  {
    hide Accepted;
  }

  lemma KeyListCount(s: seq<nat>, level: Level, enc: Cipher, from: nat, to: nat)
    requires KeyList(s, UniformMode, level, enc, from, to)
    ensures FirstCount(Draws(enc, from), (to - from) / 4, level.D(), level.R())
  {
    hide Accepted, Draws, ValidIndices;
  }

  /** generate_secret_key: both halves from one generator, each of weight D; the second starts where the first
      ended. */
  method GenerateSecretKey(mode: SamplingMode, h0: array<Word>, h1: array<Word>, level: Level, enc: Cipher)
    returns (ok: bool, w0: seq<Dword>, w1: seq<Dword>, ghost mid: nat, ghost end: nat)
    requires h0 != h1 && h0.Length == h1.Length == PaddedQWords(level)
    modifies h0, h1
    ensures ok == KeyGenSucceeds(mode, level, enc)
    ensures ok ==> KeyList(w0, mode, level, enc, 0, mid) && KeyList(w1, mode, level, enc, mid, end)
    ensures ok ==> Val(h0[..]) == ListPoly(w0, 0, level.R()) && Val(h1[..]) == ListPoly(w1, 0, level.R())
    ensures ok ==> IsPadded(h0[..], level.R()) && IsPadded(h1[..], level.R())
    ensures ok ==> Weight(Val(h0[..]), level.R()) == level.D() && Weight(Val(h1[..]), level.R()) == level.D()
  {
    hide RawBit, Bit, Val, ListPoly, PaddedQWords, IsPadded, FisherYates, Accepted, Draws, FirstDistinct,
         ValidIndices, Weight, KeyGenSucceeds, FirstCount, KeyList;
    var prf: Prf := InitPrfState(enc, MAX_PRF_INVOCATION);
    w1, mid, end := [], 0, 0;
    ok, w0 := GenerateSparseRepForSk(mode, h0, level, prf);
    if !ok {
      UniformOutcome(level, enc, false, 0, false);
      return;
    }
    mid := prf.Position();
    KeyListFacts(w0, mode, level, enc, 0, mid);
    KeyWeight(w0, level.R());
    ok, w1 := GenerateSparseRepForSk(mode, h1, level, prf);
    BothHalves(mode, level, enc, w0, mid, ok);
    if !ok { return; }
    end := prf.Position();
    KeyListFacts(w1, mode, level, enc, mid, end);
    KeyWeight(w1, level.R());
  }

  lemma KeyListFacts(s: seq<nat>, mode: SamplingMode, level: Level, enc: Cipher, from: nat, to: nat)
    requires KeyList(s, mode, level, enc, from, to)
    ensures |s| == level.D() && ValidIndices(s, level.R())
  {
    hide ValidIndices;
  }

  lemma BothHalves(mode: SamplingMode, level: Level, enc: Cipher, w0: seq<nat>, mid: nat, ok: bool)
    requires KeyList(w0, mode, level, enc, 0, mid) && mid <= 4 * ALL_DRAWS
    requires match mode
             case FisherYatesMode => ok == (4 * ALL_DRAWS - mid >= 4 * level.D())
             case UniformMode => ok == (|Accepted(Draws(enc, mid), (4 * ALL_DRAWS - mid) / 4, level.R())| >= level.D())
    ensures ok == KeyGenSucceeds(mode, level, enc)
  {
    hide Accepted, Draws, FirstDistinct, ValidIndices, FisherYates, KeyGenSucceeds, FirstCount;
    match mode
    case FisherYatesMode =>
      assert ok;
      AlwaysSucceeds(level, enc);
    case UniformMode =>
      var n := mid / 4;
      assert mid == 4 * n && (4 * ALL_DRAWS - mid) / 4 == ALL_DRAWS - n;
      KeyListCount(w0, level, enc, 0, mid);
      AcceptedPrefix(Draws(enc, 0), n, ALL_DRAWS, level.R());
      FirstCountIs(Draws(enc, 0), n, level.D(), level.R());
      UniformOutcome(level, enc, true, n, ok);
  }

  lemma AlwaysSucceeds(level: Level, enc: Cipher)
    ensures KeyGenSucceeds(FisherYatesMode, level, enc)
  {
    hide Accepted, Draws;
  }
}
