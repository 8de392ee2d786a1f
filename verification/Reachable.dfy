/** Which errors and keys the generator can produce: all of the right weight. */
module Reachable {
  import opened Bits
  import opened Params
  import opened AesCtrPrf
  import opened Sampling
  import opened Generate

  // ----- A generator with given draws

  /** A number below 2^32 as four bytes. */
  function FourBytes(x: Dword): (b: seq<Byte>)
    ensures |b| == 4 && Le32(b) == x
  {
    FourDigits(x);
    [x % 256, x / 256 % 256, x / 256 / 256 % 256, x / 256 / 256 / 256]
  }

  lemma FourDigits(x: Dword)
    ensures x / 256 / 256 / 256 < 256
    ensures x % 256 + 256 * (x / 256 % 256) + 65536 * (x / 256 / 256 % 256) + 16777216 * (x / 256 / 256 / 256) == x
  {
    var a := x / 256;
    var b := a / 256;
    Digit(x);
    Digit(a);
    Digit(b);
  }

  lemma Digit(x: nat)
    ensures x == x % 256 + 256 * (x / 256)
  {
  }

  /** The cipher whose stream is a sequence of numbers. */
  function CipherOf(d: nat -> Dword): Cipher {
    (i: nat) => BlockOf(d, i)
  }

  function BlockOf(d: nat -> Dword, i: nat): Block {
    FourBytes(d(4 * i)) + FourBytes(d(4 * i + 1)) + FourBytes(d(4 * i + 2)) + FourBytes(d(4 * i + 3))
  }

  lemma DrawsOfCipher(d: nat -> Dword, from: nat, k: nat)
    ensures Draws(CipherOf(d), 4 * from)(k) == d(from + k)
  {
    hide Le32, Stream, FourBytes, StreamByte;
    var enc, n := CipherOf(d), from + k;
    DrawIs(enc, 4 * from, k);
    var s, b := Stream(enc, 4 * from + 4 * k, 4), FourBytes(d(n));
    forall j | 0 <= j < 4 ensures s[j] == b[j] {
      ByteOfCipher(d, n, j);
    }
    assert s == b;
  }

  lemma ByteOfCipher(d: nat -> Dword, n: nat, j: nat)
    requires j < 4
    ensures StreamByte(CipherOf(d), 4 * n + j) == FourBytes(d(n))[j]
  {
    hide FourBytes;
    var i, m := n / 4, n % 4;
    assert (4 * n + j) / 16 == i && (4 * n + j) % 16 == 4 * m + j;
    BlockByte(d, i, m, j);
  }

  lemma BlockByte(d: nat -> Dword, i: nat, m: nat, j: nat)
    requires m < 4 && j < 4
    ensures BlockOf(d, i)[4 * m + j] == FourBytes(d(4 * i + m))[j]
  {
    hide FourBytes;
    var b0, b1, b2 := FourBytes(d(4 * i)), FourBytes(d(4 * i + 1)), FourBytes(d(4 * i + 2));
    assert |b0| == 4 && |b0 + b1| == 8 && |b0 + b1 + b2| == 12;
    match m case 0 => case 1 => case 2 => case _ =>
  }

  // ----- Errors

  lemma {:induction false} ListOf(s: set<nat>) returns (w: seq<nat>)
    ensures Distinct(w) && Elements(w) == s && |w| == |s|
    decreases |s|
  {
    if s == {} {
      w := [];
    } else {
      var x :| x in s;
      var t := ListOf(s - {x});
      w := [x] + t;
      ElementsCons(x, t);
      assert x !in t by { ElementsCons(x, t); assert x !in Elements(t); }
    }
  }

  lemma InElements(w: seq<nat>, x: nat)
    ensures x in w <==> x in Elements(w)
  {
  }

  /** Draws that are the entries of a list are all accepted. */
  lemma {:induction false} AcceptedOfList(d: nat -> Dword, w: seq<nat>, n: nat, z: nat)
    requires n <= |w| && ValidIndices(w, z) && forall k: nat :: k < n ==> d(k) == w[k]
    ensures Accepted(d, n, z) == w[..n]
  {
    hide Masked;
    if n > 0 {
      AcceptedOfList(d, w, n - 1, z);
      MaskedMeans(d(n - 1), z);
      assert w[..n] == w[..n - 1] + [w[n - 1]];
      assert forall k :: 0 <= k < n - 1 ==> w[k] != w[n - 1];
    }
  }

  /** Draws for a list. */
  function ListDraws(w: seq<Dword>, k: nat): Dword { if k < |w| then w[k] else 0 }

  /** Draws from which the sampler of the build option makes a list of the elements of s. */
  lemma ErrorDraws(mode: SamplingMode, level: Level, s: set<nat>) returns (d: nat -> Dword)
    requires |s| == level.T() && forall x :: x in s ==> x < 2 * level.R()
    ensures match mode
            case FisherYatesMode => Elements(FisherYates(d, level.T(), 2 * level.R(), 0)) == s
            case UniformMode => Elements(FixedLength(d, level.MaxRandIndicesT(), level.T(), 2 * level.R()).out) == s
  {
    hide FisherYates, FixedLength, Accepted, ValidIndices;
    match mode
    case FisherYatesMode => d := FisherYatesReaches(s, level.T(), 2 * level.R(), 0);
    case UniformMode => d := UniformReaches(s, level.MaxRandIndicesT(), level.T(), 2 * level.R());
  }

  lemma UniformReaches(s: set<nat>, n: nat, t: nat, z: Dword) returns (d: nat -> Dword)
    requires |s| == t <= n && forall x :: x in s ==> x < z
    ensures Elements(FixedLength(d, n, t, z).out) == s
  {
    hide FixedLength, Accepted;
    var w := ListOf(s);
    forall k | 0 <= k < |w| ensures w[k] < z { InElements(w, w[k]); }
    d := (k: nat) => ListDraws(w, k);
    AcceptedOfList(d, w, t, z);
    AcceptedPrefix(d, t, n, z);
    FixedLengthIsPrefix(d, n, t, z);
    assert w[..t] == w;
  }

  lemma {:induction false} FixedLengthFrame(d: nat -> Dword, f: nat -> Dword, n: nat, t: nat, z: Dword)
    requires forall k: nat :: k < n ==> d(k) == f(k)
    ensures FixedLength(d, n, t, z) == FixedLength(f, n, t, z)
  {
    hide Masked;
    if n > 0 { FixedLengthFrame(d, f, n - 1, t, z); }
  }

  /** Every set of T positions below 2r is an error: under some cipher its positions below r are those of the first
      half,
      and the others, less r, those of the second. */
  lemma ErrorReaches(mode: SamplingMode, level: Level, s: set<nat>) returns (enc: Cipher)
    requires |s| == level.T() && forall x :: x in s ==> x < 2 * level.R()
    ensures var r := level.R();
            && (forall p: nat :: Bit(Error0(mode, level, enc), p) == (p < r && p in s))
            && (forall p: nat :: Bit(Error1(mode, level, enc), p) == (p < r && p + r in s))
  {
    hide RawBit, Bit, FisherYates, FixedLength, Error0, Error1, ErrorList;
    var d := ErrorDraws(mode, level, s);
    enc := CipherOf(d);
    ErrorElements(mode, level, d, s);
    HalvesSplit(mode, level, enc);
    var w := ErrorList(mode, level, enc);
    forall x: nat ensures x in w <==> x in s { InElements(w, x); }
  }

  lemma ErrorElements(mode: SamplingMode, level: Level, d: nat -> Dword, s: set<nat>)
    requires match mode
             case FisherYatesMode => Elements(FisherYates(d, level.T(), 2 * level.R(), 0)) == s
             case UniformMode => Elements(FixedLength(d, level.MaxRandIndicesT(), level.T(), 2 * level.R()).out) == s
    ensures Elements(ErrorList(mode, level, CipherOf(d))) == s
  {
    hide FisherYates, FixedLength, Draws, CipherOf;
    var f := Draws(CipherOf(d), 0);
    forall k: nat ensures f(k) == d(k) { DrawsOfCipher(d, 0, k); }
    match mode
    case FisherYatesMode => FisherYatesFrame(d, f, level.T(), 2 * level.R(), 0);
    case UniformMode => FixedLengthFrame(d, f, level.MaxRandIndicesT(), level.T(), 2 * level.R());
  }

  // ----- Keys

  /** Two sequences of draws, one after n of the other. */
  function Then(d: nat -> Dword, n: nat, f: nat -> Dword): nat -> Dword {
    (k: nat) => if k < n then d(k) else f(k - n)
  }

  /** The draws for the list of a half. */
  lemma HalfDraws(mode: SamplingMode, level: Level, s: set<nat>) returns (d: nat -> Dword, w: seq<nat>)
    requires |s| == level.D() && forall x :: x in s ==> x < level.R()
    ensures Elements(w) == s && |w| == level.D() && Makes(mode, level, d, w)
  {
    hide FisherYates, Accepted, ValidIndices;
    match mode
    case FisherYatesMode =>
      d := FisherYatesReaches(s, level.D(), level.R(), 0);
      w := FisherYates(d, level.D(), level.R(), 0);
    case UniformMode =>
      w := ListOf(s);
      forall k | 0 <= k < |w| ensures w[k] < level.R() { InElements(w, w[k]); }
      d := (k: nat) => ListDraws(w, k);
      IndicesOf(w, level.R());
      AcceptedOfList(d, w, level.D(), level.R());
      assert w[..level.D()] == w;
  }

  lemma IndicesOf(w: seq<nat>, r: nat)
    requires Distinct(w) && forall k :: 0 <= k < |w| ==> w[k] < r
    ensures ValidIndices(w, r)
  {
  }

  /** D draws from which the sampler of the build option makes the list w. */
  ghost predicate Makes(mode: SamplingMode, level: Level, d: nat -> Dword, w: seq<nat>) {
    match mode
    case FisherYatesMode => w == FisherYates(d, level.D(), level.R(), 0)
    case UniformMode => w == Accepted(d, level.D(), level.R())
  }

  lemma {:induction false} AcceptedFrame(d: nat -> Dword, f: nat -> Dword, n: nat, z: nat)
    requires forall k: nat :: k < n ==> d(k) == f(k)
    ensures Accepted(d, n, z) == Accepted(f, n, z)
  {
    hide Masked, Distinct;
    if n > 0 { AcceptedFrame(d, f, n - 1, z); }
  }

  lemma MakesFrame(mode: SamplingMode, level: Level, d: nat -> Dword, f: nat -> Dword, w: seq<nat>)
    requires Makes(mode, level, d, w) && forall k: nat :: k < level.D() ==> d(k) == f(k)
    ensures Makes(mode, level, f, w)
  {
    hide FisherYates, Accepted;
    match mode
    case FisherYatesMode => FisherYatesFrame(d, f, level.D(), level.R(), 0);
    case UniformMode => AcceptedFrame(d, f, level.D(), level.R());
  }

  lemma MakesKeyList(mode: SamplingMode, level: Level, enc: Cipher, from: nat, w: seq<nat>)
    requires Makes(mode, level, Draws(enc, from), w) && |w| == level.D()
    ensures KeyList(w, mode, level, enc, from, from + 4 * level.D())
  {
    hide FisherYates, Accepted, Draws, ValidIndices, KeyList, FirstDistinct;
    match mode
    case FisherYatesMode => FisherYatesList(level, enc, from);
    case UniformMode =>
      FirstDistinctIs(w, Draws(enc, from), level.D(), level.R());
      UniformList(w, level, enc, from, level.D());
  }

  /** With D draws for each half, key generation succeeds. */
  lemma MakesSucceeds(mode: SamplingMode, level: Level, enc: Cipher, w0: seq<nat>, w1: seq<nat>)
    requires Makes(mode, level, Draws(enc, 0), w0) && Makes(mode, level, Draws(enc, 4 * level.D()), w1)
    requires |w0| == |w1| == level.D()
    ensures KeyGenSucceeds(mode, level, enc)
  {
    hide FisherYates, Accepted, Draws, ValidIndices, FirstCount;
    var n := level.D();
    if mode.UniformMode? {
      FirstCountOf(Draws(enc, 0), n, level.R());
      AcceptedPrefix(Draws(enc, 4 * n), n, ALL_DRAWS - n, level.R());
    }
  }

  lemma FirstCountOf(d: nat -> Dword, n: nat, z: nat)
    requires n > 0 && |Accepted(d, n, z)| == n
    ensures FirstCount(d, n, n, z)
  {
    hide Accepted;
  }

  /** Every two sets of D positions below r are the halves of a key: under some cipher key generation succeeds, and
      makes
      its lists of their elements. */
  lemma KeysReach(mode: SamplingMode, level: Level, s0: set<nat>, s1: set<nat>)
    returns (enc: Cipher, w0: seq<nat>, w1: seq<nat>, mid: nat, end: nat)
    requires |s0| == |s1| == level.D()
    requires (forall x :: x in s0 ==> x < level.R()) && (forall x :: x in s1 ==> x < level.R())
    ensures KeyGenSucceeds(mode, level, enc)
    ensures KeyList(w0, mode, level, enc, 0, mid) && KeyList(w1, mode, level, enc, mid, end)
    ensures Elements(w0) == s0 && Elements(w1) == s1
  {
    hide FisherYates, Accepted, Draws, KeyList, Makes, CipherOf, KeyGenSucceeds;
    var n := level.D();
    var d0, d1;
    d0, w0 := HalfDraws(mode, level, s0);
    d1, w1 := HalfDraws(mode, level, s1);
    var d := Then(d0, n, d1);
    enc := CipherOf(d);
    mid, end := 4 * n, 8 * n;
    forall k: nat | k < n ensures Draws(enc, 0)(k) == d0(k) && Draws(enc, mid)(k) == d1(k) {
      DrawsOfCipher(d, 0, k);
      DrawsOfCipher(d, n, k);
    }
    MakesFrame(mode, level, d0, Draws(enc, 0), w0);
    MakesFrame(mode, level, d1, Draws(enc, mid), w1);
    MakesKeyList(mode, level, enc, 0, w0);
    MakesKeyList(mode, level, enc, mid, w1);
    MakesSucceeds(mode, level, enc, w0, w1);
  }

  /** The generator determines its lists and where they end. */
  lemma KeyListUnique(s: seq<nat>, t: seq<nat>, mode: SamplingMode, level: Level, enc: Cipher, from: nat, to: nat,
                      to': nat)
    requires KeyList(s, mode, level, enc, from, to) && KeyList(t, mode, level, enc, from, to')
    ensures s == t && to == to'
  {
    hide FisherYates, Accepted, Draws, ValidIndices, FirstCount;
    if mode.UniformMode? {
      KeyListCount(s, level, enc, from, to);
      KeyListCount(t, level, enc, from, to');
      FirstCountUnique(Draws(enc, from), (to - from) / 4, (to' - from) / 4, level.D(), level.R());
    }
  }
}
