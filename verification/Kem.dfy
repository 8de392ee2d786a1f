/** Key generation, encapsulation and decapsulation.  The hash and the key schedule of the generator's block cipher
    are uninterpreted functions; everything between them is the program's. */
module Kem {
  import opened Bits
  import opened Poly
  import opened Ring
  import opened Params
  import opened Words
  import opened RawBytes
  import opened Utilities
  import opened Karatsuba
  import opened Gf2xMul
  import opened Gf2xInv
  import opened Inversion
  import opened Threshold
  import opened AesCtrPrf
  import opened Sampling
  import opened SparseVectors
  import opened Generate
  import opened Bgf
  import opened Classification
  import opened Correction
  import opened Modular
  import D = Decode

  /** m_t, seed_t and ss_t; a SHA-384 digest. */
  type M = s: seq<Byte> | |s| == 32 witness seq<Byte>(32, _ => 0)
  type Digest = s: seq<Byte> | |s| == 48 witness seq<Byte>(48, _ => 0)

  /** The parameters, the build options, the implementations chosen at run time, and the primitives. */
  datatype Suite = Suite(level: Level, mode: SamplingMode, bindPkAndM: bool, ctx: Ctx,
                         sha: seq<Byte> -> Digest, expand: M -> Cipher) {
    function R(): nat { level.R() }

    function N(): nat { RBytes(level.R()) }

    /** The base multiplier suits the level. */
    predicate Sized() { Suits(ctx.mul, level) }
  }

  /** ct_t and sk_t. */
  datatype Ct = Ct(c0: seq<Byte>, c1: M)
  datatype Sk = Sk(w0: seq<Dword>, w1: seq<Dword>, bin0: seq<Byte>, bin1: seq<Byte>, pk: seq<Byte>, sigma: M)

  // ----- The specification

  /** H(m), or H(pk, m) with BIND_PK_AND_M. */
  function SeedOf(su: Suite, m: M, pk: seq<Byte>): M {
    if su.bindPkAndM then su.sha(pk + m)[..32] else m
  }

  function H(su: Suite, m: M, pk: seq<Byte>): Err {
    var enc := su.expand(SeedOf(su, m, pk));
    Err(Error0(su.mode, su.level, enc), Error1(su.mode, su.level, enc))
  }

  function L(su: Suite, e: Err): M {
    su.sha(Raw(e.e0, su.N()) + Raw(e.e1, su.N()))[..32]
  }

  function K(su: Suite, m: M, ct: Ct): M {
    su.sha(m + ct.c0 + ct.c1)[..32]
  }

  function XorBytes(x: M, y: M): (z: M)
    ensures forall i :: 0 <= i < 32 ==> z[i] == ByteXor(x[i], y[i])
  {
    seq<Byte>(32, i requires 0 <= i < 32 => ByteXor(x[i], y[i]))
  }

  /** The encryption of m under the error e: (e0 + pk * e1, L(e) + m). */
  function EncryptionOf(su: Suite, e: Err, pk: seq<Byte>, m: M): Ct {
    Ct(Raw(Xor(FoldMul(e.e1, ByteVal(pk), su.R()), e.e0), su.N()), XorBytes(L(su, e), m))
  }

  function DecoderInput(su: Suite, sk: Sk, ct: Ct): Input {
    Input(su.level, ByteVal(ct.c0), ByteVal(sk.bin0), ByteVal(sk.pk),
          D.KeyShifts(sk.w0, su.level), D.KeyShifts(sk.w1, su.level))
  }

  /** The message that a decoded error yields. */
  function MessageOf(su: Suite, e: Err, ct: Ct): M { XorBytes(L(su, e), ct.c1) }

  /** A decoded error is confirmed if its message leads back to it. */
  ghost predicate Confirmed(su: Suite, e: Err, pk: seq<Byte>, ct: Ct) {
    H(su, MessageOf(su, e, ct), pk) == e
  }

  /** The shared secret of a decapsulation. */
  ghost function Decapsulation(su: Suite, sk: Sk, ct: Ct): M {
    var e := Bgf.Decode(DecoderInput(su, sk, ct));
    K(su, if Confirmed(su, e, sk.pk, ct) then MessageOf(su, e, ct) else sk.sigma, ct)
  }

  /** The lengths of the structures. */
  ghost predicate Shapes(su: Suite, sk: Sk, ct: Ct) {
    && |ct.c0| == |sk.bin0| == |sk.pk| == su.N()
    && |sk.w0| == su.level.D() && |sk.w1| == su.level.D()
  }

  /** A key pair: two sparse halves given both ways, and the quotient of the second by the first. */
  ghost predicate KeyPair(su: Suite, sk: Sk) {
    var r, h0, h1 := su.R(), ByteVal(sk.bin0), ByteVal(sk.bin1);
    && |sk.bin0| == |sk.bin1| == |sk.pk| == su.N() && |sk.w0| == |sk.w1| == su.level.D()
    && ValidIndices(sk.w0, r) && ValidIndices(sk.w1, r)
    && h0 == ListPoly(sk.w0, 0, r) && h1 == ListPoly(sk.w1, 0, r)
    && ByteVal(sk.pk) == RMul(h1, Inverse(h0, r), r)
  }

  // ----- The program

  /** function_h. */
  method FunctionH(su: Suite, e: (array<Word>, array<Word>), m: M, pk: seq<Byte>)
    requires e.0 != e.1 && e.0.Length == e.1.Length == PaddedQWords(su.level)
    modifies e.0, e.1
    ensures Err(Val(e.0[..]), Val(e.1[..])) == H(su, m, pk)
    ensures IsPadded(e.0[..], su.R()) && IsPadded(e.1[..], su.R())
  {
    hide RawBit, Bit, Val, Error0, Error1, PaddedQWords, IsPadded;
    var seed := if su.bindPkAndM then su.sha(pk + m)[..32] else m;
    GenerateErrorVector(su.mode, e, su.level, su.expand(seed));
  }

  /** function_l. */
  method FunctionL(su: Suite, e: (array<Word>, array<Word>)) returns (out: M)
    requires e.0.Length == e.1.Length == PaddedQWords(su.level)
    ensures out == L(su, Err(Val(e.0[..]), Val(e.1[..])))
  {
    hide RawBit, Bit, Val, PaddedQWords, RBytes, QWords, Raw, BytesOf;
    HalfSizes(su.level);
    var dgst := su.sha(BytesOf(e.0[..], su.N()) + BytesOf(e.1[..], su.N()));
    out := dgst[..32];
  }

  /** function_k. */
  method FunctionK(su: Suite, m: M, ct: Ct) returns (out: M)
    ensures out == K(su, m, ct)
  {
    var dgst := su.sha(m + ct.c0 + ct.c1);
    out := dgst[..32];
  }

  /** The loops over M_BYTES bytes: z[i] = x[i] ^ y[i]. */
  method XorInto(z: array<Byte>, y: M)
    requires z.Length == 32
    modifies z
    ensures z[..] == XorBytes(old(z[..]), y)
  {
    hide ByteXor, XorBytes;
    ghost var x := z[..];
    for i := 0 to 32
      invariant forall k :: 0 <= k < 32 ==> z[k] == if k < i then XorBytes(x, y)[k] else x[k]
    {
      z[i] := ByteXor(z[i], y[i]);
    }
  }

  method CopyM(x: M) returns (a: array<Byte>)
    ensures fresh(a) && a.Length == 32 && a[..] == x
  {
    a := new Byte[32](i requires 0 <= i < 32 => x[i]);
  }

  /** encrypt. */
  method Encrypt(su: Suite, e: (array<Word>, array<Word>), pk: seq<Byte>, m: M) returns (ct: Ct)
    requires e.0.Length == e.1.Length == PaddedQWords(su.level) && |pk| == su.N() && su.Sized()
    requires IsPadded(e.0[..], su.R()) && IsPadded(e.1[..], su.R())
    ensures ct == EncryptionOf(su, Err(Val(e.0[..]), Val(e.1[..])), pk, m)
  {
    hide RawBit, Bit, Val, Xor, FoldMul, PaddedQWords, RBytes, QWords, Raw, ByteVal, BytesOf, XorBytes, L, InWords,
         PowerOfTwoTimes;
    var r, n := su.R(), PaddedQWords(su.level);
    HalfSizes(su.level);
    LevelSizes(su.level);
    var pCt := new Word[n](_ => 0);
    var pPk := LoadRaw(pk, n);
    D.BytesInWords(pPk[..], pk, r);
    PaddedInWords(e.1[..], r);
    ModMul(su.ctx.mul, pCt, e.1, pPk, r);
    ModAdd(pCt, pCt, e.0);
    var l := FunctionL(su, e);
    var c1 := CopyM(l);
    XorInto(c1, m);
    ct := Ct(BytesOf(pCt[..], su.N()), c1[..]);
  }

  /** reencrypt. */
  method Reencrypt(su: Suite, e: (array<Word>, array<Word>), ct: Ct) returns (m: M)
    requires e.0.Length == e.1.Length == PaddedQWords(su.level)
    ensures m == MessageOf(su, Err(Val(e.0[..]), Val(e.1[..])), ct)
  {
    hide RawBit, Bit, Val, PaddedQWords, L, XorBytes;
    var tmp := FunctionL(su, e);
    var a := CopyM(tmp);
    XorInto(a, ct.c1);
    m := a[..];
  }

  /** crypto_kem_keypair, from two seeds. */
  method CryptoKemKeypair(su: Suite, seed0: M, seed1: M) returns (ok: bool, sk: Sk, ghost mid: nat, ghost end: nat)
    requires su.Sized()
    ensures ok == KeyGenSucceeds(su.mode, su.level, su.expand(seed0))
    ensures ok ==> KeyPair(su, sk) && sk.sigma == seed1
    ensures ok ==> KeyList(sk.w0, su.mode, su.level, su.expand(seed0), 0, mid)
    ensures ok ==> KeyList(sk.w1, su.mode, su.level, su.expand(seed0), mid, end)
  {
    hide RawBit, Bit, Val, PaddedQWords, RBytes, QWords, Raw, ByteVal, BytesOf, ValidIndices, ListPoly, Weight, RMul,
         Inverse, InWords, FirstDistinct, FisherYates, PowerOfTwoTimes, IsPadded, KeyGenSucceeds, KeyList;
    var r, n := su.R(), PaddedQWords(su.level);
    HalfSizes(su.level);
    LevelSizes(su.level);
    var h0 := new Word[n](_ => 0);
    var h1 := new Word[n](_ => 0);
    var w0, w1;
    ok, w0, w1, mid, end := GenerateSecretKey(su.mode, h0, h1, su.level, su.expand(seed0));
    sk := Sk(w0, w1, [], [], [], seed1);
    if !ok { return; }
    KeyListFacts(w0, su.mode, su.level, su.expand(seed0), 0, mid);
    KeyListFacts(w1, su.mode, su.level, su.expand(seed0), mid, end);
    var h := Quotient(su, h1, h0);
    UnpadRing(h0[..], r);
    UnpadRing(h1[..], r);
    UnpadRing(h[..], r);
    sk := Sk(w0, w1, BytesOf(h0[..], su.N()), BytesOf(h1[..], su.N()), BytesOf(h[..], su.N()), seed1);
  }

  /** The public key: h = h1 * h0^-1. */
  method Quotient(su: Suite, h1: array<Word>, h0: array<Word>) returns (h: array<Word>)
    requires h0.Length == h1.Length == PaddedQWords(su.level) && su.Sized()
    requires IsPadded(h0[..], su.R()) && IsPadded(h1[..], su.R())
    ensures h.Length == h0.Length && IsPadded(h[..], su.R())
    ensures Val(h[..]) == RMul(Val(h1[..]), Inverse(Val(h0[..]), su.R()), su.R())
  {
    hide RawBit, Bit, Val, PaddedQWords, QWords, RMul, FoldMul, Inverse, PowerOfTwoTimes, Fits, InWords;
    LevelSizes(su.level);
    ZeroFits(su.R());
    h := new Word[h0.Length](_ => 0);
    var h0Inv := new Word[h0.Length](_ => 0);
    ValZero(h0Inv[..]);
    ModInv(su.ctx, h0Inv, h0, su.level);
    PaddedInWords(h1[..], su.R());
    PaddedInWords(h0Inv[..], su.R());
    ModMul(su.ctx.mul, h, h1, h0Inv, su.R());
  }

  /** The bytes of a padded ring element hold all of it. */
  lemma UnpadRing(a: seq<Word>, r: nat)
    requires GoodR(r) && IsPadded(a, r) && RBytes(r) <= 8 * |a|
    ensures ByteVal(BytesOf(a, RBytes(r))) == Val(a)
  {
    hide RawBit, Bit, Val, Raw, ByteVal, BytesOf;
    RShape(r);
    ByteValOfRaw(Val(a), RBytes(r));
  }

  /** crypto_kem_enc, from a seed. */
  method CryptoKemEnc(su: Suite, pk: seq<Byte>, m: M) returns (ct: Ct, ss: M)
    requires |pk| == su.N() && su.Sized()
    ensures ct == EncryptionOf(su, H(su, m, pk), pk, m) && ss == K(su, m, ct)
  {
    hide RawBit, Bit, Val, PaddedQWords, RBytes, H, EncryptionOf, K, IsPadded;
    var n := PaddedQWords(su.level);
    var e0 := new Word[n](_ => 0);
    var e1 := new Word[n](_ => 0);
    FunctionH(su, (e0, e1), m, pk);
    ct := Encrypt(su, (e0, e1), pk, m);
    ss := FunctionK(su, m, ct);
  }

  /** crypto_kem_dec: for every ciphertext. */
  method CryptoKemDec(su: Suite, ct: Ct, sk: Sk) returns (ss: M)
    requires Shapes(su, sk, ct) && su.Sized()
    ensures ss == Decapsulation(su, sk, ct)
  {
    hide RawBit, Bit, Val, PaddedQWords, RBytes, QWords, K, MessageOf, Confirmed, Bgf.Decode, ByteVal, Fits, SelectByte;
    ghost var inp := DecoderInput(su, sk, ct);
    ShapesValid(su, sk, ct);
    var r, q := su.R(), QWords(su.R());
    var e0 := new Word[q](_ => 0);
    var e1 := new Word[q](_ => 0);
    D.DecodePort(su.ctx.mul, (e0, e1), ct.c0, sk.bin0, sk.pk, sk.w0, sk.w1, su.level, inp);
    ghost var e := Err(Val(e0[..]), Val(e1[..]));
    var mPrime, success := CheckDecoded(su, e0, e1, ct, sk.pk);
    var mask := SecureL32Mask(0, success);
    var a := CopyM(mPrime);
    for i := 0 to 32
      invariant forall k :: 0 <= k < 32 ==> a[k] == if success == 0 && k < i then sk.sigma[k] else mPrime[k]
      modifies a
    {
      a[i] := SelectByte(mask, a[i], sk.sigma[i]);
    }
    assert a[..] == if success == 0 then sk.sigma else mPrime;
    ss := FunctionK(su, a[..], ct);
  }

  lemma ShapesValid(su: Suite, sk: Sk, ct: Ct)
    requires Shapes(su, sk, ct)
    ensures DecoderInput(su, sk, ct).Valid()
  {
    hide RawBit, Bit, ByteVal, RBytes;
  }

  /** The middle of crypto_kem_dec: the message of the decoded error, and whether it leads back to that error. */
  method CheckDecoded(su: Suite, e0: array<Word>, e1: array<Word>, ct: Ct, pk: seq<Byte>) returns (m: M, success: Dword)
    requires e0.Length == e1.Length == QWords(su.R()) && Fits(Val(e0[..]), su.R()) && Fits(Val(e1[..]), su.R())
    ensures var e := Err(Val(e0[..]), Val(e1[..]));
            m == MessageOf(su, e, ct) && success == if Confirmed(su, e, pk, ct) then 1 else 0
  {
    hide RawBit, Bit, Val, PaddedQWords, RBytes, QWords, H, MessageOf, ByteVal, BytesOf, Raw, And;
    var r, n := su.R(), PaddedQWords(su.level);
    HalfSizes(su.level);
    RShape(r);
    var p0 := Repad(e0, su.level);
    var p1 := Repad(e1, su.level);
    m := Reencrypt(su, (p0, p1), ct);
    var t0 := new Word[n](_ => 0);
    var t1 := new Word[n](_ => 0);
    FunctionH(su, (t0, t1), m, pk);
    var success0 := SecureCmp(BytesOf(p0[..], su.N()), BytesOf(t0[..], su.N()), su.N());
    var success1 := SecureCmp(BytesOf(p1[..], su.N()), BytesOf(t1[..], su.N()), su.N());
    SameRing(p0[..], t0[..], r);
    SameRing(p1[..], t1[..], r);
    AndBit(success0, success1);
    success := And(success0, success1);
  }

  /** e_prime.val[i].val = e.val[i]. */
  method Repad(e: array<Word>, level: Level) returns (p: array<Word>)
    requires e.Length == QWords(level.R()) && Fits(Val(e[..]), level.R())
    ensures fresh(p) && p.Length == PaddedQWords(level) && Val(p[..]) == Val(e[..]) && IsPadded(p[..], level.R())
  {
    hide RawBit, Bit, Val, PaddedQWords, RBytes, QWords, ByteVal, BytesOf, Raw, Fits;
    HalfSizes(level);
    RShape(level.R());
    UnpadRing(e[..], level.R());
    p := LoadRaw(BytesOf(e[..], RBytes(level.R())), PaddedQWords(level));
  }

  /** Ring elements are equal when their first R_BYTES bytes are. */
  lemma SameRing(a: seq<Word>, b: seq<Word>, r: nat)
    requires GoodR(r) && IsPadded(a, r) && IsPadded(b, r) && RBytes(r) <= 8 * |a| && RBytes(r) <= 8 * |b|
    ensures var n := RBytes(r);
            BytesOf(a, n)[..n] == BytesOf(b, n)[..n] <==> Val(a) == Val(b)
  {
    hide RawBit, Bit, Val, RBytes, BytesOf, Raw, ByteVal;
    UnpadRing(a, r);
    UnpadRing(b, r);
    var n := RBytes(r);
    assert BytesOf(a, n)[..n] == BytesOf(a, n) && BytesOf(b, n)[..n] == BytesOf(b, n);
  }

  /** x & ~mask | mask & y on bytes, for a 32-bit mask that is -1 or 0. */
  function SelectByte(mask: Dword, x: Byte, y: Byte): (z: Byte)
    requires mask == 0 || mask == MAX32
    ensures z == if mask == 0 then x else y
  {
    SelectByteIs(mask, x, y);
    ByteOr(ByteAnd(x, (MAX32 - mask) % 256), ByteAnd(mask % 256, y))
  }

  lemma SelectByteIs(mask: Dword, x: Byte, y: Byte)
    requires mask == 0 || mask == MAX32
    ensures ByteOr(ByteAnd(x, (MAX32 - mask) % 256), ByteAnd(mask % 256, y)) == if mask == 0 then x else y
  {
    hide RawBit, Bit, ByteOr, ByteAnd, Mask;
    Pow2Words();
    assert Mask(8) == 255;
    Ext(ByteOr(ByteAnd(x, (MAX32 - mask) % 256), ByteAnd(mask % 256, y)), if mask == 0 then x else y);
  }

  // ----- What it means

  /** Encryption masks the message with L(e), and the same mask takes it off again. */
  lemma MessageOfEncryption(su: Suite, e: Err, pk: seq<Byte>, m: M)
    ensures MessageOf(su, e, EncryptionOf(su, e, pk, m)) == m
  {
    hide L, XorBytes, Xor, FoldMul, Raw, ByteVal;
    XorBytesTwice(L(su, e), m);
  }

  /** The round trip: whenever the decoder recovers the error of an encapsulation, decapsulation returns the
      encapsulated secret. */
  lemma RoundTrip(su: Suite, sk: Sk, m: M)
    ensures var e := H(su, m, sk.pk);
            var ct := EncryptionOf(su, e, sk.pk, m);
            Bgf.Decode(DecoderInput(su, sk, ct)) == e ==> Decapsulation(su, sk, ct) == K(su, m, ct)
  {
    hide H, EncryptionOf, K, MessageOf, Bgf.Decode, DecoderInput;
    MessageOfEncryption(su, H(su, m, sk.pk), sk.pk, m);
  }

  /** A generated key pair is a valid decoder input with any ciphertext of the right length, its halves have
      weight D, and the public key times h0 is h1 whenever h0 is a unit. */
  lemma KeyPairMeans(su: Suite, sk: Sk, ct: Ct)
    requires KeyPair(su, sk) && |ct.c0| == su.N()
    ensures Shapes(su, sk, ct) && DecoderInput(su, sk, ct).Valid()
    ensures D.KeyShifts(sk.w0, su.level) == sk.w0 && D.KeyShifts(sk.w1, su.level) == sk.w1
    ensures var r, h0, h1, pk := su.R(), ByteVal(sk.bin0), ByteVal(sk.bin1), ByteVal(sk.pk);
            && Fits(h0, r) && Fits(h1, r) && Fits(pk, r)
            && Weight(h0, r) == su.level.D() && Weight(h1, r) == su.level.D()
            && forall inv: nat :: Fits(inv, r) && RMul(h0, inv, r) == 1 ==> RMul(pk, h0, r) == h1
  {
    hide RawBit, Bit, ByteVal, ListPoly, Weight, RMul, Inverse, RBytes, ValidIndices, D.KeyShifts;
    var r, h0, h1 := su.R(), ByteVal(sk.bin0), ByteVal(sk.bin1);
    KeyShapes(su, sk, ct);
    ShapesValid(su, sk, ct);
    IndicesBelow(sk.w0, su.level);
    IndicesBelow(sk.w1, su.level);
    KeyWeight(sk.w0, r);
    KeyWeight(sk.w1, r);
    ListPolyFits(sk.w0, 0, r);
    ListPolyFits(sk.w1, 0, r);
    RMulFits(h1, Inverse(h0, r), r);
    forall inv: nat | Fits(inv, r) && RMul(h0, inv, r) == 1 ensures RMul(RMul(h1, Inverse(h0, r), r), h0, r) == h1 {
      ModInvMeaning(h0, inv, su.level);
      RMulAssoc(h1, Inverse(h0, r), h0, r);
      RMulComm(Inverse(h0, r), h0, r);
      RMulOne(h1, r);
    }
  }

  /** Proper index lists are rotated as they stand. */
  lemma IndicesBelow(w: seq<Dword>, level: Level)
    requires ValidIndices(w, level.R())
    ensures D.KeyShifts(w, level) == w
  {
    D.KeyShiftsOfIndices(w, level);
  }

  lemma KeyShapes(su: Suite, sk: Sk, ct: Ct)
    requires KeyPair(su, sk) && |ct.c0| == su.N()
    ensures Shapes(su, sk, ct)
  {
    hide RawBit, Bit, ByteVal, ListPoly, RMul, Inverse, RBytes;
  }

  /** An error produced by H is a pair of ring elements; with the Fisher-Yates sampler its weight is T. */
  lemma ErrorOfH(su: Suite, m: M, pk: seq<Byte>)
    ensures var e := H(su, m, pk);
            e.Fit(su.R()) && (su.mode.FisherYatesMode? ==> Weight(e.e0, su.R()) + Weight(e.e1, su.R()) == su.level.T())
  {
    hide RawBit, Bit, ListPoly, Weight, SeedOf, ErrorList;
    var enc := su.expand(SeedOf(su, m, pk));
    ListPolyFits(ErrorList(su.mode, su.level, enc), 0, su.R());
    ListPolyFits(ErrorList(su.mode, su.level, enc), su.R(), su.R());
    ErrorVectorWeight(su.mode, su.level, enc);
  }

  /** The ciphertext of a ring-element error under a generated key, as the decoder sees it. */
  lemma EncryptionIsHonest(su: Suite, sk: Sk, e: Err, m: M)
    requires KeyPair(su, sk) && e.Fit(su.R())
    ensures Honest(DecoderInput(su, sk, EncryptionOf(su, e, sk.pk, m)), e)
  {
    hide RawBit, Bit, ByteVal, ListPoly, Weight, RMul, FoldMul, Inverse, RBytes, ValidIndices, Xor, Raw, L;
    var r, pk := su.R(), ByteVal(sk.pk);
    KeyPairMeans(su, sk, EncryptionOf(su, e, sk.pk, m));
    FoldMulIsRMul(e.e1, pk, r);
    RMulFits(e.e1, pk, r);
    HalfSizes(su.level);
    ByteValOfRaw(Xor(FoldMul(e.e1, pk, r), e.e0), su.N());
    XorLaws(RMul(e.e1, pk, r), e.e0, 0);
  }

  /** The round trip through the decoder's state machine: with a generated key it is enough that some iteration
      of the run finds the error. */
  lemma RoundTripOfRun(su: Suite, sk: Sk, m: M, n: nat)
    requires KeyPair(su, sk) && n <= MAX_IT
    ensures var e := H(su, m, sk.pk);
            var ct := EncryptionOf(su, e, sk.pk, m);
            Run(DecoderInput(su, sk, ct), n) == e ==> Decapsulation(su, sk, ct) == K(su, m, ct)
  {
    hide H, EncryptionOf, K, Decapsulation, DecoderInput, Run, Bgf.Decode, Honest, KeyPair;
    var e := H(su, m, sk.pk);
    var ct := EncryptionOf(su, e, sk.pk, m);
    ErrorOfH(su, m, sk.pk);
    EncryptionIsHonest(su, sk, e, m);
    if Run(DecoderInput(su, sk, ct), n) == e { DecodeFinds(DecoderInput(su, sk, ct), e, n); }
    RoundTrip(su, sk, m);
  }

  /** A generated key with a unit h0 is a key of the decoder. */
  lemma KeyPairIsKey(su: Suite, sk: Sk, ct: Ct, inv: nat)
    requires KeyPair(su, sk) && |ct.c0| == su.N()
    requires Fits(inv, su.R()) && RMul(ByteVal(sk.bin0), inv, su.R()) == 1
    ensures Key(DecoderInput(su, sk, ct))
  {
    hide RawBit, Bit, ByteVal, ListPoly, RMul, Inverse, RBytes, ValidIndices, D.KeyShifts, Fits, Weight;
    KeyPairMeans(su, sk, ct);
  }

  /** Encryption under an error with few positions: if the columns of these meet other columns of the key in at most k
      positions each, and their number times k is below THRESHOLD_MIN, the error and the message are recovered. */
  lemma FewErrorsRecovered(su: Suite, sk: Sk, e: Err, m: M, inv: nat, k: nat)
    requires KeyPair(su, sk) && e.Fit(su.R()) && k > 0
    requires Fits(inv, su.R()) && RMul(ByteVal(sk.bin0), inv, su.R()) == 1
    requires MeetRarely(DecoderInput(su, sk, EncryptionOf(su, e, sk.pk, m)), e, k)
    requires Times(Weight(e.e0, su.R()) + Weight(e.e1, su.R()), k) < su.level.ThresholdMin()
    ensures var ct := EncryptionOf(su, e, sk.pk, m);
            Bgf.Decode(DecoderInput(su, sk, ct)) == e && MessageOf(su, e, ct) == m
  {
    hide KeyPair, EncryptionOf, Weight, Times, MeetRarely, Key, Honest, Bgf.Decode, MessageOf, ByteVal, RMul, Fits;
    var ct := EncryptionOf(su, e, sk.pk, m);
    EncryptionFits(su, e, sk.pk, m);
    KeyPairIsKey(su, sk, ct, inv);
    EncryptionIsHonest(su, sk, e, m);
    FewErrorsDecode(DecoderInput(su, sk, ct), e, k);
    MessageOfEncryption(su, e, sk.pk, m);
  }

  /** Which ciphertexts a key with a unit h0 should not reject: an error is one from which somebody encapsulated this
      ciphertext exactly if it is confirmed, has zero syndrome, and the ciphertext has no bit set from r on.  The
      program looks at the first condition only. */
  lemma ConfirmedIsEncryption(su: Suite, sk: Sk, ct: Ct, e: Err, inv: nat)
    requires KeyPair(su, sk) && |ct.c0| == su.N() && e.Fit(su.R())
    requires RMul(ByteVal(sk.bin0), inv, su.R()) == 1
    ensures (exists m: M :: H(su, m, sk.pk) == e && ct == EncryptionOf(su, e, sk.pk, m)) <==>
            Confirmed(su, e, sk.pk, ct) && Syndrome(DecoderInput(su, sk, ct), e) == 0 && Fits(ByteVal(ct.c0), su.R())
  {
    hide H, EncryptionOf, MessageOf, DecoderInput, Syndrome, RMul, ByteVal, Fits, KeyPair, RBytes, Xor;
    var inp := DecoderInput(su, sk, ct);
    KeyPairMeans(su, sk, ct);
    InputParts(su, sk, ct);
    if Fits(ByteVal(ct.c0), su.R()) { ZeroSyndromeReduced(inp, e, inv); }
    EncryptionDecomposes(su, sk, ct, e, MessageOf(su, e, ct));
    RMulFits(e.e1, ByteVal(sk.pk), su.R());
    XorFits(e.e0, RMul(e.e1, ByteVal(sk.pk), su.R()), su.R());
    if m: M :| H(su, m, sk.pk) == e && ct == EncryptionOf(su, e, sk.pk, m) {
      MessageOfEncryption(su, e, sk.pk, m);
    }
  }

  /** The comparison that the program omits: encrypting the message again gives back the first part of the
      ciphertext. */
  ghost predicate Reencrypts(su: Suite, sk: Sk, ct: Ct, e: Err) {
    ByteVal(ct.c0) == Xor(e.e0, RMul(e.e1, ByteVal(sk.pk), su.R()))
  }

  /** What decapsulation does with a confirmed error, for a unit h0 and every ciphertext: it uses the message of that
      error, and it is right to, in that the ciphertext is the encryption of that message, exactly if the omitted
      comparison holds, that is, if the decoder has reached a zero syndrome and no bit is set from r on.  The decoder
      stops after its last iteration whatever the syndrome, and nothing looks at the padding bits. */
  lemma DecapsulationAccepts(su: Suite, sk: Sk, ct: Ct, inv: nat)
    requires KeyPair(su, sk) && |ct.c0| == su.N() && RMul(ByteVal(sk.bin0), inv, su.R()) == 1
    ensures var inp := DecoderInput(su, sk, ct);
            var e := Bgf.Decode(inp);
            var m := MessageOf(su, e, ct);
            Confirmed(su, e, sk.pk, ct) ==>
              && Decapsulation(su, sk, ct) == K(su, m, ct) && H(su, m, sk.pk) == e
              && (ct == EncryptionOf(su, e, sk.pk, m) <==> Reencrypts(su, sk, ct, e))
              && (Reencrypts(su, sk, ct, e) <==> Syndrome(inp, e) == 0 && Fits(ByteVal(ct.c0), su.R()))
  {
    hide H, K, EncryptionOf, MessageOf, DecoderInput, Syndrome, RMul, ByteVal, Fits, KeyPair, RBytes, Xor,
         Bgf.Decode, Run;
    var inp := DecoderInput(su, sk, ct);
    var e := Bgf.Decode(inp);
    KeyPairMeans(su, sk, ct);
    InputParts(su, sk, ct);
    DecodeDef(inp);
    RunFits(inp, MAX_IT);
    EncryptionDecomposes(su, sk, ct, e, MessageOf(su, e, ct));
    if Fits(ByteVal(ct.c0), su.R()) { ZeroSyndromeReduced(inp, e, inv); }
    RMulFits(e.e1, ByteVal(sk.pk), su.R());
    XorFits(e.e0, RMul(e.e1, ByteVal(sk.pk), su.R()), su.R());
  }

  /** The ciphertext with t added to its first part. */
  function Added(su: Suite, ct: Ct, t: nat): Ct {
    Ct(Raw(Xor(ByteVal(ct.c0), t), su.N()), ct.c1)
  }

  lemma AddedVal(su: Suite, ct: Ct, t: nat)
    requires |ct.c0| == su.N() && Fits(t, 8 * su.N())
    ensures ByteVal(Added(su, ct, t).c0) == Xor(ByteVal(ct.c0), t) && |Added(su, ct, t).c0| == su.N()
  {
    hide RawBit, Bit, ByteVal, Raw, Xor, RBytes;
    XorFits(ByteVal(ct.c0), t, 8 * su.N());
    ByteValOfRaw(Xor(ByteVal(ct.c0), t), su.N());
  }

  lemma AddedInput(su: Suite, sk: Sk, ct: Ct, t: nat)
    requires |ct.c0| == su.N() && Fits(t, 8 * su.N())
    ensures var inp := DecoderInput(su, sk, ct); DecoderInput(su, sk, Added(su, ct, t)) == inp.(c0 := Xor(inp.c0, t))
  {
    hide ByteVal, Added, Xor, RBytes, D.KeyShifts;
    AddedVal(su, ct, t);
  }

  /** First cause, a residual syndrome.  An encryption of m with v * h0^-1 added, for any v lighter than the smallest
      threshold of the level, has no bit set from r on and is no encryption of m; but it leaves the error of m the
      syndrome v, which the decoder does not leave again.  So if an iteration finds that error, the ciphertext is
      decapsulated to the secret of m. */
  lemma ResidueIsNotRejected(su: Suite, sk: Sk, m: M, v: nat, inv: nat, n: nat)
    requires KeyPair(su, sk) && RMul(ByteVal(sk.bin0), inv, su.R()) == 1 && n <= MAX_IT
    requires Fits(v, su.R()) && v != 0 && Weight(v, su.R()) < su.level.ThresholdMin()
    ensures var e := H(su, m, sk.pk);
            var ct := Added(su, EncryptionOf(su, e, sk.pk, m), RMul(v, inv, su.R()));
            var inp := DecoderInput(su, sk, ct);
            && |ct.c0| == su.N() && Fits(ByteVal(ct.c0), su.R())
            && MessageOf(su, e, ct) == m && ct != EncryptionOf(su, e, sk.pk, m) && Syndrome(inp, e) == v
            && (Run(inp, n) == e ==> Bgf.Decode(inp) == e && Decapsulation(su, sk, ct) == K(su, m, ct))
  {
    hide H, K, EncryptionOf, MessageOf, DecoderInput, Syndrome, RMul, ByteVal, Fits, KeyPair, RBytes, Xor,
         Bgf.Decode, Run, Added, Weight;
    var e := H(su, m, sk.pk);
    var enc := EncryptionOf(su, e, sk.pk, m);
    var ct := Added(su, enc, RMul(v, inv, su.R()));
    var inp := DecoderInput(su, sk, ct);
    ErrorOfH(su, m, sk.pk);
    EncryptionFits(su, e, sk.pk, m);
    EncryptionIsHonest(su, sk, e, m);
    ErrorHasZeroSyndrome(DecoderInput(su, sk, enc), e);
    ResidueSyndrome(su, sk, enc, e, v, inv);
    MessageOfAdded(su, e, enc, RMul(v, inv, su.R()));
    MessageOfEncryption(su, e, sk.pk, m);
    KeyIsQuiet(su, sk, ct, v);
    if Run(inp, n) == e { DecodeEnds(inp, n); }
  }

  /** The syndrome of an error whose syndrome was zero, after v * h0^-1 has been added. */
  lemma ResidueSyndrome(su: Suite, sk: Sk, ct: Ct, e: Err, v: nat, inv: nat)
    requires KeyPair(su, sk) && RMul(ByteVal(sk.bin0), inv, su.R()) == 1 && Fits(v, su.R()) && v != 0
    requires |ct.c0| == su.N() && Fits(ByteVal(ct.c0), su.R()) && Syndrome(DecoderInput(su, sk, ct), e) == 0
    ensures var t := Added(su, ct, RMul(v, inv, su.R()));
            && |t.c0| == su.N() && Fits(ByteVal(t.c0), su.R()) && t != ct
            && Syndrome(DecoderInput(su, sk, t), e) == v
  {
    hide DecoderInput, Syndrome, RMul, FoldMul, ByteVal, Fits, KeyPair, RBytes, Xor, Added;
    var r, h0 := su.R(), ByteVal(sk.bin0);
    var t := RMul(v, inv, r);
    KeyPairMeans(su, sk, ct);
    HalfSizes(su.level);
    RMulFits(v, inv, r);
    FitsWider(t, r, 8 * su.N());
    AddedVal(su, ct, t);
    AddedInput(su, sk, ct, t);
    XorFits(ByteVal(ct.c0), t, r);
    InputParts(su, sk, ct);
    AddedSyndrome(DecoderInput(su, sk, ct), t, e);
    FoldMulIsRMul(t, h0, r);
    UnitSolves(t, h0, inv, v, r);
    XorLaws(v, 0, 0);
  }

  lemma MessageOfAdded(su: Suite, e: Err, ct: Ct, t: nat)
    ensures MessageOf(su, e, Added(su, ct, t)) == MessageOf(su, e, ct)
  {
    hide L, XorBytes, Raw, Xor, ByteVal;
  }

  lemma KeyIsQuiet(su: Suite, sk: Sk, ct: Ct, v: nat)
    requires KeyPair(su, sk) && |ct.c0| == su.N() && Weight(v, su.R()) < su.level.ThresholdMin()
    ensures Quiet(DecoderInput(su, sk, ct), v)
  {
    hide ByteVal, RBytes, Weight, Quiet, ValidIndices, D.KeyShifts, ListPoly, RMul, Inverse, Raw;
    KeyPairMeans(su, sk, ct);
    LightIsQuiet(DecoderInput(su, sk, ct), v);
  }

  /** The lightest residues: one syndrome bit left set. */
  lemma OneBitResidue(j: nat, level: Level)
    requires j < level.R()
    ensures Fits(X(j), level.R()) && X(j) != 0 && Weight(X(j), level.R()) == 1 < level.ThresholdMin()
  {
    hide RawBit, Bit, X, Weight;
    XFits(j, level.R());
    WeightOfX(j, level.R());
    WeightOfZero(level.R());
  }

  lemma {:induction false} WeightOfX(j: nat, n: nat)
    ensures Weight(X(j), n) == if j < n then 1 else 0
  {
    hide RawBit, Bit, X;
    if n > 0 { WeightOfX(j, n - 1); }
  }

  /** Second cause, padding bits.  The ciphertext with bit 0 flipped and bit r, the first padding bit of its last byte,
      flipped too. */
  function TwinOf(su: Suite, ct: Ct): Ct { Added(su, ct, Modulus(su.R())) }

  /** The decoder cannot tell a ciphertext and its twin apart, and neither can the check of its message: the twin is
      rejected only if the ciphertext is. */
  lemma TwinDecapsulates(su: Suite, sk: Sk, ct: Ct)
    requires KeyPair(su, sk) && |ct.c0| == su.N()
    ensures var e := Bgf.Decode(DecoderInput(su, sk, ct));
            && Bgf.Decode(DecoderInput(su, sk, TwinOf(su, ct))) == e
            && Decapsulation(su, sk, TwinOf(su, ct))
               == K(su, if Confirmed(su, e, sk.pk, ct) then MessageOf(su, e, ct) else sk.sigma, TwinOf(su, ct))
  {
    hide H, K, MessageOf, Run, ByteVal, Added, Xor, Modulus, Fits, KeyPair, RBytes, DecoderInput;
    KeyPairMeans(su, sk, ct);
    InputParts(su, sk, ct);
    TwinVal(su, ct);
    AddedInput(su, sk, ct, Modulus(su.R()));
    TwinRun(DecoderInput(su, sk, ct), MAX_IT);
    MessageOfAdded(su, Bgf.Decode(DecoderInput(su, sk, ct)), ct, Modulus(su.R()));
  }

  lemma TwinVal(su: Suite, ct: Ct)
    requires |ct.c0| == su.N()
    ensures Fits(Modulus(su.R()), 8 * su.N()) && ByteVal(TwinOf(su, ct).c0) == Xor(ByteVal(ct.c0), Modulus(su.R()))
  {
    hide RawBit, Bit, ByteVal, Xor, Modulus, RBytes, Added;
    HalfSizes(su.level);
    RShape(su.R());
    ModulusFits(su.R());
    FitsWider(Modulus(su.R()), su.R() + 1, 8 * su.N());
    AddedVal(su, ct, Modulus(su.R()));
  }

  lemma ModulusFits(r: nat)
    requires r > 0
    ensures Fits(Modulus(r), r + 1) && Bit(Modulus(r), r)
  {
    hide RawBit, Bit, Xor, Shl;
    forall i: nat ensures Bit(1, i) == (i == 0) { OneBit(i); }
  }

  /** So the check does not reject every ciphertext that is no encryption: the twin of a ciphertext without bits from
      r on is the encryption of no message, under no error and no key, and is treated as the ciphertext is. */
  lemma TwinIsNoEncryption(su: Suite, ct: Ct, e: Err, pk: seq<Byte>, m: M)
    requires |ct.c0| == su.N() && Fits(ByteVal(ct.c0), su.R()) && e.Fit(su.R())
    ensures TwinOf(su, ct) != EncryptionOf(su, e, pk, m)
  {
    hide EncryptionOf, TwinOf, ByteVal, Fits, RBytes, Modulus, Xor, Bit, RawBit;
    TwinVal(su, ct);
    EncryptionFits(su, e, pk, m);
    TwinLong(ByteVal(ct.c0), su.R());
  }

  /** In particular, if decapsulation of an encryption recovers its message, decapsulation of the twin derives its
      secret from that message too. */
  lemma TwinIsNotRejected(su: Suite, sk: Sk, m: M)
    requires KeyPair(su, sk)
    ensures var e := H(su, m, sk.pk);
            var ct := EncryptionOf(su, e, sk.pk, m);
            Bgf.Decode(DecoderInput(su, sk, ct)) == e ==>
                Decapsulation(su, sk, TwinOf(su, ct)) == K(su, m, TwinOf(su, ct))
  {
    hide H, EncryptionOf, K, MessageOf, Bgf.Decode, DecoderInput, ByteVal, Xor, Modulus, Fits, KeyPair, RBytes, Bit,
         RawBit, Decapsulation, TwinOf;
    var e := H(su, m, sk.pk);
    ErrorOfH(su, m, sk.pk);
    EncryptionFits(su, e, sk.pk, m);
    TwinDecapsulates(su, sk, EncryptionOf(su, e, sk.pk, m));
    MessageOfEncryption(su, e, sk.pk, m);
  }

  lemma TwinLong(c: nat, r: nat)
    requires r > 0 && Fits(c, r)
    ensures !Fits(Xor(c, Modulus(r)), r)
  {
    hide RawBit, Bit, Xor, Modulus;
    ModulusFits(r);
    assert Bit(Xor(c, Modulus(r)), r);
  }

  /** An encryption has no bit set from r on. */
  lemma EncryptionFits(su: Suite, e: Err, pk: seq<Byte>, m: M)
    requires e.Fit(su.R())
    ensures var ct := EncryptionOf(su, e, pk, m); |ct.c0| == su.N() && Fits(ByteVal(ct.c0), su.R())
  {
    hide RawBit, Bit, ByteVal, Raw, Xor, FoldMul, RBytes, L, XorBytes;
    var v := Xor(FoldMul(e.e1, ByteVal(pk), su.R()), e.e0);
    FoldMulFits(e.e1, ByteVal(pk), su.R());
    XorFits(FoldMul(e.e1, ByteVal(pk), su.R()), e.e0, su.R());
    HalfSizes(su.level);
    FitsWider(v, su.R(), 8 * su.N());
    ByteValOfRaw(v, su.N());
  }

  lemma InputParts(su: Suite, sk: Sk, ct: Ct)
    ensures var inp := DecoderInput(su, sk, ct);
            inp.level == su.level && inp.c0 == ByteVal(ct.c0) && inp.h0 == ByteVal(sk.bin0) && inp.pk == ByteVal(sk.pk)
  {
  }

  /** A ciphertext is the encryption of the message that e yields exactly when its first part is that of e. */
  lemma EncryptionDecomposes(su: Suite, sk: Sk, ct: Ct, e: Err, m: M)
    requires KeyPair(su, sk) && |ct.c0| == su.N() && e.Fit(su.R()) && m == MessageOf(su, e, ct)
    ensures ct == EncryptionOf(su, e, sk.pk, m)
            <==> ByteVal(ct.c0) == Xor(e.e0, RMul(e.e1, ByteVal(sk.pk), su.R()))
  {
    hide RawBit, Bit, ByteVal, RMul, FoldMul, Inverse, RBytes, Xor, Raw, L, XorBytes, KeyPair, ListPoly, Weight,
         ByteXor;
    var r, pk := su.R(), ByteVal(sk.pk);
    KeyPairMeans(su, sk, ct);
    FoldMulIsRMul(e.e1, pk, r);
    RMulFits(e.e1, pk, r);
    HalfSizes(su.level);
    var v := Xor(FoldMul(e.e1, pk, r), e.e0);
    XorLaws(RMul(e.e1, pk, r), e.e0, 0);
    assert Fits(v, 8 * su.N());
    ByteValOfRaw(v, su.N());
    RawOfByteVal(ct.c0);
    XorBytesTwice(L(su, e), ct.c1);
  }

  lemma XorBytesTwice(l: M, c: M)
    ensures XorBytes(l, XorBytes(l, c)) == c
  {
    hide RawBit, Bit, ByteXor;
    var z := XorBytes(l, XorBytes(l, c));
    forall i | 0 <= i < 32 ensures z[i] == c[i] {
      Ext(ByteXor(l[i], ByteXor(l[i], c[i])), c[i]);
    }
    assert z == c;
  }

  /** Encryption under a public key with a padding bit set: with the key x^(r+1) and an error of full degree the product
      is lost, so that the ciphertext is e0 where it should be e0 + 1. */
  lemma PaddedKeyDrops(su: Suite, e0: nat, m: M)
    requires Fits(e0, su.R())
    ensures var r := su.R();
            var pk, e := Raw(X(r + 1), su.N()), Err(e0, X(r - 1));
            && ByteVal(pk) == X(r + 1) && e.Fit(r)
            && ByteVal(EncryptionOf(su, e, pk, m).c0) == e0
            && RMul(e.e1, ByteVal(pk), r) == X(0) && e0 != Xor(e0, X(0))
  {
    hide RawBit, Bit, ByteVal, Raw, Xor, X, RMul, FoldMul, RBytes, L, XorBytes;
    var r := su.R();
    PaddingRoom(su.level);
    XFits(r + 1, 8 * su.N());
    XFits(r - 1, r);
    ByteValOfRaw(X(r + 1), su.N());
    FoldMulDrops(r - 1, r + 1, r);
    XorLaws(e0, 0, 0);
    FitsWider(e0, r, 8 * su.N());
    ByteValOfRaw(e0, su.N());
    assert Bit(Xor(e0, X(0)), 0) != Bit(e0, 0);
  }

  /** The last byte of a ring element has more than one padding bit at every level. */
  lemma PaddingRoom(level: Level)
    ensures level.R() + 1 < 8 * RBytes(level.R())
  {
  }
}
