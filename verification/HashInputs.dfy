/** What the three hashes of the scheme are applied to, seen through hashes that show a piece of their argument. */
module HashInputs {
  import opened Bits
  import opened Ring
  import opened Params
  import opened Words
  import opened RawBytes
  import opened Generate
  import opened Bgf
  import opened Kem

  /** A hash that shows, of an argument of n bytes, the 32 bytes from k on, and of any other argument nothing. */
  function Window(n: nat, k: nat): seq<Byte> -> Digest {
    (s: seq<Byte>) => WindowOf(s, n, k)
  }

  function WindowOf(s: seq<Byte>, n: nat, k: nat): Digest {
    if |s| == n && k + 32 <= n then s[k..k + 32] + seq<Byte>(16, _ => 0) else seq<Byte>(48, _ => 0)
  }

  lemma Piece(a: seq<Byte>, b: seq<Byte>, c: seq<Byte>, k: nat)
    requires |b| >= k + 32
    ensures var s := a + b + c; WindowOf(s, |s|, |a| + k)[..32] == b[k..k + 32]
  {
    var s := a + b + c;
    assert s[|a| + k..|a| + k + 32] == b[k..k + 32];
  }

  /** K hashes the message, then c0, then c1: 64 + R_BYTES bytes. */
  lemma KHashes(su: Suite, m: M, ct: Ct, k: nat)
    requires |ct.c0| == su.N()
    ensures var secret := K(su.(sha := Window(64 + su.N(), k)), m, ct);
            && (k == 0 ==> secret == m)
            && (32 <= k <= su.N() ==> secret == ct.c0[k - 32..k])
            && (k == 32 + su.N() ==> secret == ct.c1)
  {
    hide WindowOf, RBytes;
    assert [] + m + (ct.c0 + ct.c1) == m + ct.c0 + ct.c1 == m + ct.c0 + ct.c1 + [] == (m + ct.c0) + ct.c1 + [];
    if k == 0 { Piece([], m, ct.c0 + ct.c1, 0); }
    if 32 <= k <= su.N() { Piece(m, ct.c0, ct.c1, k - 32); }
    if k == 32 + su.N() { Piece(m + ct.c0, ct.c1, [], 0); }
  }

  /** L hashes the first half of the error, then the second: 2 * R_BYTES bytes. */
  lemma LHashes(su: Suite, e: Err, k: nat)
    ensures var n := su.N();
            var mask := L(su.(sha := Window(2 * n, k)), e);
            && (k + 32 <= n ==> mask == Raw(e.e0, n)[k..k + 32])
            && (n <= k && k + 32 <= 2 * n ==> mask == Raw(e.e1, n)[k - n..k - n + 32])
  {
    hide WindowOf, RBytes, Raw;
    var n := su.N();
    var a, b := Raw(e.e0, n), Raw(e.e1, n);
    assert [] + a + b == a + b == a + b + [];
    if k + 32 <= n { Piece([], a, b, k); }
    if n <= k && k + 32 <= 2 * n { Piece(a, b, [], k - n); }
  }

  /** With BIND_PK_AND_M the seed of the error is the hash of the public key, then the message: R_BYTES + 32 bytes.
      Without it the seed is the message. */
  lemma SeedHashes(su: Suite, m: M, pk: seq<Byte>, k: nat)
    requires |pk| == su.N()
    ensures var seed := SeedOf(su.(sha := Window(su.N() + 32, k)), m, pk);
            && (su.bindPkAndM && k + 32 <= su.N() ==> seed == pk[k..k + 32])
            && (su.bindPkAndM && k == su.N() ==> seed == m)
            && (!su.bindPkAndM ==> seed == m)
  {
    hide WindowOf, RBytes;
    assert [] + pk + m == pk + m == pk + m + [];
    if k + 32 <= su.N() { Piece([], pk, m, k); }
    if k == su.N() { Piece(pk, m, [], 0); }
  }

  /** The error of a message is the index list that the generator draws under its seed. */
  lemma HIsDrawn(su: Suite, m: M, pk: seq<Byte>)
    ensures var e := H(su, m, pk);
            Splits(e.e0, e.e1, ErrorList(su.mode, su.level, su.expand(SeedOf(su, m, pk))), su.R())
  {
    hide SeedOf, ErrorList, Splits, Error0, Error1;
    HalvesSplit(su.mode, su.level, su.expand(SeedOf(su, m, pk)));
  }

  /** What covers the message is L(e), byte by byte. */
  lemma MessageIsMasked(su: Suite, e: Err, pk: seq<Byte>, m: M, i: nat)
    requires i < 32
    ensures ByteXor(EncryptionOf(su, e, pk, m).c1[i], m[i]) == L(su, e)[i]
  {
    hide RawBit, Bit, ByteXor, L, Raw, FoldMul, Xor;
    Ext(ByteXor(ByteXor(L(su, e)[i], m[i]), m[i]), L(su, e)[i]);
  }

  /** What decapsulation hashes in front of the ciphertext is the recovered message if it is confirmed, and sigma
      otherwise. */
  lemma DecapsulationHashes(su: Suite, sk: Sk, ct: Ct)
    requires |ct.c0| == su.N()
    ensures var shown := su.(sha := Window(64 + su.N(), 0));
            var e := Bgf.Decode(DecoderInput(su, sk, ct));
            Decapsulation(shown, sk, ct) ==
              if Confirmed(shown, e, sk.pk, ct) then MessageOf(shown, e, ct) else sk.sigma
  {
    hide H, MessageOf, RBytes, Bgf.Decode, Window, K;
    var shown := su.(sha := Window(64 + su.N(), 0));
    var e := Bgf.Decode(DecoderInput(su, sk, ct));
    KHashes(su, MessageOf(shown, e, ct), ct, 0);
    KHashes(su, sk.sigma, ct, 0);
  }
}
