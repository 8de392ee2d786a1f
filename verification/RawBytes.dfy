/** Byte strings as polynomials: the unpadded structures r_t, m_t and seed_t, and what is hashed of them. */
module RawBytes {
  import opened Bits
  import opened Poly
  import opened Words

  /** The polynomial held in a byte string, least significant byte first. */
  function ByteVal(raw: seq<Byte>): (v: nat)
    ensures forall p: nat :: Bit(v, p) == (p < 8 * |raw| && Bit(raw[p / 8], p % 8))
    ensures Fits(v, 8 * |raw|)
  {
    FromBits((p: nat) => p / 8 < |raw| && Bit(raw[p / 8], p % 8), 8 * |raw|)
  }

  /** Its first n bytes. */
  function Raw(v: nat, n: nat): (raw: seq<Byte>)
    ensures |raw| == n
    ensures forall j, q: nat :: 0 <= j < n ==> Bit(raw[j], q) == (q < 8 && Bit(v, 8 * j + q))
  {
    seq(n, j requires 0 <= j < n => RawByte(v, j))
  }

  function RawByte(v: nat, j: nat): (b: Byte)
    ensures forall q: nat :: Bit(b, q) == (q < 8 && Bit(v, 8 * j + q))
  {
    var b := Low(Shr(v, 8 * j), 8);
    WordFits(b);
    b
  }

  lemma SameBytes(s: seq<Byte>, t: seq<Byte>)
    requires |s| == |t| && forall j, q: nat :: 0 <= j < |s| && q < 8 ==> Bit(s[j], q) == Bit(t[j], q)
    ensures s == t
  {
    hide RawBit, Bit;
    forall j | 0 <= j < |s| ensures s[j] == t[j] {
      forall q: nat ensures Bit(s[j], q) == Bit(t[j], q) { if q >= 8 { assert !Bit(s[j], q) && !Bit(t[j], q); } }
      Ext(s[j], t[j]);
    }
  }

  /** Byte strings of a given length and numbers of that many bits are the same thing. */
  lemma RawOfByteVal(raw: seq<Byte>)
    ensures Raw(ByteVal(raw), |raw|) == raw
  {
    hide RawBit, Bit, ByteVal, Raw;
    var s := Raw(ByteVal(raw), |raw|);
    forall j, q: nat | 0 <= j < |raw| && q < 8 ensures Bit(s[j], q) == Bit(raw[j], q) {
      assert (8 * j + q) / 8 == j && (8 * j + q) % 8 == q;
      assert Bit(ByteVal(raw), 8 * j + q) == Bit(raw[j], q);
    }
    SameBytes(s, raw);
  }

  lemma ByteValOfRaw(v: nat, n: nat)
    requires Fits(v, 8 * n)
    ensures ByteVal(Raw(v, n)) == v
  {
    hide RawBit, Bit, ByteVal, Raw;
    forall p: nat ensures Bit(ByteVal(Raw(v, n)), p) == Bit(v, p) {
      assert p == 8 * (p / 8) + p % 8;
    }
    Ext(ByteVal(Raw(v, n)), v);
  }

  /** A byte string is a number in base 256, least significant digit first. */
  lemma ByteValCons(raw: seq<Byte>)
    requires |raw| > 0
    ensures ByteVal(raw) == raw[0] + 256 * ByteVal(raw[1..])
  {
    hide RawBit, Bit, ByteVal, Xor, Shl, Pow2;
    var v := ByteVal(raw[1..]);
    Pow2Words();
    forall p: nat ensures Bit(ByteVal(raw), p) == Bit(Xor(raw[0], Shl(v, 8)), p) {
      if p >= 8 { assert (p - 8) / 8 == p / 8 - 1 && (p - 8) % 8 == p % 8; }
    }
    Ext(ByteVal(raw), Xor(raw[0], Shl(v, 8)));
    XorIsSum(raw[0], v, 8);
  }

  /** Adding numbers without common bits. */
  lemma {:induction false} XorIsSum(a: nat, b: nat, k: nat)
    requires a < Pow2(k)
    ensures Xor(a, Shl(b, k)) == a + Pow2(k) * b
  {
    hide RawBit, Bit, Xor;
    if k == 0 {
      XorLaws(b, 0, 0);
    } else {
      XorIsSum(a / 2, b, k - 1);
      var h := Shl(b, k - 1);
      Uncons(a);
      Ext(Xor(Cons(a % 2 == 1, a / 2), Cons(false, h)), Cons(a % 2 == 1, Xor(a / 2, h)));
      assert Pow2(k) * b == 2 * (Pow2(k - 1) * b);
    }
  }

  /** The first n bytes of the memory of some words. */
  function BytesOf(s: seq<Word>, n: nat): (raw: seq<Byte>)
    requires n <= 8 * |s|
    ensures raw == Raw(Val(s), n)
  {
    BytesOfIs(s, n);
    seq(n, j requires 0 <= j < n => GetByte(s, j))
  }

  lemma BytesOfIs(s: seq<Word>, n: nat)
    requires n <= 8 * |s|
    ensures seq(n, j requires 0 <= j < n => GetByte(s, j)) == Raw(Val(s), n)
  {
    hide RawBit, Bit, Val, GetByte, Raw;
    var raw := seq(n, j requires 0 <= j < n => GetByte(s, j));
    forall j, q: nat | 0 <= j < n && q < 8 ensures Bit(raw[j], q) == Bit(Raw(Val(s), n)[j], q) {
      ValGetByte(s, j);
    }
    SameBytes(raw, Raw(Val(s), n));
  }

  /** A zeroed padded array after the copy of a byte string into it. */
  method LoadRaw(raw: seq<Byte>, n: nat) returns (a: array<Word>)
    requires |raw| <= 8 * n
    ensures fresh(a) && a.Length == n && Val(a[..]) == ByteVal(raw)
  {
    hide RawBit, Bit, Val, ByteVal, WithByte;
    a := new Word[n](_ => 0);
    ValZero(a[..]);
    for j := 0 to |raw|
      invariant forall p: nat :: Bit(Val(a[..]), p) == (p < 8 * j && Bit(ByteVal(raw), p))
      modifies a
    {
      ValWithByte(a[..], j, raw[j]);
      ByteOf(raw, j);
      StoreByte(a, j, raw[j]);
    }
    Ext(Val(a[..]), ByteVal(raw));
  }

  lemma ByteOf(raw: seq<Byte>, j: nat)
    requires j < |raw|
    ensures forall p: nat :: 8 * j <= p < 8 * j + 8 ==> Bit(raw[j], p - 8 * j) == Bit(ByteVal(raw), p)
  {
    hide RawBit, Bit, ByteVal;
    forall p: nat | 8 * j <= p < 8 * j + 8 ensures Bit(raw[j], p - 8 * j) == Bit(ByteVal(raw), p) {
      assert p / 8 == j && p % 8 == p - 8 * j;
    }
  }
}
