/** 64-bit words, arrays of them as polynomials, and the byte view of the same memory. */
module Words {
  import opened Bits
  import opened Poly

  lemma WordFits(a: nat)
    ensures a < TWO64 <==> Fits(a, 64)
    ensures a < TWO32 <==> Fits(a, 32)
    ensures a < 256 <==> Fits(a, 8)
  {
    hide RawBit, Bit, Pow2, Fits, Low, Shr;
    Pow2Words();
    FitsPow2(a, 64);
    FitsPow2(a, 32);
    FitsPow2(a, 8);
  }

  // ----- The operators ^, &, |, ~, <<, >> on uint64_t

  function WXor(a: Word, b: Word): (c: Word)
    ensures forall i: nat :: Bit(c, i) == (Bit(a, i) != Bit(b, i))
    ensures c == Xor(a, b)
  {
    WordFits(Xor(a, b));
    Xor(a, b)
  }

  function WAnd(a: Word, b: Word): (c: Word)
    ensures forall i: nat :: Bit(c, i) == (Bit(a, i) && Bit(b, i))
  {
    And(a, b)
  }

  function WOr(a: Word, b: Word): (c: Word)
    ensures forall i: nat :: Bit(c, i) == (Bit(a, i) || Bit(b, i))
  {
    WordFits(Or(a, b));
    Or(a, b)
  }

  function WNot(a: Word): (c: Word)
    ensures forall i: nat :: Bit(c, i) == (i < 64 && !Bit(a, i))
  {
    Pow2Words();
    WXor(a, Mask(64))
  }

  function WShl(a: Word, k: nat): (c: Word)
    ensures forall i: nat :: Bit(c, i) == (k <= i < 64 && Bit(a, i - k))
    ensures c == Low(Shl(a, k), 64)
  {
    WordFits(Low(Shl(a, k), 64));
    Low(Shl(a, k), 64)
  }

  function WShr(a: Word, k: nat): (c: Word)
    ensures forall i: nat :: Bit(c, i) == Bit(a, i + k)
    ensures c == Shr(a, k)
  {
    Shr(a, k)
  }

  // ----- The operators ~, &, | and ^ on uint8_t

  lemma ByteMask(n: nat)
    requires n <= 8
    ensures Mask(n) < 256
  {
    hide RawBit, Bit, Mask;
    WordFits(Mask(n));
  }

  /** ~b. */
  function ByteNot(b: Byte): (c: Byte)
    ensures forall i: nat :: Bit(c, i) == (i < 8 && !Bit(b, i))
  {
    ByteMask(8);
    ByteXor(b, Mask(8))
  }

  function ByteAnd(x: Byte, y: Byte): (z: Byte)
    ensures forall i: nat :: Bit(z, i) == (Bit(x, i) && Bit(y, i))
  {
    And(x, y)
  }

  function ByteOr(x: Byte, y: Byte): (z: Byte)
    ensures forall i: nat :: Bit(z, i) == (Bit(x, i) || Bit(y, i))
  {
    WordFits(Or(x, y));
    Or(x, y)
  }

  function ByteXor(a: Byte, b: Byte): (c: Byte)
    ensures forall i: nat :: Bit(c, i) == (Bit(a, i) != Bit(b, i))
  {
    WordFits(Xor(a, b));
    Xor(a, b)
  }

  // ----- Arrays of words

  /** The polynomial held in the words s, least significant word first. */
  function Val(s: seq<Word>): (v: nat)
    ensures forall p: nat :: Bit(v, p) == (p < 64 * |s| && Bit(s[p / 64], p % 64))
    ensures Fits(v, 64 * |s|)
  {
    FromBits((p: nat) => p / 64 < |s| && Bit(s[p / 64], p % 64), 64 * |s|)
  }

  lemma ValConcat(s: seq<Word>, t: seq<Word>)
    ensures Val(s + t) == Xor(Val(s), Shl(Val(t), 64 * |s|))
  {
    hide RawBit, Bit, Val, Xor, Shl;
    var u, n := s + t, 64 * |s|;
    forall p: nat ensures Bit(Val(u), p) == Bit(Xor(Val(s), Shl(Val(t), n)), p) {
      if p < n {
        assert u[p / 64] == s[p / 64];
      } else if p < 64 * |u| {
        assert (p - n) / 64 == p / 64 - |s| && (p - n) % 64 == p % 64;
        assert u[p / 64] == t[(p - n) / 64];
      }
    }
    Ext(Val(u), Xor(Val(s), Shl(Val(t), n)));
  }

  lemma ValSplit(s: seq<Word>, n: nat)
    requires n <= |s|
    ensures Val(s) == Xor(Val(s[..n]), Shl(Val(s[n..]), 64 * n))
  {
    hide *;
    assert s == s[..n] + s[n..];
    ValConcat(s[..n], s[n..]);
  }

  /** Word-by-word sum. */
  function XorSeq(s: seq<Word>, t: seq<Word>): (u: seq<Word>)
    requires |s| == |t|
    ensures |u| == |s| && forall k :: 0 <= k < |u| ==> u[k] == WXor(s[k], t[k])
  {
    seq(|s|, k requires 0 <= k < |s| => WXor(s[k], t[k]))
  }

  lemma ValXor(s: seq<Word>, t: seq<Word>)
    requires |s| == |t|
    ensures Val(XorSeq(s, t)) == Xor(Val(s), Val(t))
  {
    hide RawBit, Bit, Val, Xor, WXor, XorSeq;
    Ext(Val(XorSeq(s, t)), Xor(Val(s), Val(t)));
  }

  lemma ValZero(s: seq<Word>)
    requires forall i :: 0 <= i < |s| ==> s[i] == 0
    ensures Val(s) == 0
  {
    hide Bit, Val;
    Ext(Val(s), 0);
  }

  lemma ValOne(s: seq<Word>)
    requires |s| == 1
    ensures Val(s) == s[0]
  {
    hide Bit, Val;
    Ext(Val(s), s[0]);
  }

  lemma ValInjective(s: seq<Word>, t: seq<Word>)
    requires |s| == |t| && Val(s) == Val(t)
    ensures s == t
  {
    hide RawBit, Bit, Val;
    forall i | 0 <= i < |s| ensures s[i] == t[i] {
      forall j: nat ensures Bit(s[i], j) == Bit(t[i], j) {
        if j < 64 {
          assert (64 * i + j) / 64 == i && (64 * i + j) % 64 == j;
          assert Bit(Val(s), 64 * i + j) == Bit(Val(t), 64 * i + j);
        }
      }
      Ext(s[i], t[i]);
    }
  }

  /** Word i of v. */
  function WordAt(v: nat, i: nat): (w: Word)
    ensures forall j: nat :: Bit(w, j) == (j < 64 && Bit(v, 64 * i + j))
  {
    var w := Low(Shr(v, 64 * i), 64);
    WordFits(w);
    w
  }

  lemma ValOfWords(s: seq<Word>, v: nat)
    requires Fits(v, 64 * |s|) && forall i :: 0 <= i < |s| ==> s[i] == WordAt(v, i)
    ensures Val(s) == v
  {
    hide RawBit, Bit, Val, WordAt;
    forall p: nat ensures Bit(Val(s), p) == Bit(v, p) {
      assert p == 64 * (p / 64) + p % 64;
    }
    Ext(Val(s), v);
  }

  /** Stores v in n words. */
  method StoreWords(c: array<Word>, co: nat, n: nat, v: nat)
    requires co + n <= c.Length && Fits(v, 64 * n)
    modifies c
    ensures Val(c[co..co + n]) == v
    ensures forall k :: 0 <= k < c.Length && !(co <= k < co + n) ==> c[k] == old(c[k])
  {
    hide RawBit, Bit, Val, WordAt, Fits;
    for i := 0 to n
      invariant forall k :: 0 <= k < c.Length ==> c[k] == if co <= k < co + i then WordAt(v, k - co) else old(c[k])
    {
      c[co + i] := WordAt(v, i);
    }
    ValOfWords(c[co..co + n], v);
  }

  // ----- Bytes of the same memory, little endian

  /** raw[j] of the memory that holds the words s. */
  function GetByte(s: seq<Word>, j: nat): (b: Byte)
    requires j < 8 * |s|
    ensures forall q: nat :: Bit(b, q) == (q < 8 && Bit(s[j / 8], q + 8 * (j % 8)))
  {
    var b := Low(Shr(s[j / 8], 8 * (j % 8)), 8);
    WordFits(b);
    b
  }

  /** w with its byte k replaced. */
  function PutByte(w: Word, k: nat, b: Byte): (c: Word)
    requires k < 8
    ensures forall i: nat :: Bit(c, i) == if 8 * k <= i < 8 * k + 8 then Bit(b, i - 8 * k) else Bit(w, i)
  {
    PutByteBits(w, k, b);
    WOr(WAnd(w, WNot(WShl(0xFF, 8 * k))), WShl(b, 8 * k))
  }

  lemma PutByteBits(w: Word, k: nat, b: Byte)
    requires k < 8
    ensures var c := WOr(WAnd(w, WNot(WShl(0xFF, 8 * k))), WShl(b, 8 * k));
            forall i: nat :: Bit(c, i) == if 8 * k <= i < 8 * k + 8 then Bit(b, i - 8 * k) else Bit(w, i)
  {
    hide *;
    Pow2Words();
    assert Mask(8) == 0xFF;
  }

  /** The words s with byte j replaced. */
  function WithByte(s: seq<Word>, j: nat, b: Byte): (t: seq<Word>)
    requires j < 8 * |s|
    ensures |t| == |s|
  {
    s[j / 8 := PutByte(s[j / 8], j % 8, b)]
  }

  lemma ByteIndex(p: nat, j: nat)
    ensures 8 * j <= p < 8 * j + 8 <==> p / 64 == j / 8 && 8 * (j % 8) <= p % 64 < 8 * (j % 8) + 8
    ensures 8 * j <= p < 8 * j + 8 ==> p % 64 - 8 * (j % 8) == p - 8 * j
  {
  }

  lemma ValWithByte(s: seq<Word>, j: nat, b: Byte)
    requires j < 8 * |s|
    ensures forall p: nat :: Bit(Val(WithByte(s, j, b)), p) ==
              if 8 * j <= p < 8 * j + 8 then Bit(b, p - 8 * j) else Bit(Val(s), p)
  {
    hide RawBit, Bit, Val, PutByte;
    forall p: nat ensures Bit(Val(WithByte(s, j, b)), p) ==
                          if 8 * j <= p < 8 * j + 8 then Bit(b, p - 8 * j) else Bit(Val(s), p) {
      ByteIndex(p, j);
    }
  }

  lemma ValGetByte(s: seq<Word>, j: nat)
    requires j < 8 * |s|
    ensures forall q: nat :: Bit(GetByte(s, j), q) == (q < 8 && Bit(Val(s), 8 * j + q))
  {
    hide RawBit, Bit, Val, GetByte;
    forall q: nat ensures Bit(GetByte(s, j), q) == (q < 8 && Bit(Val(s), 8 * j + q)) {
      if q < 8 { ByteIndex(8 * j + q, j); }
    }
  }

  /** raw[j] = b. */
  method StoreByte(a: array<Word>, j: nat, b: Byte)
    requires j < 8 * a.Length
    modifies a
    ensures a[..] == WithByte(old(a[..]), j, b)
  {
    hide PutByte;
    a[j / 8] := PutByte(a[j / 8], j % 8, b);
  }

  /** Copies the first n bytes of src, as a structure assignment or memcpy does. */
  method CopyBytes(dst: array<Word>, src: array<Word>, n: nat)
    requires n <= 8 * dst.Length && n <= 8 * src.Length && dst != src
    modifies dst
    ensures forall p: nat :: Bit(Val(dst[..]), p) == Bit(if p < 8 * n then Val(src[..]) else Val(old(dst[..])), p)
  {
    hide RawBit, Bit, Val, GetByte, WithByte;
    for j := 0 to n
      invariant forall p: nat :: Bit(Val(dst[..]), p) == Bit(if p < 8 * j then Val(src[..]) else Val(old(dst[..])), p)
    {
      ValWithByte(dst[..], j, GetByte(src[..], j));
      ValGetByte(src[..], j);
      StoreByte(dst, j, GetByte(src[..], j));
    }
  }
}
