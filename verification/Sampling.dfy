/** Fixed-weight sampling from the generator's stream: the Fisher-Yates sampler, the rejection sampler, its
    fixed-length variant, and their index lists as polynomials. */
module Sampling {
  import opened Bits
  import opened Modular
  import opened RawBytes
  import opened Utilities
  import opened AesCtrPrf

  /** A little-endian 32-bit number. */
  function Le32(b: seq<Byte>): (x: Dword)
    requires |b| == 4
  {
    var b0: nat, b1: nat, b2: nat, b3: nat := b[0], b[1], b[2], b[3];
    b0 + 256 * b1 + 65536 * b2 + 16777216 * b3
  }

  /** The number that the four bytes hold as a polynomial, byte 0 lowest. */
  lemma Le32IsByteVal(b: seq<Byte>)
    requires |b| == 4
    ensures Le32(b) == ByteVal(b)
  {
    hide ByteVal;
    ByteValCons(b);
    ByteValCons(b[1..]);
    ByteValCons(b[2..]);
    ByteValCons(b[3..]);
    ByteValEmpty(b[4..]);
    assert b[1..][1..] == b[2..] && b[2..][1..] == b[3..] && b[3..][1..] == b[4..];
  }

  lemma ByteValEmpty(b: seq<Byte>)
    requires b == []
    ensures ByteVal(b) == 0
  {
    hide RawBit, Bit;
    Ext(ByteVal(b), 0);
  }

  /** The k-th 32-bit number of the stream from position from on. */
  function Draw(enc: Cipher, from: nat, k: nat): Dword {
    Le32(Stream(enc, from + 4 * k, 4))
  }

  function Draws(enc: Cipher, from: nat): nat -> Dword {
    (k: nat) => Draw(enc, from, k)
  }

  /** The bytes the generator can still serve in aligned requests of four. */
  ghost function Available(prf: Prf): int
    reads prf
  {
    16 * prf.remInvocations + 16 - prf.currPosInBuffer
  }

  /** The generator between aligned requests of four bytes. */
  ghost predicate Aligned(prf: Prf)
    reads prf, prf.buffer
  {
    prf.Valid() && prf.currPosInBuffer % 4 == 0
  }

  lemma AlignedNeeds(pos: nat)
    requires pos <= 16 && pos % 4 == 0
    ensures BlocksNeeded(pos, 4) == if pos == 16 then 1 else 0
  {
  }

  /** Four bytes from the generator, as a number. */
  method NextU32(prf: Prf) returns (ok: bool, x: Dword)
    requires Aligned(prf)
    modifies prf, prf.buffer
    ensures prf.buffer == old(prf.buffer)
    ensures ok == (old(Available(prf)) >= 4)
    ensures ok ==> Aligned(prf) && prf.Position() == old(prf.Position()) + 4
    ensures ok ==> Available(prf) == old(Available(prf)) - 4
    ensures ok ==> x == Le32(Stream(prf.enc, old(prf.Position()), 4))
  {
    hide StreamByte, Stream, Le32, BlocksNeeded;
    var out := new Byte[4](_ => 0);
    AlignedNeeds(prf.currPosInBuffer);
    ok := prf.GetPrfOutput(out, 4);
    x := 0;
    if ok {
      assert out[..4] == out[..];
      x := Le32(out[..]);
    }
  }

  // ----- Fisher-Yates

  /** Entries i, .., num - 1 of the sample drawn from d: entry i is a value in [i, max) picked by the draw, or i
      itself if that value is already there. */
  function FisherYates(d: nat -> Dword, num: nat, max: nat, i: nat): (s: seq<nat>)
    requires i <= num <= max
    ensures |s| == num - i
    decreases num - i
  {
    if i == num then []
    else
      var tail := FisherYates(d, num, max, i + 1);
      var l := Pick(d(num - 1 - i), i, max);
      [if l in tail then i else l] + tail
  }

  /** i + floor(rand * (max - i) / 2^32). */
  function Pick(rand: Dword, i: nat, max: nat): (l: nat)
    requires i < max
    ensures i <= l < max
  {
    PickInRange(rand, max - i);
    i + rand * (max - i) / TWO32
  }

  lemma PickInRange(rand: Dword, n: nat)
    requires n > 0
    ensures 0 <= rand * n / TWO32 < n
  {
    var x := rand * n;
    assert x >= 0 by { if rand > 0 { MulAtLeast(rand, n); } }
    MulAtLeast(TWO32 - rand, n);
    assert (TWO32 - rand) * n == TWO32 * n - x;
    QuotientBelow(x, n);
  }

  lemma QuotientBelow(x: nat, n: nat)
    requires x < TWO32 * n
    ensures 0 <= x / TWO32 < n
  {
    hide *;
    var q, m := x / TWO32, x % TWO32;
    assert x == TWO32 * q + m;
  }

  ghost predicate Distinct(s: seq<nat>) {
    forall i, j :: 0 <= i < j < |s| ==> s[i] != s[j]
  }

  /** Whatever the draws, the sample is distinct and entry i + k lies in [i + k, max). */
  lemma {:induction false} FisherYatesDistinct(d: nat -> Dword, num: nat, max: nat, i: nat)
    requires i <= num <= max
    ensures var s := FisherYates(d, num, max, i);
            Distinct(s) && forall k :: 0 <= k < |s| ==> i + k <= s[k] < max
    decreases num - i
  {
    hide Pick;
    if i < num {
      var tail := FisherYates(d, num, max, i + 1);
      FisherYatesDistinct(d, num, max, i + 1);
      assert forall k :: 0 <= k < |tail| ==> i + 1 + k <= tail[k];
    }
  }

  /** Every value of [i, max) is picked by some draw. */
  lemma PickReaches(l: nat, i: nat, max: Dword) returns (rand: Dword)
    requires i <= l < max
    ensures Pick(rand, i, max) == l
  {
    var n, k := max - i, l - i;
    var x := k * TWO32;
    var q, m := x / n, x % n;
    assert x == q * n + m;
    assert x == TWO32 * k <= TWO32 * n - TWO32;
    var c := if m == 0 then q else q + 1;
    assert c * n == x + (if m == 0 then 0 else n - m);
    CeilingBelow(c, n, x);
    rand := c;
    DivModUnique(c * n, TWO32, k, if m == 0 then 0 else n - m);
  }

  lemma CeilingBelow(c: nat, n: nat, x: nat)
    requires 0 < n < TWO32 && c * n < x + n && x <= TWO32 * n - TWO32
    ensures c < TWO32
  {
    if c >= TWO32 { MulAtLeast(n, c - TWO32); }
  }

  /** The sample depends on as many draws as it has entries. */
  lemma {:induction false} FisherYatesFrame(d: nat -> Dword, f: nat -> Dword, num: nat, max: nat, i: nat)
    requires i <= num <= max && forall k: nat :: k < num - i ==> d(k) == f(k)
    ensures FisherYates(d, num, max, i) == FisherYates(f, num, max, i)
    decreases num - i
  {
    hide Pick;
    if i < num { FisherYatesFrame(d, f, num, max, i + 1); }
  }

  /** The pick is the draw scaled to [i, max) and rounded down. */
  lemma PickIsScaled(rand: Dword, i: nat, max: nat)
    requires i < max
    ensures var l := Pick(rand, i, max); TWO32 * (l - i) <= rand * (max - i) < TWO32 * (l - i + 1)
  {
    var x := rand * (max - i);
    var q, m := x / TWO32, x % TWO32;
    assert x == TWO32 * q + m;
  }

  lemma {:induction false} FisherYatesTail(d: nat -> Dword, num: nat, max: nat, i: nat, k: nat)
    requires i <= k <= num <= max
    ensures FisherYates(d, num, max, i)[k - i..] == FisherYates(d, num, max, k)
    decreases k - i
  {
    hide Pick, FisherYates;
    if i < k {
      FisherYatesTail(d, num, max, i + 1, k);
      FisherYatesStep(d, num, max, i);
    }
  }

  /** Entry i of the sample from the bytes of the stream: with l - i the part of the range in proportion to four
      bytes of it, the last ones for entry 0, the entry is l, or i if l is one of the entries after it. */
  lemma SampleEntry(enc: Cipher, from: nat, num: nat, max: nat, i: nat, l: nat)
    requires i < num <= max && i <= l
    requires var rand := ByteVal(Stream(enc, from + 4 * (num - 1 - i), 4));
             TWO32 * (l - i) <= rand * (max - i) < TWO32 * (l - i + 1)
    ensures var s := FisherYates(Draws(enc, from), num, max, 0); s[i] == if l in s[i + 1..] then i else l
  {
    hide Pick, FisherYates, Stream, ByteVal, Le32, Draws;
    var d, k := Draws(enc, from), num - 1 - i;
    DrawIs(enc, from, k);
    Le32IsByteVal(Stream(enc, from + 4 * k, 4));
    PickIsScaled(d(k), i, max);
    SameQuotient(d(k) * (max - i), l - i, Pick(d(k), i, max) - i);
    FisherYatesTail(d, num, max, 0, i);
    FisherYatesTail(d, num, max, 0, i + 1);
    FisherYatesStep(d, num, max, i);
  }

  lemma SameQuotient(x: int, q: int, q': int)
    requires TWO32 * q <= x < TWO32 * (q + 1) && TWO32 * q' <= x < TWO32 * (q' + 1)
    ensures q == q'
  {
  }

  ghost function Elements(s: seq<nat>): set<nat> { set x | x in s }

  /** Every set of the right size is sampled: for every num - i values of [i, max) there are draws whose sample is
      that set. */
  lemma {:induction false} FisherYatesReaches(s: set<nat>, num: nat, max: Dword, i: nat) returns (d: nat -> Dword)
    requires i <= num <= max && |s| == num - i && forall x :: x in s ==> i <= x < max
    ensures Elements(FisherYates(d, num, max, i)) == s
    decreases num - i
  {
    hide Pick, FisherYates;
    if i == num {
      d := (_: nat) => 0;
      FisherYatesEnd(d, num, max);
    } else {
      var l := FirstEntry(s, num, max, i);
      var f := FisherYatesReaches(s - {l}, num, max, i + 1);
      var rand := PickReaches(l, i, max);
      d := (k: nat) => if k == num - 1 - i then rand else f(k);
      FisherYatesFrame(d, f, num, max, i + 1);
      FisherYatesStep(d, num, max, i);
      ElementsCons(l, FisherYates(f, num, max, i + 1));
      assert l !in FisherYates(f, num, max, i + 1);
      assert {l} + (s - {l}) == s;
    }
  }

  /** The entry i of a sample of s: i itself if it belongs to s, and any other element if not. */
  lemma FirstEntry(s: set<nat>, num: nat, max: nat, i: nat) returns (l: nat)
    requires i < num <= max && |s| == num - i && forall x :: x in s ==> i <= x < max
    ensures l in s && |s - {l}| == num - (i + 1) && forall x :: x in s - {l} ==> i + 1 <= x < max
  {
    if i in s { l := i; } else { l :| l in s; }
  }

  lemma FisherYatesEnd(d: nat -> Dword, num: nat, max: nat)
    requires num <= max
    ensures FisherYates(d, num, max, num) == []
  {
  }

  lemma FisherYatesStep(d: nat -> Dword, num: nat, max: nat, i: nat)
    requires i < num <= max
    ensures var tail, l := FisherYates(d, num, max, i + 1), Pick(d(num - 1 - i), i, max);
            FisherYates(d, num, max, i) == [if l in tail then i else l] + tail
  {
    hide Pick;
  }

  lemma ElementsCons(x: nat, s: seq<nat>)
    ensures Elements([x] + s) == {x} + Elements(s)
    ensures forall y :: y in s <==> y in Elements(s)
  {
    assert forall y :: y in [x] + s <==> y == x || y in s;
  }

  /** (mask & x) ^ (~mask & y) for a 32-bit mask that is -1 or 0. */
  function Select32(mask: Dword, x: Dword, y: Dword): (z: Dword)
    requires mask == 0 || mask == MAX32
    ensures z == if mask == 0 then y else x
  {
    Select32Is(mask, x, y);
    Xor(And(mask, x), And(MAX32 - mask, y))
  }

  lemma Select32Is(mask: Dword, x: Dword, y: Dword)
    requires mask == 0 || mask == MAX32
    ensures Xor(And(mask, x), And(MAX32 - mask, y)) == if mask == 0 then y else x
  {
    hide RawBit, Bit, And, Xor, Mask;
    Pow2Words();
    assert Mask(32) == MAX32;
    Ext(Xor(And(mask, x), And(MAX32 - mask, y)), if mask == 0 then y else x);
  }

  lemma OrBit(a: Dword, b: Dword)
    requires a <= 1 && b <= 1
    ensures Or(a, b) == if a == 1 || b == 1 then 1 else 0
  {
  }

  /** The duplicate test: one if l is among s, without leaving the loop early. */
  method IsDuplicate(l: Dword, s: array<Dword>, from: nat, to: nat) returns (isDup: Dword)
    requires from <= to <= s.Length
    ensures isDup == if l in s[from..to] then 1 else 0
  {
    hide RawBit, Bit, Or;
    isDup := 0;
    for j := from to to
      invariant isDup == if l in s[from..j] then 1 else 0
    {
      OrBit(isDup, SecureCmp32(l, s[j]));
      assert s[from..j + 1] == s[from..j] + [s[j]];
      isDup := Or(isDup, SecureCmp32(l, s[j]));
    }
  }

  /** The loop body of sample_indices_fisher_yates after the draw. */
  method PlaceEntry(out: array<Dword>, i: nat, num: nat, max: Dword, rand: Dword)
    requires i < num <= max && num <= out.Length
    modifies out
    ensures var tail, l := old(out[i + 1..num]), Pick(rand, i, max);
            out[i..num] == [if l in tail then i else l] + tail
    ensures out[num..] == old(out[num..])
  {
    hide Pick, Select32;
    var l := Pick(rand, i, max);
    ghost var tail := out[i + 1..num];
    var isDup := IsDuplicate(l, out, i + 1, num);
    var mask := Sub32(0, isDup);
    out[i] := Select32(mask, i, l);
    assert out[i..num] == [out[i]] + tail;
  }

  /** sample_indices_fisher_yates. */
  method SampleIndicesFisherYates(out: array<Dword>, num: nat, max: Dword, prf: Prf) returns (ok: bool)
    requires Aligned(prf) && num <= max && num <= out.Length
    modifies out, prf, prf.buffer
    ensures prf.buffer == old(prf.buffer)
    ensures ok == (old(Available(prf)) >= 4 * num)
    ensures ok ==> Aligned(prf) && prf.Position() == old(prf.Position()) + 4 * num
    ensures ok ==> Available(prf) == old(Available(prf)) - 4 * num
    ensures ok ==> out[..num] == FisherYates(Draws(prf.enc, old(prf.Position())), num, max, 0)
    ensures out[num..] == old(out[num..])
  {
    hide Le32, Stream, StreamByte, Pick, FisherYates, Draws;
    ghost var from: nat := prf.Position();
    ghost var d := Draws(prf.enc, from);
    FisherYatesEnd(d, num, max);
    for i := num downto 0
      invariant Aligned(prf) && prf.buffer == old(prf.buffer)
      invariant prf.Position() == from + 4 * (num - i)
      invariant Available(prf) == old(Available(prf)) - 4 * (num - i) && Available(prf) >= 0
      invariant out[i..num] == FisherYates(d, num, max, i) && out[num..] == old(out[num..])
    {
      var rand;
      ok, rand := NextU32(prf);
      if !ok { return; }
      DrawIs(prf.enc, from, num - 1 - i);
      FisherYatesStep(d, num, max, i);
      PlaceEntry(out, i, num, max, rand);
    }
    ok := true;
  }

  // ----- Rejection sampling

  /** A draw masked to the bit length of z. */
  function Masked(x: Dword, z: nat): (y: Dword) { Low(x, BitLength(z)) }

  /** The distinct values below z among the first n masked draws, in order of appearance. */
  function Accepted(d: nat -> Dword, n: nat, z: nat): (s: seq<nat>)
    ensures |s| <= n && Distinct(s) && forall k :: 0 <= k < |s| ==> s[k] < z
  {
    if n == 0 then []
    else
      var s := Accepted(d, n - 1, z);
      var x := Masked(d(n - 1), z);
      if x < z && x !in s then s + [x] else s
  }

  lemma {:induction false} AcceptedPrefix(d: nat -> Dword, m: nat, n: nat, z: nat)
    requires m <= n
    ensures Accepted(d, m, z) <= Accepted(d, n, z)
    decreases n
  {
    hide Masked;
    if m < n { AcceptedPrefix(d, m, n - 1, z); }
  }

  /** Masking keeps every value below z, and none past its bit length. */
  lemma MaskedMeans(x: Dword, z: nat)
    requires z > 0
    ensures Masked(x, z) < 2 * z && (x < z ==> Masked(x, z) == x)
    ensures forall i: nat :: Bit(Masked(x, z), i) ==> Bit(x, i)
  {
    hide RawBit, Bit, Low;
    var n := BitLength(z);
    assert Pow2(n) == 2 * Pow2(n - 1);
    FitsPow2(x, n);
  }

  /** Exactly the values below z that were drawn are accepted. */
  lemma {:induction false} AcceptedMeans(d: nat -> Dword, n: nat, z: nat, x: nat)
    ensures x in Accepted(d, n, z) <==> x < z && exists k: nat :: k < n && Masked(d(k), z) == x
  {
    hide Masked, Distinct;
    if n > 0 {
      AcceptedMeans(d, n - 1, z, x);
      if x < z && Masked(d(n - 1), z) == x { assert x in Accepted(d, n, z); }
      if k: nat :| k < n && Masked(d(k), z) == x { assert k < n - 1 || k == n - 1; }
    }
  }

  /** They come in the order in which they were first drawn: entry a is the draw made when exactly those before it had
      been found. */
  lemma {:induction false} AcceptedEntry(d: nat -> Dword, n: nat, z: nat, a: nat) returns (k: nat)
    requires a < |Accepted(d, n, z)|
    ensures k < n && Masked(d(k), z) == Accepted(d, n, z)[a] && Accepted(d, k, z) == Accepted(d, n, z)[..a]
  {
    hide Masked, Distinct;
    if a < |Accepted(d, n - 1, z)| {
      k := AcceptedEntry(d, n - 1, z, a);
      AcceptedPrefix(d, n - 1, n, z);
    } else {
      k := n - 1;
    }
  }

  /** The draws from m up to n are all too large. */
  ghost predicate Rejected(d: nat -> Dword, m: nat, n: nat, z: nat) {
    forall k: nat :: m <= k < n ==> Masked(d(k), z) >= z
  }

  lemma {:induction false} RejectedAccepted(d: nat -> Dword, m: nat, n: nat, z: nat)
    requires m <= n && Rejected(d, m, n, z)
    ensures Accepted(d, n, z) == Accepted(d, m, z)
    decreases n
  {
    hide Masked;
    if m < n { RejectedAccepted(d, m, n - 1, z); }
  }

  /** get_rand_mod_len: masked draws until one is below len.  The loop is bounded by what the generator can
      still serve. */
  method GetRandModLen(len: Dword, prf: Prf, ghost from: nat, ghost m: nat)
    returns (ok: bool, rand: Dword, ghost n: nat)
    requires Aligned(prf) && prf.Position() == from + 4 * m && Available(prf) >= 0
    modifies prf, prf.buffer
    ensures prf.buffer == old(prf.buffer)
    ensures m <= n && old(Available(prf)) - 4 * (n - m) >= 0
    ensures ok ==> m < n && Rejected(Draws(prf.enc, from), m, n - 1, len)
    ensures ok ==> rand == Masked(Draws(prf.enc, from)(n - 1), len) && rand < len
    ensures ok ==> Aligned(prf) && prf.Position() == from + 4 * n && Available(prf) == old(Available(prf)) - 4 * (n - m)
    ensures !ok ==> Rejected(Draws(prf.enc, from), m, n, len) && old(Available(prf)) - 4 * (n - m) < 4
  {
    hide Le32, Stream, StreamByte, Masked, Mask, BitLength;
    var bits := BitScanReverseVartime(len);
    n := m;
    while true
      invariant m <= n && Aligned(prf) && prf.buffer == old(prf.buffer)
      invariant prf.Position() == from + 4 * n && Available(prf) == old(Available(prf)) - 4 * (n - m) >= 0
      invariant Rejected(Draws(prf.enc, from), m, n, len)
      decreases Available(prf)
    {
      ok, rand := NextU32(prf);
      if !ok { return; }
      assert rand == Draws(prf.enc, from)(n);
      MaskedIsAnd(rand, len);
      rand := And(rand, Mask(bits));
      n := n + 1;
      if rand < len { return; }
    }
  }

  lemma MaskedIsAnd(x: Dword, z: nat)
    ensures And(x, Mask(BitLength(z))) == Masked(x, z)
  {
    hide RawBit, Bit, And, Mask, Low, BitLength;
    Ext(And(x, Mask(BitLength(z))), Masked(x, z));
  }

  /** The list s holds the first distinct values below z of a stream, and n is the first number of draws that
      is enough for that many. */
  ghost predicate FirstDistinct(s: seq<nat>, d: nat -> Dword, n: nat, z: nat) {
    n > 0 && s == Accepted(d, n, z) && |Accepted(d, n - 1, z)| < |s|
  }

  /** The search of generate_indices_mod_z, which stops at the first equal entry. */
  method IsNew(out: array<Dword>, ctr: nat) returns (isNew: nat)
    requires ctr < out.Length
    ensures isNew == if out[ctr] in out[..ctr] then 0 else 1
  {
    for i := 0 to ctr
      invariant out[ctr] !in out[..i]
    {
      if out[i] == out[ctr] {
        assert out[..ctr][i] == out[ctr];
        return 0;
      }
      assert out[..i + 1] == out[..i] + [out[i]];
    }
    return 1;
  }

  /** Another draw that is not too large, after draws that are. */
  lemma AcceptedStep(d: nat -> Dword, m: nat, n: nat, z: nat)
    requires m < n && Rejected(d, m, n - 1, z) && Masked(d(n - 1), z) < z
    ensures var s, x := Accepted(d, m, z), Masked(d(n - 1), z);
            Accepted(d, n - 1, z) == s && Accepted(d, n, z) == if x in s then s else s + [x]
  {
    hide Masked, Distinct;
    RejectedAccepted(d, m, n - 1, z);
  }

  /** generate_indices_mod_z: the first num distinct values below z, or a failure exactly when the draws that
      the generator can still serve do not contain that many. */
  method GenerateIndicesModZ(out: array<Dword>, num: nat, z: Dword, prf: Prf) returns (ok: bool, ghost n: nat)
    requires Aligned(prf) && 0 < num <= out.Length && Available(prf) >= 0
    modifies out, prf, prf.buffer
    ensures prf.buffer == old(prf.buffer)
    ensures ok == (|Accepted(Draws(prf.enc, old(prf.Position())), old(Available(prf)) / 4, z)| >= num)
    ensures ok ==> Aligned(prf) && prf.Position() == old(prf.Position()) + 4 * n
    ensures ok ==> Available(prf) == old(Available(prf)) - 4 * n >= 0
    ensures ok ==> FirstDistinct(out[..num], Draws(prf.enc, old(prf.Position())), n, z)
    ensures out[num..] == old(out[num..])
  {
    hide Le32, Stream, StreamByte, Masked, BitLength, Distinct, Draws, Accepted, Rejected;
    ghost var d := Draws(prf.enc, prf.Position());
    var ctr := 0;
    n := 0;
    AcceptedNone(d, z);
    while true
      invariant 0 <= ctr < num && Aligned(prf) && prf.buffer == old(prf.buffer)
      invariant prf.Position() == old(prf.Position()) + 4 * n && Available(prf) == old(Available(prf)) - 4 * n >= 0
      invariant out[..ctr] == Accepted(d, n, z) && out[num..] == old(out[num..])
      decreases Available(prf)
    {
      var x;
      ghost var m := n;
      ok, x, n := GetRandModLen(z, prf, old(prf.Position()), n);
      if !ok {
        RejectedAccepted(d, m, n, z);
        return;
      }
      AcceptedStep(d, m, n, z);
      out[ctr] := x;
      var isNew := IsNew(out, ctr);
      assert out[..ctr + 1] == out[..ctr] + [x];
      ctr := ctr + isNew;
      if ctr >= num {
        AcceptedPrefix(d, n, old(Available(prf)) / 4, z);
        return;
      }
    }
  }

  lemma AcceptedNone(d: nat -> Dword, z: nat)
    ensures Accepted(d, 0, z) == []
  {
  }

  // ----- The rejection sampler with a fixed number of draws

  const IDX_INVALID_VAL: Dword := MAX32

  /** One pass over the whole output: compares x with every entry and writes it to entry ctr if there is one. */
  method CompareAndPlace(out: array<Dword>, t: nat, x: Dword, ctr: Dword) returns (isDup: Dword)
    requires t <= out.Length && t < TWO32
    modifies out
    ensures isDup == if x in old(out[..t]) then 1 else 0
    ensures out[..t] == if ctr < t then old(out[..t])[ctr := x] else old(out[..t])
    ensures out[t..] == old(out[t..])
  {
    hide RawBit, Bit, And, Or, Blend32;
    isDup := 0;
    ghost var s := out[..t];
    for j := 0 to t
      invariant isDup == if x in s[..j] then 1 else 0
      invariant forall k :: 0 <= k < t ==> out[k] == if k < j && k == ctr then x else s[k]
      invariant out[t..] == old(out[t..])
    {
      OrBit(isDup, SecureCmp32(x, out[j]));
      assert s[..j + 1] == s[..j] + [s[j]];
      isDup := Or(isDup, SecureCmp32(x, out[j]));
      var mask := Sub32(0, SecureCmp32(j, ctr));
      out[j] := Blend32(mask, x, out[j]);
    }
    assert s[..t] == s;
  }

  /** The output of the fixed-length sampler and its counter of valid distinct indices. */
  datatype Slots = Slots(out: seq<Dword>, ctr: nat) {
    /** The treatment of one masked draw: it goes to entry ctr, and the counter moves on if the draw is below z and
        was nowhere in the output. */
    function Place(x: Dword, z: Dword): Slots {
      Slots(if ctr < |out| then out[ctr := x] else out, if x in out || x >= z then ctr else ctr + 1)
    }
  }

  /** The state after n draws, starting from t invalid entries. */
  function FixedLength(d: nat -> Dword, n: nat, t: nat, z: Dword): (s: Slots)
    ensures |s.out| == t && s.ctr <= n
  {
    if n == 0 then Slots(seq<Dword>(t, _ => IDX_INVALID_VAL), 0)
    else FixedLength(d, n - 1, t, z).Place(Masked(d(n - 1), z), z)
  }

  /** What the state says about the distinct draws below z found so far.  While some are missing, entry ctr holds
      the last draw that was not kept, or still the invalid value, and every entry after it is invalid. */
  ghost predicate Window(s: Slots, found: seq<nat>, z: Dword) {
    var t := |s.out|;
    if |found| >= t then
      s.ctr >= t && s.out == found[..t]
    else
      && s.ctr == |found| && s.out[..s.ctr] == found
      && (s.out[s.ctr] >= z || s.out[s.ctr] in found)
      && forall k :: s.ctr < k < t ==> s.out[k] == IDX_INVALID_VAL
  }

  /** Below z, an unfinished output contains what was found and nothing else. */
  lemma WindowMember(s: Slots, found: seq<nat>, z: Dword, x: nat)
    requires Window(s, found, z) && |found| < |s.out| && x < z
    ensures x in s.out <==> x in found
  {
    if x in found { assert x in s.out[..s.ctr]; }
    assert forall k :: 0 <= k < s.ctr ==> s.out[k] == found[k];
  }

  lemma WindowStep(s: Slots, found: seq<nat>, z: Dword, x: Dword)
    requires Window(s, found, z)
    requires forall k :: 0 <= k < |found| ==> found[k] < z
    ensures Window(s.Place(x, z), if x < z && x !in found then found + [x] else found, z)
  {
    var t, ctr := |s.out|, s.ctr;
    if |found| < t {
      if x < z { WindowMember(s, found, z, x); }
      var next := s.out[ctr := x];
      if x < z && x !in found {
        assert next[..ctr + 1] == found + [x];
        if ctr + 1 == t { assert next == (found + [x])[..t]; }
      } else {
        assert next[..ctr] == found;
      }
    } else if x < z && x !in found {
      assert (found + [x])[..t] == found[..t];
    }
  }

  lemma {:induction false} FixedLengthWindow(d: nat -> Dword, n: nat, t: nat, z: Dword)
    ensures Window(FixedLength(d, n, t, z), Accepted(d, n, z), z)
  {
    hide Masked, Window, Distinct;
    if n == 0 {
      WindowStart(FixedLength(d, 0, t, z), z);
    } else {
      FixedLengthWindow(d, n - 1, t, z);
      AcceptedSnoc(d, n - 1, z);
      WindowStep(FixedLength(d, n - 1, t, z), Accepted(d, n - 1, z), z, Masked(d(n - 1), z));
    }
  }

  lemma WindowStart(s: Slots, z: Dword)
    requires s.ctr == 0 && forall k :: 0 <= k < |s.out| ==> s.out[k] == IDX_INVALID_VAL
    ensures Window(s, [], z)
  {
  }

  /** A list of indices below z without repetition. */
  ghost predicate ValidIndices(s: seq<nat>, z: nat) {
    Distinct(s) && forall k :: 0 <= k < |s| ==> s[k] < z
  }

  /** The output of the fixed-length sampler is a list of distinct indices below z exactly when the draws contain
      that many, and then it is the first of them in order. */
  lemma FixedLengthIsPrefix(d: nat -> Dword, n: nat, t: nat, z: Dword)
    ensures var out, found := FixedLength(d, n, t, z).out, Accepted(d, n, z);
            && (ValidIndices(out, z) <==> |found| >= t)
            && (|found| >= t ==> out == found[..t])
  {
    hide Accepted, FixedLength, Masked;
    FixedLengthWindow(d, n, t, z);
    WindowEnd(FixedLength(d, n, t, z), Accepted(d, n, z), z);
  }

  lemma WindowEnd(s: Slots, found: seq<nat>, z: Dword)
    requires Window(s, found, z) && ValidIndices(found, z)
    ensures ValidIndices(s.out, z) <==> |found| >= |s.out|
  {
    if |found| < |s.out| && s.out[s.ctr] in found {
      var k :| 0 <= k < s.ctr && found[k] == s.out[s.ctr];
      assert s.out[..s.ctr][k] == s.out[k];
    }
  }

  /** The output while indices are missing, entry by entry: those found, then the last draw if it was not kept, and
      invalid entries. */
  lemma {:induction false} FixedLengthState(d: nat -> Dword, n: nat, t: nat, z: Dword, k: nat)
    requires |Accepted(d, n, z)| < t && k < t
    ensures var out, found := FixedLength(d, n, t, z).out, Accepted(d, n, z);
            out[k] == if k < |found| then found[k]
                      else if k == |found| && n > 0 && Accepted(d, n - 1, z) == found then Masked(d(n - 1), z)
                      else IDX_INVALID_VAL
  {
    hide Masked, Window, Distinct, FixedLength, Accepted;
    if n == 0 {
      FixedLengthStart(seq<Dword>(t, _ => IDX_INVALID_VAL), d, t, z);
      AcceptedNone(d, z);
    } else {
      AcceptedSnoc(d, n - 1, z);
      FixedLengthWindow(d, n - 1, t, z);
      FixedLengthSnoc(d, n - 1, t, z);
      FixedLengthState(d, n - 1, t, z, k);
      PlaceState(FixedLength(d, n - 1, t, z), Accepted(d, n - 1, z), z, Masked(d(n - 1), z), k);
    }
  }

  lemma PlaceState(s: Slots, found: seq<nat>, z: Dword, x: Dword, k: nat)
    requires Window(s, found, z) && |found| < |s.out| && k < |s.out|
    ensures s.Place(x, z).out[k] == if k == |found| then x else s.out[k]
    ensures k < |found| ==> s.out[k] == found[k]
    ensures k > |found| ==> s.out[k] == IDX_INVALID_VAL
  {
    assert forall j :: 0 <= j < s.ctr ==> s.out[j] == s.out[..s.ctr][j];
  }

  /** The loop body after the draw. */
  method PlaceIndex(out: array<Dword>, t: nat, z: Dword, x: Dword, ctr: Dword) returns (next: nat)
    requires t <= out.Length && t < TWO32
    modifies out
    ensures Slots(out[..t], next) == Slots(old(out[..t]), ctr).Place(x, z) && out[t..] == old(out[t..])
  {
    hide And, RawBit, Bit;
    var isDup := CompareAndPlace(out, t, x, ctr);
    var isValid := SecureL32(x, z);
    AndBit(1 - isDup, isValid);
    next := ctr + And(1 - isDup, isValid);
  }

  /** sample_error_vec_indices_port, for t indices below z from maxRand draws. */
  method SampleErrorVecIndicesPort(out: array<Dword>, t: nat, z: Dword, maxRand: Dword, prf: Prf) returns (ok: bool)
    requires Aligned(prf) && t <= out.Length && t < TWO32
    modifies out, prf, prf.buffer
    ensures prf.buffer == old(prf.buffer)
    ensures ok == (old(Available(prf)) >= 4 * maxRand)
    ensures ok ==> Aligned(prf) && prf.Position() == old(prf.Position()) + 4 * maxRand
    ensures ok ==> Available(prf) == old(Available(prf)) - 4 * maxRand
    ensures ok ==> out[..t] == FixedLength(Draws(prf.enc, old(prf.Position())), maxRand, t, z).out
    ensures out[t..] == old(out[t..])
  {
    hide Le32, Stream, StreamByte, Masked, BitLength, Draws, FixedLength, And, Mask, RawBit, Bit, Or;
    ghost var d := Draws(prf.enc, prf.Position());
    var ctr := 0;
    var bits := BitScanReverseVartime(z);
    FillInvalid(out, t);
    FixedLengthStart(out[..t], d, t, z);
    for i := 0 to maxRand
      invariant Aligned(prf) && prf.buffer == old(prf.buffer)
      invariant prf.Position() == old(prf.Position()) + 4 * i
      invariant Available(prf) == old(Available(prf)) - 4 * i
      invariant Slots(out[..t], ctr) == FixedLength(d, i, t, z) && out[t..] == old(out[t..])
    {
      var x;
      ok, x := NextU32(prf);
      if !ok { return; }
      DrawIs(prf.enc, old(prf.Position()), i);
      MaskedIsAnd(x, z);
      FixedLengthSnoc(d, i, t, z);
      ctr := PlaceIndex(out, t, z, And(x, Mask(bits)), ctr);
    }
    ok := true;
  }

  lemma FixedLengthStart(out: seq<Dword>, d: nat -> Dword, t: nat, z: Dword)
    requires |out| == t && forall k :: 0 <= k < t ==> out[k] == IDX_INVALID_VAL
    ensures FixedLength(d, 0, t, z) == Slots(out, 0)
  {
  }

  lemma FixedLengthSnoc(d: nat -> Dword, n: nat, t: nat, z: Dword)
    ensures FixedLength(d, n + 1, t, z) == FixedLength(d, n, t, z).Place(Masked(d(n), z), z)
  {
    hide Masked;
  }

  lemma DrawIs(enc: Cipher, from: nat, k: nat)
    ensures Draws(enc, from)(k) == Le32(Stream(enc, from + 4 * k, 4))
  {
    hide Le32, Stream;
  }

  lemma AcceptedSnoc(d: nat -> Dword, n: nat, z: nat)
    ensures var s, x := Accepted(d, n, z), Masked(d(n), z);
            Accepted(d, n + 1, z) == (if x < z && x !in s then s + [x] else s) && forall k :: 0 <= k < |s| ==> s[k] < z
  {
    hide Masked, Distinct;
  }

  lemma AndBit(a: Dword, b: Dword)
    requires a <= 1 && b <= 1
    ensures And(a, b) == if a == 1 && b == 1 then 1 else 0
  {
  }

  /** The memset of the output. */
  method FillInvalid(out: array<Dword>, t: nat)
    requires t <= out.Length
    modifies out
    ensures forall k :: 0 <= k < t ==> out[k] == IDX_INVALID_VAL
    ensures out[t..] == old(out[t..])
  {
    for i := 0 to t
      invariant forall k :: 0 <= k < i ==> out[k] == IDX_INVALID_VAL
      invariant out[t..] == old(out[t..])
    {
      out[i] := IDX_INVALID_VAL;
    }
  }

  /** The fixed-length sampler refines the rejection sampler.  On a stream on which the rejection sampler stops
      after n draws, it returns the same list in the same order if n is at most its number of draws; and a valid
      list that it returns is the one on which the rejection sampler stops within that many draws. */
  lemma FixedLengthRefinesRejection(d: nat -> Dword, max: nat, t: nat, z: Dword, s: seq<nat>)
    requires t == |s| > 0
    ensures FixedLength(d, max, t, z).out == s && ValidIndices(s, z)
            <==> exists n: nat :: n <= max && FirstDistinct(s, d, n, z)
  {
    hide Accepted, FirstDistinct, FixedLength, ValidIndices;
    FixedLengthIsPrefix(d, max, t, z);
    if n: nat :| n <= max && FirstDistinct(s, d, n, z) {
      FirstDistinctIs(s, d, n, z);
      AcceptedPrefix(d, n, max, z);
    }
    if FixedLength(d, max, t, z).out == s && ValidIndices(s, z) {
      var n := Crossing(d, max, s, z);
    }
  }

  lemma FirstDistinctIs(s: seq<nat>, d: nat -> Dword, n: nat, z: nat)
    ensures FirstDistinct(s, d, n, z) <==> n > 0 && s == Accepted(d, n, z) && |Accepted(d, n - 1, z)| < |s|
  {
    hide Accepted;
  }

  /** The draw that completes the list. */
  lemma {:induction false} Crossing(d: nat -> Dword, max: nat, s: seq<nat>, z: nat) returns (n: nat)
    requires |s| > 0 && |Accepted(d, max, z)| >= |s| && s == Accepted(d, max, z)[..|s|]
    ensures n <= max && FirstDistinct(s, d, n, z)
    decreases max
  {
    hide Masked, Distinct;
    if max == 0 {
      AcceptedNone(d, z);
    } else if |Accepted(d, max - 1, z)| >= |s| {
      AcceptedPrefix(d, max - 1, max, z);
      n := Crossing(d, max - 1, s, z);
    } else {
      n := max;
    }
  }
}
