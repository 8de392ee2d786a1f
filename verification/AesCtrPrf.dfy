/** The buffered counter-mode generator: AES-CTR, section 6.5 of NIST SP 800-38A, with the block cipher
    under the expanded key as an uninterpreted function from counters to blocks. */
module AesCtrPrf {
  import opened Bits

  type Block = s: seq<Byte> | |s| == 16 witness [0, 0, 0, 0, 0, 0, 0, 0, 0, 0, 0, 0, 0, 0, 0, 0]

  /** The key stream E(0) || E(1) || .. */
  type Cipher = nat -> Block

  function StreamByte(enc: Cipher, i: nat): Byte { enc(i / 16)[i % 16] }

  /** The n bytes of the stream from position from on. */
  function Stream(enc: Cipher, from: nat, n: nat): (s: seq<Byte>)
    ensures |s| == n
    ensures forall k :: 0 <= k < n ==> s[k] == StreamByte(enc, from + k)
  {
    seq<Byte>(n, k requires 0 <= k < n => StreamByte(enc, from + k))
  }

  lemma StreamSplit(enc: Cipher, from: nat, m: nat, n: nat)
    ensures Stream(enc, from, m + n) == Stream(enc, from, m) + Stream(enc, from + m, n)
  {
    var s, t := Stream(enc, from, m + n), Stream(enc, from, m) + Stream(enc, from + m, n);
    forall k | 0 <= k < m + n ensures s[k] == t[k] {
      if k >= m { assert t[k] == Stream(enc, from + m, n)[k - m]; }
    }
  }

  /** A whole block of the stream. */
  lemma StreamBlock(enc: Cipher, ctr: nat)
    ensures Stream(enc, 16 * ctr, 16) == enc(ctr)
  {
  }

  /** The cipher calls that a request makes: none if the buffer suffices; otherwise one for every whole block
      after the buffered bytes, and one more to refill the buffer even when nothing is left to copy. */
  function BlocksNeeded(pos: nat, len: nat): nat
    requires pos <= 16
  {
    if len + pos <= 16 then 0 else (len - (16 - pos)) / 16 + 1
  }

  lemma BlocksForRefill(pos: nat, len: nat)
    requires pos <= 16 && len + pos > 16
    ensures BlocksNeeded(pos, len) == (len - (16 - pos)) / 16 + 1
  {
  }

  /** The sum of the first n lengths. */
  function Sum(lens: seq<nat>, n: nat): nat
    requires n <= |lens|
  {
    if n == 0 then 0 else Sum(lens, n - 1) + lens[n - 1]
  }

  /** The cipher calls that the first n of a sequence of requests make, from buffer position pos on.  The
      postcondition is the balance of bytes: what was left in the buffer and what was enciphered has been served
      or is left. */
  function CallsNeeded(pos: nat, lens: seq<nat>, n: nat): (c: nat)
    requires pos <= 16 && n <= |lens|
    ensures 0 <= pos + Sum(lens, n) - 16 * c <= 16
  {
    if n == 0 then 0
    else
      var c := CallsNeeded(pos, lens, n - 1);
      c + BlocksNeeded(pos + Sum(lens, n - 1) - 16 * c, lens[n - 1])
  }

  /** How many calls a total length costs depends on how it is split into requests, but by one call at most, and only
      when the last byte served is the last of a block. */
  lemma SplitsDifferByOne(pos: nat, s: seq<nat>, t: seq<nat>)
    requires pos <= 16 && Sum(s, |s|) == Sum(t, |t|)
    ensures var c, d := CallsNeeded(pos, s, |s|), CallsNeeded(pos, t, |t|);
            c == d || ((pos + Sum(s, |s|)) % 16 == 0 && (c == d + 1 || d == c + 1))
  {
    hide CallsNeeded, Sum;
    var total, c, d := pos + Sum(s, |s|), CallsNeeded(pos, s, |s|), CallsNeeded(pos, t, |t|);
    if c > d { assert total == 16 * c && c == d + 1; }
    if d > c { assert total == 16 * d && d == c + 1; }
  }

  /** From a spent buffer, 32 bytes cost three calls in one request and two calls in two requests. */
  lemma SplitMatters()
    ensures CallsNeeded(16, [32], 1) == 3 && CallsNeeded(16, [16, 16], 2) == 2
  {
    assert CallsNeeded(16, [16, 16], 1) == 2;
  }

  class Prf {
    const enc: Cipher
    var ctr: nat
    var buffer: array<Byte>
    var currPosInBuffer: nat
    var remInvocations: nat

    /** The bytes of the buffer not yet served are those of the last block enciphered. */
    ghost predicate Valid()
      reads this, buffer
    {
      && buffer.Length == 16 && currPosInBuffer <= 16
      && (currPosInBuffer < 16 ==> ctr > 0 && buffer[currPosInBuffer..] == enc(ctr - 1)[currPosInBuffer..])
    }

    /** The number of bytes served so far. */
    ghost function Position(): nat
      requires Valid()
      reads this, buffer
    {
      16 * ctr - 16 + currPosInBuffer
    }

    /** The initial state: a spent buffer, so that the first request enciphers block 0. */
    constructor (enc: Cipher, maxNumInvocations: nat)
      ensures Valid() && fresh(buffer) && Position() == 0
      ensures this.enc == enc && ctr == 0 && remInvocations == maxNumInvocations && currPosInBuffer == 16
    {
      this.enc := enc;
      ctr := 0;
      buffer := new Byte[16](_ => 0);
      currPosInBuffer := 16;
      remInvocations := maxNumInvocations;
    }

    /** perform_aes: the block of the current counter, unless the budget is used up. */
    method PerformAes(out: array<Byte>, at: nat) returns (ok: bool)
      requires at + 16 <= out.Length
      modifies out, this`ctr, this`remInvocations
      ensures ok == (old(remInvocations) > 0)
      ensures ok ==> ctr == old(ctr) + 1 && remInvocations == old(remInvocations) - 1
      ensures ok ==> out[..] == old(out[..])[..at] + enc(old(ctr)) + old(out[..])[at + 16..]
      ensures !ok ==> ctr == old(ctr) && remInvocations == 0 && out[..] == old(out[..])
    {
      if remInvocations == 0 { return false; }
      ghost var was := out[..];
      for i := 0 to 16
        invariant forall k :: 0 <= k < out.Length ==> out[k] == if at <= k < at + i then enc(ctr)[k - at] else was[k]
        modifies out
      {
        out[at + i] := enc(ctr)[i];
      }
      ctr := ctr + 1;
      remInvocations := remInvocations - 1;
      ok := true;
    }

    /** get_prf_output: the next len bytes of the stream, or a failure exactly when the request needs more
        cipher calls than remain.  After a failure the buffer position has been reset although the buffer was
        not refilled, so the generator must not be used again. */
    method GetPrfOutput(out: array<Byte>, len: nat) returns (ok: bool)
      requires Valid() && len <= out.Length && out != buffer
      modifies this`ctr, this`currPosInBuffer, this`remInvocations, buffer, out
      ensures ok == (BlocksNeeded(old(currPosInBuffer), len) <= old(remInvocations))
      ensures ctr + remInvocations == old(ctr + remInvocations)
      ensures ok ==> Valid() && Position() == old(Position()) + len
      ensures ok ==> out[..len] == Stream(enc, old(Position()), len) && out[len..] == old(out[len..])
      ensures ok ==> remInvocations == old(remInvocations) - BlocksNeeded(old(currPosInBuffer), len)
      ensures !ok ==> remInvocations == 0 && currPosInBuffer == 0 && buffer[..] == old(buffer[..])
    {
      hide Stream, StreamByte;
      ghost var from := Position();
      ghost var was := out[..];
      if len + currPosInBuffer <= 16 {
        CopyFromBuffer(out, 0, currPosInBuffer, len);
        BufferedBytes(from, len, out[..len]);
        assert out[len..] == was[len..];
        currPosInBuffer := currPosInBuffer + len;
        return true;
      }
      ok := ServeWithRefill(out, len);
    }

    /** The part of get_prf_output for requests that outlast the buffer. */
    method ServeWithRefill(out: array<Byte>, len: nat) returns (ok: bool)
      requires Valid() && len <= out.Length && out != buffer && len + currPosInBuffer > 16
      modifies this`ctr, this`currPosInBuffer, this`remInvocations, buffer, out
      ensures ok == (BlocksNeeded(old(currPosInBuffer), len) <= old(remInvocations))
      ensures ctr + remInvocations == old(ctr + remInvocations)
      ensures ok ==> Valid() && Position() == old(Position()) + len
      ensures ok ==> out[..len] == Stream(enc, old(Position()), len) && out[len..] == old(out[len..])
      ensures ok ==> remInvocations == old(remInvocations) - BlocksNeeded(old(currPosInBuffer), len)
      ensures !ok ==> remInvocations == 0 && currPosInBuffer == 0 && buffer[..] == old(buffer[..])
    {
      hide Stream, StreamByte, BlocksNeeded;
      BlocksForRefill(currPosInBuffer, len);
      ghost var from, was := Position(), out[..];
      var idx := 16 - currPosInBuffer;
      CopyFromBuffer(out, 0, currPosInBuffer, idx);
      BufferedBytes(from, idx, out[..idx]);
      assert out[len..] == was[len..];
      currPosInBuffer := 0;
      ok, idx := FullBlocks(out, idx, len, from);
      if !ok { return; }
      ok := RefillAndCopyTail(out, idx, len, from);
    }

    /** Its end: a new block in the buffer, whose first bytes are the tail of the request. */
    method RefillAndCopyTail(out: array<Byte>, idx: nat, len: nat, ghost from: nat) returns (ok: bool)
      requires buffer.Length == 16 && out != buffer && idx <= len < idx + 16 && len <= out.Length
      requires 16 * ctr == from + idx && out[..idx] == Stream(enc, from, idx) && currPosInBuffer == 0
      modifies this`ctr, this`currPosInBuffer, this`remInvocations, buffer, out
      ensures ok == (old(remInvocations) > 0) && ctr + remInvocations == old(ctr + remInvocations)
      ensures ok ==> Valid() && Position() == from + len && remInvocations == old(remInvocations) - 1
      ensures ok ==> out[..len] == Stream(enc, from, len) && out[len..] == old(out[len..])
      ensures !ok ==> remInvocations == 0 && currPosInBuffer == 0 && buffer[..] == old(buffer[..])
    {
      hide Stream, StreamByte;
      ghost var before := out[..];
      ok := PerformAes(buffer, 0);
      if !ok { return; }
      assert buffer[..] == enc(ctr - 1);
      currPosInBuffer := len - idx;
      CopyFromBuffer(out, idx, 0, currPosInBuffer);
      assert buffer[..][..len - idx] == buffer[0..0 + currPosInBuffer];
      TailOfBlock(enc, from, idx, len, ctr - 1, before, out[..]);
    }

    /** The loop of get_prf_output over whole blocks. */
    method FullBlocks(out: array<Byte>, idx0: nat, len: nat, ghost from: nat) returns (ok: bool, idx: nat)
      requires idx0 <= len <= out.Length && 16 * ctr == from + idx0 && out != buffer
      requires out[..idx0] == Stream(enc, from, idx0)
      modifies out, this`ctr, this`remInvocations
      ensures ok == ((len - idx0) / 16 <= old(remInvocations))
      ensures ctr + remInvocations == old(ctr + remInvocations)
      ensures out[len..] == old(out[len..])
      ensures ok ==> idx <= len < idx + 16 && 16 * ctr == from + idx && out[..idx] == Stream(enc, from, idx)
      ensures ok ==> remInvocations == old(remInvocations) - (len - idx0) / 16
      ensures !ok ==> remInvocations == 0
    {
      hide Stream, StreamByte;
      ok, idx := true, idx0;
      while len - idx >= 16
        invariant ok && idx <= len && 16 * ctr == from + idx
        invariant (len - idx0) / 16 == old(remInvocations) - remInvocations + (len - idx) / 16
        invariant ctr + remInvocations == old(ctr + remInvocations)
        invariant out[..idx] == Stream(enc, from, idx) && out[len..] == old(out[len..])
      {
        ghost var before := out[..];
        ok := PerformAes(out, idx);
        if !ok { return; }
        StreamSplit(enc, from, idx, 16);
        StreamBlock(enc, ctr - 1);
        assert out[..idx + 16] == before[..idx] + enc(ctr - 1);
        assert out[len..] == before[len..];
        idx := idx + 16;
      }
    }

    /** bike_memcpy from the buffer. */
    method CopyFromBuffer(out: array<Byte>, at: nat, pos: nat, n: nat)
      requires buffer.Length == 16 && pos + n <= 16 && at + n <= out.Length && out != buffer
      modifies out
      ensures out[..] == old(out[..])[..at] + buffer[pos..pos + n] + old(out[..])[at + n..]
    {
      ghost var was := out[..];
      for i := 0 to n
        invariant forall k :: 0 <= k < out.Length ==>
          out[k] == if at <= k < at + i then buffer[pos + k - at] else was[k]
        modifies out
      {
        out[at + i] := buffer[pos + i];
      }
    }

    /** Bytes copied from a valid buffer are the next bytes of the stream. */
    lemma BufferedBytes(from: nat, n: nat, s: seq<Byte>)
      requires Valid() && from == Position() && n + currPosInBuffer <= 16
      requires s == buffer[currPosInBuffer..currPosInBuffer + n]
      ensures s == Stream(enc, from, n)
    {
      var t := Stream(enc, from, n);
      forall k | 0 <= k < n ensures s[k] == t[k] {
        assert s[k] == buffer[currPosInBuffer..][k];
        assert (from + k) / 16 == ctr - 1 && (from + k) % 16 == currPosInBuffer + k;
      }
    }
  }

  /** init_prf_state: a fresh generator at the start of the stream, or none if no cipher call is allowed. */
  method InitPrfState(enc: Cipher, maxNumInvocations: nat) returns (prf: Prf?)
    ensures prf == null <==> maxNumInvocations == 0
    ensures prf != null ==> fresh(prf) && fresh(prf.buffer) && prf.Valid() && prf.Position() == 0 && prf.enc == enc
    ensures prf != null ==> prf.remInvocations == maxNumInvocations && prf.currPosInBuffer == 16
  {
    if maxNumInvocations == 0 { return null; }
    prf := new Prf(enc, maxNumInvocations);
  }

  /** A client's sequence of requests: however the lengths are split, what is returned is one consecutive piece of the
      stream.  The sequence fails exactly when its requests need more cipher calls than remain. */
  method ServeAll(prf: Prf, lens: seq<nat>) returns (ok: bool, out: seq<Byte>)
    requires prf.Valid()
    modifies prf, prf.buffer
    ensures prf.buffer == old(prf.buffer) && prf.ctr + prf.remInvocations == old(prf.ctr + prf.remInvocations)
    ensures ok == (CallsNeeded(old(prf.currPosInBuffer), lens, |lens|) <= old(prf.remInvocations))
    ensures ok ==> prf.Valid() && prf.Position() == old(prf.Position()) + Sum(lens, |lens|)
    ensures ok ==> out == Stream(prf.enc, old(prf.Position()), Sum(lens, |lens|))
    ensures ok ==> prf.remInvocations == old(prf.remInvocations) - CallsNeeded(old(prf.currPosInBuffer), lens, |lens|)
  {
    hide Stream, StreamByte, BlocksNeeded, CallsNeeded, Sum;
    ghost var pos, from := prf.currPosInBuffer, prf.Position();
    out := [];
    NothingServed(prf.enc, from, pos, lens);
    for i := 0 to |lens|
      invariant prf.Valid() && prf.buffer == old(prf.buffer)
      invariant prf.ctr + prf.remInvocations == old(prf.ctr + prf.remInvocations)
      invariant prf.Position() == from + Sum(lens, i) && out == Stream(prf.enc, from, Sum(lens, i))
      invariant prf.remInvocations == old(prf.remInvocations) - CallsNeeded(pos, lens, i)
    {
      var a := new Byte[lens[i]](_ => 0);
      NextRequest(pos, lens, i);
      ok := prf.GetPrfOutput(a, lens[i]);
      if !ok {
        CallsMonotone(pos, lens, i + 1, |lens|);
        return;
      }
      StreamSplit(prf.enc, from, Sum(lens, i), lens[i]);
      assert a[..lens[i]] == a[..];
      out := out + a[..];
    }
    ok := true;
  }

  lemma NothingServed(enc: Cipher, from: nat, pos: nat, lens: seq<nat>)
    requires pos <= 16
    ensures Sum(lens, 0) == CallsNeeded(pos, lens, 0) == 0 && Stream(enc, from, 0) == []
  {
  }

  lemma NextRequest(pos: nat, lens: seq<nat>, n: nat)
    requires pos <= 16 && n < |lens|
    ensures Sum(lens, n + 1) == Sum(lens, n) + lens[n]
    ensures var c := CallsNeeded(pos, lens, n);
            CallsNeeded(pos, lens, n + 1) == c + BlocksNeeded(pos + Sum(lens, n) - 16 * c, lens[n])
  {
    hide BlocksNeeded;
  }

  lemma {:induction false} CallsMonotone(pos: nat, lens: seq<nat>, m: nat, n: nat)
    requires pos <= 16 && m <= n <= |lens|
    ensures CallsNeeded(pos, lens, m) <= CallsNeeded(pos, lens, n)
    decreases n
  {
    hide BlocksNeeded, Sum;
    if m < n { CallsMonotone(pos, lens, m, n - 1); }
  }

  /** The tail of a request comes from the block just enciphered. */
  lemma TailOfBlock(enc: Cipher, from: nat, idx: nat, len: nat, ctr: nat, before: seq<Byte>, after: seq<Byte>)
    requires idx <= len < idx + 16 && len <= |before| && 16 * ctr == from + idx
    requires before[..idx] == Stream(enc, from, idx)
    requires after == before[..idx] + enc(ctr)[..len - idx] + before[idx + (len - idx)..]
    ensures after[..len] == Stream(enc, from, len) && after[len..] == before[len..]
  {
    hide Stream;
    StreamSplit(enc, from, idx, len - idx);
    var t := Stream(enc, from + idx, len - idx);
    forall k | 0 <= k < len - idx ensures enc(ctr)[k] == t[k] {
      assert (from + idx + k) / 16 == ctr && (from + idx + k) % 16 == k;
    }
    assert enc(ctr)[..len - idx] == t;
  }
}
