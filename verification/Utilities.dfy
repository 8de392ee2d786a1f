/** The branch-free comparisons and masks of include/internal/utilities.h. */
module Utilities {
  import opened Bits
  import opened Words

  // ----- uint64_t and uint32_t arithmetic

  function Sub64(a: Word, b: Word): (c: Word) {
    if a >= b then a - b else a + TWO64 - b
  }

  function Sub32(a: Dword, b: Dword): (c: Dword) {
    if a >= b then a - b else a + TWO32 - b
  }

  /** -x as a mask: all ones for 1, zero for 0. */
  function Neg64(x: Word): Word { Sub64(0, x) }

  lemma TopBit(w: Word)
    ensures WShr(w, 63) == if w >= TWO64 / 2 then 1 else 0
    ensures Bit(w, 63) <==> w >= TWO64 / 2
  {
    hide RawBit, Bit, Shr, Low, Pow2;
    Pow2Words();
    FitsPow2(w, 63);
    var t := WShr(w, 63);
    assert Fits(t, 1);
    FitsPow2(t, 1);
    Uncons(t);
    Pow2Def(0);
    Pow2Def(1);
    assert Bit(t, 0) == Bit(w, 63);
    if Bit(w, 63) { assert !Fits(w, 63); }
  }

  /** All ones if v1 == v2, zero otherwise. */
  function SecureCmpeq64Mask(v1: Word, v2: Word): (m: Word)
    ensures m == if v1 == v2 then MAX64 else 0
  {
    TopBit(Sub64(v1, v2));
    TopBit(Sub64(v2, v1));
    TopBit(WOr(Sub64(v1, v2), Sub64(v2, v1)));
    Neg64(Sub64(1, WShr(WOr(Sub64(v1, v2), Sub64(v2, v1)), 63)))
  }

  /** Zero if v1 < v2, all ones otherwise: the complement of the high half of a 64-bit subtraction. */
  function SecureL32Mask(v1: Dword, v2: Dword): (m: Dword)
    ensures m == if v1 < v2 then 0 else MAX32
  {
    MAX32 - Sub64(v1, v2) / TWO32
  }

  /** secure_cmp32: one if equal, zero otherwise. */
  function SecureCmp32(v1: Dword, v2: Dword): Dword {
    if v1 == v2 then 1 else 0
  }

  /** secure_l32: one if v1 < v2, zero otherwise. */
  function SecureL32(v1: Dword, v2: Dword): Dword {
    if v1 < v2 then 1 else 0
  }

  /** (mask & x) | (~mask & y) for a 32-bit mask that is -1 or 0. */
  function Blend32(mask: Dword, x: Dword, y: Dword): (z: Dword)
    requires mask == 0 || mask == MAX32
    ensures z == if mask == 0 then y else x
  {
    Blend32Is(mask, x, y);
    Or(And(mask, x), And(MAX32 - mask, y))
  }

  lemma Blend32Is(mask: Dword, x: Dword, y: Dword)
    requires mask == 0 || mask == MAX32
    ensures Or(And(mask, x), And(MAX32 - mask, y)) == if mask == 0 then y else x
  {
    hide RawBit, Bit, And, Or, Mask;
    Pow2Words();
    assert Mask(32) == MAX32;
    Ext(Or(And(mask, x), And(MAX32 - mask, y)), if mask == 0 then y else x);
  }

  /** The bit length of x. */
  function BitLength(x: nat): (n: nat)
    ensures x < Pow2(n) && (x > 0 ==> n > 0 && Pow2(n - 1) <= x) && (x == 0 ==> n == 0)
  {
    if x == 0 then 0 else BitLength(x / 2) + 1
  }

  lemma BitLengthUnique(x: nat, n: nat)
    requires x < Pow2(n) && (n > 0 ==> Pow2(n - 1) <= x)
    ensures BitLength(x) == n
  {
    if n > 0 { BitLengthUnique(x / 2, n - 1); }
  }

  /** For n = ceil(log2(x)): the bit length is n, except that it is n + 1 when x is a power of two. */
  lemma BitLengthIsCeilLog2(x: nat, n: nat)
    requires 0 < x <= Pow2(n) && (n > 0 ==> Pow2(n - 1) < x)
    ensures BitLength(x) == if x == Pow2(n) then n + 1 else n
  {
    BitLengthUnique(x, if x == Pow2(n) then n + 1 else n);
  }

  /** The bit length is below 64 exactly for the numbers below 2^63. */
  lemma BitLengthBelow64(x: nat)
    ensures BitLength(x) < 64 <==> x < TWO64 / 2
  {
    hide BitLength, Pow2;
    Pow2Words();
    var n := BitLength(x);
    if n < 64 { Pow2Monotone(n, 63); } else { Pow2Monotone(63, n - 1); }
  }

  /** bit_scan_reverse_vartime: the bit length. */
  method BitScanReverseVartime(val: Word) returns (index: nat)
    ensures index == BitLength(val)
  {
    index := 0;
    var v: nat := val;
    while v != 0
      invariant BitLength(val) == index + BitLength(v)
    {
      v := v / 2;
      index := index + 1;
    }
  }

  /** secure_cmp: one exactly when the first size bytes agree. */
  method SecureCmp(a: seq<Byte>, b: seq<Byte>, size: nat) returns (eq: Dword)
    requires size <= |a| && size <= |b|
    ensures eq == if a[..size] == b[..size] then 1 else 0
  {
    hide RawBit, Bit, Or, Xor;
    var res: Byte := 0;
    for i := 0 to size
      invariant res == 0 <==> a[..i] == b[..i]
    {
      OrXorZero(res, a[i], b[i]);
      assert a[..i + 1] == a[..i] + [a[i]] && b[..i + 1] == b[..i] + [b[i]];
      res := Or(res, Xor(a[i], b[i]));
    }
    eq := if res == 0 then 1 else 0;
  }

  lemma OrXorZero(r: Byte, x: Byte, y: Byte)
    ensures Or(r, Xor(x, y)) < 256
    ensures Or(r, Xor(x, y)) == 0 <==> r == 0 && x == y
  {
    hide RawBit, Bit, Or, Xor;
    WordFits(Or(r, Xor(x, y)));
    if Or(r, Xor(x, y)) == 0 {
      Ext(r, 0);
      forall i: nat ensures Bit(x, i) == Bit(y, i) { assert !Bit(Or(r, Xor(x, y)), i); }
      Ext(x, y);
    }
    if r == 0 && x == y { Ext(Or(r, Xor(x, y)), 0); }
  }
}
