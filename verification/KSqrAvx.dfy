/** The vectorised k-squarings: the permutation map is generated incrementally, lane by lane, with wrapping
    16-bit or 32-bit additions and no multiplication or division. */
module KSqrAvx {
  import opened Bits
  import opened Poly
  import opened Params
  import opened Words
  import opened Modular
  import opened Frobenius
  import opened Gf2xMul

  /** 2 to the width of a lane: uint16_t when r < 32768 and uint32_t otherwise. */
  function LaneSize(r: nat): (w: nat)
    ensures w == 65536 || w == TWO32
  {
    if r < 32768 then 65536 else TWO32
  }

  /** Number of lanes of a register of n bytes. */
  function Lanes(r: nat, n: nat): nat {
    if r < 32768 then n / 2 else n / 4
  }

  /** Lane-wise addition of the same value to every lane. */
  function VAdd(v: seq<nat>, x: nat, w: nat): (u: seq<nat>)
    requires w > 0
    ensures |u| == |v|
    ensures forall k :: 0 <= k < |u| ==> u[k] == Rem(v[k] + x, w)
  {
    seq(|v|, k requires 0 <= k < |v| => Rem(v[k] + x, w))
  }

  /** CMPGT(zero, v) & x: x in the lanes that are negative as signed numbers, and zero in the others. */
  function VNegAnd(v: seq<nat>, x: nat, w: nat): (u: seq<nat>)
    ensures |u| == |v|
    ensures forall k :: 0 <= k < |u| ==> u[k] == if v[k] >= w / 2 then x else 0
  {
    seq(|v|, k requires 0 <= k < |v| => if v[k] >= w / 2 then x else 0)
  }

  function VAddV(v: seq<nat>, x: seq<nat>, w: nat): (u: seq<nat>)
    requires w > 0 && |v| == |x|
    ensures |u| == |v|
    ensures forall k :: 0 <= k < |u| ==> u[k] == Rem(v[k] + x[k], w)
  {
    seq(|v|, k requires 0 <= k < |v| => Rem(v[k] + x[k], w))
  }

  /** MSUB under the mask CMPM(v, x, NLT): x subtracted from the lanes that are not below it. */
  function VSubIfNotLess(v: seq<nat>, x: nat, w: nat): (u: seq<nat>)
    requires w > 0
    ensures |u| == |v|
    ensures forall k :: 0 <= k < |u| ==> u[k] == if v[k] >= x then Rem(v[k] - x, w) else v[k]
  {
    seq(|v|, k requires 0 <= k < |v| => if v[k] >= x then Rem(v[k] - x, w) else v[k])
  }

  /** The map entries of a register: lane k holds ((from + k) * l) mod r. */
  ghost predicate IsMap(v: seq<nat>, l: nat, r: nat, from: nat)
    requires r > 0
  {
    forall k :: 0 <= k < |v| ==> v[k] == Idx(l, from + k, r)
  }

  /** Moving n entries forward adds (l * n) mod r, modulo r. */
  lemma IdxStep(l: nat, i: nat, n: nat, r: nat)
    requires r > 0
    ensures Idx(l, i + n, r) == if Idx(l, i, r) + Idx(l, n, r) < r then Idx(l, i, r) + Idx(l, n, r)
                                else Idx(l, i, r) + Idx(l, n, r) - r
  {
    hide Times, Rem;
    var x, y := Idx(l, i, r), Idx(l, n, r);
    TimesLaws(l, i, n);
    RemPlus(Times(l, i), Times(l, n), r);
    RemPlus(Times(l, n), x, r);
    if x + y < r {
      RemSmall(x + y, r);
    } else {
      RemSmall(x + y - r, r);
      RemMultiple(x + y - r, 1, r);
      TimesLaws(r, 0, 0);
    }
  }

  /** One AVX2 step: the increment already has r subtracted, so a lane that goes negative gets r back. */
  lemma Avx2Lane(v: nat, d: nat, r: nat, w: nat)
    requires v < r && d < r && 2 * r <= w && (w == 65536 || w == TWO32)
    ensures var inc := Rem(d + w - r, w);
            var x := Rem(v + inc, w);
            Rem(x + (if x >= w / 2 then r else 0), w) == if v + d < r then v + d else v + d - r
  {
    var inc := Rem(d + w - r, w);
    assert inc == d + w - r;
    var x := Rem(v + inc, w);
    if v + d < r {
      assert x == v + d + w - r;
    } else {
      assert x == v + d - r;
    }
  }

  lemma Avx512Lane(v: nat, d: nat, r: nat, w: nat)
    requires v < r && d < r && 2 * r <= w && (w == 65536 || w == TWO32)
    ensures var x := Rem(v + d, w);
            (if x >= r then Rem(x - r, w) else x) == if v + d < r then v + d else v + d - r
  {
  }

  /** The AVX2 update of one register. */
  lemma Avx2Register(v: seq<nat>, l: nat, r: nat, from: nat, n: nat, w: nat)
    requires r > 0 && 2 * r <= w && (w == 65536 || w == TWO32) && IsMap(v, l, r, from)
    ensures var u := VAdd(v, Rem(Idx(l, n, r) + w - r, w), w);
            IsMap(VAddV(u, VNegAnd(u, r, w), w), l, r, from + n)
  {
    hide Idx, VAdd, VAddV, VNegAnd, Rem;
    var d := Idx(l, n, r);
    var inc := Rem(d + w - r, w);
    var u := VAdd(v, inc, w);
    var t := VAddV(u, VNegAnd(u, r, w), w);
    forall k | 0 <= k < |t| ensures t[k] == Idx(l, from + n + k, r) {
      IdxStep(l, from + k, n, r);
      Avx2Lane(v[k], d, r, w);
      assert u[k] == Rem(v[k] + inc, w);
    }
  }

  lemma Avx512Register(v: seq<nat>, l: nat, r: nat, from: nat, n: nat, w: nat)
    requires r > 0 && 2 * r <= w && (w == 65536 || w == TWO32) && IsMap(v, l, r, from)
    ensures IsMap(VSubIfNotLess(VAdd(v, Idx(l, n, r), w), r, w), l, r, from + n)
  {
    hide Idx, VAdd, VSubIfNotLess, Rem;
    var t := VSubIfNotLess(VAdd(v, Idx(l, n, r), w), r, w);
    forall k | 0 <= k < |t| ensures t[k] == Idx(l, from + n + k, r) {
      IdxStep(l, from + k, n, r);
      Avx512Lane(v[k], Idx(l, n, r), r, w);
    }
  }

  method Store(table: array<nat>, at: nat, v: seq<nat>)
    requires at + |v| <= table.Length
    modifies table
    ensures table[..] == old(table[..])[..at] + v + old(table[..])[at + |v|..]
  {
    ghost var was := table[..];
    for k := 0 to |v|
      invariant table[..] == was[..at] + v[..k] + was[at + k..]
    {
      table[at + k] := v[k];
    }
  }

  /** The first entries, by multiplication. */
  method FirstEntries(table: array<nat>, l: nat, r: nat, n: nat)
    requires r > 0 && n <= table.Length
    modifies table
    ensures IsMap(table[..n], l, r, 0)
  {
    hide Rem, Times;
    for i := 0 to n
      invariant IsMap(table[..i], l, r, 0)
    {
      table[i] := Idx(l, i, r);
      assert table[..i + 1] == table[..i] + [table[i]];
    }
  }

  lemma SecondRegister(t: seq<nat>, v: seq<nat>, l: nat, r: nat, lanes: nat)
    requires r > 0 && lanes <= |t| && IsMap(t, l, r, 0) && v == t[lanes..]
    ensures IsMap(v, l, r, lanes)
  {
    hide Idx;
    forall k | 0 <= k < |v| ensures v[k] == Idx(l, lanes + k, r) {
      assert t[lanes + k] == Idx(l, 0 + (lanes + k), r);
    }
  }

  lemma RoundTables(len: nat, n: nat)
    requires n > 0 && len % n == 0
    ensures Times(len / n, n) == len
  {
    hide Times;
    Quotient(len, n);
  }

  lemma TimesStep(i: nat, m: nat, n: nat)
    requires i < m
    ensures Times(i + 1, n) == Times(i, n) + n && Times(i + 1, n) <= Times(m, n)
  {
    hide Times;
    TimesLaws(n, i, 1);
    TimesLaws(n, i + 1, m - (i + 1));
    TimesLaws(i, n, 0);
    TimesLaws(i + 1, n, 0);
    TimesLaws(m, n, 0);
  }

  /** Storing a register of map entries after the entries already there. */
  method StoreNext(table: array<nat>, at: nat, v: seq<nat>, ghost l: nat, ghost r: nat)
    requires at + |v| <= table.Length && r > 0
    requires IsMap(table[..at], l, r, 0) && IsMap(v, l, r, at)
    modifies table
    ensures IsMap(table[..at + |v|], l, r, 0)
  {
    hide Idx;
    ghost var was := table[..at];
    Store(table, at, v);
    assert table[..at + |v|] == was + v;
  }

  /** The inner loop of the AVX2 code for one register: the next entries, stored at index at. */
  method Avx2Next(table: array<nat>, at: nat, v: seq<nat>, inc: nat, ghost l: nat, r: nat, n: nat)
    returns (t: seq<nat>)
    requires r > 0 && 2 * r <= LaneSize(r) && at + |v| <= table.Length && n <= at
    requires inc == Rem(Idx(l, n, r) + LaneSize(r) - r, LaneSize(r))
    requires IsMap(table[..at], l, r, 0) && IsMap(v, l, r, at - n)
    modifies table
    ensures |t| == |v| && IsMap(t, l, r, at)
    ensures IsMap(table[..at + |v|], l, r, 0)
  {
    hide Idx, LaneSize, VAdd, VAddV, VNegAnd, IsMap, Rem;
    var w := LaneSize(r);
    Avx2Register(v, l, r, at - n, n, w);
    t := VAdd(v, inc, w);
    t := VAddV(t, VNegAnd(t, r, w), w);
    StoreNext(table, at, t, l, r);
  }

  /** The inner loop of the AVX512 code for one register. */
  method Avx512Next(table: array<nat>, at: nat, v: seq<nat>, inc: nat, ghost l: nat, r: nat, n: nat)
    returns (t: seq<nat>)
    requires r > 0 && 2 * r <= LaneSize(r) && at + |v| <= table.Length && n <= at
    requires inc == Idx(l, n, r)
    requires IsMap(table[..at], l, r, 0) && IsMap(v, l, r, at - n)
    modifies table
    ensures |t| == |v| && IsMap(t, l, r, at)
    ensures IsMap(table[..at + |v|], l, r, 0)
  {
    hide Idx, LaneSize, VAdd, VSubIfNotLess, IsMap, Rem;
    var w := LaneSize(r);
    Avx512Register(v, l, r, at - n, n, w);
    t := VAdd(v, inc, w);
    t := VSubIfNotLess(t, r, w);
    StoreNext(table, at, t, l, r);
  }

  /** The first at entries of the table, and the registers that hold the last of them. */
  ghost predicate MapState(table: seq<nat>, at: nat, v0: seq<nat>, v1: seq<nat>, l: nat, r: nat, lanes: nat)
    requires r > 0
  {
    && 2 * lanes <= at <= |table| && |v0| == |v1| == lanes
    && IsMap(v0, l, r, at - 2 * lanes) && IsMap(v1, l, r, at - lanes) && IsMap(table[..at], l, r, 0)
  }

  lemma MapStart(table: seq<nat>, l: nat, r: nat, lanes: nat)
    requires r > 0 && 2 * lanes <= |table| && IsMap(table[..2 * lanes], l, r, 0)
    ensures MapState(table, 2 * lanes, table[..lanes], table[lanes..2 * lanes], l, r, lanes)
  {
    hide Idx;
    var t := table[..2 * lanes];
    SecondRegister(t, t[lanes..], l, r, lanes);
    assert t[lanes..] == table[lanes..2 * lanes];
    assert forall k :: 0 <= k < lanes ==> table[..lanes][k] == t[k];
  }

  lemma MapEnd(table: seq<nat>, v0: seq<nat>, v1: seq<nat>, l: nat, r: nat, lanes: nat)
    requires r > 0 && MapState(table, |table|, v0, v1, l, r, lanes)
    ensures IsMap(table, l, r, 0)
  {
    hide IsMap;
    assert table[..|table|] == table;
  }

  /** One iteration of the AVX2 loop. */
  method Avx2Pair(table: array<nat>, at: nat, v0: seq<nat>, v1: seq<nat>, inc: nat, ghost l: nat, r: nat, lanes: nat)
    returns (t0: seq<nat>, t1: seq<nat>)
    requires r > 0 && 2 * r <= LaneSize(r) && inc == Rem(Idx(l, 2 * lanes, r) + LaneSize(r) - r, LaneSize(r))
    requires MapState(table[..], at, v0, v1, l, r, lanes) && at + 2 * lanes <= table.Length
    modifies table
    ensures MapState(table[..], at + 2 * lanes, t0, t1, l, r, lanes)
  {
    hide Idx, LaneSize, IsMap, Rem;
    assert table[..at] == table[..][..at];
    t0 := Avx2Next(table, at, v0, inc, l, r, 2 * lanes);
    t1 := Avx2Next(table, at + lanes, v1, inc, l, r, 2 * lanes);
    assert table[..at + 2 * lanes] == table[..][..at + 2 * lanes];
  }

  /** generate_map of the AVX2 code. */
  method GenerateMapAvx2(table: array<nat>, l: nat, r: nat)
    requires r > 0 && 2 * r <= LaneSize(r) && l < r
    requires table.Length % (2 * Lanes(r, 32)) == 0 && table.Length >= 2 * Lanes(r, 32)
    modifies table
    ensures IsMap(table[..], l, r, 0)
  {
    hide Idx, Times, Rem, LaneSize, MapState, IsMap;
    var lanes := Lanes(r, 32);
    var numOfVals := 2 * lanes;
    FirstEntries(table, l, r, numOfVals);
    var w := LaneSize(r);
    var inc := Idx(l, numOfVals, r);
    inc := Rem(inc + w - r, w);
    var vmap0, vmap1 := table[..lanes], table[lanes..numOfVals];
    MapStart(table[..], l, r, lanes);
    var at := numOfVals;
    TimesLaws(numOfVals, 0, 0);
    RoundTables(table.Length, numOfVals);
    for i := 1 to table.Length / numOfVals
      invariant at == Times(i, numOfVals) && 0 <= at
      invariant MapState(table[..], at, vmap0, vmap1, l, r, lanes)
    {
      TimesStep(i, table.Length / numOfVals, numOfVals);
      vmap0, vmap1 := Avx2Pair(table, at, vmap0, vmap1, inc, l, r, lanes);
      at := at + numOfVals;
    }
    MapEnd(table[..], vmap0, vmap1, l, r, lanes);
  }

  /** One iteration of the AVX512 loop. */
  method Avx512Pair(table: array<nat>, at: nat, v0: seq<nat>, v1: seq<nat>, inc: nat, ghost l: nat, r: nat, lanes: nat)
    returns (t0: seq<nat>, t1: seq<nat>)
    requires r > 0 && 2 * r <= LaneSize(r) && inc == Idx(l, 2 * lanes, r)
    requires MapState(table[..], at, v0, v1, l, r, lanes) && at + 2 * lanes <= table.Length
    modifies table
    ensures MapState(table[..], at + 2 * lanes, t0, t1, l, r, lanes)
  {
    hide Idx, LaneSize, IsMap, Rem;
    assert table[..at] == table[..][..at];
    t0 := Avx512Next(table, at, v0, inc, l, r, 2 * lanes);
    t1 := Avx512Next(table, at + lanes, v1, inc, l, r, 2 * lanes);
    assert table[..at + 2 * lanes] == table[..][..at + 2 * lanes];
  }

  /** generate_map of the AVX512 code. */
  method GenerateMapAvx512(table: array<nat>, l: nat, r: nat)
    requires r > 0 && 2 * r <= LaneSize(r) && l < r
    requires table.Length % (2 * Lanes(r, 64)) == 0 && table.Length >= 2 * Lanes(r, 64)
    modifies table
    ensures IsMap(table[..], l, r, 0)
  {
    hide Idx, Times, Rem, LaneSize, MapState, IsMap;
    var lanes := Lanes(r, 64);
    var numOfVals := 2 * lanes;
    FirstEntries(table, l, r, numOfVals);
    var inc := Idx(l, numOfVals, r);
    var vmap0, vmap1 := table[..lanes], table[lanes..numOfVals];
    MapStart(table[..], l, r, lanes);
    var at := numOfVals;
    TimesLaws(numOfVals, 0, 0);
    RoundTables(table.Length, numOfVals);
    for i := 1 to table.Length / numOfVals
      invariant at == Times(i, numOfVals) && 0 <= at
      invariant MapState(table[..], at, vmap0, vmap1, l, r, lanes)
    {
      TimesStep(i, table.Length / numOfVals, numOfVals);
      vmap0, vmap1 := Avx512Pair(table, at, vmap0, vmap1, inc, l, r, lanes);
      at := at + numOfVals;
    }
    MapEnd(table[..], vmap0, vmap1, l, r, lanes);
  }

  // ----- The permutation

  /** bin_to_bytes: one byte per bit. */
  method BinToBytes(bytes: array<bool>, a: array<Word>, r: nat)
    requires 64 * QWords(r) <= bytes.Length && QWords(r) <= a.Length
    modifies bytes
    ensures forall p: nat :: p < 64 * QWords(r) ==> bytes[p] == Bit(Val(a[..]), p)
  {
    hide RawBit, Bit, Val, QWords;
    for p := 0 to 64 * QWords(r)
      invariant forall k: nat :: k < p ==> bytes[k] == Bit(Val(a[..]), k)
    {
      bytes[p] := Bit(a[p / 64], p % 64);
    }
  }

  /** The word with the given 64 bits. */
  function PackWord(bits: seq<bool>): (w: Word)
    requires |bits| == 64
    ensures forall j: nat :: Bit(w, j) == (j < 64 && bits[j])
  {
    var w := FromBits((j: nat) => j < 64 && bits[j], 64);
    WordFits(w);
    w
  }

  /** bytes_to_bin. */
  method BytesToBin(c: array<Word>, bytes: array<bool>, r: nat)
    requires 64 * QWords(r) <= bytes.Length && QWords(r) <= c.Length
    requires forall i :: QWords(r) <= i < c.Length ==> c[i] == 0
    modifies c
    ensures forall p: nat :: Bit(Val(c[..]), p) == (p < 64 * QWords(r) && bytes[p])
  {
    hide RawBit, Bit, Val, QWords, PackWord;
    for i := 0 to QWords(r)
      invariant forall k :: 0 <= k < i ==> c[k] == PackWord(bytes[64 * k..64 * k + 64])
      invariant forall k :: QWords(r) <= k < c.Length ==> c[k] == 0
    {
      c[i] := PackWord(bytes[64 * i..64 * i + 64]);
    }
    forall p: nat ensures Bit(Val(c[..]), p) == (p < 64 * QWords(r) && bytes[p]) {
      var i, j := p / 64, p % 64;
      if i < QWords(r) {
        assert c[i] == PackWord(bytes[64 * i..64 * i + 64]);
      } else if i < c.Length {
        assert c[i] == 0;
      }
    }
  }

  /** The permutation loop. */
  method PermuteBytes(c: array<bool>, a: array<bool>, table: array<nat>, l: nat, r: nat)
    requires 0 < r <= table.Length && r <= a.Length && r <= c.Length && a != c && IsMap(table[..], l, r, 0)
    modifies c
    ensures forall k: nat :: k < r ==> c[k] == a[Idx(l, k, r)]
    ensures forall k: nat :: r <= k < c.Length ==> c[k] == old(c[k])
  {
    hide Idx, IsMap;
    for i := 0 to r
      invariant forall k: nat :: k < i ==> c[k] == a[Idx(l, k, r)]
      invariant forall k: nat :: i <= k < c.Length ==> c[k] == old(c[k])
    {
      MapAt(table[..], l, r, i);
      c[i] := a[table[i]];
    }
  }

  /** k_sqr_avx2 and k_sqr_avx512: the same permutation as the portable code. */
  method KSqrAvx(avx512: bool, c: array<Word>, a: array<Word>, l: nat, r: nat)
    requires GoodR(r) && QWords(r) <= a.Length == c.Length && a != c
    requires 2 * r <= LaneSize(r) && l < r && IsPadded(c[..], r)
    modifies c
    ensures Val(c[..]) == Permute(Val(a[..]), l, r, r)
    ensures IsPadded(c[..], r)
  {
    hide RawBit, Bit, Val, QWords, Idx, Permute, LaneSize, PackWord;
    var padded := 64 * a.Length;
    RShape(r);
    assert r <= 64 * QWords(r);
    var table := new nat[padded](_ => 0);
    var aBytes := new bool[padded](_ => false);
    var cBytes := new bool[padded](_ => false);
    PaddedZero(c[..], r);
    LaneCount(a.Length, r);
    if avx512 { GenerateMapAvx512(table, l, r); } else { GenerateMapAvx2(table, l, r); }
    BinToBytes(aBytes, a, r);
    PermuteBytes(cBytes, aBytes, table, l, r);
    BytesToBin(c, cBytes, r);
    Ext(Val(c[..]), Permute(Val(a[..]), l, r, r));
  }

  lemma LaneCount(len: nat, r: nat)
    requires len > 0
    ensures (64 * len) % (2 * Lanes(r, 32)) == 0 && 64 * len >= 2 * Lanes(r, 32)
    ensures (64 * len) % (2 * Lanes(r, 64)) == 0 && 64 * len >= 2 * Lanes(r, 64)
  {
    DivModUnique(64 * len, 16, 4 * len, 0);
    DivModUnique(64 * len, 32, 2 * len, 0);
    DivModUnique(64 * len, 64, len, 0);
  }

  lemma MapAt(v: seq<nat>, l: nat, r: nat, i: nat)
    requires r > 0 && IsMap(v, l, r, 0) && i < |v|
    ensures v[i] == Idx(l, i, r)
  {
    hide Idx;
    assert v[i] == Idx(l, 0 + i, r);
  }
}
