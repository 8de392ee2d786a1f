/** The BIKE parameter sets and the sizes derived from them. */
module Params {
  import opened Bits

  datatype Level = Level1 | Level3 | Level5 {
    function R(): (r: nat)
      ensures r >= 64
    {
      match this case Level1 => 12323 case Level3 => 24659 case Level5 => 40973
    }

    /** Weight of each half of the secret key. */
    function D(): nat {
      match this case Level1 => 71 case Level3 => 103 case Level5 => 137
    }

    /** Weight of the error vector. */
    function T(): nat {
      match this case Level1 => 134 case Level3 => 199 case Level5 => 264
    }

    function BlockBits(): nat {
      match this case Level1 => 16384 case Level3 => 32768 case Level5 => 65536
    }

    function ThresholdCoeff0(): nat {
      match this case Level1 => 1353000000 case Level3 => 1525880000 case Level5 => 1787850000
    }

    function ThresholdCoeff1(): nat {
      match this case Level1 => 697220 case Level3 => 526500 case Level5 => 402312
    }

    function ThresholdMin(): nat {
      match this case Level1 => 36 case Level3 => 52 case Level5 => 69
    }

    function MaxRandIndicesT(): nat {
      match this case Level1 => 271 case Level3 => 373 case Level5 => 605
    }
  }

  const THRESHOLD_MUL_CONST: nat := 12379400392853802749
  const DELTA: nat := 3
  const MAX_IT: nat := 5

  function DivideAndCeil(x: nat, divider: nat): nat
    requires divider > 0
  {
    (x + divider - 1) / divider
  }

  /** R_BYTES, R_QWORDS and R_PADDED_QWORDS. */
  function RBytes(r: nat): nat { DivideAndCeil(r, 8) }

  function QWords(r: nat): nat { DivideAndCeil(r, 64) }

  lemma BytesHoldR(level: Level)
    ensures level.R() <= 8 * RBytes(level.R())
  {
  }

  function PaddedQWords(level: Level): nat {
    DivideAndCeil(level.R(), level.BlockBits()) * level.BlockBits() / 64
  }

  /** LAST_R_QWORD_LEAD and LAST_R_QWORD_TRAIL. */
  function Lead(r: nat): nat { r % 64 }

  function Trail(r: nat): nat { 64 - r % 64 }

  /** Bit length: the smallest n with v < 2^n.  LOG2_MSB is this for v < 512. */
  function Log2Msb(v: nat): nat {
    if v == 0 then 0
    else if v < 2 then 1
    else if v < 4 then 2
    else if v < 8 then 3
    else if v < 16 then 4
    else if v < 32 then 5
    else if v < 64 then 6
    else if v < 128 then 7
    else if v < 256 then 8
    else 9
  }

  /** SLICES: the number of bit slices of a counter. */
  function Slices(d: nat): nat { Log2Msb(d) + 1 }

  /** LOG2_MSB(v) bits are enough for v, and one fewer are not. */
  lemma Log2MsbTight(v: nat)
    requires 0 < v < 512
    ensures Pow2(Log2Msb(v) - 1) <= v < Pow2(Log2Msb(v))
  {
    assert Pow2(4) == 16;
    assert Pow2(8) == 256;
  }
}
