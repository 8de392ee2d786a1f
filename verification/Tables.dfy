/** Every constant in the inversion tables is right, at every level. */
module Tables {
  import opened Bits
  import opened Params
  import opened Inversion

  lemma FirstPair(l: nat, r: nat)
    requires r > 1 && (l * 2) % r == 1
    ensures InversePair(1, l, r)
  {
    assert Pow2(1) == 2;
  }

  /** Row i + 1 of the first pair of tables doubles k and squares l; a nonzero row of the second pair
      adds the previous nonzero row to a row of the first. */
  lemma Pairs1()
    ensures InversePair(1, 6162, 12323)
    ensures InversePair(2, 3081, 12323)
    ensures InversePair(4, 3851, 12323)
    ensures InversePair(8, 5632, 12323)
    ensures InversePair(16, 22, 12323)
    ensures InversePair(32, 484, 12323)
    ensures InversePair(64, 119, 12323)
    ensures InversePair(128, 1838, 12323)
    ensures InversePair(256, 1742, 12323)
    ensures InversePair(512, 3106, 12323)
    ensures InversePair(1024, 10650, 12323)
    ensures InversePair(2048, 1608, 12323)
    ensures InversePair(4096, 10157, 12323)
    ensures InversePair(8192, 8816, 12323)
  {
    hide *;
    FirstPair(6162, 12323);
    InversePairAdd(1, 6162, 1, 6162, 2, 3081, 12323);
    InversePairAdd(2, 3081, 2, 3081, 4, 3851, 12323);
    InversePairAdd(4, 3851, 4, 3851, 8, 5632, 12323);
    InversePairAdd(8, 5632, 8, 5632, 16, 22, 12323);
    InversePairAdd(16, 22, 16, 22, 32, 484, 12323);
    InversePairAdd(32, 484, 32, 484, 64, 119, 12323);
    InversePairAdd(64, 119, 64, 119, 128, 1838, 12323);
    InversePairAdd(128, 1838, 128, 1838, 256, 1742, 12323);
    InversePairAdd(256, 1742, 256, 1742, 512, 3106, 12323);
    InversePairAdd(512, 3106, 512, 3106, 1024, 10650, 12323);
    InversePairAdd(1024, 10650, 1024, 10650, 2048, 1608, 12323);
    InversePairAdd(2048, 1608, 2048, 1608, 4096, 10157, 12323);
    InversePairAdd(4096, 10157, 4096, 10157, 8192, 8816, 12323);
  }

  lemma ExponentPairs1()
    ensures InversePair(33, 242, 12323)
    ensures InversePair(4129, 5717, 12323)
    ensures InversePair(12322, 1, 12323)
  {
    hide *;
    Pairs1();
    InversePairAdd(32, 484, 1, 6162, 33, 242, 12323);
    InversePairAdd(4096, 10157, 33, 242, 4129, 5717, 12323);
    InversePairAdd(8192, 8816, 4129, 5717, 12321, 2, 12323);
    InversePairAdd(12321, 2, 1, 6162, 12322, 1, 12323);
  }

  lemma Pairs3()
    ensures InversePair(1, 12330, 24659)
    ensures InversePair(2, 6165, 24659)
    ensures InversePair(4, 7706, 24659)
    ensures InversePair(8, 3564, 24659)
    ensures InversePair(16, 2711, 24659)
    ensures InversePair(32, 1139, 24659)
    ensures InversePair(64, 15053, 24659)
    ensures InversePair(128, 1258, 24659)
    ensures InversePair(256, 4388, 24659)
    ensures InversePair(512, 20524, 24659)
    ensures InversePair(1024, 9538, 24659)
    ensures InversePair(2048, 6393, 24659)
    ensures InversePair(4096, 10486, 24659)
    ensures InversePair(8192, 1715, 24659)
    ensures InversePair(16384, 6804, 24659)
  {
    hide *;
    FirstPair(12330, 24659);
    InversePairAdd(1, 12330, 1, 12330, 2, 6165, 24659);
    InversePairAdd(2, 6165, 2, 6165, 4, 7706, 24659);
    InversePairAdd(4, 7706, 4, 7706, 8, 3564, 24659);
    InversePairAdd(8, 3564, 8, 3564, 16, 2711, 24659);
    InversePairAdd(16, 2711, 16, 2711, 32, 1139, 24659);
    InversePairAdd(32, 1139, 32, 1139, 64, 15053, 24659);
    InversePairAdd(64, 15053, 64, 15053, 128, 1258, 24659);
    InversePairAdd(128, 1258, 128, 1258, 256, 4388, 24659);
    InversePairAdd(256, 4388, 256, 4388, 512, 20524, 24659);
    InversePairAdd(512, 20524, 512, 20524, 1024, 9538, 24659);
    InversePairAdd(1024, 9538, 1024, 9538, 2048, 6393, 24659);
    InversePairAdd(2048, 6393, 2048, 6393, 4096, 10486, 24659);
    InversePairAdd(4096, 10486, 4096, 10486, 8192, 1715, 24659);
    InversePairAdd(8192, 1715, 8192, 1715, 16384, 6804, 24659);
  }

  lemma ExponentPairs3()
    ensures InversePair(17, 13685, 24659)
    ensures InversePair(81, 23678, 24659)
    ensures InversePair(8273, 19056, 24659)
    ensures InversePair(24658, 1, 24659)
  {
    hide *;
    Pairs3();
    InversePairAdd(16, 2711, 1, 12330, 17, 13685, 24659);
    InversePairAdd(64, 15053, 17, 13685, 81, 23678, 24659);
    InversePairAdd(8192, 1715, 81, 23678, 8273, 19056, 24659);
    InversePairAdd(16384, 6804, 8273, 19056, 24657, 2, 24659);
    InversePairAdd(24657, 2, 1, 12330, 24658, 1, 24659);
  }

  lemma Pairs5()
    ensures InversePair(1, 20487, 40973)
    ensures InversePair(2, 30730, 40973)
    ensures InversePair(4, 28169, 40973)
    ensures InversePair(8, 9443, 40973)
    ensures InversePair(16, 13001, 40973)
    ensures InversePair(32, 12376, 40973)
    ensures InversePair(64, 8302, 40973)
    ensures InversePair(128, 6618, 40973)
    ensures InversePair(256, 38760, 40973)
    ensures InversePair(512, 21582, 40973)
    ensures InversePair(1024, 1660, 40973)
    ensures InversePair(2048, 10409, 40973)
    ensures InversePair(4096, 14669, 40973)
    ensures InversePair(8192, 30338, 40973)
    ensures InversePair(16384, 17745, 40973)
    ensures InversePair(32768, 7520, 40973)
  {
    hide *;
    FirstPair(20487, 40973);
    InversePairAdd(1, 20487, 1, 20487, 2, 30730, 40973);
    InversePairAdd(2, 30730, 2, 30730, 4, 28169, 40973);
    InversePairAdd(4, 28169, 4, 28169, 8, 9443, 40973);
    InversePairAdd(8, 9443, 8, 9443, 16, 13001, 40973);
    InversePairAdd(16, 13001, 16, 13001, 32, 12376, 40973);
    InversePairAdd(32, 12376, 32, 12376, 64, 8302, 40973);
    InversePairAdd(64, 8302, 64, 8302, 128, 6618, 40973);
    InversePairAdd(128, 6618, 128, 6618, 256, 38760, 40973);
    InversePairAdd(256, 38760, 256, 38760, 512, 21582, 40973);
    InversePairAdd(512, 21582, 512, 21582, 1024, 1660, 40973);
    InversePairAdd(1024, 1660, 1024, 1660, 2048, 10409, 40973);
    InversePairAdd(2048, 10409, 2048, 10409, 4096, 14669, 40973);
    InversePairAdd(4096, 14669, 4096, 14669, 8192, 30338, 40973);
    InversePairAdd(8192, 30338, 8192, 30338, 16384, 17745, 40973);
    InversePairAdd(16384, 17745, 16384, 17745, 32768, 7520, 40973);
  }

  lemma ExponentPairs5()
    ensures InversePair(3, 15365, 40973)
    ensures InversePair(11, 6302, 40973)
    ensures InversePair(8203, 10058, 40973)
    ensures InversePair(40972, 1, 40973)
  {
    hide *;
    Pairs5();
    InversePairAdd(2, 30730, 1, 20487, 3, 15365, 40973);
    InversePairAdd(8, 9443, 3, 15365, 11, 6302, 40973);
    InversePairAdd(8192, 30338, 11, 6302, 8203, 10058, 40973);
    InversePairAdd(32768, 7520, 8203, 10058, 40971, 2, 40973);
    InversePairAdd(40971, 2, 1, 20487, 40972, 1, 40973);
  }

  lemma Row1(i: nat, p: nat)
    requires i < 14 && p == Exp0K(Level1)[i]
    ensures InversePair(p, Exp0L(Level1)[i], 12323)
    ensures Exp0L(Level1)[i] < 12323 && Exp1L(Level1)[i] < 12323
    ensures i > 0 ==> 12321 % (2 * p) == 12321 % p + (if Exp1K(Level1)[i] != 0 then p else 0)
    ensures Exp1K(Level1)[i] != 0 ==> Exp1K(Level1)[i] == 12321 % p
    ensures Exp1K(Level1)[i] != 0 ==> InversePair(Exp1K(Level1)[i], Exp1L(Level1)[i], 12323)
  {
    hide InversePair, Pow2;
    Pairs1();
    ExponentPairs1();
    if i == 0 {} else if i == 1 {} else if i == 2 {} else if i == 3 {} else if i == 4 {} else if i == 5 {}
    else if i == 6 {} else if i == 7 {} else if i == 8 {} else if i == 9 {} else if i == 10 {}
    else if i == 11 {} else if i == 12 {} else if i == 13 {}
  }

  lemma Row3(i: nat, p: nat)
    requires i < 15 && p == Exp0K(Level3)[i]
    ensures InversePair(p, Exp0L(Level3)[i], 24659)
    ensures Exp0L(Level3)[i] < 24659 && Exp1L(Level3)[i] < 24659
    ensures i > 0 ==> 24657 % (2 * p) == 24657 % p + (if Exp1K(Level3)[i] != 0 then p else 0)
    ensures Exp1K(Level3)[i] != 0 ==> Exp1K(Level3)[i] == 24657 % p
    ensures Exp1K(Level3)[i] != 0 ==> InversePair(Exp1K(Level3)[i], Exp1L(Level3)[i], 24659)
  {
    hide InversePair, Pow2;
    Pairs3();
    ExponentPairs3();
    if i == 0 {} else if i == 1 {} else if i == 2 {} else if i == 3 {} else if i == 4 {} else if i == 5 {}
    else if i == 6 {} else if i == 7 {} else if i == 8 {} else if i == 9 {} else if i == 10 {}
    else if i == 11 {} else if i == 12 {} else if i == 13 {} else if i == 14 {}
  }

  lemma Row5(i: nat, p: nat)
    requires i < 16 && p == Exp0K(Level5)[i]
    ensures InversePair(p, Exp0L(Level5)[i], 40973)
    ensures Exp0L(Level5)[i] < 40973 && Exp1L(Level5)[i] < 40973
    ensures i > 0 ==> 40971 % (2 * p) == 40971 % p + (if Exp1K(Level5)[i] != 0 then p else 0)
    ensures Exp1K(Level5)[i] != 0 ==> Exp1K(Level5)[i] == 40971 % p
    ensures Exp1K(Level5)[i] != 0 ==> InversePair(Exp1K(Level5)[i], Exp1L(Level5)[i], 40973)
  {
    hide InversePair, Pow2;
    Pairs5();
    ExponentPairs5();
    if i == 0 {} else if i == 1 {} else if i == 2 {} else if i == 3 {} else if i == 4 {} else if i == 5 {}
    else if i == 6 {} else if i == 7 {} else if i == 8 {} else if i == 9 {} else if i == 10 {}
    else if i == 11 {} else if i == 12 {} else if i == 13 {} else if i == 14 {} else if i == 15 {}
  }

  lemma Powers(level: Level, i: nat)
    requires i < MaxI(level)
    ensures Exp0K(level)[i] == Pow2(i)
  {
    if i > 0 {
      Powers(level, i - 1);
      assert Exp0K(level)[i] == 2 * Exp0K(level)[i - 1];
    }
  }

  /** Every row of every table is what the inversion needs. */
  lemma TablesCorrect(level: Level, i: nat)
    requires i < MaxI(level)
    ensures TableRow(level, i)
  {
    hide InversePair;
    Powers(level, i);
    match level
    case Level1 => Row1(i, Pow2(i));
    case Level3 => Row3(i, Pow2(i));
    case Level5 => Row5(i, Pow2(i));
  }

  /** The exponent starts at 1 and ends at r - 2, and 2^(r-1) = 1 modulo r. */
  lemma ExponentEnds(level: Level)
    ensures Exponent(level, 1) == 1 && Exponent(level, MaxI(level)) == level.R() - 2
    ensures InversePair(level.R() - 1, 1, level.R())
  {
    hide InversePair, Pow2;
    Powers(level, 1);
    Powers(level, MaxI(level) - 1);
    Pow2Def(MaxI(level));
    match level
    case Level1 => ExponentPairs1();
    case Level3 => ExponentPairs3();
    case Level5 => ExponentPairs5();
  }
}
