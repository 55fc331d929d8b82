/** Two known digests of each width: of the empty input, and of one that takes every step. The lemmas before
    each of them are its intermediate values: the words of the input, the accumulators behind the one stripe,
    their convergence, the length, and the state behind each unit of the tail. They tie the primes and the
    amounts of the rotations and shifts to values that were not computed from these definitions. */
module KnownDigests {
  import opened Inputs
  import X32 = XxHash32
  import X64 = XxHash64

  function HighDigit(k: nat): bv8 {
    match k
    case 0 => 0x00
    case 1 => 0x10
    case 2 => 0x20
    case 3 => 0x30
    case 4 => 0x40
    case _ => 0x50
  }

  function LowDigit(k: nat): bv8 {
    match k
    case 0 => 0
    case 1 => 1
    case 2 => 2
    case 3 => 3
    case 4 => 4
    case 5 => 5
    case 6 => 6
    case _ => 7
  }

  /** The bytes 0x00 to 0x07, 0x10 to 0x17 and so on: 21 of them are a stripe, a word and a byte for
      XXH32, and 45 of them a stripe, a word of each width and a byte for XXH64. */
  function Count(n: nat): seq<bv8> {
    seq(n, i requires 0 <= i < n => HighDigit(i / 8) | LowDigit(i % 8))
  }

  // ----- XXH32 -----

  lemma EmptyStart32()
    ensures X32.Start([], 0) == 0x1656_67b1
  {
    hide X32.Converge, X32.Lanes;
    assert X32.LowLength(0) == 0;
  }

  lemma EmptyMix32()
    ensures X32.Avalanche(0x1656_67b1) == 0x02cc_5d05
  {
  }

  lemma Empty32(s: seq<bv8>, seed: bv32)
    requires s == [] && seed == 0
    ensures X32.Digest(s, seed) == 0x02cc_5d05
  {
    hide X32.Start, X32.Avalanche, X32.MixWord, X32.MixByte;
    EmptyStart32();
    EmptyMix32();
    assert X32.PreMix([], 0) == 0x1656_67b1;
  }

  lemma CountWords32()
    ensures Word(Count(21), 0) == 0x0302_0100
    ensures Word(Count(21), 4) == 0x0706_0504
    ensures Word(Count(21), 8) == 0x1312_1110
    ensures Word(Count(21), 12) == 0x1716_1514
    ensures Word(Count(21), 16) == 0x2322_2120
  {
  }

  lemma CountRounds32()
    ensures X32.Round(0x2423_4429, 0x0302_0100) == 0xe74d_dccb
    ensures X32.Round(0x85eb_ca78, 0x0706_0504) == 0xf158_919b
    ensures X32.Round(1, 0x1312_1110) == 0x44c0_47c1
    ensures X32.Round(0x61c8_8650, 0x1716_1514) == 0x4eca_fc91
  {
  }

  lemma CountLanes32()
    ensures X32.Lanes(Count(21), 1, 1)
            == [0xe74d_dccb, 0xf158_919b, 0x44c0_47c1, 0x4eca_fc91]
  {
    hide X32.Round, Word;
    assert X32.InitialLanes(1)
           == [0x2423_4429, 0x85eb_ca78, 1, 0x61c8_8650];
    assert X32.Lanes(Count(21), 1, 0) == X32.InitialLanes(1);
    CountWords32();
    CountRounds32();
  }

  lemma CountConverge32()
    ensures X32.Converge([0xe74d_dccb, 0xf158_919b, 0x44c0_47c1, 0x4eca_fc91])
            == 0x71a5_d706
  {
  }

  lemma CountLength32()
    ensures X32.LowLength(21) == 21
  {
    assert X32.LowLength(0) == 0;
    assert X32.LowLength(1) == 1;
    assert X32.LowLength(2) == 2;
    assert X32.LowLength(5) == 5;
    assert X32.LowLength(10) == 10;
  }

  lemma CountStart32()
    ensures X32.Start(Count(21), 1) == 0x71a5_d71b
  {
    hide X32.Lanes, X32.Converge, X32.LowLength;
    CountLanes32();
    CountConverge32();
    CountLength32();
  }

  lemma CountTail32()
    ensures X32.MixWord(0x71a5_d71b, 0x2322_2120) == 0xc3ae_ef0a
    ensures X32.MixByte(0xc3ae_ef0a, 0x24) == 0xc36f_bfde
    ensures X32.Avalanche(0xc36f_bfde) == 0x9e1f_e80e
  {
  }

  lemma Count32()
    ensures X32.Digest(Count(21), 1) == 0x9e1f_e80e
  {
    hide X32.Start, X32.MixWord, X32.MixByte, X32.Avalanche, Word;
    CountStart32();
    CountWords32();
    CountTail32();
    assert X32.AfterWords(Count(21), 0x71a5_d71b, 16, 0) == 0x71a5_d71b;
    assert X32.AfterWords(Count(21), 0x71a5_d71b, 16, 1) == 0xc3ae_ef0a;
    assert X32.AfterBytes(Count(21), 0xc3ae_ef0a, 20, 0) == 0xc3ae_ef0a;
    assert X32.AfterBytes(Count(21), 0xc3ae_ef0a, 20, 1) == 0xc36f_bfde;
  }

  // ----- XXH64 -----

  lemma EmptyStart64()
    ensures X64.Start([], 0) == 0x27d4_eb2f_1656_67c5
  {
    hide X64.Converge, X64.Lanes;
    assert X64.LengthWord(0) == 0;
  }

  lemma EmptyMix64()
    ensures X64.Avalanche(0x27d4_eb2f_1656_67c5) == 0xef46_db37_51d8_e999
  {
  }

  lemma Empty64(s: seq<bv8>, seed: bv64)
    requires s == [] && seed == 0
    ensures X64.Digest(s, seed) == 0xef46_db37_51d8_e999
  {
    hide X64.Start, X64.Avalanche, X64.MixLong, X64.MixByte;
    EmptyStart64();
    EmptyMix64();
    assert X64.PreMix([], 0) == 0x27d4_eb2f_1656_67c5;
  }

  lemma CountWords64()
    ensures X64.Long(Count(45), 0) == 0x0706_0504_0302_0100
    ensures X64.Long(Count(45), 8) == 0x1716_1514_1312_1110
    ensures X64.Long(Count(45), 16) == 0x2726_2524_2322_2120
    ensures X64.Long(Count(45), 24) == 0x3736_3534_3332_3130
    ensures X64.Long(Count(45), 32) == 0x4746_4544_4342_4140
    ensures Word(Count(45), 40) == 0x5352_5150
  {
  }

  lemma CountRounds64()
    ensures X64.Round(0x60ea_27ee_adc0_b5d7, 0x0706_0504_0302_0100) == 0xb7ab_209a_c06b_5e99
    ensures X64.Round(0xc2b2_ae3d_27d4_eb50, 0x1716_1514_1312_1110) == 0xe86c_6e15_31f1_bc98
    ensures X64.Round(1, 0x2726_2524_2322_2120) == 0x5163_204c_6cfe_83ad
    ensures X64.Round(0x61c8_864e_7a14_357a, 0x3736_3534_3332_3130) == 0x8224_6dc6_de84_e1ac
  {
  }

  lemma CountLanes64()
    ensures X64.Lanes(Count(45), 1, 1)
            == [0xb7ab_209a_c06b_5e99, 0xe86c_6e15_31f1_bc98, 0x5163_204c_6cfe_83ad, 0x8224_6dc6_de84_e1ac]
  {
    hide X64.Round, X64.Long;
    assert X64.InitialLanes(1)
           == [0x60ea_27ee_adc0_b5d7, 0xc2b2_ae3d_27d4_eb50, 1, 0x61c8_864e_7a14_357a];
    assert X64.Lanes(Count(45), 1, 0) == X64.InitialLanes(1);
    CountWords64();
    CountRounds64();
  }

  lemma CountConverge64()
    ensures X64.Converge([0xb7ab_209a_c06b_5e99, 0xe86c_6e15_31f1_bc98, 0x5163_204c_6cfe_83ad, 0x8224_6dc6_de84_e1ac])
            == 0xab05_7e7c_90f5_57f2
  {
  }

  lemma CountLength64(n: nat)
    requires n == 45
    ensures X64.LengthWord(n) == 45
  {
    assert X64.LengthWord(0) == 0;
    assert X64.LengthWord(1) == 1;
    assert X64.LengthWord(2) == 2;
    assert X64.LengthWord(5) == 5;
    assert X64.LengthWord(11) == 11;
    assert X64.LengthWord(22) == 22;
  }

  lemma CountStart64()
    ensures X64.Start(Count(45), 1) == 0xab05_7e7c_90f5_581f
  {
    hide X64.Lanes, X64.Converge, X64.LengthWord;
    CountLanes64();
    CountConverge64();
    CountLength64(45);
  }

  lemma CountTail64()
    ensures X64.MixLong(0xab05_7e7c_90f5_581f, 0x4746_4544_4342_4140) == 0x223e_af73_4188_e984
    ensures X64.MixWord(0x223e_af73_4188_e984, 0x5352_5150) == 0xb26b_9847_8b95_9d07
    ensures X64.MixByte(0xb26b_9847_8b95_9d07, 0x54) == 0x7bac_5a31_d202_3c4b
    ensures X64.Avalanche(0x7bac_5a31_d202_3c4b) == 0x799c_bdd6_6edd_c706
  {
  }

  lemma Count64()
    ensures X64.Digest(Count(45), 1) == 0x799c_bdd6_6edd_c706
  {
    hide X64.Start, X64.MixLong, X64.MixWord, X64.MixByte, X64.Avalanche, Word, X64.Long;
    CountStart64();
    CountWords64();
    CountTail64();
    assert X64.AfterLongs(Count(45), 0xab05_7e7c_90f5_581f, 32, 0) == 0xab05_7e7c_90f5_581f;
    assert X64.AfterLongs(Count(45), 0xab05_7e7c_90f5_581f, 32, 1) == 0x223e_af73_4188_e984;
    assert X64.AfterBytes(Count(45), 0xb26b_9847_8b95_9d07, 44, 0) == 0xb26b_9847_8b95_9d07;
    assert X64.AfterBytes(Count(45), 0xb26b_9847_8b95_9d07, 44, 1) == 0x7bac_5a31_d202_3c4b;
  }
}
