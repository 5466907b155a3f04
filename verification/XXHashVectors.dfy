/**
  The frozen vectors of partition routing (internal/wire/testdata/partition_vectors.json)
  and the reference hashes of its test, each followed through the steps of the
  hash with every intermediate word written out.
*/
module XXHashVectors {
  import opened Words
  import opened WordValues
  import opened XXHash
  import opened Routing

  // ---------- The steps on concrete words ----------

  lemma RoundIs(a: U64, input: U64, sum: U64, turned: U64, r: U64)
    requires sum == (a + input * PRIME2) % 0x1_0000_0000_0000_0000
    requires turned == sum % 0x2_0000_0000 * 0x8000_0000 + sum / 0x2_0000_0000
    requires r == turned * PRIME1 % 0x1_0000_0000_0000_0000
    ensures Round(a, input) == r
  {
    hide RotateLeft;
    WrappedSum(a, input * PRIME2);
    RotationValues(sum);
  }

  lemma WrappedSum(a: U64, x: nat)
    ensures Add64(a, Wrap64(x)) == (a + x) % 0x1_0000_0000_0000_0000
  {
  }

  lemma WrapsAsRemainder(x: nat)
    ensures Wrap64(x) == x % 0x1_0000_0000_0000_0000
  {
  }

  lemma XorIs(x: bv64, y: bv64)
    ensures Xor64(N64(x), N64(y)) == N64(X64(x, y))
  {
    XorIsBitwise(x, y);
  }

  lemma MergeIs(h: U64, x: bv64, v: U64, sum: U64, turned: U64, k: bv64, r: U64)
    requires N64(x) == h && sum == v * PRIME2 % 0x1_0000_0000_0000_0000
    requires turned == sum % 0x2_0000_0000 * 0x8000_0000 + sum / 0x2_0000_0000
    requires N64(k) == turned * PRIME1 % 0x1_0000_0000_0000_0000
    requires r == (N64(X64(x, k)) * PRIME1 + PRIME4) % 0x1_0000_0000_0000_0000
    ensures MergeRound(h, v) == r
  {
    hide Round, Xor64, X64, N64;
    RoundIs(0, v, sum, turned, N64(k));
    XorIs(x, k);
    WrappedSum(PRIME4, N64(X64(x, k)) * PRIME1);
  }

  lemma LaneIs(h: U64, x: bv64, lane: U64, sum: U64, mixed: U64, k: bv64, turned: U64, r: U64)
    requires N64(x) == h && sum == lane * PRIME2 % 0x1_0000_0000_0000_0000
    requires mixed == sum % 0x2_0000_0000 * 0x8000_0000 + sum / 0x2_0000_0000
    requires N64(k) == mixed * PRIME1 % 0x1_0000_0000_0000_0000
    requires turned == N64(X64(x, k)) % 0x20_0000_0000 * 0x800_0000 + N64(X64(x, k)) / 0x20_0000_0000
    requires r == (turned * PRIME1 + PRIME4) % 0x1_0000_0000_0000_0000
    ensures AbsorbLane(h, lane) == r
  {
    hide Round, Xor64, X64, N64, RotateLeft, Add64, Wrap64;
    RoundIs(0, lane, sum, mixed, N64(k));
    XorIs(x, k);
    RotationValues(N64(X64(x, k)));
    WrappedSum(PRIME4, turned * PRIME1);
    AddCommutes(PRIME4, Mul64(turned, PRIME1));
  }

  lemma WordIs(h: U64, x: bv64, word: U64, k: bv64, turned: U64, r: U64)
    requires N64(x) == h && N64(k) == word * PRIME1 % 0x1_0000_0000_0000_0000
    requires turned == N64(X64(x, k)) % 0x200_0000_0000 * 0x80_0000 + N64(X64(x, k)) / 0x200_0000_0000
    requires r == (turned * PRIME2 + PRIME3) % 0x1_0000_0000_0000_0000
    ensures AbsorbWord(h, word) == r
  {
    hide Xor64, X64, N64, RotateLeft, Add64, Wrap64;
    XorIs(x, k);
    RotationValues(N64(X64(x, k)));
    WrapsAsRemainder(word * PRIME1);
    WrappedSum(PRIME3, turned * PRIME2);
    AddCommutes(PRIME3, Mul64(turned, PRIME2));
  }

  lemma ByteIs(h: U64, x: bv64, b: U64, k: bv64, turned: U64, r: U64)
    requires N64(x) == h && N64(k) == b * PRIME5 % 0x1_0000_0000_0000_0000
    requires turned == N64(X64(x, k)) % 0x20_0000_0000_0000 * 0x800 + N64(X64(x, k)) / 0x20_0000_0000_0000
    requires r == turned * PRIME1 % 0x1_0000_0000_0000_0000
    ensures AbsorbByte(h, b) == r
  {
    hide Xor64, X64, N64, RotateLeft;
    XorIs(x, k);
    RotationValues(N64(X64(x, k)));
  }

  lemma AvalancheIs(h: U64, x: bv64, x': bv64, a: bv64, a': bv64, b: bv64, b': bv64, r: U64)
    requires N64(x) == h && N64(x') == h / 0x2_0000_0000
    requires N64(a) == N64(X64(x, x')) * PRIME2 % 0x1_0000_0000_0000_0000 && N64(a') == N64(a) / 0x2000_0000
    requires N64(b) == N64(X64(a, a')) * PRIME3 % 0x1_0000_0000_0000_0000 && N64(b') == N64(b) / 0x1_0000_0000
    requires r == N64(X64(b, b'))
    ensures Avalanche(h) == r
  {
    hide Xor64, X64, N64, Shr;
    ShiftValues(h);
    ShiftValues(N64(a));
    ShiftValues(N64(b));
    XorIs(x, x');
    XorIs(a, a');
    XorIs(b, b');
  }

  lemma WordAt(key: Bytes, p: nat)
    requires p + 8 <= |key|
    ensures Word(key, p, 8) ==
      key[p] as nat + key[p + 1] as nat * 0x100 + key[p + 2] as nat * 0x1_0000 + key[p + 3] as nat * 0x100_0000
      + key[p + 4] as nat * 0x1_0000_0000 + key[p + 5] as nat * 0x100_0000_0000
      + key[p + 6] as nat * 0x1_0000_0000_0000 + key[p + 7] as nat * 0x100_0000_0000_0000
  {
    hide LittleEndian;
    Uint64IsWord(key, p, 0);
    var b := key[p..][0..8];
    assert forall i | 0 <= i < 8 :: b[i] == key[p + i];
  }


  lemma SumWraps(a: U64, b: U64)
    ensures Add64(a, b) == Wrap64(a + b)
  {
  }

  /** Reducing before an addition or after it is the same. */
  lemma SumOfFour(a: U64, b: U64, c: U64, d: U64)
    ensures Add64(Add64(Add64(a, b), c), d) == (a + b + c + d) % 0x1_0000_0000_0000_0000
  {
    hide Add64;
    WrappedSum(c, a + b);
    WrappedSum(d, c + (a + b));
    AddCommutes(c, Wrap64(a + b));
    AddCommutes(d, Wrap64(c + (a + b)));
    SumWraps(a, b);
  }

  lemma TurnedSum(v: Accumulators, t1: U64, t2: U64, t3: U64, t4: U64)
    requires t1 == v.v1 % 0x8000_0000_0000_0000 * 2 + v.v1 / 0x8000_0000_0000_0000
    requires t2 == v.v2 % 0x200_0000_0000_0000 * 0x80 + v.v2 / 0x200_0000_0000_0000
    requires t3 == v.v3 % 0x10_0000_0000_0000 * 0x1000 + v.v3 / 0x10_0000_0000_0000
    requires t4 == v.v4 % 0x4000_0000_0000 * 0x4_0000 + v.v4 / 0x4000_0000_0000
    ensures Converge(v) == MergeRound(MergeRound(MergeRound(MergeRound(
      (t1 + t2 + t3 + t4) % 0x1_0000_0000_0000_0000, v.v1), v.v2), v.v3), v.v4)
  {
    hide RotateLeft, MergeRound, Add64;
    RotationValues(v.v1);
    RotationValues(v.v2);
    RotationValues(v.v3);
    RotationValues(v.v4);
    SumOfFour(t1, t2, t3, t4);
  }

  lemma FirstStripe(key: Bytes, start: U64, lane: nat)
    requires lane < 4 && 32 <= |key|
    ensures Accumulator(key, start, lane, 1) == Round(start, Word(key, 8 * lane, 8))
  {
  }

  /** A key of exactly one stripe has no tail. */
  lemma OneStripe(key: Bytes, seed: U64, merged: U64, h: U64)
    requires |key| == 32 && Converge(Stripes(key, seed, 1)) == merged
    requires h == (merged + 32) % 0x1_0000_0000_0000_0000
    ensures XXH64(key, seed) == Avalanche(h)
  {
    hide Converge, Stripes, Avalanche;
  }

  lemma ShortHead(key: Bytes, seed: U64)
    requires |key| < 32
    ensures Head(key, seed) == (seed + PRIME5 + |key|) % 0x1_0000_0000_0000_0000
  {
    WrappedSum(|key|, seed + PRIME5);
    AddCommutes(|key|, Add64(seed, PRIME5));
  }

  /** The reads of an 11-byte key: one lane and three bytes. */
  lemma ElevenBytes(n: nat)
    requires n == 11
    ensures TailReads(n) == 4 && TailRead(n, 0) == Read(0, 8)
    ensures TailRead(n, 1) == Read(8, 1) && TailRead(n, 2) == Read(9, 1) && TailRead(n, 3) == Read(10, 1)
  {
  }

  lemma FirstLane(key: Bytes, h: U64)
    requires |key| == 11
    ensures TailReads(|key|) == 4 && Tail(key, h, 1) == AbsorbLane(h, Word(key, 0, 8))
  {
    hide *;
    ElevenBytes(|key|);
    TailStart(key, h);
    TailNext(key, h, 0);
  }

  lemma TrailingByte(key: Bytes, h: U64, i: nat)
    requires |key| == 11 && 1 <= i < 4 == TailReads(|key|)
    ensures Tail(key, h, i + 1) == AbsorbByte(Tail(key, h, i), key[7 + i])
  {
    hide *;
    ElevenBytes(|key|);
    TailNext(key, h, i);
    ByteIsWord(key, 7 + i);
  }

  lemma WordOrByte(n: nat)
    requires n == 1 || n == 4
    ensures TailReads(n) == 1 && TailRead(n, 0) == Read(0, n)
  {
  }

  /** A key that is one 4-byte word, or one byte. */
  lemma OnlyRead(key: Bytes, h: U64)
    requires |key| == 1 || |key| == 4
    ensures TailReads(|key|) == 1
    ensures Tail(key, h, 1) == if |key| == 4 then AbsorbWord(h, Word(key, 0, 4)) else AbsorbByte(h, key[0])
  {
    hide *;
    WordOrByte(|key|);
    TailStart(key, h);
    TailNext(key, h, 0);
    ByteIsWord(key, 0);
  }

  lemma NoBytes(key: Bytes, seed: U64)
    requires |key| == 0
    ensures XXH64(key, seed) == Avalanche(Head(key, seed))
  {
    hide Avalanche, Head;
  }

  // ---------- The key 00 01 .. 1f ----------

  function CountingUp(): (key: Bytes)
    ensures |key| == 32 && forall i | 0 <= i < 32 :: key[i] == i
  {
    seq(32, i requires 0 <= i < 32 => i)
  }

  lemma CountingUpLanes(key: Bytes)
    requires key == CountingUp()
    ensures Word(key, 0, 8) == 0x706_0504_0302_0100
    ensures Word(key, 8, 8) == 0xF0E_0D0C_0B0A_0908
    ensures Word(key, 16, 8) == 0x1716_1514_1312_1110
    ensures Word(key, 24, 8) == 0x1F1E_1D1C_1B1A_1918
  {
    hide Word, CountingUp;
    WordAt(key, 0);
    WordAt(key, 8);
    WordAt(key, 16);
    WordAt(key, 24);
  }

  lemma CountingUpStripes(key: Bytes)
    requires key == CountingUp()
    ensures Stripes(key, PARTITION_SEED, 1) == Accumulators(
      0xE902_EF2C_6D56_6481, 0xB820_FF26_4CAE_2B49,
      0x5DAB_ED8E_7B78_25AE, 0x2CC9_FD88_5ACF_EC76)
  {
    hide Word, CountingUp, Accumulator, Round;
    CountingUpLanes(key);
    FirstStripe(key, 0xFF21_A1A0_33AC_805D, 0);
    FirstStripe(key, 0x60EA_27EE_ADC0_B5D6, 1);
    FirstStripe(key, PARTITION_SEED, 2);
    FirstStripe(key, 0x0, 3);
    RoundIs(0xFF21_A1A0_33AC_805D, 0x706_0504_0302_0100,
            0x3A87_E56F_CC35_CF5D, 0xE61A_E7AE_9D43_F2B7, 0xE902_EF2C_6D56_6481);
    RoundIs(0x60EA_27EE_ADC0_B5D6, 0xF0E_0D0C_0B0A_0908,
            0x5AF9_7F5F_FEC3_D74E, 0xFF61_EBA7_2D7C_BFAF, 0xB820_FF26_4CAE_2B49);
    RoundIs(0x9E37_79B1_85EB_CA87, 0x1716_1514_1312_1110,
            0x56EF_E4C4_8F68_BE77, 0x47B4_5F3B_AB77_F262, 0x5DAB_ED8E_7B78_25AE);
    RoundIs(0x0, 0x1F1E_1D1C_1B1A_1918,
            0x7761_7EB4_C1F6_C668, 0x60FB_6334_3BB0_BF5A, 0x2CC9_FD88_5ACF_EC76);
  }

  lemma CountingUpTurned(v: Accumulators)
    requires v == Accumulators(
      0xE902_EF2C_6D56_6481, 0xB820_FF26_4CAE_2B49,
      0x5DAB_ED8E_7B78_25AE, 0x2CC9_FD88_5ACF_EC76)
    ensures Converge(v) == MergeRound(MergeRound(MergeRound(MergeRound(0x977F_C476_65F6_06E0, v.v1), v.v2), v.v3), v.v4)
  {
    hide MergeRound, Round, Converge, RotateLeft;
    TurnedSum(v, 0xD205_DE58_DAAC_C903, 0x107F_9326_5715_A4DC,
              0xBED8_E7B7_825A_E5DA, 0xF621_6B3F_B1D8_B327);
  }

  lemma CountingUpMerged()
    ensures Converge(Accumulators(
      0xE902_EF2C_6D56_6481, 0xB820_FF26_4CAE_2B49,
      0x5DAB_ED8E_7B78_25AE, 0x2CC9_FD88_5ACF_EC76)) == 0x209C_0259_912D_DD1B
  {
    hide MergeRound, Round, Converge, RotateLeft;
    CountingUpTurned(Accumulators(
      0xE902_EF2C_6D56_6481, 0xB820_FF26_4CAE_2B49,
      0x5DAB_ED8E_7B78_25AE, 0x2CC9_FD88_5ACF_EC76));
    MergeIs(0x977F_C476_65F6_06E0, 0x977F_C476_65F6_06E0, 0xE902_EF2C_6D56_6481,
            0xD87F_ECAB_EDBF_6ECF, 0xF6DF_B767_EC3F_F655, 0x6BF_4FAE_5720_F8D3, 0xDE6F_5B47_0E77_F948);
    MergeIs(0xDE6F_5B47_0E77_F948, 0xDE6F_5B47_0E77_F948, 0xB820_FF26_4CAE_2B49,
            0x4F7A_DC6E_82EF_5E87, 0x4177_AF43_A7BD_6E37, 0x228B_6736_AD59_8501, 0xDA2_B6DE_824A_D2E2);
    MergeIs(0xDA2_B6DE_824A_D2E2, 0xDA2_B6DE_824A_D2E2, 0x5DAB_ED8E_7B78_25AE,
            0x4E26_E602_1AC2_5AB2, 0xD61_2D59_2713_7301, 0x3730_3924_0AEB_6F87, 0x53D4_8B18_C426_40A6);
    MergeIs(0x53D4_8B18_C426_40A6, 0x53D4_8B18_C426_40A6, 0x2CC9_FD88_5ACF_EC76,
            0xC521_D5C4_AFF2_4A6A, 0x57F9_2535_6290_EAE2, 0x77BA_BC3E_5B38_312E, 0x209C_0259_912D_DD1B);
  }

  lemma CountingUpHash()
    ensures XXH64(CountingUp(), PARTITION_SEED) == 0xBFB3_E4EF_6096_C49C
  {
    hide Avalanche, Converge, Stripes, XXH64, CountingUp;
    CountingUpStripes(CountingUp());
    CountingUpMerged();
    OneStripe(CountingUp(), PARTITION_SEED, 0x209C_0259_912D_DD1B, 0x209C_0259_912D_DD3B);
    AvalancheIs(0x209C_0259_912D_DD3B, 0x209C_0259_912D_DD3B, 0x104E_012C,
                0x583_541A_5CE6_0819, 0x2C1A_A0D2,
                0xBFB3_E4EF_DF25_2073, 0xBFB3_E4EF, 0xBFB3_E4EF_6096_C49C);
  }

  // ---------- The key ff fe .. e0 ----------

  function CountingDown(): (key: Bytes)
    ensures |key| == 32 && forall i | 0 <= i < 32 :: key[i] == 0xFF - i
  {
    seq(32, i requires 0 <= i < 32 => 0xFF - i)
  }

  lemma CountingDownLanes(key: Bytes)
    requires key == CountingDown()
    ensures Word(key, 0, 8) == 0xF8F9_FAFB_FCFD_FEFF
    ensures Word(key, 8, 8) == 0xF0F1_F2F3_F4F5_F6F7
    ensures Word(key, 16, 8) == 0xE8E9_EAEB_ECED_EEEF
    ensures Word(key, 24, 8) == 0xE0E1_E2E3_E4E5_E6E7
  {
    hide Word, CountingDown;
    WordAt(key, 0);
    WordAt(key, 8);
    WordAt(key, 16);
    WordAt(key, 24);
  }

  lemma CountingDownStripes(key: Bytes)
    requires key == CountingDown()
    ensures Stripes(key, PARTITION_SEED, 1) == Accumulators(
      0x66A6_ED2A_B591_E4FF, 0x10B5_FBD4_F678_47E0,
      0x91CD_1046_FAF9_4950, 0x3BDC_1EF1_3BDF_AC31)
  {
    hide Word, CountingDown, Accumulator, Round;
    CountingDownLanes(key);
    FirstStripe(key, 0xFF21_A1A0_33AC_805D, 0);
    FirstStripe(key, 0x60EA_27EE_ADC0_B5D6, 1);
    FirstStripe(key, PARTITION_SEED, 2);
    FirstStripe(key, 0x0, 3);
    RoundIs(0xFF21_A1A0_33AC_805D, 0xF8F9_FAFB_FCFD_FEFF,
            0x108_AF93_734E_460E, 0xB9A7_2307_0084_57C9, 0x66A6_ED2A_B591_E4FF);
    RoundIs(0x60EA_27EE_ADC0_B5D6, 0xF0F1_F2F3_F4F5_F6F7,
            0xA428_2240_34E8_A90F, 0x1A74_5487_D214_1120, 0x10B5_FBD4_F678_47E0);
    RoundIs(0x9E37_79B1_85EB_CA87, 0xE8E9_EAEB_ECED_EEEF,
            0x22CC_6061_5499_EB48, 0xAA4C_F5A4_1166_3030, 0x91CD_1046_FAF9_4950);
    RoundIs(0x0, 0xE0E1_E2E3_E4E5_E6E7,
            0xC5EB_D30E_1634_4E49, 0xB1A_2724_E2F5_E987, 0x3BDC_1EF1_3BDF_AC31);
  }

  lemma CountingDownTurned(v: Accumulators)
    requires v == Accumulators(
      0x66A6_ED2A_B591_E4FF, 0x10B5_FBD4_F678_47E0,
      0x91CD_1046_FAF9_4950, 0x3BDC_1EF1_3BDF_AC31)
    ensures Converge(v) == MergeRound(MergeRound(MergeRound(MergeRound(0x7515_23FE_ECA1_B292, v.v1), v.v2), v.v3), v.v4)
  {
    hide MergeRound, Round, Converge, RotateLeft;
    TurnedSum(v, 0xCD4D_DA55_6B23_C9FE, 0x5AFD_EA7B_3C23_F008,
              0xD104_6FAF_9495_091C, 0x7BC4_EF7E_B0C4_EF70);
  }

  lemma CountingDownMerged()
    ensures Converge(Accumulators(
      0x66A6_ED2A_B591_E4FF, 0x10B5_FBD4_F678_47E0,
      0x91CD_1046_FAF9_4950, 0x3BDC_1EF1_3BDF_AC31)) == 0x687F_03B0_3AF2_D71E
  {
    hide MergeRound, Round, Converge, RotateLeft;
    CountingDownTurned(Accumulators(
      0x66A6_ED2A_B591_E4FF, 0x10B5_FBD4_F678_47E0,
      0x91CD_1046_FAF9_4950, 0x3BDC_1EF1_3BDF_AC31));
    MergeIs(0x7515_23FE_ECA1_B292, 0x7515_23FE_ECA1_B292, 0x66A6_ED2A_B591_E4FF,
            0xB6F7_DE52_7167_BFB1, 0x38B3_DFD8_DB7B_EF29, 0x1E_C2E9_60B4_789F, 0x118C_D462_0E8D_7D3E);
    MergeIs(0x118C_D462_0E8D_7D3E, 0x118C_D462_0E8D_7D3E, 0x10B5_FBD4_F678_47E0,
            0x6981_03E7_1E98_CE20, 0x8F4C_6710_34C0_81F3, 0x3DA0_4769_411F_4525, 0xB197_D242_A0DC_92A0);
    MergeIs(0xB197_D242_A0DC_92A0, 0xB197_D242_A0DC_92A0, 0x91CD_1046_FAF9_4950,
            0x5E17_D6F6_2F7A_0FB0, 0x17BD_07D8_2F0B_EB7B, 0xDBBC_0C73_4801_3BDD, 0x5C66_897D_FE12_B14E);
    MergeIs(0x5C66_897D_FE12_B14E, 0x5C66_897D_FE12_B14E, 0x3BDC_1EF1_3BDF_AC31,
            0x10A0_FC8A_DCAB_1E1F, 0x6E55_8F0F_8850_7E45, 0x193D_90F3_286C_0863, 0x687F_03B0_3AF2_D71E);
  }

  lemma CountingDownHash()
    ensures XXH64(CountingDown(), PARTITION_SEED) == 0xFFF3_0B93_A70C_3409
  {
    hide Avalanche, Converge, Stripes, XXH64, CountingDown;
    CountingDownStripes(CountingDown());
    CountingDownMerged();
    OneStripe(CountingDown(), PARTITION_SEED, 0x687F_03B0_3AF2_D71E, 0x687F_03B0_3AF2_D73E);
    AvalancheIs(0x687F_03B0_3AF2_D73E, 0x687F_03B0_3AF2_D73E, 0x343F_81D8,
                0x878C_5402_109A_F2FA, 0x4_3C62_A010,
                0xFFF3_0B93_58FF_3F9A, 0xFFF3_0B93, 0xFFF3_0B93_A70C_3409);
  }

  // ---------- The key "gossipcache" ----------

  const GOSSIPCACHE: Bytes := [0x67, 0x6F, 0x73, 0x73, 0x69, 0x70, 0x63, 0x61, 0x63, 0x68, 0x65]

  lemma GossipcacheWord()
    ensures Word(GOSSIPCACHE, 0, 8) == 0x6163_7069_7373_6F67
  {
    hide Word, LittleEndian;
    WordAt(GOSSIPCACHE, 0);
  }

  lemma GossipcacheLane()
    ensures AbsorbLane(0xC60C_64E0_9C42_3257, 0x6163_7069_7373_6F67) == 0x1286_A840_12D0_BFE6
  {
    hide AbsorbLane;
    LaneIs(0xC60C_64E0_9C42_3257, 0xC60C_64E0_9C42_3257, 0x6163_7069_7373_6F67,
           0xF9A2_3CA1_8A2E_EDC9, 0xC517_76E4_FCD1_1E50, 0x15D6_E044_B7A2_1C30,
           0x215F_0173_3E9E_D425, 0x1286_A840_12D0_BFE6);
  }

  lemma GossipcacheBytes()
    ensures AbsorbByte(0x1286_A840_12D0_BFE6, 0x63) == 0xA812_748C_8453_34C2
    ensures AbsorbByte(0xA812_748C_8453_34C2, 0x68) == 0x7351_3B32_F9B7_A4E5
    ensures AbsorbByte(0x7351_3B32_F9B7_A4E5, 0x65) == 0xA7E3_46A0_10B4_2FEE
  {
    hide AbsorbByte;
    ByteIs(0x1286_A840_12D0_BFE6, 0x1286_A840_12D0_BFE6, 0x63,
           0x6756_F335_A36A_212F, 0x82DB_AD8D_D4F6_4BAE, 0xA812_748C_8453_34C2);
    ByteIs(0xA812_748C_8453_34C2, 0xA812_748C_8453_34C2, 0x68,
           0x2E7F_8B21_131A_2808, 0x6FFD_6CBA_48E6_5433, 0x7351_3B32_F9B7_A4E5);
    ByteIs(0x7351_3B32_F9B7_A4E5, 0x7351_3B32_F9B7_A4E5, 0x65,
           0xB700_C993_D016_F0B9, 0x8F95_094D_0AA2_E622, 0xA7E3_46A0_10B4_2FEE);
  }

  lemma GossipcacheTail()
    ensures Head(GOSSIPCACHE, PARTITION_SEED) == 0xC60C_64E0_9C42_3257
    ensures Tail(GOSSIPCACHE, 0xC60C_64E0_9C42_3257, TailReads(11)) == 0xA7E3_46A0_10B4_2FEE
  {
    hide Word, AbsorbLane, AbsorbByte, Head, Tail, TailReads;
    ShortHead(GOSSIPCACHE, PARTITION_SEED);
    GossipcacheWord();
    GossipcacheLane();
    GossipcacheBytes();
    FirstLane(GOSSIPCACHE, 0xC60C_64E0_9C42_3257);
    TrailingByte(GOSSIPCACHE, 0xC60C_64E0_9C42_3257, 1);
    TrailingByte(GOSSIPCACHE, 0xC60C_64E0_9C42_3257, 2);
    TrailingByte(GOSSIPCACHE, 0xC60C_64E0_9C42_3257, 3);
  }

  lemma GossipcacheHash()
    ensures XXH64(GOSSIPCACHE, PARTITION_SEED) == 0xCE5_5A18_8692_8622
  {
    hide Avalanche, Head, Tail, TailReads;
    GossipcacheTail();
    AvalancheIs(0xA7E3_46A0_10B4_2FEE, 0xA7E3_46A0_10B4_2FEE, 0x53F1_A350,
                0x7D46_E485_1A00_D8A2, 0x3_EA37_2428,
                0xCE5_5A18_8A77_DC3A, 0xCE5_5A18, 0xCE5_5A18_8692_8622);
  }

  // ---------- The key "hello\0world" ----------

  const HELLO_WORLD: Bytes := [0x68, 0x65, 0x6C, 0x6C, 0x6F, 0x00, 0x77, 0x6F, 0x72, 0x6C, 0x64]

  lemma HelloWorldWord()
    ensures Word(HELLO_WORLD, 0, 8) == 0x6F77_006F_6C6C_6568
  {
    hide Word, LittleEndian;
    WordAt(HELLO_WORLD, 0);
  }

  lemma HelloWorldLane()
    ensures AbsorbLane(0xC60C_64E0_9C42_3257, 0x6F77_006F_6C6C_6568) == 0xC311_E813_3B73_835F
  {
    hide AbsorbLane;
    LaneIs(0xC60C_64E0_9C42_3257, 0xC60C_64E0_9C42_3257, 0x6F77_006F_6C6C_6568,
           0xCDFA_91E8_C8A9_C318, 0x6454_E18C_66FD_48F4, 0x1126_A06A_E71E_00AC,
           0x53DA_E197_DEB9_5624, 0xC311_E813_3B73_835F);
  }

  lemma HelloWorldBytes()
    ensures AbsorbByte(0xC311_E813_3B73_835F, 0x72) == 0x15AC_3711_DC78_9EF2
    ensures AbsorbByte(0x15AC_3711_DC78_9EF2, 0x6C) == 0x69F0_3B4F_EB1E_7ED5
    ensures AbsorbByte(0x69F0_3B4F_EB1E_7ED5, 0x64) == 0x71C4_4BD4_58F1_A17A
  {
    hide AbsorbByte;
    ByteIs(0xC311_E813_3B73_835F, 0xC311_E813_3B73_835F, 0x72,
           0xBCD0_BAF7_F27A_35BA, 0xA97_2648_4DB7_2BFE, 0x15AC_3711_DC78_9EF2);
    ByteIs(0x15AC_3711_DC78_9EF2, 0x15AC_3711_DC78_9EF2, 0x6C,
           0xCDD3_37DD_6C73_C71C, 0xF806_6580_5ACF_76C3, 0x69F0_3B4F_EB1E_7ED5);
    ByteIs(0x69F0_3B4F_EB1E_7ED5, 0x69F0_3B4F_EB1E_7ED5, 0x64,
           0x8F2B_DE64_B9C0_88F4, 0xDF29_5A96_F7B1_0F36, 0x71C4_4BD4_58F1_A17A);
  }

  lemma HelloWorldTail()
    ensures Head(HELLO_WORLD, PARTITION_SEED) == 0xC60C_64E0_9C42_3257
    ensures Tail(HELLO_WORLD, 0xC60C_64E0_9C42_3257, TailReads(11)) == 0x71C4_4BD4_58F1_A17A
  {
    hide Word, AbsorbLane, AbsorbByte, Head, Tail, TailReads;
    ShortHead(HELLO_WORLD, PARTITION_SEED);
    HelloWorldWord();
    HelloWorldLane();
    HelloWorldBytes();
    FirstLane(HELLO_WORLD, 0xC60C_64E0_9C42_3257);
    TrailingByte(HELLO_WORLD, 0xC60C_64E0_9C42_3257, 1);
    TrailingByte(HELLO_WORLD, 0xC60C_64E0_9C42_3257, 2);
    TrailingByte(HELLO_WORLD, 0xC60C_64E0_9C42_3257, 3);
  }

  lemma HelloWorldHash()
    ensures XXH64(HELLO_WORLD, PARTITION_SEED) == 0x9D21_8D47_D724_39BD
  {
    hide Avalanche, Head, Tail, TailReads;
    HelloWorldTail();
    AvalancheIs(0x71C4_4BD4_58F1_A17A, 0x71C4_4BD4_58F1_A17A, 0x38E2_25EA,
                0xE892_5A67_47F6_1870, 0x7_4492_D33A,
                0x9D21_8D47_4A05_B4FA, 0x9D21_8D47, 0x9D21_8D47_D724_39BD);
  }

  // ---------- The key "a" ----------

  const LETTER_A: Bytes := [0x61]

  lemma LetterAHash()
    ensures XXH64(LETTER_A, PARTITION_SEED) == 0x727C_10E0_D238_E188
  {
    hide Avalanche, Head, Tail, TailReads, AbsorbWord, AbsorbByte, Word;
    ShortHead(LETTER_A, PARTITION_SEED);
    OnlyRead(LETTER_A, 0xC60C_64E0_9C42_324D);
    ByteIs(0xC60C_64E0_9C42_324D, 0xC60C_64E0_9C42_324D, 0x61,
           0x17AD_1CD7_76BD_51A5, 0xBC1_BF57_FB1F_468D, 0x6A5_8566_1F98_765B);
    AvalancheIs(0x6A5_8566_1F98_765B, 0x6A5_8566_1F98_765B, 0x352_C2B3,
                0x420E_6BA6_1EBE_CB98, 0x2_1073_5D30,
                0x727C_10E0_A044_F168, 0x727C_10E0, 0x727C_10E0_D238_E188);
  }

  // ---------- The key "test", with seed zero: the 4-byte word ----------

  const TEST: Bytes := [0x74, 0x65, 0x73, 0x74]

  lemma TestHash()
    ensures XXH64(TEST, 0) == 0x4FDC_CA5D_DB67_8139
  {
    hide Avalanche, Head, Tail, TailReads, AbsorbWord, AbsorbByte, Word;
    ShortHead(TEST, 0);
    OnlyRead(TEST, 0x27D4_EB2F_1656_67C9);
    Uint32IsWord(TEST, 0);
    assert Word(TEST, 0, 4) == 0x7473_6574;
    WordIs(0x27D4_EB2F_1656_67C9, 0x27D4_EB2F_1656_67C9, 0x7473_6574,
           0xAF94_2EF7_DC64_082C, 0xEC65_1937_F2C4_2062, 0x2EE2_CA83_519F_6E37);
    AvalancheIs(0x2EE2_CA83_519F_6E37, 0x2EE2_CA83_519F_6E37, 0x1771_6541,
                0x72F6_F09D_DFB2_DB6A, 0x3_97B7_84EE,
                0x4FDC_CA5D_94BB_4B64, 0x4FDC_CA5D, 0x4FDC_CA5D_DB67_8139);
  }

  // ---------- The empty key ----------

  lemma EmptyHash()
    ensures XXH64([], PARTITION_SEED) == 0x6EC6_D05F_61C7_E7A7
  {
    hide Avalanche, Head, XXH64, Tail;
    NoBytes([], PARTITION_SEED);
    ShortHead([], PARTITION_SEED);
    AvalancheIs(0xC60C_64E0_9C42_324C, 0xC60C_64E0_9C42_324C, 0x6306_3270,
                0xFCB9_4267_87E3_2684, 0x7_E5CA_133C,
                0x6EC6_D05F_0F01_37F8, 0x6EC6_D05F, 0x6EC6_D05F_61C7_E7A7);
  }

  // ---------- The vectors ----------

  /** The partitions frozen for every node and hub. */
  lemma FrozenVectors()
    ensures PartitionOf([], 1) == 0 && PartitionOf([], 16) == 7
    ensures PartitionOf(LETTER_A, 2) == 0 && PartitionOf(LETTER_A, 257) == 232
    ensures PartitionOf(GOSSIPCACHE, 3) == 2 && PartitionOf(GOSSIPCACHE, 16) == 2
    ensures PartitionOf(HELLO_WORLD, 16) == 13 && PartitionOf(HELLO_WORLD, 257) == 16
    ensures PartitionOf(CountingUp(), 16) == 12 && PartitionOf(CountingUp(), 257) == 13
    ensures PartitionOf(CountingDown(), 16) == 9 && PartitionOf(CountingDown(), 257) == 183
  {
    hide XXH64, CountingUp, CountingDown;
    EmptyHash();
    LetterAHash();
    GossipcacheHash();
    HelloWorldHash();
    CountingUpHash();
    CountingDownHash();
  }
}
