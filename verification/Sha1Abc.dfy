// The test case "abc" in section 7.3 of RFC 3174, step by step: it fixes the constants, the rotations and the byte
// order that the code and the definition of the digest share.

module Sha1Abc {
  import opened Sha1Spec

  const MESSAGE: seq<Byte> := [0x61, 0x62, 0x63]

  const BLOCK: seq<Byte> := MESSAGE + [0x80] + Zeros(59) + [24]

  lemma PaddedMessage()
    ensures |BLOCK| == 64 && Padded(MESSAGE) == BLOCK
  {
    assert forall i: nat | i < 7 :: LengthOctet(24, i) == 0;
    assert LengthOctet(24, 7) == 24;
  }

  // ----- The schedule -----

  lemma FirstWords()
    ensures |BLOCK| == 64 && W(BLOCK, 0) == 0x61626380 && W(BLOCK, 15) == 0x18
    ensures forall t: nat | 0 < t < 15 :: W(BLOCK, t) == 0
  {
    hide S1;
  }

  // the recurrence, for words that are known
  lemma NextWord(t: nat, w3: Word, w8: Word, w14: Word, w16: Word)
    requires |BLOCK| == 64 && 16 <= t
    requires W(BLOCK, t - 3) == w3 && W(BLOCK, t - 8) == w8 && W(BLOCK, t - 14) == w14 && W(BLOCK, t - 16) == w16
    ensures W(BLOCK, t) == S1(w3 ^ w8 ^ w14 ^ w16)
  {
    hide S1;
  }

  lemma Words16To23()
    ensures |BLOCK| == 64
    ensures W(BLOCK, 16) == 0xc2c4c700 && W(BLOCK, 17) == 0x00000000
    ensures W(BLOCK, 18) == 0x00000030 && W(BLOCK, 19) == 0x85898e01
    ensures W(BLOCK, 20) == 0x00000000 && W(BLOCK, 21) == 0x00000060
    ensures W(BLOCK, 22) == 0x0b131c03 && W(BLOCK, 23) == 0x00000030
  {
    hide W, BigEndian;
    FirstWords();
    NextWord(16, 0x00000000, 0x00000000, 0x00000000, 0x61626380);
    NextWord(17, 0x00000000, 0x00000000, 0x00000000, 0x00000000);
    NextWord(18, 0x00000018, 0x00000000, 0x00000000, 0x00000000);
    NextWord(19, 0xc2c4c700, 0x00000000, 0x00000000, 0x00000000);
    NextWord(20, 0x00000000, 0x00000000, 0x00000000, 0x00000000);
    NextWord(21, 0x00000030, 0x00000000, 0x00000000, 0x00000000);
    NextWord(22, 0x85898e01, 0x00000000, 0x00000000, 0x00000000);
    NextWord(23, 0x00000000, 0x00000018, 0x00000000, 0x00000000);
  }

  lemma Words24To31()
    ensures |BLOCK| == 64
    ensures W(BLOCK, 24) == 0x85898ec1 && W(BLOCK, 25) == 0x16263806
    ensures W(BLOCK, 26) == 0x00000000 && W(BLOCK, 27) == 0x00000180
    ensures W(BLOCK, 28) == 0x2c4c700c && W(BLOCK, 29) == 0x000000f0
    ensures W(BLOCK, 30) == 0x93afb507 && W(BLOCK, 31) == 0x5898e048
  {
    hide W, BigEndian;
    FirstWords();
    Words16To23();
    NextWord(24, 0x00000060, 0xc2c4c700, 0x00000000, 0x00000000);
    NextWord(25, 0x0b131c03, 0x00000000, 0x00000000, 0x00000000);
    NextWord(26, 0x00000030, 0x00000030, 0x00000000, 0x00000000);
    NextWord(27, 0x85898ec1, 0x85898e01, 0x00000000, 0x00000000);
    NextWord(28, 0x16263806, 0x00000000, 0x00000000, 0x00000000);
    NextWord(29, 0x00000000, 0x00000060, 0x00000018, 0x00000000);
    NextWord(30, 0x00000180, 0x0b131c03, 0xc2c4c700, 0x00000000);
    NextWord(31, 0x2c4c700c, 0x00000030, 0x00000000, 0x00000018);
  }

  lemma Words32To39()
    ensures |BLOCK| == 64
    ensures W(BLOCK, 32) == 0x8e9a9202 && W(BLOCK, 33) == 0x00000600
    ensures W(BLOCK, 34) == 0xb131c0f0 && W(BLOCK, 35) == 0x16263bc6
    ensures W(BLOCK, 36) == 0x4ebed41e && W(BLOCK, 37) == 0x626380a1
    ensures W(BLOCK, 38) == 0x16263806 && W(BLOCK, 39) == 0x000018c0
  {
    hide W, BigEndian;
    Words16To23();
    Words24To31();
    NextWord(32, 0x000000f0, 0x85898ec1, 0x00000030, 0xc2c4c700);
    NextWord(33, 0x93afb507, 0x16263806, 0x85898e01, 0x00000000);
    NextWord(34, 0x5898e048, 0x00000000, 0x00000000, 0x00000030);
    NextWord(35, 0x8e9a9202, 0x00000180, 0x00000060, 0x85898e01);
    NextWord(36, 0x00000600, 0x2c4c700c, 0x0b131c03, 0x00000000);
    NextWord(37, 0xb131c0f0, 0x000000f0, 0x00000030, 0x00000060);
    NextWord(38, 0x16263bc6, 0x93afb507, 0x85898ec1, 0x0b131c03);
    NextWord(39, 0x4ebed41e, 0x5898e048, 0x16263806, 0x00000030);
  }

  lemma Words40To47()
    ensures |BLOCK| == 64
    ensures W(BLOCK, 40) == 0xd2e138c4 && W(BLOCK, 41) == 0x00000f00
    ensures W(BLOCK, 42) == 0x3afb5079 && W(BLOCK, 43) == 0x898e04e5
    ensures W(BLOCK, 44) == 0xe2ba3c2b && W(BLOCK, 45) == 0x000060c0
    ensures W(BLOCK, 46) == 0x053a37cd && W(BLOCK, 47) == 0x74458547
  {
    hide W, BigEndian;
    Words24To31();
    Words32To39();
    NextWord(40, 0x626380a1, 0x8e9a9202, 0x00000000, 0x85898ec1);
    NextWord(41, 0x16263806, 0x00000600, 0x00000180, 0x16263806);
    NextWord(42, 0x000018c0, 0xb131c0f0, 0x2c4c700c, 0x00000000);
    NextWord(43, 0xd2e138c4, 0x16263bc6, 0x000000f0, 0x00000180);
    NextWord(44, 0x00000f00, 0x4ebed41e, 0x93afb507, 0x2c4c700c);
    NextWord(45, 0x3afb5079, 0x626380a1, 0x5898e048, 0x000000f0);
    NextWord(46, 0x898e04e5, 0x16263806, 0x8e9a9202, 0x93afb507);
    NextWord(47, 0xe2ba3c2b, 0x000018c0, 0x00000600, 0x5898e048);
  }

  lemma Words48To55()
    ensures |BLOCK| == 64
    ensures W(BLOCK, 48) == 0xda9415ed && W(BLOCK, 49) == 0x26380a16
    ensures W(BLOCK, 50) == 0x626383a1 && W(BLOCK, 51) == 0x4ebf54de
    ensures W(BLOCK, 52) == 0x3835b44b && W(BLOCK, 53) == 0x0000f600
    ensures W(BLOCK, 54) == 0x1e84c7a3 && W(BLOCK, 55) == 0x98e04d98
  {
    hide W, BigEndian;
    Words32To39();
    Words40To47();
    NextWord(48, 0x000060c0, 0xd2e138c4, 0xb131c0f0, 0x8e9a9202);
    NextWord(49, 0x053a37cd, 0x00000f00, 0x16263bc6, 0x00000600);
    NextWord(50, 0x74458547, 0x3afb5079, 0x4ebed41e, 0xb131c0f0);
    NextWord(51, 0xda9415ed, 0x898e04e5, 0x626380a1, 0x16263bc6);
    NextWord(52, 0x26380a16, 0xe2ba3c2b, 0x16263806, 0x4ebed41e);
    NextWord(53, 0x626383a1, 0x000060c0, 0x000018c0, 0x626380a1);
    NextWord(54, 0x4ebf54de, 0x053a37cd, 0xd2e138c4, 0x16263806);
    NextWord(55, 0x3835b44b, 0x74458547, 0x00000f00, 0x000018c0);
  }

  lemma Words56To63()
    ensures |BLOCK| == 64
    ensures W(BLOCK, 56) == 0x651d16a0 && W(BLOCK, 57) == 0x62658ca1
    ensures W(BLOCK, 58) == 0x458544d6 && W(BLOCK, 59) == 0x44584cb7
    ensures W(BLOCK, 60) == 0x7ba06619 && W(BLOCK, 61) == 0x6380aea2
    ensures W(BLOCK, 62) == 0x0ae55269 && W(BLOCK, 63) == 0x627b49a1
  {
    hide W, BigEndian;
    Words40To47();
    Words48To55();
    NextWord(56, 0x0000f600, 0xda9415ed, 0x3afb5079, 0xd2e138c4);
    NextWord(57, 0x1e84c7a3, 0x26380a16, 0x898e04e5, 0x00000f00);
    NextWord(58, 0x98e04d98, 0x626383a1, 0xe2ba3c2b, 0x3afb5079);
    NextWord(59, 0x651d16a0, 0x4ebf54de, 0x000060c0, 0x898e04e5);
    NextWord(60, 0x62658ca1, 0x3835b44b, 0x053a37cd, 0xe2ba3c2b);
    NextWord(61, 0x458544d6, 0x0000f600, 0x74458547, 0x000060c0);
    NextWord(62, 0x44584cb7, 0x1e84c7a3, 0xda9415ed, 0x053a37cd);
    NextWord(63, 0x7ba06619, 0x98e04d98, 0x26380a16, 0x74458547);
  }

  lemma Words64To71()
    ensures |BLOCK| == 64
    ensures W(BLOCK, 64) == 0x7cd45c9d && W(BLOCK, 65) == 0x000f0000
    ensures W(BLOCK, 66) == 0xfb50753a && W(BLOCK, 67) == 0xec6765e8
    ensures W(BLOCK, 68) == 0xba3c2be2 && W(BLOCK, 69) == 0x0060c000
    ensures W(BLOCK, 70) == 0x3a37cd05 && W(BLOCK, 71) == 0x458546f4
  {
    hide W, BigEndian;
    Words48To55();
    Words56To63();
    NextWord(64, 0x6380aea2, 0x651d16a0, 0x626383a1, 0xda9415ed);
    NextWord(65, 0x0ae55269, 0x62658ca1, 0x4ebf54de, 0x26380a16);
    NextWord(66, 0x627b49a1, 0x458544d6, 0x3835b44b, 0x626383a1);
    NextWord(67, 0x7cd45c9d, 0x44584cb7, 0x0000f600, 0x4ebf54de);
    NextWord(68, 0x000f0000, 0x7ba06619, 0x1e84c7a3, 0x3835b44b);
    NextWord(69, 0xfb50753a, 0x6380aea2, 0x98e04d98, 0x0000f600);
    NextWord(70, 0xec6765e8, 0x0ae55269, 0x651d16a0, 0x1e84c7a3);
    NextWord(71, 0xba3c2be2, 0x627b49a1, 0x62658ca1, 0x98e04d98);
  }

  lemma Words72To79()
    ensures |BLOCK| == 64
    ensures W(BLOCK, 72) == 0xb8599dd6 && W(BLOCK, 73) == 0x380a1a26
    ensures W(BLOCK, 74) == 0x01e02203 && W(BLOCK, 75) == 0xe7cc3456
    ensures W(BLOCK, 76) == 0xe6e60b69 && W(BLOCK, 77) == 0x00f60a00
    ensures W(BLOCK, 78) == 0x5795ef4f && W(BLOCK, 79) == 0x822e0879
  {
    hide W, BigEndian;
    Words56To63();
    Words64To71();
    NextWord(72, 0x0060c000, 0x7cd45c9d, 0x458544d6, 0x651d16a0);
    NextWord(73, 0x3a37cd05, 0x000f0000, 0x44584cb7, 0x62658ca1);
    NextWord(74, 0x458546f4, 0xfb50753a, 0x7ba06619, 0x458544d6);
    NextWord(75, 0xb8599dd6, 0xec6765e8, 0x6380aea2, 0x44584cb7);
    NextWord(76, 0x380a1a26, 0xba3c2be2, 0x0ae55269, 0x7ba06619);
    NextWord(77, 0x01e02203, 0x0060c000, 0x627b49a1, 0x6380aea2);
    NextWord(78, 0xe7cc3456, 0x3a37cd05, 0x7cd45c9d, 0x0ae55269);
    NextWord(79, 0xe6e60b69, 0x458546f4, 0x000f0000, 0x627b49a1);
  }

  // ----- The rounds -----

  lemma NextRound(t: nat, r: Registers, w: Word)
    requires |BLOCK| == 64 && Rounds(BLOCK, H0, t) == r && W(BLOCK, t) == w
    ensures Rounds(BLOCK, H0, t + 1) == Round(r, t, w)
  {
    hide W, Round;
  }

  lemma Rounds0To7()
    ensures |BLOCK| == 64
    ensures Rounds(BLOCK, H0, 8) == Registers(0x9e8c07d4, 0x993e30c1, 0x0ff1f290, 0xb3f52677, 0xf3763846)
  {
    hide W, Rounds;
    NoRounds();
    FirstWords();
    NextRound(0, Registers(0x67452301, 0xefcdab89, 0x98badcfe, 0x10325476, 0xc3d2e1f0), 0x61626380);
    NextRound(1, Registers(0x0116fc33, 0x67452301, 0x7bf36ae2, 0x98badcfe, 0x10325476), 0x00000000);
    NextRound(2, Registers(0x8990536d, 0x0116fc33, 0x59d148c0, 0x7bf36ae2, 0x98badcfe), 0x00000000);
    NextRound(3, Registers(0xa1390f08, 0x8990536d, 0xc045bf0c, 0x59d148c0, 0x7bf36ae2), 0x00000000);
    NextRound(4, Registers(0xcdd8e11b, 0xa1390f08, 0x626414db, 0xc045bf0c, 0x59d148c0), 0x00000000);
    NextRound(5, Registers(0xcfd499de, 0xcdd8e11b, 0x284e43c2, 0x626414db, 0xc045bf0c), 0x00000000);
    NextRound(6, Registers(0x3fc7ca40, 0xcfd499de, 0xf3763846, 0x284e43c2, 0x626414db), 0x00000000);
    NextRound(7, Registers(0x993e30c1, 0x3fc7ca40, 0xb3f52677, 0xf3763846, 0x284e43c2), 0x00000000);
  }

  lemma Rounds8To15()
    ensures |BLOCK| == 64
    ensures Rounds(BLOCK, H0, 16) == Registers(0x20bdd62f, 0x196bee77, 0x644a3da5, 0x1181ed99, 0x18c623f9)
  {
    hide W, Rounds;
    Rounds0To7();
    FirstWords();
    NextRound(8, Registers(0x9e8c07d4, 0x993e30c1, 0x0ff1f290, 0xb3f52677, 0xf3763846), 0x00000000);
    NextRound(9, Registers(0x4b6ae328, 0x9e8c07d4, 0x664f8c30, 0x0ff1f290, 0xb3f52677), 0x00000000);
    NextRound(10, Registers(0x8351f929, 0x4b6ae328, 0x27a301f5, 0x664f8c30, 0x0ff1f290), 0x00000000);
    NextRound(11, Registers(0xfbda9e89, 0x8351f929, 0x12dab8ca, 0x27a301f5, 0x664f8c30), 0x00000000);
    NextRound(12, Registers(0x63188fe4, 0xfbda9e89, 0x60d47e4a, 0x12dab8ca, 0x27a301f5), 0x00000000);
    NextRound(13, Registers(0x4607b664, 0x63188fe4, 0x7ef6a7a2, 0x60d47e4a, 0x12dab8ca), 0x00000000);
    NextRound(14, Registers(0x9128f695, 0x4607b664, 0x18c623f9, 0x7ef6a7a2, 0x60d47e4a), 0x00000000);
    NextRound(15, Registers(0x196bee77, 0x9128f695, 0x1181ed99, 0x18c623f9, 0x7ef6a7a2), 0x00000018);
  }

  lemma Rounds16To23()
    ensures |BLOCK| == 64
    ensures Rounds(BLOCK, H0, 24) == Registers(0xd541f12d, 0x21283486, 0x0ce88eff, 0x868dec32, 0x7f67875f)
  {
    hide W, Rounds;
    Rounds8To15();
    Words16To23();
    NextRound(16, Registers(0x20bdd62f, 0x196bee77, 0x644a3da5, 0x1181ed99, 0x18c623f9), 0xc2c4c700);
    NextRound(17, Registers(0x4e925823, 0x20bdd62f, 0xc65afb9d, 0x644a3da5, 0x1181ed99), 0x00000000);
    NextRound(18, Registers(0x82aa6728, 0x4e925823, 0xc82f758b, 0xc65afb9d, 0x644a3da5), 0x00000030);
    NextRound(19, Registers(0xdc64901d, 0x82aa6728, 0xd3a49608, 0xc82f758b, 0xc65afb9d), 0x85898e01);
    NextRound(20, Registers(0xfd9e1d7d, 0xdc64901d, 0x20aa99ca, 0xd3a49608, 0xc82f758b), 0x00000000);
    NextRound(21, Registers(0x1a37b0ca, 0xfd9e1d7d, 0x77192407, 0x20aa99ca, 0xd3a49608), 0x00000060);
    NextRound(22, Registers(0x33a23bfc, 0x1a37b0ca, 0x7f67875f, 0x77192407, 0x20aa99ca), 0x0b131c03);
    NextRound(23, Registers(0x21283486, 0x33a23bfc, 0x868dec32, 0x7f67875f, 0x77192407), 0x00000030);
  }

  lemma Rounds24To31()
    ensures |BLOCK| == 64
    ensures Rounds(BLOCK, H0, 32) == Registers(0x3b845d33, 0x1267b407, 0x717eebd7, 0xa0dc2d4b, 0xd2aa1365)
  {
    hide W, Rounds;
    Rounds16To23();
    Words24To31();
    NextRound(24, Registers(0xd541f12d, 0x21283486, 0x0ce88eff, 0x868dec32, 0x7f67875f), 0x85898ec1);
    NextRound(25, Registers(0xc7567dc6, 0xd541f12d, 0x884a0d21, 0x0ce88eff, 0x868dec32), 0x16263806);
    NextRound(26, Registers(0x48413ba4, 0xc7567dc6, 0x75507c4b, 0x884a0d21, 0x0ce88eff), 0x00000000);
    NextRound(27, Registers(0xbe35fbd5, 0x48413ba4, 0xb1d59f71, 0x75507c4b, 0x884a0d21), 0x00000180);
    NextRound(28, Registers(0x4aa84d97, 0xbe35fbd5, 0x12104ee9, 0xb1d59f71, 0x75507c4b), 0x2c4c700c);
    NextRound(29, Registers(0x8370b52e, 0x4aa84d97, 0x6f8d7ef5, 0x12104ee9, 0xb1d59f71), 0x000000f0);
    NextRound(30, Registers(0xc5fbaf5d, 0x8370b52e, 0xd2aa1365, 0x6f8d7ef5, 0x12104ee9), 0x93afb507);
    NextRound(31, Registers(0x1267b407, 0xc5fbaf5d, 0xa0dc2d4b, 0xd2aa1365, 0x6f8d7ef5), 0x5898e048);
  }

  lemma Rounds32To39()
    ensures |BLOCK| == 64
    ensures Rounds(BLOCK, H0, 40) == Registers(0x32de1cba, 0x4c986405, 0xf718e5cf, 0x03d447f6, 0xf72eec32)
  {
    hide W, Rounds;
    Rounds24To31();
    Words32To39();
    NextRound(32, Registers(0x3b845d33, 0x1267b407, 0x717eebd7, 0xa0dc2d4b, 0xd2aa1365), 0x8e9a9202);
    NextRound(33, Registers(0x046faa0a, 0x3b845d33, 0xc499ed01, 0x717eebd7, 0xa0dc2d4b), 0x00000600);
    NextRound(34, Registers(0x2c0ebc11, 0x046faa0a, 0xcee1174c, 0xc499ed01, 0x717eebd7), 0xb131c0f0);
    NextRound(35, Registers(0x21796ad4, 0x2c0ebc11, 0x811bea82, 0xcee1174c, 0xc499ed01), 0x16263bc6);
    NextRound(36, Registers(0xdcbbb0cb, 0x21796ad4, 0x4b03af04, 0x811bea82, 0xcee1174c), 0x4ebed41e);
    NextRound(37, Registers(0x0f511fd8, 0xdcbbb0cb, 0x085e5ab5, 0x4b03af04, 0x811bea82), 0x626380a1);
    NextRound(38, Registers(0xdc63973f, 0x0f511fd8, 0xf72eec32, 0x085e5ab5, 0x4b03af04), 0x16263806);
    NextRound(39, Registers(0x4c986405, 0xdc63973f, 0x03d447f6, 0xf72eec32, 0x085e5ab5), 0x000018c0);
  }

  lemma Rounds40To47()
    ensures |BLOCK| == 64
    ensures Rounds(BLOCK, H0, 48) == Registers(0xbead02ca, 0xa01b846c, 0x8714787c, 0x503ca382, 0xfb86c6ab)
  {
    hide W, Rounds;
    Rounds32To39();
    Words40To47();
    NextRound(40, Registers(0x32de1cba, 0x4c986405, 0xf718e5cf, 0x03d447f6, 0xf72eec32), 0xd2e138c4);
    NextRound(41, Registers(0xfc87dedf, 0x32de1cba, 0x53261901, 0xf718e5cf, 0x03d447f6), 0x00000f00);
    NextRound(42, Registers(0x970a0d5c, 0xfc87dedf, 0x8cb7872e, 0x53261901, 0xf718e5cf), 0x3afb5079);
    NextRound(43, Registers(0x7f193dc5, 0x970a0d5c, 0xff21f7b7, 0x8cb7872e, 0x53261901), 0x898e04e5);
    NextRound(44, Registers(0xee1b1aaf, 0x7f193dc5, 0x25c28357, 0xff21f7b7, 0x8cb7872e), 0xe2ba3c2b);
    NextRound(45, Registers(0x40f28e09, 0xee1b1aaf, 0x5fc64f71, 0x25c28357, 0xff21f7b7), 0x000060c0);
    NextRound(46, Registers(0x1c51e1f2, 0x40f28e09, 0xfb86c6ab, 0x5fc64f71, 0x25c28357), 0x053a37cd);
    NextRound(47, Registers(0xa01b846c, 0x1c51e1f2, 0x503ca382, 0xfb86c6ab, 0x5fc64f71), 0x74458547);
  }

  lemma Rounds48To55()
    ensures |BLOCK| == 64
    ensures Rounds(BLOCK, H0, 56) == Registers(0x5e6456af, 0x7b71f76d, 0x09fa7c76, 0x792410db, 0x8e11eb59)
  {
    hide W, Rounds;
    Rounds40To47();
    Words48To55();
    NextRound(48, Registers(0xbead02ca, 0xa01b846c, 0x8714787c, 0x503ca382, 0xfb86c6ab), 0xda9415ed);
    NextRound(49, Registers(0xbaf39337, 0xbead02ca, 0x2806e11b, 0x8714787c, 0x503ca382), 0x26380a16);
    NextRound(50, Registers(0x120731c5, 0xbaf39337, 0xafab40b2, 0x2806e11b, 0x8714787c), 0x626383a1);
    NextRound(51, Registers(0x641db2ce, 0x120731c5, 0xeebce4cd, 0xafab40b2, 0x2806e11b), 0x4ebf54de);
    NextRound(52, Registers(0x3847ad66, 0x641db2ce, 0x4481cc71, 0xeebce4cd, 0xafab40b2), 0x3835b44b);
    NextRound(53, Registers(0xe490436d, 0x3847ad66, 0x99076cb3, 0x4481cc71, 0xeebce4cd), 0x0000f600);
    NextRound(54, Registers(0x27e9f1d8, 0xe490436d, 0x8e11eb59, 0x99076cb3, 0x4481cc71), 0x1e84c7a3);
    NextRound(55, Registers(0x7b71f76d, 0x27e9f1d8, 0x792410db, 0x8e11eb59, 0x99076cb3), 0x98e04d98);
  }

  lemma Rounds56To63()
    ensures |BLOCK| == 64
    ensures Rounds(BLOCK, H0, 64) == Registers(0x6b61c9e1, 0xb66c020b, 0x9523272c, 0xf5d5b051, 0x8fd4b796)
  {
    hide W, Rounds;
    Rounds48To55();
    Words56To63();
    NextRound(56, Registers(0x5e6456af, 0x7b71f76d, 0x09fa7c76, 0x792410db, 0x8e11eb59), 0x651d16a0);
    NextRound(57, Registers(0xc846093f, 0x5e6456af, 0x5edc7ddb, 0x09fa7c76, 0x792410db), 0x62658ca1);
    NextRound(58, Registers(0xd262ff50, 0xc846093f, 0xd79915ab, 0x5edc7ddb, 0x09fa7c76), 0x458544d6);
    NextRound(59, Registers(0x09d785fd, 0xd262ff50, 0xf211824f, 0xd79915ab, 0x5edc7ddb), 0x44584cb7);
    NextRound(60, Registers(0x3f52de5a, 0x09d785fd, 0x3498bfd4, 0xf211824f, 0xd79915ab), 0x7ba06619);
    NextRound(61, Registers(0xd756c147, 0x3f52de5a, 0x4275e17f, 0x3498bfd4, 0xf211824f), 0x6380aea2);
    NextRound(62, Registers(0x548c9cb2, 0xd756c147, 0x8fd4b796, 0x4275e17f, 0x3498bfd4), 0x0ae55269);
    NextRound(63, Registers(0xb66c020b, 0x548c9cb2, 0xf5d5b051, 0x8fd4b796, 0x4275e17f), 0x627b49a1);
  }

  lemma Rounds64To71()
    ensures |BLOCK| == 64
    ensures Rounds(BLOCK, H0, 72) == Registers(0x39859de7, 0xc199f8c7, 0x8fc96230, 0x125c24f0, 0xde37534a)
  {
    hide W, Rounds;
    Rounds56To63();
    Words64To71();
    NextRound(64, Registers(0x6b61c9e1, 0xb66c020b, 0x9523272c, 0xf5d5b051, 0x8fd4b796), 0x7cd45c9d);
    NextRound(65, Registers(0x19dfa7ac, 0x6b61c9e1, 0xed9b0082, 0x9523272c, 0xf5d5b051), 0x000f0000);
    NextRound(66, Registers(0x101655f9, 0x19dfa7ac, 0x5ad87278, 0xed9b0082, 0x9523272c), 0xfb50753a);
    NextRound(67, Registers(0x0c3df2b4, 0x101655f9, 0x0677e9eb, 0x5ad87278, 0xed9b0082), 0xec6765e8);
    NextRound(68, Registers(0x78dd4d2b, 0x0c3df2b4, 0x4405957e, 0x0677e9eb, 0x5ad87278), 0xba3c2be2);
    NextRound(69, Registers(0x497093c0, 0x78dd4d2b, 0x030f7cad, 0x4405957e, 0x0677e9eb), 0x0060c000);
    NextRound(70, Registers(0x3f2588c2, 0x497093c0, 0xde37534a, 0x030f7cad, 0x4405957e), 0x3a37cd05);
    NextRound(71, Registers(0xc199f8c7, 0x3f2588c2, 0x125c24f0, 0xde37534a, 0x030f7cad), 0x458546f4);
  }

  lemma Rounds72To79()
    ensures |BLOCK| == 64
    ensures Rounds(BLOCK, H0, 80) == Registers(0x42541b35, 0x5738d5e1, 0x21834873, 0x681e6df6, 0xd8fdf6ad)
  {
    hide W, Rounds;
    Rounds64To71();
    Words72To79();
    NextRound(72, Registers(0x39859de7, 0xc199f8c7, 0x8fc96230, 0x125c24f0, 0xde37534a), 0xb8599dd6);
    NextRound(73, Registers(0xedb42de4, 0x39859de7, 0xf0667e31, 0x8fc96230, 0x125c24f0), 0x380a1a26);
    NextRound(74, Registers(0x11793f6f, 0xedb42de4, 0xce616779, 0xf0667e31, 0x8fc96230), 0x01e02203);
    NextRound(75, Registers(0x5ee76897, 0x11793f6f, 0x3b6d0b79, 0xce616779, 0xf0667e31), 0xe7cc3456);
    NextRound(76, Registers(0x63f7dab7, 0x5ee76897, 0xc45e4fdb, 0x3b6d0b79, 0xce616779), 0xe6e60b69);
    NextRound(77, Registers(0xa079b7d9, 0x63f7dab7, 0xd7b9da25, 0xc45e4fdb, 0x3b6d0b79), 0x00f60a00);
    NextRound(78, Registers(0x860d21cc, 0xa079b7d9, 0xd8fdf6ad, 0xd7b9da25, 0xc45e4fdb), 0x5795ef4f);
    NextRound(79, Registers(0x5738d5e1, 0x860d21cc, 0x681e6df6, 0xd8fdf6ad, 0xd7b9da25), 0x822e0879);
  }

  lemma NoRounds()
    ensures |BLOCK| == 64 && Rounds(BLOCK, H0, 0) == H0
  {
  }

  // The digest is A9993E36 4706816A BA3E2571 7850C26C 9CD0D89D.
  lemma DigestOfAbc()
    ensures Digest(MESSAGE) == [0xa9, 0x99, 0x3e, 0x36, 0x47, 0x06, 0x81, 0x6a, 0xba, 0x3e,
                                0x25, 0x71, 0x78, 0x50, 0xc2, 0x6c, 0x9c, 0xd0, 0xd8, 0x9d]
  {
    hide Rounds, Padded;
    PaddedMessage();
    Rounds72To79();
    assert BLOCK[..|BLOCK| - 64] == [] && BLOCK[|BLOCK| - 64..] == BLOCK;
    assert Chain([]) == H0;
    assert Chain(BLOCK) == Registers(0xa9993e36, 0x4706816a, 0xba3e2571, 0x7850c26c, 0x9cd0d89d);
  }
}
