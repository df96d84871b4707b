/** The key expansions of FIPS 197, appendix A, and a block under each of its three keys. */
module AesVectors {
  import opened AesNumbers
  import opened Bytes
  import opened Fips197
  import opened SubstitutionBox

  ghost const KEY_128: AesKey := B(0x2b7e151628aed2a6abf7158809cf4f3c)
  ghost const KEY_192: AesKey := B(0x8e73b0f7da0e6452c810f32b809079e5) + (W(0x62f8ead2) + W(0x522c6b7b))
  ghost const KEY_256: AesKey := B(0x603deb1015ca71be2b73aef0857d7781) + B(0x1f352c073b6108d72d9810a30914dff4)

  lemma RoundConstants()
    ensures Rcon(1) == Byte(0x01) && Rcon(2) == Byte(0x02) && Rcon(3) == Byte(0x04) && Rcon(4) == Byte(0x08)
    ensures Rcon(5) == Byte(0x10) && Rcon(6) == Byte(0x20) && Rcon(7) == Byte(0x40) && Rcon(8) == Byte(0x80)
    ensures Rcon(9) == Byte(0x1b) && Rcon(10) == Byte(0x36)
  {
  }

  lemma FirstWords128()
    ensures |KEY_128| == 16 && Row(KEY_128, 0, 0x2b7e151628aed2a6abf7158809cf4f3c)
  {
    hide B, Row;
    assert KEY_128[16 * 0..16 * 0 + 16] == B(0x2b7e151628aed2a6abf7158809cf4f3c);
    RowOfKey(KEY_128, 0, 0x2b7e151628aed2a6abf7158809cf4f3c);
  }

  lemma FirstWords192()
    ensures |KEY_192| == 24 && Row(KEY_192, 0, 0x8e73b0f7da0e6452c810f32b809079e5)
    ensures KeyIs(KEY_192, 4, 0x62f8ead2) && KeyIs(KEY_192, 5, 0x522c6b7b)
  {
    hide B, W, Row;
    assert KEY_192[16 * 0..16 * 0 + 16] == B(0x8e73b0f7da0e6452c810f32b809079e5);
    RowOfKey(KEY_192, 0, 0x8e73b0f7da0e6452c810f32b809079e5);
    assert KEY_192[4 * 4..4 * 4 + 4] == W(0x62f8ead2) && KEY_192[4 * 5..4 * 5 + 4] == W(0x522c6b7b);
  }

  lemma FirstWords256()
    ensures |KEY_256| == 32 && Row(KEY_256, 0, 0x603deb1015ca71be2b73aef0857d7781)
    ensures Row(KEY_256, 1, 0x1f352c073b6108d72d9810a30914dff4)
  {
    hide B, Row;
    assert KEY_256[16 * 0..16 * 0 + 16] == B(0x603deb1015ca71be2b73aef0857d7781);
    RowOfKey(KEY_256, 0, 0x603deb1015ca71be2b73aef0857d7781);
    assert KEY_256[16 * 1..16 * 1 + 16] == B(0x1f352c073b6108d72d9810a30914dff4);
    RowOfKey(KEY_256, 1, 0x1f352c073b6108d72d9810a30914dff4);
  }

  /** The expanded key of appendix A.1 of FIPS 197, four words at a time. */
  lemma Expanded128()
    ensures |KEY_128| == 16
    ensures Row(KEY_128, 0, 0x2b7e151628aed2a6abf7158809cf4f3c) && Row(KEY_128, 1, 0xa0fafe1788542cb123a339392a6c7605)
    ensures Row(KEY_128, 2, 0xf2c295f27a96b9435935807a7359f67f) && Row(KEY_128, 3, 0x3d80477d4716fe3e1e237e446d7a883b)
    ensures Row(KEY_128, 4, 0xef44a541a8525b7fb671253bdb0bad00) && Row(KEY_128, 5, 0xd4d1c6f87c839d87caf2b8bc11f915bc)
    ensures Row(KEY_128, 6, 0x6d88a37a110b3efddbf98641ca0093fd) && Row(KEY_128, 7, 0x4e54f70e5f5fc9f384a64fb24ea6dc4f)
    ensures Row(KEY_128, 8, 0xead27321b58dbad2312bf5607f8d292f) && Row(KEY_128, 9, 0xac7766f319fadc2128d12941575c006e)
    ensures Row(KEY_128, 10, 0xd014f9a8c9ee2589e13f0cc8b6630ca6)
  {
    hide Look, KeyIs, Rcon;
    TableHolds();
    RoundConstants();
    FirstWords128();
    NextStart(KEY_128, 4, 4, 0x01, 0x2b7e1516, 0x09cf4f3c, 0xa0fafe17);
    NextElsewhere(KEY_128, 4, 5, 0x28aed2a6, 0xa0fafe17);
    NextElsewhere(KEY_128, 4, 6, 0xabf71588, 0x88542cb1);
    NextElsewhere(KEY_128, 4, 7, 0x09cf4f3c, 0x23a33939);
    NextStart(KEY_128, 4, 8, 0x02, 0xa0fafe17, 0x2a6c7605, 0xf2c295f2);
    NextElsewhere(KEY_128, 4, 9, 0x88542cb1, 0xf2c295f2);
    NextElsewhere(KEY_128, 4, 10, 0x23a33939, 0x7a96b943);
    NextElsewhere(KEY_128, 4, 11, 0x2a6c7605, 0x5935807a);
    NextStart(KEY_128, 4, 12, 0x04, 0xf2c295f2, 0x7359f67f, 0x3d80477d);
    NextElsewhere(KEY_128, 4, 13, 0x7a96b943, 0x3d80477d);
    NextElsewhere(KEY_128, 4, 14, 0x5935807a, 0x4716fe3e);
    NextElsewhere(KEY_128, 4, 15, 0x7359f67f, 0x1e237e44);
    NextStart(KEY_128, 4, 16, 0x08, 0x3d80477d, 0x6d7a883b, 0xef44a541);
    NextElsewhere(KEY_128, 4, 17, 0x4716fe3e, 0xef44a541);
    NextElsewhere(KEY_128, 4, 18, 0x1e237e44, 0xa8525b7f);
    NextElsewhere(KEY_128, 4, 19, 0x6d7a883b, 0xb671253b);
    NextStart(KEY_128, 4, 20, 0x10, 0xef44a541, 0xdb0bad00, 0xd4d1c6f8);
    NextElsewhere(KEY_128, 4, 21, 0xa8525b7f, 0xd4d1c6f8);
    NextElsewhere(KEY_128, 4, 22, 0xb671253b, 0x7c839d87);
    NextElsewhere(KEY_128, 4, 23, 0xdb0bad00, 0xcaf2b8bc);
    NextStart(KEY_128, 4, 24, 0x20, 0xd4d1c6f8, 0x11f915bc, 0x6d88a37a);
    NextElsewhere(KEY_128, 4, 25, 0x7c839d87, 0x6d88a37a);
    NextElsewhere(KEY_128, 4, 26, 0xcaf2b8bc, 0x110b3efd);
    NextElsewhere(KEY_128, 4, 27, 0x11f915bc, 0xdbf98641);
    NextStart(KEY_128, 4, 28, 0x40, 0x6d88a37a, 0xca0093fd, 0x4e54f70e);
    NextElsewhere(KEY_128, 4, 29, 0x110b3efd, 0x4e54f70e);
    NextElsewhere(KEY_128, 4, 30, 0xdbf98641, 0x5f5fc9f3);
    NextElsewhere(KEY_128, 4, 31, 0xca0093fd, 0x84a64fb2);
    NextStart(KEY_128, 4, 32, 0x80, 0x4e54f70e, 0x4ea6dc4f, 0xead27321);
    NextElsewhere(KEY_128, 4, 33, 0x5f5fc9f3, 0xead27321);
    NextElsewhere(KEY_128, 4, 34, 0x84a64fb2, 0xb58dbad2);
    NextElsewhere(KEY_128, 4, 35, 0x4ea6dc4f, 0x312bf560);
    NextStart(KEY_128, 4, 36, 0x1b, 0xead27321, 0x7f8d292f, 0xac7766f3);
    NextElsewhere(KEY_128, 4, 37, 0xb58dbad2, 0xac7766f3);
    NextElsewhere(KEY_128, 4, 38, 0x312bf560, 0x19fadc21);
    NextElsewhere(KEY_128, 4, 39, 0x7f8d292f, 0x28d12941);
    NextStart(KEY_128, 4, 40, 0x36, 0xac7766f3, 0x575c006e, 0xd014f9a8);
    NextElsewhere(KEY_128, 4, 41, 0x19fadc21, 0xd014f9a8);
    NextElsewhere(KEY_128, 4, 42, 0x28d12941, 0xc9ee2589);
    NextElsewhere(KEY_128, 4, 43, 0x575c006e, 0xe13f0cc8);
  }

  /** The expanded key of appendix A.2 of FIPS 197, four words at a time. */
  lemma Expanded192()
    ensures |KEY_192| == 24
    ensures Row(KEY_192, 0, 0x8e73b0f7da0e6452c810f32b809079e5) && Row(KEY_192, 1, 0x62f8ead2522c6b7bfe0c91f72402f5a5)
    ensures Row(KEY_192, 2, 0xec12068e6c827f6b0e7a95b95c56fec2) && Row(KEY_192, 3, 0x4db7b4bd69b5411885a74796e92538fd)
    ensures Row(KEY_192, 4, 0xe75fad44bb095386485af05721efb14f) && Row(KEY_192, 5, 0xa448f6d94d6dce24aa326360113b30e6)
    ensures Row(KEY_192, 6, 0xa25e7ed583b1cf9a27f939436a94f767) && Row(KEY_192, 7, 0xc0a69407d19da4e1ec1786eb6fa64971)
    ensures Row(KEY_192, 8, 0x485f703222cb8755e26d135233f0b7b3) && Row(KEY_192, 9, 0x40beeb282f18a2596747d26b458c553e)
    ensures Row(KEY_192, 10, 0xa7e1466c9411f1df821f750aad07d753) && Row(KEY_192, 11, 0xca4005388fcc5006282d166abc3ce7b5)
    ensures Row(KEY_192, 12, 0xe98ba06f448c773c8ecc720401002202)
  {
    hide Look, KeyIs, Rcon;
    TableHolds();
    RoundConstants();
    FirstWords192();
    NextStart(KEY_192, 6, 6, 0x01, 0x8e73b0f7, 0x522c6b7b, 0xfe0c91f7);
    NextElsewhere(KEY_192, 6, 7, 0xda0e6452, 0xfe0c91f7);
    NextElsewhere(KEY_192, 6, 8, 0xc810f32b, 0x2402f5a5);
    NextElsewhere(KEY_192, 6, 9, 0x809079e5, 0xec12068e);
    NextElsewhere(KEY_192, 6, 10, 0x62f8ead2, 0x6c827f6b);
    NextElsewhere(KEY_192, 6, 11, 0x522c6b7b, 0x0e7a95b9);
    NextStart(KEY_192, 6, 12, 0x02, 0xfe0c91f7, 0x5c56fec2, 0x4db7b4bd);
    NextElsewhere(KEY_192, 6, 13, 0x2402f5a5, 0x4db7b4bd);
    NextElsewhere(KEY_192, 6, 14, 0xec12068e, 0x69b54118);
    NextElsewhere(KEY_192, 6, 15, 0x6c827f6b, 0x85a74796);
    NextElsewhere(KEY_192, 6, 16, 0x0e7a95b9, 0xe92538fd);
    NextElsewhere(KEY_192, 6, 17, 0x5c56fec2, 0xe75fad44);
    NextStart(KEY_192, 6, 18, 0x04, 0x4db7b4bd, 0xbb095386, 0x485af057);
    NextElsewhere(KEY_192, 6, 19, 0x69b54118, 0x485af057);
    NextElsewhere(KEY_192, 6, 20, 0x85a74796, 0x21efb14f);
    NextElsewhere(KEY_192, 6, 21, 0xe92538fd, 0xa448f6d9);
    NextElsewhere(KEY_192, 6, 22, 0xe75fad44, 0x4d6dce24);
    NextElsewhere(KEY_192, 6, 23, 0xbb095386, 0xaa326360);
    NextStart(KEY_192, 6, 24, 0x08, 0x485af057, 0x113b30e6, 0xa25e7ed5);
    NextElsewhere(KEY_192, 6, 25, 0x21efb14f, 0xa25e7ed5);
    NextElsewhere(KEY_192, 6, 26, 0xa448f6d9, 0x83b1cf9a);
    NextElsewhere(KEY_192, 6, 27, 0x4d6dce24, 0x27f93943);
    NextElsewhere(KEY_192, 6, 28, 0xaa326360, 0x6a94f767);
    NextElsewhere(KEY_192, 6, 29, 0x113b30e6, 0xc0a69407);
    NextStart(KEY_192, 6, 30, 0x10, 0xa25e7ed5, 0xd19da4e1, 0xec1786eb);
    NextElsewhere(KEY_192, 6, 31, 0x83b1cf9a, 0xec1786eb);
    NextElsewhere(KEY_192, 6, 32, 0x27f93943, 0x6fa64971);
    NextElsewhere(KEY_192, 6, 33, 0x6a94f767, 0x485f7032);
    NextElsewhere(KEY_192, 6, 34, 0xc0a69407, 0x22cb8755);
    NextElsewhere(KEY_192, 6, 35, 0xd19da4e1, 0xe26d1352);
    NextStart(KEY_192, 6, 36, 0x20, 0xec1786eb, 0x33f0b7b3, 0x40beeb28);
    NextElsewhere(KEY_192, 6, 37, 0x6fa64971, 0x40beeb28);
    NextElsewhere(KEY_192, 6, 38, 0x485f7032, 0x2f18a259);
    NextElsewhere(KEY_192, 6, 39, 0x22cb8755, 0x6747d26b);
    NextElsewhere(KEY_192, 6, 40, 0xe26d1352, 0x458c553e);
    NextElsewhere(KEY_192, 6, 41, 0x33f0b7b3, 0xa7e1466c);
    NextStart(KEY_192, 6, 42, 0x40, 0x40beeb28, 0x9411f1df, 0x821f750a);
    NextElsewhere(KEY_192, 6, 43, 0x2f18a259, 0x821f750a);
    NextElsewhere(KEY_192, 6, 44, 0x6747d26b, 0xad07d753);
    NextElsewhere(KEY_192, 6, 45, 0x458c553e, 0xca400538);
    NextElsewhere(KEY_192, 6, 46, 0xa7e1466c, 0x8fcc5006);
    NextElsewhere(KEY_192, 6, 47, 0x9411f1df, 0x282d166a);
    NextStart(KEY_192, 6, 48, 0x80, 0x821f750a, 0xbc3ce7b5, 0xe98ba06f);
    NextElsewhere(KEY_192, 6, 49, 0xad07d753, 0xe98ba06f);
    NextElsewhere(KEY_192, 6, 50, 0xca400538, 0x448c773c);
    NextElsewhere(KEY_192, 6, 51, 0x8fcc5006, 0x8ecc7204);
  }

  /** The first eight rows of appendix A.3. */
  lemma HalfExpanded256()
    ensures |KEY_256| == 32
    ensures Row(KEY_256, 0, 0x603deb1015ca71be2b73aef0857d7781) && Row(KEY_256, 1, 0x1f352c073b6108d72d9810a30914dff4)
    ensures Row(KEY_256, 2, 0x9ba354118e6925afa51a8b5f2067fcde) && Row(KEY_256, 3, 0xa8b09c1a93d194cdbe49846eb75d5b9a)
    ensures Row(KEY_256, 4, 0xd59aecb85bf3c917fee94248de8ebe96) && Row(KEY_256, 5, 0xb5a9328a2678a647983122292f6c79b3)
    ensures Row(KEY_256, 6, 0x812c81addadf48ba24360af2fab8b464) && Row(KEY_256, 7, 0x98c5bfc9bebd198e268c3ba709e04214)
  {
    hide Look, KeyIs, Rcon;
    TableHolds();
    RoundConstants();
    FirstWords256();
    NextStart(KEY_256, 8, 8, 0x01, 0x603deb10, 0x0914dff4, 0x9ba35411);
    NextElsewhere(KEY_256, 8, 9, 0x15ca71be, 0x9ba35411);
    NextElsewhere(KEY_256, 8, 10, 0x2b73aef0, 0x8e6925af);
    NextElsewhere(KEY_256, 8, 11, 0x857d7781, 0xa51a8b5f);
    NextMiddle(KEY_256, 12, 0x1f352c07, 0x2067fcde, 0xa8b09c1a);
    NextElsewhere(KEY_256, 8, 13, 0x3b6108d7, 0xa8b09c1a);
    NextElsewhere(KEY_256, 8, 14, 0x2d9810a3, 0x93d194cd);
    NextElsewhere(KEY_256, 8, 15, 0x0914dff4, 0xbe49846e);
    NextStart(KEY_256, 8, 16, 0x02, 0x9ba35411, 0xb75d5b9a, 0xd59aecb8);
    NextElsewhere(KEY_256, 8, 17, 0x8e6925af, 0xd59aecb8);
    NextElsewhere(KEY_256, 8, 18, 0xa51a8b5f, 0x5bf3c917);
    NextElsewhere(KEY_256, 8, 19, 0x2067fcde, 0xfee94248);
    NextMiddle(KEY_256, 20, 0xa8b09c1a, 0xde8ebe96, 0xb5a9328a);
    NextElsewhere(KEY_256, 8, 21, 0x93d194cd, 0xb5a9328a);
    NextElsewhere(KEY_256, 8, 22, 0xbe49846e, 0x2678a647);
    NextElsewhere(KEY_256, 8, 23, 0xb75d5b9a, 0x98312229);
    NextStart(KEY_256, 8, 24, 0x04, 0xd59aecb8, 0x2f6c79b3, 0x812c81ad);
    NextElsewhere(KEY_256, 8, 25, 0x5bf3c917, 0x812c81ad);
    NextElsewhere(KEY_256, 8, 26, 0xfee94248, 0xdadf48ba);
    NextElsewhere(KEY_256, 8, 27, 0xde8ebe96, 0x24360af2);
    NextMiddle(KEY_256, 28, 0xb5a9328a, 0xfab8b464, 0x98c5bfc9);
    NextElsewhere(KEY_256, 8, 29, 0x2678a647, 0x98c5bfc9);
    NextElsewhere(KEY_256, 8, 30, 0x98312229, 0xbebd198e);
    NextElsewhere(KEY_256, 8, 31, 0x2f6c79b3, 0x268c3ba7);
  }

  /** The expanded key of appendix A.3 of FIPS 197, four words at a time. */
  lemma Expanded256()
    ensures |KEY_256| == 32
    ensures Row(KEY_256, 0, 0x603deb1015ca71be2b73aef0857d7781) && Row(KEY_256, 1, 0x1f352c073b6108d72d9810a30914dff4)
    ensures Row(KEY_256, 2, 0x9ba354118e6925afa51a8b5f2067fcde) && Row(KEY_256, 3, 0xa8b09c1a93d194cdbe49846eb75d5b9a)
    ensures Row(KEY_256, 4, 0xd59aecb85bf3c917fee94248de8ebe96) && Row(KEY_256, 5, 0xb5a9328a2678a647983122292f6c79b3)
    ensures Row(KEY_256, 6, 0x812c81addadf48ba24360af2fab8b464) && Row(KEY_256, 7, 0x98c5bfc9bebd198e268c3ba709e04214)
    ensures Row(KEY_256, 8, 0x68007bacb2df331696e939e46c518d80) && Row(KEY_256, 9, 0xc814e20476a9fb8a5025c02d59c58239)
    ensures Row(KEY_256, 10, 0xde1369676ccc5a71fa2563959674ee15) && Row(KEY_256, 11, 0x5886ca5d2e2f31d77e0af1fa27cf73c3)
    ensures Row(KEY_256, 12, 0x749c47ab18501ddae2757e4f7401905a) && Row(KEY_256, 13, 0xcafaaae3e4d59b349adf6acebd10190d)
    ensures Row(KEY_256, 14, 0xfe4890d1e6188d0b046df344706c631e)
  {
    hide Look, KeyIs, Rcon;
    TableHolds();
    RoundConstants();
    HalfExpanded256();
    NextStart(KEY_256, 8, 32, 0x08, 0x812c81ad, 0x09e04214, 0x68007bac);
    NextElsewhere(KEY_256, 8, 33, 0xdadf48ba, 0x68007bac);
    NextElsewhere(KEY_256, 8, 34, 0x24360af2, 0xb2df3316);
    NextElsewhere(KEY_256, 8, 35, 0xfab8b464, 0x96e939e4);
    NextMiddle(KEY_256, 36, 0x98c5bfc9, 0x6c518d80, 0xc814e204);
    NextElsewhere(KEY_256, 8, 37, 0xbebd198e, 0xc814e204);
    NextElsewhere(KEY_256, 8, 38, 0x268c3ba7, 0x76a9fb8a);
    NextElsewhere(KEY_256, 8, 39, 0x09e04214, 0x5025c02d);
    NextStart(KEY_256, 8, 40, 0x10, 0x68007bac, 0x59c58239, 0xde136967);
    NextElsewhere(KEY_256, 8, 41, 0xb2df3316, 0xde136967);
    NextElsewhere(KEY_256, 8, 42, 0x96e939e4, 0x6ccc5a71);
    NextElsewhere(KEY_256, 8, 43, 0x6c518d80, 0xfa256395);
    NextMiddle(KEY_256, 44, 0xc814e204, 0x9674ee15, 0x5886ca5d);
    NextElsewhere(KEY_256, 8, 45, 0x76a9fb8a, 0x5886ca5d);
    NextElsewhere(KEY_256, 8, 46, 0x5025c02d, 0x2e2f31d7);
    NextElsewhere(KEY_256, 8, 47, 0x59c58239, 0x7e0af1fa);
    NextStart(KEY_256, 8, 48, 0x20, 0xde136967, 0x27cf73c3, 0x749c47ab);
    NextElsewhere(KEY_256, 8, 49, 0x6ccc5a71, 0x749c47ab);
    NextElsewhere(KEY_256, 8, 50, 0xfa256395, 0x18501dda);
    NextElsewhere(KEY_256, 8, 51, 0x9674ee15, 0xe2757e4f);
    NextMiddle(KEY_256, 52, 0x5886ca5d, 0x7401905a, 0xcafaaae3);
    NextElsewhere(KEY_256, 8, 53, 0x2e2f31d7, 0xcafaaae3);
    NextElsewhere(KEY_256, 8, 54, 0x7e0af1fa, 0xe4d59b34);
    NextElsewhere(KEY_256, 8, 55, 0x27cf73c3, 0x9adf6ace);
    NextStart(KEY_256, 8, 56, 0x40, 0x749c47ab, 0xbd10190d, 0xfe4890d1);
    NextElsewhere(KEY_256, 8, 57, 0x18501dda, 0xfe4890d1);
    NextElsewhere(KEY_256, 8, 58, 0xe2757e4f, 0xe6188d0b);
    NextElsewhere(KEY_256, 8, 59, 0x7401905a, 0x046df344);
  }

  /** The block of appendix B of FIPS 197. */
  lemma Block128()
    ensures AesUnder(KEY_128)(B(0x3243f6a8885a308d313198a2e0370734)) ==
            B(0x3925841d02dc09fbdc118597196a0b32)
  {
    hide Look, B, AesUnder, RoundsOn, Row;
    TableHolds();
    Expanded128();
    FirstAdd(KEY_128, 0x3243f6a8885a308d313198a2e0370734, 0x2b7e151628aed2a6abf7158809cf4f3c);
    NextRound(KEY_128, 1, 0xa0fafe1788542cb123a339392a6c7605, 0x193de3bea0f4e22b9ac68d2ae9f84808,
              0xd4bf5d30e0b452aeb84111f11e2798e5, 0x046681e5e0cb199a48f8d37a2806264c);
    NextRound(KEY_128, 2, 0xf2c295f27a96b9435935807a7359f67f, 0xa49c7ff2689f352b6b5bea43026a5049,
              0x49db873b453953897f02d2f177de961a, 0x584dcaf11b4b5aacdbe7caa81b6bb0e5);
    NextRound(KEY_128, 3, 0x3d80477d4716fe3e1e237e446d7a883b, 0xaa8f5f0361dde3ef82d24ad26832469a,
              0xacc1d6b8efb55a7b1323cfdf457311b5, 0x75ec0993200b633353c0cf7cbb25d0dc);
    NextRound(KEY_128, 4, 0xef44a541a8525b7fb671253bdb0bad00, 0x486c4eee671d9d0d4de3b138d65f58e7,
              0x52a4c89485116a28e3cf2fd7f6505e07, 0x0fd6daa9603138bf6fc0106b5eb31301);
    NextRound(KEY_128, 5, 0xd4d1c6f87c839d87caf2b8bc11f915bc, 0xe0927fe8c86363c0d9b1355085b8be01,
              0xe1fb967ce8c8ae9b356cd2ba974ffb53, 0x25d1a9adbd11d168b63a338e4c4cc0b0);
    NextRound(KEY_128, 6, 0x6d88a37a110b3efddbf98641ca0093fd, 0xf1006f55c1924cef7cc88b325db5d50c,
              0xa14f3dfe78e803fc10d5a8df4c632923, 0x4b868d6d2c4a8980339df4e837d218d8);
    NextRound(KEY_128, 7, 0x4e54f70e5f5fc9f384a64fb24ea6dc4f, 0x260e2e173d41b77de86472a9fdd28b25,
              0xf783403f27433df09bb531ff54aba9d3, 0x1415b5bf461615ec274656d7342ad843);
    NextRound(KEY_128, 8, 0xead27321b58dbad2312bf5607f8d292f, 0x5a4142b11949dc1fa3e019657a8c040c,
              0xbe3bd4fed4e1f2c80a642cc0da83864d, 0x00512fd1b1c889ff54766dcdfa1b99ea);
    NextRound(KEY_128, 9, 0xac7766f319fadc2128d12941575c006e, 0xea835cf00445332d655d98ad8596b0c5,
              0x876e46a6f24ce78c4d904ad897ecc395, 0x473794ed40d4e4a5a3703aa64c9f42bc);
    LastRound(KEY_128, 10, 0xd014f9a8c9ee2589e13f0cc8b6630ca6, 0xeb40f21e592e38848ba113e71bc342d2,
              0xe9317db5cb322c723d2e895faf090794);
  }

  /** The first block of section F.1.3 of NIST SP 800-38A. */
  lemma Block192()
    ensures AesUnder(KEY_192)(B(0x6bc1bee22e409f96e93d7e117393172a)) ==
            B(0xbd334f1d6e45f25ff712a214571fa5cc)
  {
    hide Look, B, AesUnder, RoundsOn, Row;
    TableHolds();
    Expanded192();
    FirstAdd(KEY_192, 0x6bc1bee22e409f96e93d7e117393172a, 0x8e73b0f7da0e6452c810f32b809079e5);
    NextRound(KEY_192, 1, 0x62f8ead2522c6b7bfe0c91f72402f5a5, 0xe5b20e15f44efbc4212d8d3af3036ecf,
              0xd92f5d8abfd89f59fd7bab1c0d370f80, 0x0feac90dd0f7a92fdbf1eff4ccf2bf34);
    NextRound(KEY_192, 2, 0xec12068e6c827f6b0e7a95b95c56fec2, 0x6d1223df82dbc25425fd7e03e8f04a91,
              0x3cb9f3811354d69e3f8c26209bc9257b, 0xdadae01792444990f7769fab330695ac);
    NextRound(KEY_192, 3, 0x4db7b4bd69b5411885a74796e92538fd, 0x36c8e699fec636fbf90c0a126f506b6e,
              0x05b4679fbbfe7fee99538e0fa8e805c9, 0x3540c5f9e53392905db9dc73a4a50a87);
    NextRound(KEY_192, 4, 0xe75fad44bb095386485af05721efb14f, 0x78f771448c86d388d81e9be54d80327a,
              0xbc4414da6472231b61cda3c4e36866d9, 0x61d2a52066fe7dcbe9daa65eda403799);
    NextRound(KEY_192, 5, 0xa448f6d94d6dce24aa326360113b30e6, 0x868d0864ddf72e4da1805609fbaf86d6,
              0x4468b1f6c1cd4443327930e30f5d3101, 0x77aa54e2d2cf41573c7315c2c9e7337f);
    NextRound(KEY_192, 6, 0xa25e7ed583b1cf9a27f939436a94f767, 0xd3e2a23b9fa28f73964176a2d8dc0399,
              0x663a38eedb837be290863a8f6198733a, 0x54b4056faaa993511f46e81238e5513c);
    NextRound(KEY_192, 7, 0xc0a69407d19da4e1ec1786eb6fa64971, 0xf6ea7bba29185ccb38bfd1515271a65b,
              0x42ad3e39a50824f407a3211f00874ad1, 0x6f78d827992de22bce26c7b5091a7b74);
    NextRound(KEY_192, 8, 0x485f703222cb8755e26d135233f0b7b3, 0xafde4c2048b046ca2231415e66bc3205,
              0x79e7836b52c723b793652974331d5a58, 0x28593e3962151167cf56380a43bf72a2);
    NextRound(KEY_192, 9, 0x40beeb282f18a2596747d26b458c553e, 0x60064e0b40de96322d3b2b58704fc511,
              0xd01df18209e2a62bd8842f23516f906a, 0xef60a998a20cc1093099679ee94ebbd8);
    NextRound(KEY_192, 10, 0xa7e1466c9411f1df821f750aad07d753, 0xafde42b08d14635057deb5f5acc2eee6,
              0x79fad58e5d1d28e75b252c53911dfbe6, 0xbc7cbba352f82207a636d342035b5099);
    NextRound(KEY_192, 11, 0xca4005388fcc5006282d166abc3ce7b5, 0x1b9dfdcfc6e9d3d82429a648ae5c87ca,
              0xaf1e2474b4a5178a364a5461e45e6652, 0x378b65381a56ba7a873f778605a080ab);
    LastRound(KEY_192, 12, 0xe98ba06f448c773c8ecc720401002202, 0xfdcb6000959aea7caf1261ecb99c671e,
              0x54b8ef722ac9856379ded010561f87ce);
  }

  /** The first block of section F.1.5 of NIST SP 800-38A. */
  lemma Block256()
    ensures AesUnder(KEY_256)(B(0x6bc1bee22e409f96e93d7e117393172a)) ==
            B(0xf3eed1bdb5d2a03c064b5a7e3db181f8)
  {
    hide Look, B, AesUnder, RoundsOn, Row;
    TableHolds();
    Expanded256();
    FirstAdd(KEY_256, 0x6bc1bee22e409f96e93d7e117393172a, 0x603deb1015ca71be2b73aef0857d7781);
    NextRound(KEY_256, 1, 0x1f352c073b6108d72d9810a30914dff4, 0x0bfc55f23b8aee28c24ed0e1f6ee60ab,
              0x2b7e7062e22fd0892528fc3442b028f8, 0xc62513b7f75ef6cbfa5eb2d39fb9b1b5);
    NextRound(KEY_256, 2, 0x9ba354118e6925afa51a8b5f2067fcde, 0xd9103fb0cc3ffe1cd7c6a27096ad6e41,
              0x35753a834bb49fe70e95759c90cabb51, 0x4c12aa0d2965e823513cced19498c478);
    NextRound(KEY_256, 3, 0xa8b09c1a93d194cdbe49846eb75d5b9a, 0xd7b1fe1ca70ccd8cf426458eb4ff38a6,
              0x0efe6e245cf7079cbf16bb648dc8bd19, 0x4f7f40ca213c1a37802168bfe6c30fcb);
    NextRound(KEY_256, 4, 0xd59aecb85bf3c917fee94248de8ebe96, 0xe7cfdcd0b2ed8efa3e68ecd1519e5451,
              0x9455ced137452070b20b862dd18a193e, 0xd3a62e85f1ada2dcc918d91a1bcb2b87);
    NextRound(KEY_256, 5, 0xb5a9328a2678a647983122292f6c79b3, 0x063cc23daa5e6bcb37f19b52c5459511,
              0x6f581482aca12a279a6e251fa6eb7f00, 0xa06182e2b6ac302aa7369fc00eeab365);
    NextRound(KEY_256, 6, 0x812c81addadf48ba24360af2fab8b464, 0x15c8b06890d4966d3f07bde92186cad6,
              0x59487af660c574457544e73cfde8901e, 0xe6b1e42ea528829bfdf3a0444c830c58);
    NextRound(KEY_256, 7, 0x98c5bfc9bebd198e268c3ba709e04214, 0x679d65837ff7ca21d9c5aab6b63bb83c,
              0x8568acebd2a66cec35e24dfd4e5e744e, 0xee51889dcedd8364e7c0511144202a64);
    NextRound(KEY_256, 8, 0x68007bacb2df331696e939e46c518d80, 0x7694375470609aeac14c6ab64dc06870,
              0x38d002515129452078ba9a87e322b84e, 0x48d41f38bcec92df38257fbd4d3a7838);
    NextRound(KEY_256, 9, 0xc814e20476a9fb8a5025c02d59c58239, 0x20d464940e33a1c9aecc4659216bf5b8,
              0xb7c35a6cab4be622e47f43ddfd4832cb, 0x1da87483542e510fcc0261aac0f097eb);
    NextRound(KEY_256, 10, 0xde1369676ccc5a71fa2563959674ee15, 0xd5bc96872287aa859c27a187993515d2,
              0x031732b593cc5917de969097ee65ac17, 0xb8ceb4513cecd41501d5d14ad3dcf1ce);
    NextRound(KEY_256, 11, 0x5886ca5d2e2f31d77e0af1fa27cf73c3, 0x66dddd3650208e64fbf0b2df45a81fdb,
              0x33b737b9538cc0050fc2c1436ec1199e, 0x2aa63abcec0e4bb3c18b91940342244d);
    NextRound(KEY_256, 12, 0x749c47ab18501ddae2757e4f7401905a, 0x7220f0e1c2217a64bf81606e248d578e,
              0x40fdd019250c5bf8085d8c4336b7da9f, 0x55d32ddffd288cd3387e934feba99412);
    NextRound(KEY_256, 13, 0xcafaaae3e4d59b349adf6acebd10190d, 0x214f6a74e5789109da0bed009fa80448,
              0xfdbc5552d92bf29257c20201db848163, 0x39331d51b410a096f0cf923bd833e3b5);
    LastRound(KEY_256, 14, 0xfe4890d1e6188d0b046df344706c631e, 0xf3c9b7b250c53ba26a10f8f56523fab8,
              0x0da6416c53ca2d370226a93a4ddde2e6);
  }
}
