/** The examples of RFC 4493, and its MAC of any message in terms of the chain over its blocks. */
module CmacVectors {
  import opened AesNumbers
  import opened AesVectors
  import opened Bytes
  import opened Cmac
  import opened Fips197
  import opened SubstitutionBox

  // ---------- the subkeys ----------

  /** One word of the shift takes in the top bit of the byte after it. */
  function ShiftWord(w: Word, next: Byte): Word {
    [ShiftByte(w[0], w[1]), ShiftByte(w[1], w[2]), ShiftByte(w[2], w[3]), ShiftByte(w[3], next)]
  }

  lemma ShiftedWords(a: Word, b: Word, c: Word, d: Word)
    ensures ShiftLeft(Columns(a, b, c, d)) ==
            Columns(ShiftWord(a, b[0]), ShiftWord(b, c[0]), ShiftWord(c, d[0]), ShiftWord(d, Byte(0)))
  {
    hide ShiftByte;
    SameIsEqual(ShiftLeft(Columns(a, b, c, d)),
                Columns(ShiftWord(a, b[0]), ShiftWord(b, c[0]), ShiftWord(c, d[0]), ShiftWord(d, Byte(0))));
  }

  lemma ShiftedParts(x: bv32, y: bv32)
    ensures var z := (x << 1) | (y >> 31);
            && Top(z) == (Top(x) << 1) | (Second(x) >> 7) && Second(z) == (Second(x) << 1) | (Third(x) >> 7)
            && Third(z) == (Third(x) << 1) | (Low(x) >> 7) && Low(z) == (Low(x) << 1) | (Top(y) >> 7)
  {
  }

  lemma ShiftedWord(x: bv32, y: bv32)
    ensures ShiftWord(W(x), W(y)[0]) == W((x << 1) | (y >> 31))
  {
    hide Top, Second, Third, Low;
    ShiftedParts(x, y);
  }

  lemma ShiftedNumber(x: bv128)
    ensures Word0(x << 1) == (Word0(x) << 1) | (Word1(x) >> 31) && Word1(x << 1) == (Word1(x) << 1) | (Word2(x) >> 31)
    ensures Word2(x << 1) == (Word2(x) << 1) | (Word3(x) >> 31) && Word3(x << 1) == Word3(x) << 1
  {
  }

  lemma LastWord(x: bv32)
    ensures ShiftWord(W(x), Byte(0)) == W(x << 1)
  {
    ShiftedWord(x, 0);
    ZeroTop(x);
    hide ShiftByte, Second, Third, Low;
  }

  lemma ZeroTop(x: bv32)
    ensures W(0)[0] == Byte(0) && (x << 1) | (0 >> 31) == x << 1
  {
  }

  lemma ShiftedBlock(x: bv128)
    ensures ShiftLeft(B(x)) == B(x << 1)
  {
    hide W, ShiftWord, ShiftLeft, Columns, Word0, Word1, Word2, Word3;
    ShiftedWords(W(Word0(x)), W(Word1(x)), W(Word2(x)), W(Word3(x)));
    ShiftedWord(Word0(x), Word1(x));
    ShiftedWord(Word1(x), Word2(x));
    ShiftedWord(Word2(x), Word3(x));
    LastWord(Word3(x));
    ShiftedNumber(x);
  }

  lemma TopOfBlock(x: bv128)
    ensures TopBit(B(x)) <==> x >> 127 == 1
  {
    TopOfNumber(x);
    assert B(x)[0] == Byte(Top(Word0(x)));
    hide B, Top, Word0;
  }

  lemma TopOfNumber(x: bv128)
    ensures Top(Word0(x)) & 0x80 != 0 <==> x >> 127 == 1
  {
  }

  lemma RbIs()
    ensures R_B == B(0x87)
  {
  }

  /** Doubling, on numbers. */
  lemma DoubledBlock(x: bv128)
    ensures Cmac.Double(B(x)) == B(if x >> 127 == 1 then (x << 1) ^ 0x87 else x << 1)
  {
    hide B, ShiftLeft, TopBit, R_B;
    ShiftedBlock(x);
    TopOfBlock(x);
    RbIs();
    XorNumbers(x << 1, 0x87);
  }

  lemma Subkeys(e: Block -> Block)
    requires e(Zeros(16)) == B(0x7df76b0c1ab899b33e42f047b91b546f)
    ensures K1(e) == B(0xfbeed618357133667c85e08f7236a8de) && K2(e) == B(0xf7ddac306ae266ccf90bc11ee46d513b)
  {
    hide B, Cmac.Double;
    DoubledBlock(0x7df76b0c1ab899b33e42f047b91b546f);
    DoubledBlock(0xfbeed618357133667c85e08f7236a8de);
  }

  // ---------- the MAC of any message ----------

  /** The chaining values of the message: `c[j]` is the one after `j` whole blocks. */
  ghost predicate Chains(e: Block -> Block, m: seq<Byte>, c: seq<Block>) {
    && c != [] && 16 * (|c| - 1) <= |m| && c[0] == Zeros(16)
    && forall j :: 0 <= j < |c| - 1 ==> c[j + 1] == e(XorSeq(c[j], m[16 * j..16 * j + 16]))
  }

  lemma {:induction false} ChainIsAbsorbed(e: Block -> Block, m: seq<Byte>, c: seq<Block>, n: nat)
    requires Chains(e, m, c) && n < |c|
    ensures Absorbed(e, m[..16 * n]) == c[n]
  {
    hide XorSeq;
    if n > 0 {
      ChainIsAbsorbed(e, m, c, n - 1);
      var front := m[..16 * n];
      assert front[..|front| - 16] == m[..16 * (n - 1)] && front[|front| - 16..] == m[16 * (n - 1)..16 * (n - 1) + 16];
      assert c[n - 1 + 1] == e(XorSeq(c[n - 1], m[16 * (n - 1)..16 * (n - 1) + 16]));
    }
  }

  /** A last block that is not full, with a one bit and zeros after it. */
  ghost predicate PaddedTo(tail: seq<Byte>, p: Block) {
    && |tail| < 16 && p[..|tail|] == tail && p[|tail|] == Byte(0x80)
    && forall j :: |tail| < j < 16 ==> p[j] == Byte(0)
  }

  lemma PaddedToIs(tail: seq<Byte>, p: Block)
    requires PaddedTo(tail, p)
    ensures p == Padded(tail)
  {
    forall j | 0 <= j < 16 ensures p[j] == Padded(tail)[j] {
      assert j < |tail| ==> p[..|tail|][j] == tail[j];
    }
  }

  lemma LastBlockIs(e: Block -> Block, tail: seq<Byte>, last: Block)
    requires e(Zeros(16)) == B(0x7df76b0c1ab899b33e42f047b91b546f)
    requires if |tail| == 16 then last == tail else PaddedTo(tail, last)
    ensures |tail| <= 16
    ensures LastBlock(e, tail) == XorSeq(last, if |tail| == 16 then B(0xfbeed618357133667c85e08f7236a8de)
                                               else B(0xf7ddac306ae266ccf90bc11ee46d513b))
  {
    Subkeys(e);
    hide XorSeq, B, K1, K2, Padded;
    if |tail| != 16 {
      PaddedToIs(tail, last);
    }
  }

  /** `last` is the last block, full or padded, and `c` the chain over the blocks before it. */
  ghost predicate Split(e: Block -> Block, m: seq<Byte>, c: seq<Block>, last: Block) {
    && Chains(e, m, c) && |c| == (if m == [] then 1 else (|m| - 1) / 16 + 1)
    && var tail := m[16 * (|c| - 1)..];
    if |tail| == 16 then last == tail else PaddedTo(tail, last)
  }

  lemma SplitStart(e: Block -> Block, m: seq<Byte>, c: seq<Block>, last: Block)
    requires Split(e, m, c, last)
    ensures c != [] && LastStart(|m|) == 16 * (|c| - 1) <= |m| && Chains(e, m, c)
    ensures var tail := m[16 * (|c| - 1)..];
            && (|tail| == 16 <==> m != [] && |m| % 16 == 0)
            && if |tail| == 16 then last == tail else PaddedTo(tail, last)
  {
    hide PaddedTo;
  }

  /**
   The MAC of a message of any length under a cipher that takes zero to the value of section 4 of RFC 4493: a full
   last block is masked with the first subkey of that section, a padded one, and that of the empty message, with the
   second.
   */
  lemma MacOfMessage(e: Block -> Block, m: seq<Byte>, c: seq<Block>, last: Block)
    requires e(Zeros(16)) == B(0x7df76b0c1ab899b33e42f047b91b546f) && Split(e, m, c, last)
    ensures c != []
    ensures Mac(e, m) == e(XorSeq(c[|c| - 1], XorSeq(last,
                             if m != [] && |m| % 16 == 0 then B(0xfbeed618357133667c85e08f7236a8de)
                             else B(0xf7ddac306ae266ccf90bc11ee46d513b))))
  {
    hide XorSeq, B, Absorbed, LastBlock, Chains, Split, LastStart, PaddedTo;
    SplitStart(e, m, c, last);
    ChainIsAbsorbed(e, m, c, |c| - 1);
    LastBlockIs(e, m[16 * (|c| - 1)..], last);
  }

  // ---------- section 4 of RFC 4493 ----------

  /** The zero block under the key. */
  lemma ZeroBlock()
    ensures AesUnder(KEY_128)(B(0x00000000000000000000000000000000)) ==
            B(0x7df76b0c1ab899b33e42f047b91b546f)
  {
    hide Look, B, AesUnder, RoundsOn, Row;
    TableHolds();
    Expanded128();
    FirstAdd(KEY_128, 0x00000000000000000000000000000000, 0x2b7e151628aed2a6abf7158809cf4f3c);
    NextRound(KEY_128, 1, 0xa0fafe1788542cb123a339392a6c7605, 0x2b7e151628aed2a6abf7158809cf4f3c,
              0xf1e459eb34688447628a592401f3b5c4, 0x7c2281781334863e3ca2363d7dfcd4d6);
    NextRound(KEY_128, 2, 0xf2c295f27a96b9435935807a7359f67f, 0xdcd87f6f9b60aa8f1f010f045790a2d3,
              0x86d07666147c3aa8c060d2735b61acf2, 0x6cc110fb3e0aff319a1e8a0f4b8474df);
    NextRound(KEY_128, 3, 0x3d80477d4716fe3e1e237e446d7a883b, 0x9e038509449c4672c32b0a7538dd82a0,
              0x0bde67e01bf113012ec19740077b5a9d, 0xe8e5207f2cd6cfcdd3551aa444827409);
    NextRound(KEY_128, 4, 0xef44a541a8525b7fb671253bdb0bad00, 0xd56567026bc031f3cd7664e029f8fc32,
              0x03ba43237f38b077bd41850da54dc7e1, 0xb38a5aba71b3a5e72aa6fa02a08c45a7);
    NextRound(KEY_128, 5, 0xd4d1c6f87c839d87caf2b8bc11f915bc, 0x5ccefffbd9e1fe989cd7df397b87e8a7,
              0x4af89e5c350e9b0fde171646218bbb12, 0x45447100ec9007d4ce8c2ff46de8f177);
    NextRound(KEY_128, 6, 0x6d88a37a110b3efddbf98641ca0093fd, 0x9195b7f890139a53047e97487c11e4cb,
              0x817d881f60f36941f282a9ed102ab852, 0x09e7d653e66782b826e015e7b4c5a706);
    NextRound(KEY_128, 7, 0x4e54f70e5f5fc9f384a64fb24ea6dc4f, 0x646f7529f76cbc45fd1993a67ec534fb,
              0x4350dc0f68d418a554a69d6ef3a86524, 0xa593a1570a567825aad1611b5f33fd8b);
    NextRound(KEY_128, 8, 0xead27321b58dbad2312bf5607f8d292f, 0xebc756595509b1d62e772ea9119521c4,
              0xe901311cfcf5fdcb312ab1f682c6c8d3, 0xe7a4ae28d1daae9a5b5b633f5585a12e);
    NextRound(KEY_128, 9, 0xac7766f319fadc2128d12941575c006e, 0x0d76dd09645714486a70965f2a088801,
              0xd75b907c4351c4010230c152e538facf, 0xb4b63351b0b78252c7685d53ac4f7873);
    LastRound(KEY_128, 10, 0xd014f9a8c9ee2589e13f0cc8b6630ca6, 0x18c155a2a94d5e73efb97412fb13781d,
              0xade392a4d356bc3adf7dfc8f0f7858c9);
  }

  /** The padding of the empty message, masked with the second subkey. */
  lemma MaskedPadding()
    ensures AesUnder(KEY_128)(B(0x77ddac306ae266ccf90bc11ee46d513b)) ==
            B(0xbb1d6929e95937287fa37d129b756746)
  {
    hide Look, B, AesUnder, RoundsOn, Row;
    TableHolds();
    Expanded128();
    FirstAdd(KEY_128, 0x77ddac306ae266ccf90bc11ee46d513b, 0x2b7e151628aed2a6abf7158809cf4f3c);
    NextRound(KEY_128, 1, 0xa0fafe1788542cb123a339392a6c7605, 0x5ca3b926424cb46a52fcd496eda21e07,
              0x4a2948c52cb072f7003a5602550a8d90, 0x6205a72e16367a431a8c9068a95df543);
    NextRound(KEY_128, 2, 0xf2c295f27a96b9435935807a7359f67f, 0xc2ff59399e6256f2392fa95183318346,
              0x25aad35a0b15ec1212c7cb89ec16b1d1, 0x265edca2d71cebc03448d83399d9eb31);
    NextRound(KEY_128, 3, 0x3d80477d4716fe3e1e237e446d7a883b, 0xd49c4950ad8a52836d7d5849ea801d4e,
              0x487e6a2f95ffa4533ccd3bec87de003b, 0x57259392dcd4cc59e31ca871571b143a);
    NextRound(KEY_128, 4, 0xef44a541a8525b7fb671253bdb0bad00, 0x6aa5d4ef9bc23267fd3fd6353a619c01,
              0x0225f67c1475dedf54ef488580062396, 0xe135542db658bc324fccbf4aa47f6189);
    NextRound(KEY_128, 5, 0xd4d1c6f87c839d87caf2b8bc11f915bc, 0x0e71f16c1e0ae74df9bd9a717f74cc89,
              0xab67b8a7727a4b509992a1e3d2a394a3, 0xfb11556c710b6e07c6bd6c5e768bbc07);
    NextRound(KEY_128, 6, 0x6d88a37a110b3efddbf98641ca0093fd, 0x2fc093940d88f3800c4fd4e26772a9bb,
              0x15c448ead784d322fe40dccd85ba0d98, 0xdfb4647cd388887136cc510451659608);
    NextRound(KEY_128, 7, 0x4e54f70e5f5fc9f384a64fb24ea6dc4f, 0xb23cc706c283b68ced35d7459b6505f5,
              0x37ec0ee625966b6f554dc66414eb4e6e, 0xa900f66cefc0d44cdffa23bc2e65d145);
    NextRound(KEY_128, 8, 0xead27321b58dbad2312bf5607f8d292f, 0xe7540162b09f1dbf5b5c6c0e60c30d0a,
              0x94db5067e74ad7aa392e7c08d020a4ab, 0x72ae46e276bbfde074e9f709d4cc45a2);
    NextRound(KEY_128, 9, 0xac7766f319fadc2128d12941575c006e, 0x987c35c3c336473245c20269ab416c8d,
              0x4605775d2e25502e6e8396236210a0f9, 0xa9884a024dbad95bf7f1bfe1ad4039ff);
    LastRound(KEY_128, 10, 0xd014f9a8c9ee2589e13f0cc8b6630ca6, 0x05ff2cf15440057adf2096a0fa1c3991,
              0x6b09908120b712a19e9c71da2d166be0);
  }

  /** The message of 16 bytes, masked with the first subkey. */
  lemma MaskedBlock()
    ensures AesUnder(KEY_128)(B(0x902f68fa1b31acf095b89e9e01a5bff4)) ==
            B(0x070a16b46b4d4144f79bdd9dd04a287c)
  {
    hide Look, B, AesUnder, RoundsOn, Row;
    TableHolds();
    Expanded128();
    FirstAdd(KEY_128, 0x902f68fa1b31acf095b89e9e01a5bff4, 0x2b7e151628aed2a6abf7158809cf4f3c);
    NextRound(KEY_128, 1, 0xa0fafe1788542cb123a339392a6c7605, 0xbb517dec339f7e563e4f8b16086af0c8,
              0xeadb3de8c3848cceb202ffb130d1f347, 0x6ce8680848910dd1371d9d49bcc0d5fc);
    NextRound(KEY_128, 2, 0xf2c295f27a96b9435935807a7359f67f, 0xcc12961fc0c5216014bea47096aca3f9,
              0x4ba64999baae0ac0fa9190d090c9fd51, 0xb75ecf1b4c235bea07b83bafd7544b3d);
    NextRound(KEY_128, 3, 0x3d80477d4716fe3e1e237e446d7a883b, 0x459c5ae936b5e2a95e8dbbd5a40dbd42,
              0x6ed5ea2c055d7a1e58d7bed349de9803, 0x7ed600d5892f8e14bfe7863c705eb99b);
    NextRound(KEY_128, 4, 0xef44a541a8525b7fb671253bdb0bad00, 0x435647a8ce39702aa1c4f8781d2431a0,
              0x1a1241e08b1cc7c23236a0e5a4b151bc, 0xa31db1a62c235fc27b406b1176926874);
    NextRound(KEY_128, 5, 0xd4d1c6f87c839d87caf2b8bc11f915bc, 0x4c5914e7847104bdcd314e2aad99c574,
              0x29a32f925fc7a694bdeefa7a95cbf2e5, 0x119779c8deaf68b3c815323c60f0954c);
    NextRound(KEY_128, 6, 0x6d88a37a110b3efddbf98641ca0093fd, 0xc546bf30a22cf53402e78a80710980f0,
              0xa6717e8c3a94cd0477010818a35ae6cd, 0x364aa4fd1a41231ffd754ea098eb62c3);
    NextRound(KEY_128, 7, 0x4e54f70e5f5fc9f384a64fb24ea6dc4f, 0x5bc207870b4a1de2268cc8e152ebf13e,
              0x39d6e8b22b64a117f7e9c5980025a4f8, 0x491fe90a4c0c2f9688f23c053345656a);
    NextRound(KEY_128, 8, 0xead27321b58dbad2312bf5607f8d292f, 0x074b1e041353e6650c5473b77de3b925,
              0xc5ed8f3f7d2056f2fe11724dffb38ea9, 0x0db16c483e35fc0eeb07dce00ca2ab6e);
    NextRound(KEY_128, 9, 0xac7766f319fadc2128d12941575c006e, 0xe7631f698bb846dcda2c2980732f8241,
              0x946ca5833d7113f95715c0868ffb5acd, 0xa13b377303137accd7a0483b84418caa);
    LastRound(KEY_128, 10, 0xd014f9a8c9ee2589e13f0cc8b6630ca6, 0x0d4c51801ae9a6edff71617ad31d8cc4,
              0xd71eef1ca2a364cd16a4d155662924da);
  }

  lemma BlockOfZeros()
    ensures B(0) == Zeros(16)
  {
  }

  lemma ZeroUnderKey()
    ensures AesUnder(KEY_128)(Zeros(16)) == B(0x7df76b0c1ab899b33e42f047b91b546f)
  {
    hide *;
    ZeroBlock();
    BlockOfZeros();
  }

  /** A block that is masked, chained to zero and encrypted. */
  lemma Masked(x: bv128, k: bv128)
    ensures XorSeq(Zeros(16), XorSeq(B(x), B(k))) == B(x ^ k)
  {
    hide B, XorSeq;
    XorNumbers(x, k);
    BlockOfZeros();
    XorNumbers(0, x ^ k);
    ZeroIsNeutral(x ^ k);
  }

  lemma ZeroIsNeutral(x: bv128)
    ensures 0 ^ x == x
  {
  }

  lemma SplitNothing(e: Block -> Block)
    ensures Split(e, [], [Zeros(16)], B(0x80000000000000000000000000000000))
  {
  }

  lemma SplitOneBlock(e: Block -> Block, m: Block)
    ensures Split(e, m, [Zeros(16)], m)
  {
    assert m[16 * 0..] == m;
  }

  /** Example 1: the empty message. */
  lemma MacOfNothing()
    ensures Mac(AesUnder(KEY_128), []) == B(0xbb1d6929e95937287fa37d129b756746)
  {
    hide *;
    var e := AesUnder(KEY_128);
    ZeroUnderKey();
    SplitNothing(e);
    MacOfMessage(e, [], [Zeros(16)], B(0x80000000000000000000000000000000));
    Masked(0x80000000000000000000000000000000, 0xf7ddac306ae266ccf90bc11ee46d513b);
    MaskedPadding();
  }

  /** Example 2: a message of 16 bytes. */
  lemma MacOfOneBlock()
    ensures Mac(AesUnder(KEY_128), B(0x6bc1bee22e409f96e93d7e117393172a)) == B(0x070a16b46b4d4144f79bdd9dd04a287c)
  {
    hide *;
    var (e, m) := (AesUnder(KEY_128), B(0x6bc1bee22e409f96e93d7e117393172a));
    ZeroUnderKey();
    SplitOneBlock(e, m);
    MacOfMessage(e, m, [Zeros(16)], m);
    Masked(0x6bc1bee22e409f96e93d7e117393172a, 0xfbeed618357133667c85e08f7236a8de);
    MaskedBlock();
  }
}
