/** A known answer of RFC 1321: the digest of the alphabet, worked out step by step. */
module Md5Answer {
  import opened Bytes
  import opened Md5

  /** "abcdefghijklmnopqrstuvwxyz" */
  function Alphabet(): (s: seq<byte>)
    ensures |s| == 26
  {
    seq(26, k requires 0 <= k < 26 => 97 + k)
  }

  /** The words of its one padded block. */
  ghost predicate Letters(X: seq<bv32>) {
    && |X| == 16
    && X[0] == 0x64636261 && X[1] == 0x68676665 && X[2] == 0x6c6b6a69 && X[3] == 0x706f6e6d
    && X[4] == 0x74737271 && X[5] == 0x78777675 && X[6] == 0x00807a79 && X[7] == 0
    && X[8] == 0 && X[9] == 0 && X[10] == 0 && X[11] == 0
    && X[12] == 0 && X[13] == 0 && X[14] == 0xd0 && X[15] == 0
  }

  lemma LettersAre(X: seq<bv32>)
    ensures Letters(X) <==>
            && |X| == 16
            && X[0] == 0x64636261 && X[1] == 0x68676665 && X[2] == 0x6c6b6a69 && X[3] == 0x706f6e6d
            && X[4] == 0x74737271 && X[5] == 0x78777675 && X[6] == 0x00807a79 && X[7] == 0
            && X[8] == 0 && X[9] == 0 && X[10] == 0 && X[11] == 0
            && X[12] == 0 && X[13] == 0 && X[14] == 0xd0 && X[15] == 0
  {
  }

  /** The registers that round 1 changes, one after the other. */
  lemma Values1()
    ensures SetF(0x67452301, 0xefcdab89, 0x98badcfe, 0x10325476, 0x64636261, 7, T_MASK ^ 0x28955b87) == 0xd6d117a6
    ensures SetF(0x10325476, 0xd6d117a6, 0xefcdab89, 0x98badcfe, 0x68676665, 12, T_MASK ^ 0x173848a9) == 0xaab1aaaa
    ensures SetF(0x98badcfe, 0xaab1aaaa, 0xd6d117a6, 0xefcdab89, 0x6c6b6a69, 17, 0x242070db) == 0x227d8cf1
    ensures SetF(0xefcdab89, 0x227d8cf1, 0xaab1aaaa, 0xd6d117a6, 0x706f6e6d, 22, T_MASK ^ 0x3e423111) == 0x4503b812
    ensures SetF(0xd6d117a6, 0x4503b812, 0x227d8cf1, 0xaab1aaaa, 0x74737271, 7, T_MASK ^ 0x0a83f050) == 0xfe15f787
    ensures SetF(0xaab1aaaa, 0xfe15f787, 0x4503b812, 0x227d8cf1, 0x78777675, 12, 0x4787c62a) == 0xa811b278
    ensures SetF(0x227d8cf1, 0xa811b278, 0xfe15f787, 0x4503b812, 0x00807a79, 17, T_MASK ^ 0x57cfb9ec) == 0xb71122fc
    ensures SetF(0x4503b812, 0xb71122fc, 0xa811b278, 0xfe15f787, 0, 22, T_MASK ^ 0x02b96afe) == 0xda9bbb0d
    ensures SetF(0xfe15f787, 0xda9bbb0d, 0xb71122fc, 0xa811b278, 0, 7, 0x698098d8) == 0xae752899
    ensures SetF(0xa811b278, 0xae752899, 0xda9bbb0d, 0xb71122fc, 0, 12, T_MASK ^ 0x74bb0850) == 0x2bbe757f
    ensures SetF(0xb71122fc, 0x2bbe757f, 0xae752899, 0xda9bbb0d, 0, 17, T_MASK ^ 0x0000a44e) == 0x7d4bd80b
    ensures SetF(0xda9bbb0d, 0x7d4bd80b, 0x2bbe757f, 0xae752899, 0, 22, T_MASK ^ 0x76a32841) == 0x56cfa5cb
    ensures SetF(0xae752899, 0x56cfa5cb, 0x7d4bd80b, 0x2bbe757f, 0, 7, 0x6b901122) == 0x1754a316
    ensures SetF(0x2bbe757f, 0x1754a316, 0x56cfa5cb, 0x7d4bd80b, 0, 12, T_MASK ^ 0x02678e6c) == 0x85567d90
    ensures SetF(0x7d4bd80b, 0x85567d90, 0x1754a316, 0x56cfa5cb, 0x000000d0, 17, T_MASK ^ 0x5986bc71) == 0x00df74d5
    ensures SetF(0x56cfa5cb, 0x00df74d5, 0x85567d90, 0x1754a316, 0, 22, 0x49b40821) == 0x608d6b7e
  {
  }

  /** The registers that round 2 changes, one after the other. */
  lemma Values2()
    ensures SetG(0x1754a316, 0x608d6b7e, 0x00df74d5, 0x85567d90, 0x68676665, 5, T_MASK ^ 0x09e1da9d) == 0x2d8071cc
    ensures SetG(0x85567d90, 0x2d8071cc, 0x608d6b7e, 0x00df74d5, 0x00807a79, 9, T_MASK ^ 0x3fbf4cbf) == 0x5dcee119
    ensures SetG(0x00df74d5, 0x5dcee119, 0x2d8071cc, 0x608d6b7e, 0, 14, 0x265e5a51) == 0xedfe7e4b
    ensures SetG(0x608d6b7e, 0xedfe7e4b, 0x5dcee119, 0x2d8071cc, 0x64636261, 20, T_MASK ^ 0x16493855) == 0x4c2145b3
    ensures SetG(0x2d8071cc, 0x4c2145b3, 0xedfe7e4b, 0x5dcee119, 0x78777675, 5, T_MASK ^ 0x29d0efa2) == 0x570c43e0
    ensures SetG(0x5dcee119, 0x570c43e0, 0x4c2145b3, 0xedfe7e4b, 0, 9, 0x02441453) == 0x977efd2a
    ensures SetG(0xedfe7e4b, 0x977efd2a, 0x570c43e0, 0x4c2145b3, 0, 14, T_MASK ^ 0x275e197e) == 0xc28ab49d
    ensures SetG(0x4c2145b3, 0xc28ab49d, 0x977efd2a, 0x570c43e0, 0x74737271, 20, T_MASK ^ 0x182c0437) == 0xc9f162d4
    ensures SetG(0x570c43e0, 0xc9f162d4, 0xc28ab49d, 0x977efd2a, 0, 5, 0x21e1cde6) == 0x25bfae3b
    ensures SetG(0x977efd2a, 0x25bfae3b, 0xc9f162d4, 0xc28ab49d, 0x000000d0, 9, T_MASK ^ 0x3cc8f829) == 0x89980104
    ensures SetG(0xc28ab49d, 0x89980104, 0x25bfae3b, 0xc9f162d4, 0x706f6e6d, 14, T_MASK ^ 0x0b2af278) == 0xf8c8365f
    ensures SetG(0xc9f162d4, 0xf8c8365f, 0x89980104, 0x25bfae3b, 0, 20, 0x455a14ed) == 0xe6d3b398
    ensures SetG(0x25bfae3b, 0xe6d3b398, 0xf8c8365f, 0x89980104, 0, 5, T_MASK ^ 0x561c16fa) == 0xf54d8710
    ensures SetG(0x89980104, 0xf54d8710, 0xe6d3b398, 0xf8c8365f, 0x6c6b6a69, 9, T_MASK ^ 0x03105c07) == 0x927b72e2
    ensures SetG(0xf8c8365f, 0x927b72e2, 0xf54d8710, 0xe6d3b398, 0, 14, 0x676f02d9) == 0x2e69afc7
    ensures SetG(0xe6d3b398, 0x2e69afc7, 0x927b72e2, 0xf54d8710, 0, 20, T_MASK ^ 0x72d5b375) == 0xaeb35766
  {
  }

  /** The registers that round 3 changes, one after the other. */
  lemma Values3()
    ensures SetH(0xf54d8710, 0xaeb35766, 0x2e69afc7, 0x927b72e2, 0x78777675, 4, T_MASK ^ 0x0005c6bd) == 0xb4bf680e
    ensures SetH(0x927b72e2, 0xb4bf680e, 0xaeb35766, 0x2e69afc7, 0, 11, T_MASK ^ 0x788e097e) == 0x4c8ffa80
    ensures SetH(0x2e69afc7, 0x4c8ffa80, 0xb4bf680e, 0xaeb35766, 0, 16, 0x6d9d6122) == 0x2361ed0a
    ensures SetH(0xaeb35766, 0x2361ed0a, 0x4c8ffa80, 0xb4bf680e, 0x000000d0, 23, T_MASK ^ 0x021ac7f3) == 0x06a5e211
    ensures SetH(0xb4bf680e, 0x06a5e211, 0x2361ed0a, 0x4c8ffa80, 0x68676665, 4, T_MASK ^ 0x5b4115bb) == 0xb9c0c733
    ensures SetH(0x4c8ffa80, 0xb9c0c733, 0x06a5e211, 0x2361ed0a, 0x74737271, 11, 0x4bdecfa9) == 0xf1e6dc7a
    ensures SetH(0x2361ed0a, 0xf1e6dc7a, 0xb9c0c733, 0x06a5e211, 0, 16, T_MASK ^ 0x0944b49f) == 0x23a9451b
    ensures SetH(0x06a5e211, 0x23a9451b, 0xf1e6dc7a, 0xb9c0c733, 0, 23, T_MASK ^ 0x4140438f) == 0x8d41bf99
    ensures SetH(0xb9c0c733, 0x8d41bf99, 0x23a9451b, 0xf1e6dc7a, 0, 4, 0x289b7ec6) == 0xa3e88ead
    ensures SetH(0xf1e6dc7a, 0xa3e88ead, 0x8d41bf99, 0x23a9451b, 0x64636261, 11, T_MASK ^ 0x155ed805) == 0x02c0b11c
    ensures SetH(0x23a9451b, 0x02c0b11c, 0xa3e88ead, 0x8d41bf99, 0x706f6e6d, 16, T_MASK ^ 0x2b10cf7a) == 0x66f6468d
    ensures SetH(0x8d41bf99, 0x66f6468d, 0x02c0b11c, 0xa3e88ead, 0x00807a79, 23, 0x04881d05) == 0x90a35af5
    ensures SetH(0xa3e88ead, 0x90a35af5, 0x66f6468d, 0x02c0b11c, 0, 4, T_MASK ^ 0x262b2fc6) == 0xb5d41f9c
    ensures SetH(0x02c0b11c, 0xb5d41f9c, 0x90a35af5, 0x66f6468d, 0, 11, T_MASK ^ 0x1924661a) == 0xa04b4904
    ensures SetH(0x66f6468d, 0xa04b4904, 0xb5d41f9c, 0x90a35af5, 0, 16, 0x1fa27cf8) == 0x703d54d8
    ensures SetH(0x90a35af5, 0x703d54d8, 0xa04b4904, 0xb5d41f9c, 0x6c6b6a69, 23, T_MASK ^ 0x3b53a99a) == 0x71d10367
  {
  }

  /** The registers that round 4 changes, one after the other. */
  lemma Values4()
    ensures SetI(0xb5d41f9c, 0x71d10367, 0x703d54d8, 0xa04b4904, 0x64636261, 6, T_MASK ^ 0x0bd6ddbb) == 0xfc32dd6e
    ensures SetI(0xa04b4904, 0xfc32dd6e, 0x71d10367, 0x703d54d8, 0, 10, 0x432aff97) == 0x65456b34
    ensures SetI(0x703d54d8, 0x65456b34, 0xfc32dd6e, 0x71d10367, 0x000000d0, 15, T_MASK ^ 0x546bdc58) == 0xb35602cb
    ensures SetI(0x71d10367, 0xb35602cb, 0x65456b34, 0xfc32dd6e, 0x78777675, 21, T_MASK ^ 0x036c5fc6) == 0x33edb197
    ensures SetI(0xfc32dd6e, 0x33edb197, 0xb35602cb, 0x65456b34, 0, 6, 0x655b59c3) == 0xc1e942f1
    ensures SetI(0x65456b34, 0xc1e942f1, 0x33edb197, 0xb35602cb, 0x706f6e6d, 10, T_MASK ^ 0x70f3336d) == 0xd9bb987c
    ensures SetI(0xb35602cb, 0xd9bb987c, 0xc1e942f1, 0x33edb197, 0, 15, T_MASK ^ 0x00100b82) == 0x23a68048
    ensures SetI(0x33edb197, 0x23a68048, 0xd9bb987c, 0xc1e942f1, 0x68676665, 21, T_MASK ^ 0x7a7ba22e) == 0x83877d1b
    ensures SetI(0xc1e942f1, 0x83877d1b, 0x23a68048, 0xd9bb987c, 0, 6, 0x6fa87e4f) == 0x0077c208
    ensures SetI(0xd9bb987c, 0x0077c208, 0x83877d1b, 0x23a68048, 0, 10, T_MASK ^ 0x01d3191f) == 0x847fc2e7
    ensures SetI(0x23a68048, 0x847fc2e7, 0x0077c208, 0x83877d1b, 0x00807a79, 15, T_MASK ^ 0x5cfebceb) == 0xa3e2247f
    ensures SetI(0x83877d1b, 0xa3e2247f, 0x847fc2e7, 0x0077c208, 0, 21, 0x4e0811a1) == 0x5e6bc930
    ensures SetI(0x0077c208, 0x5e6bc930, 0xa3e2247f, 0x847fc2e7, 0x74737271, 6, T_MASK ^ 0x08ac817d) == 0x708ed9c2
    ensures SetI(0x847fc2e7, 0x708ed9c2, 0x5e6bc930, 0xa3e2247f, 0, 10, T_MASK ^ 0x42c50dca) == 0x2baf1354
    ensures SetI(0xa3e2247f, 0x2baf1354, 0x708ed9c2, 0x5e6bc930, 0x6c6b6a69, 15, 0x2ad7d2bb) == 0xd38f1e7f
    ensures SetI(0x5e6bc930, 0xd38f1e7f, 0x2baf1354, 0x708ed9c2, 0, 21, T_MASK ^ 0x14792c6e) == 0x1116e6d8
  {
  }

  lemma Stage1(X: seq<bv32>)
    requires Letters(X)
    ensures Steps(16, InitialWords(), X)
            == Words(0x1754a316, 0x608d6b7e, 0x00df74d5, 0x85567d90)
  {
    hide *;
    LettersAre(X);
    NoSteps(X);
    Schedule1();
    Table1();
    Values1();
    QuadF(InitialWords(), X, 0);
    QuadF(InitialWords(), X, 4);
    QuadF(InitialWords(), X, 8);
    QuadF(InitialWords(), X, 12);
  }

  lemma Stage2(X: seq<bv32>)
    requires Letters(X)
    ensures Steps(32, InitialWords(), X)
            == Words(0xf54d8710, 0xaeb35766, 0x2e69afc7, 0x927b72e2)
  {
    hide *;
    Stage1(X);
    LettersAre(X);
    Schedule2();
    Table2();
    Values2();
    QuadG(InitialWords(), X, 16);
    QuadG(InitialWords(), X, 20);
    QuadG(InitialWords(), X, 24);
    QuadG(InitialWords(), X, 28);
  }

  lemma Stage3(X: seq<bv32>)
    requires Letters(X)
    ensures Steps(48, InitialWords(), X)
            == Words(0xb5d41f9c, 0x71d10367, 0x703d54d8, 0xa04b4904)
  {
    hide *;
    Stage2(X);
    LettersAre(X);
    Schedule3();
    Table3();
    Values3();
    QuadH(InitialWords(), X, 32);
    QuadH(InitialWords(), X, 36);
    QuadH(InitialWords(), X, 40);
    QuadH(InitialWords(), X, 44);
  }

  lemma Stage4(X: seq<bv32>)
    requires Letters(X)
    ensures Steps(64, InitialWords(), X)
            == Words(0x708ed9c2, 0x1116e6d8, 0xd38f1e7f, 0x2baf1354)
  {
    hide *;
    Stage3(X);
    LettersAre(X);
    Schedule4();
    Table4();
    Values4();
    QuadI(InitialWords(), X, 48);
    QuadI(InitialWords(), X, 52);
    QuadI(InitialWords(), X, 56);
    QuadI(InitialWords(), X, 60);
  }

  lemma NoSteps(X: seq<bv32>)
    requires |X| == 16
    ensures Steps(0, InitialWords(), X) == InitialWords() == Words(0x67452301, 0xefcdab89, 0x98badcfe, 0x10325476)
  {
  }

  /** The padded alphabet is one block. */
  lemma BlockOctets(b: seq<byte>)
    requires b == Alphabet() + Padding(26)
    ensures |b| == 64
    ensures forall k :: 0 <= k < 26 ==> b[k] == 97 + k
    ensures b[26] == 0x80 && b[56] == 208
    ensures forall k :: 27 <= k < 56 || 57 <= k < 64 ==> b[k] == 0
  {
    LengthOctets();
    assert Padding(26) == [0x80] + Zeros(29) + LittleEndian(208, 8);
    hide LittleEndian;
  }

  lemma LengthOctets()
    ensures LittleEndian(208, 8) == [208, 0, 0, 0, 0, 0, 0, 0]
  {
    ZeroOctets(7);
    assert LittleEndian(208, 8) == [208] + LittleEndian(0, 7);
  }

  lemma {:induction false} ZeroOctets(n: nat)
    ensures LittleEndian(0, n) == Zeros(n)
  {
    if n > 0 {
      ZeroOctets(n - 1);
    }
  }

  lemma BlockLetters(b: seq<byte>)
    requires b == Alphabet() + Padding(26)
    ensures |b| == 64 && Letters(BlockWords(b))
  {
    hide *;
    BlockOctets(b);
    BlockNumbers(b);
    Numbers();
    var X := BlockWords(b);
    BlockWordsAre(b);
    LettersAre(X);
  }

  lemma BlockWordsAre(b: seq<byte>)
    requires |b| == 64
    ensures |BlockWords(b)| == 16 && forall k :: 0 <= k < 16 ==> BlockWords(b)[k] == AsWord(Number(b, k))
  {
    hide AsWord, Number;
  }

  lemma BlockNumbers(b: seq<byte>)
    requires |b| == 64
    requires forall k :: 0 <= k < 26 ==> b[k] == 97 + k
    requires b[26] == 0x80 && b[56] == 208
    requires forall k :: 27 <= k < 56 || 57 <= k < 64 ==> b[k] == 0
    ensures Number(b, 0) == 0x64636261
    ensures Number(b, 1) == 0x68676665
    ensures Number(b, 2) == 0x6c6b6a69
    ensures Number(b, 3) == 0x706f6e6d
    ensures Number(b, 4) == 0x74737271
    ensures Number(b, 5) == 0x78777675
    ensures Number(b, 6) == 0x807a79
    ensures Number(b, 7) == 0
    ensures Number(b, 8) == 0
    ensures Number(b, 9) == 0
    ensures Number(b, 10) == 0
    ensures Number(b, 11) == 0
    ensures Number(b, 12) == 0
    ensures Number(b, 13) == 0
    ensures Number(b, 14) == 0xd0
    ensures Number(b, 15) == 0
  {
  }

  lemma Numbers()
    ensures AsWord(0x0) == 0x0
    ensures AsWord(0xd0) == 0xd0
    ensures AsWord(0x807a79) == 0x807a79
    ensures AsWord(0x64636261) == 0x64636261
    ensures AsWord(0x68676665) == 0x68676665
    ensures AsWord(0x6c6b6a69) == 0x6c6b6a69
    ensures AsWord(0x706f6e6d) == 0x706f6e6d
    ensures AsWord(0x74737271) == 0x74737271
    ensures AsWord(0x78777675) == 0x78777675
  {
  }

  lemma DigestNumbers()
    ensures AsNumber(0xd7d3fcc3) == 0xd7d3fcc3
    ensures AsNumber(0x00e49261) == 0x00e49261
    ensures AsNumber(0x6c49fb7d) == 0x6c49fb7d
    ensures AsNumber(0x3be167ca) == 0x3be167ca
  {
  }

  lemma DigestOctets()
    ensures LittleEndian(0xd7d3fcc3, 4) == [0xc3, 0xfc, 0xd3, 0xd7]
    ensures LittleEndian(0x00e49261, 4) == [0x61, 0x92, 0xe4, 0x00]
    ensures LittleEndian(0x6c49fb7d, 4) == [0x7d, 0xfb, 0x49, 0x6c]
    ensures LittleEndian(0x3be167ca, 4) == [0xca, 0x67, 0xe1, 0x3b]
  {
  }

  lemma FinalWords()
    ensures AddWords(InitialWords(), Words(0x708ed9c2, 0x1116e6d8, 0xd38f1e7f, 0x2baf1354))
            == Words(0xd7d3fcc3, 0x00e49261, 0x6c49fb7d, 0x3be167ca)
  {
  }

  /** The digest RFC 1321 appendix A.5 gives for the alphabet. */
  lemma AlphabetDigest()
    ensures Hash(Alphabet())
            == [
              0xc3, 0xfc, 0xd3, 0xd7, 0x61, 0x92, 0xe4, 0x00,
              0x7d, 0xfb, 0x49, 0x6c, 0xca, 0x67, 0xe1, 0x3b
            ]
  {
    hide *;
    var b := Alphabet() + Padding(26);
    BlockLetters(b);
    Stage4(BlockWords(b));
    FinalWords();
    HashOne(Alphabet(), b);
    DigestIs(Words(0xd7d3fcc3, 0x00e49261, 0x6c49fb7d, 0x3be167ca));
    DigestNumbers();
    DigestOctets();
  }

  lemma HashOne(m: seq<byte>, block: seq<byte>)
    requires m + Padding(|m|) == block && |block| == 64
    ensures |BlockWords(block)| == 16
    ensures Hash(m) == Digest(AddWords(InitialWords(), Steps(64, InitialWords(), BlockWords(block))))
  {
    hide *;
    HashFolds(m);
    assert block[..64] == block && block[64..] == [];
    FoldOne(block);
    CompressIs(InitialWords(), block);
  }

  lemma HashFolds(m: seq<byte>)
    ensures Hash(m) == Digest(Fold(InitialWords(), m + Padding(|m|)))
  {
    hide Digest, Fold, Padding;
  }

  lemma FoldOne(block: seq<byte>)
    requires |block| == 64 && block[..64] == block && block[64..] == []
    ensures Fold(InitialWords(), block) == Compress(InitialWords(), block)
  {
    hide Compress;
    assert Fold(Compress(InitialWords(), block), []) == Compress(InitialWords(), block);
  }

  lemma DigestIs(w: Words)
    ensures Digest(w)
            == LittleEndian(AsNumber(w.a), 4) + LittleEndian(AsNumber(w.b), 4) + LittleEndian(AsNumber(w.c), 4)
               + LittleEndian(AsNumber(w.d), 4)
  {
    hide LittleEndian, AsNumber;
  }
}
