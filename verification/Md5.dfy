/** MD5 (RFC 1321) computed over a message that arrives in pieces. */
module Md5 {
  import opened Bytes

  /** The four registers. */
  datatype Words = Words(a: bv32, b: bv32, c: bv32, d: bv32)

  const T_MASK: bv32 := 0xffffffff

  // The table of RFC 1321 section 3.4: entry i is the integer part of 4294967296 times abs(sin(i + 1)), in radians.
  const SINES1: seq<bv32> := [
    0xd76aa478, 0xe8c7b756, 0x242070db, 0xc1bdceee,
    0xf57c0faf, 0x4787c62a, 0xa8304613, 0xfd469501,
    0x698098d8, 0x8b44f7af, 0xffff5bb1, 0x895cd7be,
    0x6b901122, 0xfd987193, 0xa679438e, 0x49b40821
  ]
  const SINES2: seq<bv32> := [
    0xf61e2562, 0xc040b340, 0x265e5a51, 0xe9b6c7aa,
    0xd62f105d, 0x02441453, 0xd8a1e681, 0xe7d3fbc8,
    0x21e1cde6, 0xc33707d6, 0xf4d50d87, 0x455a14ed,
    0xa9e3e905, 0xfcefa3f8, 0x676f02d9, 0x8d2a4c8a
  ]
  const SINES3: seq<bv32> := [
    0xfffa3942, 0x8771f681, 0x6d9d6122, 0xfde5380c,
    0xa4beea44, 0x4bdecfa9, 0xf6bb4b60, 0xbebfbc70,
    0x289b7ec6, 0xeaa127fa, 0xd4ef3085, 0x04881d05,
    0xd9d4d039, 0xe6db99e5, 0x1fa27cf8, 0xc4ac5665
  ]
  const SINES4: seq<bv32> := [
    0xf4292244, 0x432aff97, 0xab9423a7, 0xfc93a039,
    0x655b59c3, 0x8f0ccc92, 0xffeff47d, 0x85845dd1,
    0x6fa87e4f, 0xfe2ce6e0, 0xa3014314, 0x4e0811a1,
    0xf7537e82, 0xbd3af235, 0x2ad7d2bb, 0xeb86d391
  ]

  function Sine(i: nat): bv32
    requires i < 64
  {
    if i < 16 then SINES1[i] else if i < 32 then SINES2[i - 16] else if i < 48 then SINES3[i - 32] else SINES4[i - 48]
  }

  // ---- RFC 1321 ----

  /** ROTATE_LEFT */
  function RotateLeft(x: bv32, n: nat): bv32
    requires n <= 32
  {
    (x << n) | (x >> (32 - n))
  }

  function F(x: bv32, y: bv32, z: bv32): bv32 {
    (x & y) | (!x & z)
  }

  function G(x: bv32, y: bv32, z: bv32): bv32 {
    (x & z) | (y & !z)
  }

  function H(x: bv32, y: bv32, z: bv32): bv32 {
    x ^ y ^ z
  }

  function I(x: bv32, y: bv32, z: bv32): bv32 {
    y ^ (x | !z)
  }

  /** Section 3.4, bit by bit: where x has a bit F is y, elsewhere z. */
  lemma ChosenByX(x: bv32, y: bv32, z: bv32)
    ensures x & F(x, y, z) == x & y && !x & F(x, y, z) == !x & z
  {
  }

  /** Where z has a bit G is x, elsewhere y. */
  lemma ChosenByZ(x: bv32, y: bv32, z: bv32)
    ensures z & G(x, y, z) == z & x && !z & G(x, y, z) == !z & y
  {
  }

  /** Where x has a bit H is set when y and z agree, elsewhere when they differ. */
  lemma Parity(x: bv32, y: bv32, z: bv32)
    ensures x & H(x, y, z) == x & !(y ^ z) && !x & H(x, y, z) == !x & (y ^ z)
  {
  }

  /** Where z has a bit I is y against x, elsewhere not y. */
  lemma Inverted(x: bv32, y: bv32, z: bv32)
    ensures z & I(x, y, z) == z & (y ^ x) && !z & I(x, y, z) == !z & !y
  {
  }

  /** b + ((a + f + x + t) <<< s) */
  function Operation(f: bv32, a: bv32, b: bv32, x: bv32, s: nat, t: bv32): bv32
    requires s <= 32
  {
    RotateLeft(a + f + x + t, s) + b
  }

  /** The auxiliary function of step i. */
  function Auxiliary(i: nat, x: bv32, y: bv32, z: bv32): bv32 {
    if i < 16 then F(x, y, z) else if i < 32 then G(x, y, z) else if i < 48 then H(x, y, z) else I(x, y, z)
  }

  /** The word of the block that step i adds. */
  function Index(i: nat): nat {
    if i < 16 then i else if i < 32 then (5 * i + 1) % 16 else if i < 48 then (3 * i + 5) % 16 else 7 * i % 16
  }

  /** How far step i rotates. */
  function Turn(i: nat): (n: nat)
    ensures n <= 32
  {
    if i < 16 then [7, 12, 17, 22][i % 4]
    else if i < 32 then [5, 9, 14, 20][i % 4]
    else if i < 48 then [4, 11, 16, 23][i % 4]
    else [6, 10, 15, 21][i % 4]
  }

  /** The value step i gives to the register it changes. */
  function Change(i: nat, a: bv32, b: bv32, c: bv32, d: bv32, X: seq<bv32>): bv32
    requires i < 64 && |X| == 16
  {
    Operation(Auxiliary(i, b, c, d), a, b, X[Index(i)], Turn(i), Sine(i))
  }

  /** Step i changes one register and turns all four. */
  function Step(i: nat, w: Words, X: seq<bv32>): Words
    requires i < 64 && |X| == 16
  {
    Words(w.d, Change(i, w.a, w.b, w.c, w.d, X), w.b, w.c)
  }

  function Steps(n: nat, w: Words, X: seq<bv32>): Words
    requires n <= 64 && |X| == 16
  {
    if n == 0 then w else Step(n - 1, Steps(n - 1, w, X), X)
  }

  function AsWord(n: nat): bv32
    requires n < TWO_32
  {
    n as bv32
  }

  function AsNumber(w: bv32): nat {
    w as int
  }

  /** The number four octets stand for, the low-order octet first. */
  function Number(block: seq<byte>, k: nat): (n: nat)
    requires 4 * k + 4 <= |block|
    ensures n < TWO_32
  {
    var w: int := block[4 * k];
    var x: int := block[4 * k + 1];
    var y: int := block[4 * k + 2];
    var z: int := block[4 * k + 3];
    w + 0x100 * x + 0x10000 * y + 0x1000000 * z
  }

  /** Word k of a block. */
  function Word(block: seq<byte>, k: nat): bv32
    requires 4 * k + 4 <= |block|
  {
    AsWord(Number(block, k))
  }

  function BlockWords(block: seq<byte>): seq<bv32>
    requires |block| == 64
  {
    seq(16, k requires 0 <= k < 16 => Word(block, k))
  }

  function AddWords(v: Words, w: Words): Words {
    Words(v.a + w.a, v.b + w.b, v.c + w.c, v.d + w.d)
  }

  /** Section 3.4 on one block. */
  function Compress(w: Words, block: seq<byte>): Words
    requires |block| == 64
  {
    AddWords(w, Steps(64, w, BlockWords(block)))
  }

  /** Section 3.4 on every whole block of m, in order. */
  function Fold(w: Words, m: seq<byte>): Words
    decreases |m|
  {
    if |m| < 64 then w else Fold(Compress(w, m[..64]), m[64..])
  }

  /** Section 3.3. */
  function InitialWords(): Words {
    Words(0x67452301, 0xefcdab89, 0x98badcfe, 0x10325476)
  }

  /** The n low-order octets of x, lowest first. */
  function LittleEndian(x: nat, n: nat): (s: seq<byte>)
    ensures |s| == n
  {
    if n == 0 then [] else [x % 256] + LittleEndian(x / 256, n - 1)
  }

  /** Sections 3.1 and 3.2: one bit, as few zero bits as reach 448 modulo 512, and the length in bits modulo 2^64. */
  function Padding(length: nat): seq<byte> {
    [0x80] + Zeros((55 - length) % 64) + LittleEndian(8 * length, 8)
  }

  /** Section 3.5. */
  function Digest(w: Words): seq<byte> {
    LittleEndian(AsNumber(w.a), 4) + LittleEndian(AsNumber(w.b), 4) + LittleEndian(AsNumber(w.c), 4)
    + LittleEndian(AsNumber(w.d), 4)
  }

  /** The digest of a whole message. */
  function Hash(m: seq<byte>): seq<byte> {
    Digest(Fold(InitialWords(), m + Padding(|m|)))
  }

  // ---- The fold over blocks ----

  lemma {:induction false} FoldAppend(w: Words, m: seq<byte>, n: seq<byte>)
    requires |m| % 64 == 0
    ensures Fold(w, m + n) == Fold(Fold(w, m), n)
    decreases |m|
  {
    hide Compress;
    if m == [] {
      assert m + n == n;
    } else {
      assert (m + n)[..64] == m[..64] && (m + n)[64..] == m[64..] + n;
      FoldAppend(Compress(w, m[..64]), m[64..], n);
    }
  }

  lemma FoldBlock(w: Words, m: seq<byte>, block: seq<byte>)
    requires |m| % 64 == 0 && |block| == 64
    ensures Fold(w, m + block) == Compress(Fold(w, m), block)
  {
    FoldAppend(w, m, block);
    assert block[..64] == block && block[64..] == [];
    assert Fold(Compress(Fold(w, m), block), []) == Compress(Fold(w, m), block);
  }

  /** Less than a block at the end changes nothing. */
  lemma FoldTail(w: Words, m: seq<byte>, n: seq<byte>)
    requires |m| % 64 == 0 && |n| < 64
    ensures Fold(w, m + n) == Fold(w, m)
  {
    FoldAppend(w, m, n);
  }

  /** A padded message is a whole number of blocks that still begins with the message. */
  lemma PaddedWhole(m: seq<byte>)
    ensures |m + Padding(|m|)| % 64 == 0
    ensures |Padding(|m|)| == (55 - |m|) % 64 + 9
  {
    hide LittleEndian;
    var k := (55 - |m|) / 64;
    WholeBlocks(|m|, k);
  }

  lemma WholeBlocks(n: nat, k: int)
    requires k == (55 - n) / 64
    ensures (n + ((55 - n) % 64 + 9)) % 64 == 0
  {
    assert n + ((55 - n) % 64 + 9) == 64 * (1 - k);
  }

  // ---- md5_process ----

  /** SET in round 1 */
  function SetF(a: bv32, b: bv32, c: bv32, d: bv32, x: bv32, s: nat, t: bv32): bv32
    requires s <= 32
  {
    Operation(F(b, c, d), a, b, x, s, t)
  }

  /** SET in round 2 */
  function SetG(a: bv32, b: bv32, c: bv32, d: bv32, x: bv32, s: nat, t: bv32): bv32
    requires s <= 32
  {
    Operation(G(b, c, d), a, b, x, s, t)
  }

  /** SET in round 3 */
  function SetH(a: bv32, b: bv32, c: bv32, d: bv32, x: bv32, s: nat, t: bv32): bv32
    requires s <= 32
  {
    Operation(H(b, c, d), a, b, x, s, t)
  }

  /** SET in round 4 */
  function SetI(a: bv32, b: bv32, c: bv32, d: bv32, x: bv32, s: nat, t: bv32): bv32
    requires s <= 32
  {
    Operation(I(b, c, d), a, b, x, s, t)
  }

  lemma FourSteps(w: Words, X: seq<bv32>, i: nat)
    requires i + 4 <= 64 && |X| == 16
    ensures var v := Steps(i, w, X);
            var a := Change(i, v.a, v.b, v.c, v.d, X);
            var d := Change(i + 1, v.d, a, v.b, v.c, X);
            var c := Change(i + 2, v.c, d, a, v.b, X);
            var b := Change(i + 3, v.b, c, d, a, X);
            Steps(i + 4, w, X) == Words(a, b, c, d)
  {
    hide Change;
    var v := Steps(i, w, X);
    assert Steps(i + 1, w, X) == Step(i, v, X);
    assert Steps(i + 2, w, X) == Step(i + 1, Steps(i + 1, w, X), X);
    assert Steps(i + 3, w, X) == Step(i + 2, Steps(i + 2, w, X), X);
    assert Steps(i + 4, w, X) == Step(i + 3, Steps(i + 3, w, X), X);
  }

  lemma ChangeF(i: nat, a: bv32, b: bv32, c: bv32, d: bv32, X: seq<bv32>) returns (v: bv32)
    requires 0 <= i < 16 && |X| == 16
    ensures v == Change(i, a, b, c, d, X) == SetF(a, b, c, d, X[Index(i)], Turn(i), Sine(i))
  {
    hide Operation, F, G, H, I, Index, Turn, Sine;
    v := Change(i, a, b, c, d, X);
  }

  lemma ChangeG(i: nat, a: bv32, b: bv32, c: bv32, d: bv32, X: seq<bv32>) returns (v: bv32)
    requires 16 <= i < 32 && |X| == 16
    ensures v == Change(i, a, b, c, d, X) == SetG(a, b, c, d, X[Index(i)], Turn(i), Sine(i))
  {
    hide Operation, F, G, H, I, Index, Turn, Sine;
    v := Change(i, a, b, c, d, X);
  }

  lemma ChangeH(i: nat, a: bv32, b: bv32, c: bv32, d: bv32, X: seq<bv32>) returns (v: bv32)
    requires 32 <= i < 48 && |X| == 16
    ensures v == Change(i, a, b, c, d, X) == SetH(a, b, c, d, X[Index(i)], Turn(i), Sine(i))
  {
    hide Operation, F, G, H, I, Index, Turn, Sine;
    v := Change(i, a, b, c, d, X);
  }

  lemma ChangeI(i: nat, a: bv32, b: bv32, c: bv32, d: bv32, X: seq<bv32>) returns (v: bv32)
    requires 48 <= i < 64 && |X| == 16
    ensures v == Change(i, a, b, c, d, X) == SetI(a, b, c, d, X[Index(i)], Turn(i), Sine(i))
  {
    hide Operation, F, G, H, I, Index, Turn, Sine;
    v := Change(i, a, b, c, d, X);
  }

  /** Four steps of round 1 bring every register back to its place. */
  lemma QuadF(w: Words, X: seq<bv32>, i: nat)
    requires |X| == 16 && 0 <= i <= 12 && i % 4 == 0
    ensures var v := Steps(i, w, X);
            var a := SetF(v.a, v.b, v.c, v.d, X[Index(i)], Turn(i), Sine(i));
            var d := SetF(v.d, a, v.b, v.c, X[Index(i + 1)], Turn(i + 1), Sine(i + 1));
            var c := SetF(v.c, d, a, v.b, X[Index(i + 2)], Turn(i + 2), Sine(i + 2));
            var b := SetF(v.b, c, d, a, X[Index(i + 3)], Turn(i + 3), Sine(i + 3));
            Steps(i + 4, w, X) == Words(a, b, c, d)
  {
    hide *;
    var v := Steps(i, w, X);
    FourSteps(w, X, i);
    var a := ChangeF(i, v.a, v.b, v.c, v.d, X);
    var d := ChangeF(i + 1, v.d, a, v.b, v.c, X);
    var c := ChangeF(i + 2, v.c, d, a, v.b, X);
    var b := ChangeF(i + 3, v.b, c, d, a, X);
  }

  /** Four steps of round 2 bring every register back to its place. */
  lemma QuadG(w: Words, X: seq<bv32>, i: nat)
    requires |X| == 16 && 16 <= i <= 28 && i % 4 == 0
    ensures var v := Steps(i, w, X);
            var a := SetG(v.a, v.b, v.c, v.d, X[Index(i)], Turn(i), Sine(i));
            var d := SetG(v.d, a, v.b, v.c, X[Index(i + 1)], Turn(i + 1), Sine(i + 1));
            var c := SetG(v.c, d, a, v.b, X[Index(i + 2)], Turn(i + 2), Sine(i + 2));
            var b := SetG(v.b, c, d, a, X[Index(i + 3)], Turn(i + 3), Sine(i + 3));
            Steps(i + 4, w, X) == Words(a, b, c, d)
  {
    hide *;
    var v := Steps(i, w, X);
    FourSteps(w, X, i);
    var a := ChangeG(i, v.a, v.b, v.c, v.d, X);
    var d := ChangeG(i + 1, v.d, a, v.b, v.c, X);
    var c := ChangeG(i + 2, v.c, d, a, v.b, X);
    var b := ChangeG(i + 3, v.b, c, d, a, X);
  }

  /** Four steps of round 3 bring every register back to its place. */
  lemma QuadH(w: Words, X: seq<bv32>, i: nat)
    requires |X| == 16 && 32 <= i <= 44 && i % 4 == 0
    ensures var v := Steps(i, w, X);
            var a := SetH(v.a, v.b, v.c, v.d, X[Index(i)], Turn(i), Sine(i));
            var d := SetH(v.d, a, v.b, v.c, X[Index(i + 1)], Turn(i + 1), Sine(i + 1));
            var c := SetH(v.c, d, a, v.b, X[Index(i + 2)], Turn(i + 2), Sine(i + 2));
            var b := SetH(v.b, c, d, a, X[Index(i + 3)], Turn(i + 3), Sine(i + 3));
            Steps(i + 4, w, X) == Words(a, b, c, d)
  {
    hide *;
    var v := Steps(i, w, X);
    FourSteps(w, X, i);
    var a := ChangeH(i, v.a, v.b, v.c, v.d, X);
    var d := ChangeH(i + 1, v.d, a, v.b, v.c, X);
    var c := ChangeH(i + 2, v.c, d, a, v.b, X);
    var b := ChangeH(i + 3, v.b, c, d, a, X);
  }

  /** Four steps of round 4 bring every register back to its place. */
  lemma QuadI(w: Words, X: seq<bv32>, i: nat)
    requires |X| == 16 && 48 <= i <= 60 && i % 4 == 0
    ensures var v := Steps(i, w, X);
            var a := SetI(v.a, v.b, v.c, v.d, X[Index(i)], Turn(i), Sine(i));
            var d := SetI(v.d, a, v.b, v.c, X[Index(i + 1)], Turn(i + 1), Sine(i + 1));
            var c := SetI(v.c, d, a, v.b, X[Index(i + 2)], Turn(i + 2), Sine(i + 2));
            var b := SetI(v.b, c, d, a, X[Index(i + 3)], Turn(i + 3), Sine(i + 3));
            Steps(i + 4, w, X) == Words(a, b, c, d)
  {
    hide *;
    var v := Steps(i, w, X);
    FourSteps(w, X, i);
    var a := ChangeI(i, v.a, v.b, v.c, v.d, X);
    var d := ChangeI(i + 1, v.d, a, v.b, v.c, X);
    var c := ChangeI(i + 2, v.c, d, a, v.b, X);
    var b := ChangeI(i + 3, v.b, c, d, a, X);
  }

  lemma Schedule1()
    ensures Index(0) == 0 && Turn(0) == 7
    ensures Index(1) == 1 && Turn(1) == 12
    ensures Index(2) == 2 && Turn(2) == 17
    ensures Index(3) == 3 && Turn(3) == 22
    ensures Index(4) == 4 && Turn(4) == 7
    ensures Index(5) == 5 && Turn(5) == 12
    ensures Index(6) == 6 && Turn(6) == 17
    ensures Index(7) == 7 && Turn(7) == 22
    ensures Index(8) == 8 && Turn(8) == 7
    ensures Index(9) == 9 && Turn(9) == 12
    ensures Index(10) == 10 && Turn(10) == 17
    ensures Index(11) == 11 && Turn(11) == 22
    ensures Index(12) == 12 && Turn(12) == 7
    ensures Index(13) == 13 && Turn(13) == 12
    ensures Index(14) == 14 && Turn(14) == 17
    ensures Index(15) == 15 && Turn(15) == 22
  {
  }

  lemma Table1()
    ensures Sine(0) == T_MASK ^ 0x28955b87
    ensures Sine(1) == T_MASK ^ 0x173848a9
    ensures Sine(2) == 0x242070db
    ensures Sine(3) == T_MASK ^ 0x3e423111
    ensures Sine(4) == T_MASK ^ 0x0a83f050
    ensures Sine(5) == 0x4787c62a
    ensures Sine(6) == T_MASK ^ 0x57cfb9ec
    ensures Sine(7) == T_MASK ^ 0x02b96afe
    ensures Sine(8) == 0x698098d8
    ensures Sine(9) == T_MASK ^ 0x74bb0850
    ensures Sine(10) == T_MASK ^ 0x0000a44e
    ensures Sine(11) == T_MASK ^ 0x76a32841
    ensures Sine(12) == 0x6b901122
    ensures Sine(13) == T_MASK ^ 0x02678e6c
    ensures Sine(14) == T_MASK ^ 0x5986bc71
    ensures Sine(15) == 0x49b40821
  {
  }

  lemma Schedule2()
    ensures Index(16) == 1 && Turn(16) == 5
    ensures Index(17) == 6 && Turn(17) == 9
    ensures Index(18) == 11 && Turn(18) == 14
    ensures Index(19) == 0 && Turn(19) == 20
    ensures Index(20) == 5 && Turn(20) == 5
    ensures Index(21) == 10 && Turn(21) == 9
    ensures Index(22) == 15 && Turn(22) == 14
    ensures Index(23) == 4 && Turn(23) == 20
    ensures Index(24) == 9 && Turn(24) == 5
    ensures Index(25) == 14 && Turn(25) == 9
    ensures Index(26) == 3 && Turn(26) == 14
    ensures Index(27) == 8 && Turn(27) == 20
    ensures Index(28) == 13 && Turn(28) == 5
    ensures Index(29) == 2 && Turn(29) == 9
    ensures Index(30) == 7 && Turn(30) == 14
    ensures Index(31) == 12 && Turn(31) == 20
  {
  }

  lemma Table2()
    ensures Sine(16) == T_MASK ^ 0x09e1da9d
    ensures Sine(17) == T_MASK ^ 0x3fbf4cbf
    ensures Sine(18) == 0x265e5a51
    ensures Sine(19) == T_MASK ^ 0x16493855
    ensures Sine(20) == T_MASK ^ 0x29d0efa2
    ensures Sine(21) == 0x02441453
    ensures Sine(22) == T_MASK ^ 0x275e197e
    ensures Sine(23) == T_MASK ^ 0x182c0437
    ensures Sine(24) == 0x21e1cde6
    ensures Sine(25) == T_MASK ^ 0x3cc8f829
    ensures Sine(26) == T_MASK ^ 0x0b2af278
    ensures Sine(27) == 0x455a14ed
    ensures Sine(28) == T_MASK ^ 0x561c16fa
    ensures Sine(29) == T_MASK ^ 0x03105c07
    ensures Sine(30) == 0x676f02d9
    ensures Sine(31) == T_MASK ^ 0x72d5b375
  {
  }

  lemma Schedule3()
    ensures Index(32) == 5 && Turn(32) == 4
    ensures Index(33) == 8 && Turn(33) == 11
    ensures Index(34) == 11 && Turn(34) == 16
    ensures Index(35) == 14 && Turn(35) == 23
    ensures Index(36) == 1 && Turn(36) == 4
    ensures Index(37) == 4 && Turn(37) == 11
    ensures Index(38) == 7 && Turn(38) == 16
    ensures Index(39) == 10 && Turn(39) == 23
    ensures Index(40) == 13 && Turn(40) == 4
    ensures Index(41) == 0 && Turn(41) == 11
    ensures Index(42) == 3 && Turn(42) == 16
    ensures Index(43) == 6 && Turn(43) == 23
    ensures Index(44) == 9 && Turn(44) == 4
    ensures Index(45) == 12 && Turn(45) == 11
    ensures Index(46) == 15 && Turn(46) == 16
    ensures Index(47) == 2 && Turn(47) == 23
  {
  }

  lemma Table3()
    ensures Sine(32) == T_MASK ^ 0x0005c6bd
    ensures Sine(33) == T_MASK ^ 0x788e097e
    ensures Sine(34) == 0x6d9d6122
    ensures Sine(35) == T_MASK ^ 0x021ac7f3
    ensures Sine(36) == T_MASK ^ 0x5b4115bb
    ensures Sine(37) == 0x4bdecfa9
    ensures Sine(38) == T_MASK ^ 0x0944b49f
    ensures Sine(39) == T_MASK ^ 0x4140438f
    ensures Sine(40) == 0x289b7ec6
    ensures Sine(41) == T_MASK ^ 0x155ed805
    ensures Sine(42) == T_MASK ^ 0x2b10cf7a
    ensures Sine(43) == 0x04881d05
    ensures Sine(44) == T_MASK ^ 0x262b2fc6
    ensures Sine(45) == T_MASK ^ 0x1924661a
    ensures Sine(46) == 0x1fa27cf8
    ensures Sine(47) == T_MASK ^ 0x3b53a99a
  {
  }

  lemma Schedule4()
    ensures Index(48) == 0 && Turn(48) == 6
    ensures Index(49) == 7 && Turn(49) == 10
    ensures Index(50) == 14 && Turn(50) == 15
    ensures Index(51) == 5 && Turn(51) == 21
    ensures Index(52) == 12 && Turn(52) == 6
    ensures Index(53) == 3 && Turn(53) == 10
    ensures Index(54) == 10 && Turn(54) == 15
    ensures Index(55) == 1 && Turn(55) == 21
    ensures Index(56) == 8 && Turn(56) == 6
    ensures Index(57) == 15 && Turn(57) == 10
    ensures Index(58) == 6 && Turn(58) == 15
    ensures Index(59) == 13 && Turn(59) == 21
    ensures Index(60) == 4 && Turn(60) == 6
    ensures Index(61) == 11 && Turn(61) == 10
    ensures Index(62) == 2 && Turn(62) == 15
    ensures Index(63) == 9 && Turn(63) == 21
  {
  }

  lemma Table4()
    ensures Sine(48) == T_MASK ^ 0x0bd6ddbb
    ensures Sine(49) == 0x432aff97
    ensures Sine(50) == T_MASK ^ 0x546bdc58
    ensures Sine(51) == T_MASK ^ 0x036c5fc6
    ensures Sine(52) == 0x655b59c3
    ensures Sine(53) == T_MASK ^ 0x70f3336d
    ensures Sine(54) == T_MASK ^ 0x00100b82
    ensures Sine(55) == T_MASK ^ 0x7a7ba22e
    ensures Sine(56) == 0x6fa87e4f
    ensures Sine(57) == T_MASK ^ 0x01d3191f
    ensures Sine(58) == T_MASK ^ 0x5cfebceb
    ensures Sine(59) == 0x4e0811a1
    ensures Sine(60) == T_MASK ^ 0x08ac817d
    ensures Sine(61) == T_MASK ^ 0x42c50dca
    ensures Sine(62) == 0x2ad7d2bb
    ensures Sine(63) == T_MASK ^ 0x14792c6e
  {
  }

  /** Round 1. */
  method Round1(v: Words, X: seq<bv32>, ghost w: Words) returns (out: Words)
    requires |X| == 16 && v == Steps(0, w, X)
    ensures out == Steps(16, w, X)
  {
    Table1();
    Schedule1();
    hide *;
    var a, b, c, d := v.a, v.b, v.c, v.d;
    QuadF(w, X, 0);
    a := SetF(a, b, c, d, X[0], 7, T_MASK ^ 0x28955b87);
    d := SetF(d, a, b, c, X[1], 12, T_MASK ^ 0x173848a9);
    c := SetF(c, d, a, b, X[2], 17, 0x242070db);
    b := SetF(b, c, d, a, X[3], 22, T_MASK ^ 0x3e423111);
    QuadF(w, X, 4);
    a := SetF(a, b, c, d, X[4], 7, T_MASK ^ 0x0a83f050);
    d := SetF(d, a, b, c, X[5], 12, 0x4787c62a);
    c := SetF(c, d, a, b, X[6], 17, T_MASK ^ 0x57cfb9ec);
    b := SetF(b, c, d, a, X[7], 22, T_MASK ^ 0x02b96afe);
    QuadF(w, X, 8);
    a := SetF(a, b, c, d, X[8], 7, 0x698098d8);
    d := SetF(d, a, b, c, X[9], 12, T_MASK ^ 0x74bb0850);
    c := SetF(c, d, a, b, X[10], 17, T_MASK ^ 0x0000a44e);
    b := SetF(b, c, d, a, X[11], 22, T_MASK ^ 0x76a32841);
    QuadF(w, X, 12);
    a := SetF(a, b, c, d, X[12], 7, 0x6b901122);
    d := SetF(d, a, b, c, X[13], 12, T_MASK ^ 0x02678e6c);
    c := SetF(c, d, a, b, X[14], 17, T_MASK ^ 0x5986bc71);
    b := SetF(b, c, d, a, X[15], 22, 0x49b40821);
    out := Words(a, b, c, d);
  }

  /** Round 2. */
  method Round2(v: Words, X: seq<bv32>, ghost w: Words) returns (out: Words)
    requires |X| == 16 && v == Steps(16, w, X)
    ensures out == Steps(32, w, X)
  {
    Table2();
    Schedule2();
    hide *;
    var a, b, c, d := v.a, v.b, v.c, v.d;
    QuadG(w, X, 16);
    a := SetG(a, b, c, d, X[1], 5, T_MASK ^ 0x09e1da9d);
    d := SetG(d, a, b, c, X[6], 9, T_MASK ^ 0x3fbf4cbf);
    c := SetG(c, d, a, b, X[11], 14, 0x265e5a51);
    b := SetG(b, c, d, a, X[0], 20, T_MASK ^ 0x16493855);
    QuadG(w, X, 20);
    a := SetG(a, b, c, d, X[5], 5, T_MASK ^ 0x29d0efa2);
    d := SetG(d, a, b, c, X[10], 9, 0x02441453);
    c := SetG(c, d, a, b, X[15], 14, T_MASK ^ 0x275e197e);
    b := SetG(b, c, d, a, X[4], 20, T_MASK ^ 0x182c0437);
    QuadG(w, X, 24);
    a := SetG(a, b, c, d, X[9], 5, 0x21e1cde6);
    d := SetG(d, a, b, c, X[14], 9, T_MASK ^ 0x3cc8f829);
    c := SetG(c, d, a, b, X[3], 14, T_MASK ^ 0x0b2af278);
    b := SetG(b, c, d, a, X[8], 20, 0x455a14ed);
    QuadG(w, X, 28);
    a := SetG(a, b, c, d, X[13], 5, T_MASK ^ 0x561c16fa);
    d := SetG(d, a, b, c, X[2], 9, T_MASK ^ 0x03105c07);
    c := SetG(c, d, a, b, X[7], 14, 0x676f02d9);
    b := SetG(b, c, d, a, X[12], 20, T_MASK ^ 0x72d5b375);
    out := Words(a, b, c, d);
  }

  /** Round 3. */
  method Round3(v: Words, X: seq<bv32>, ghost w: Words) returns (out: Words)
    requires |X| == 16 && v == Steps(32, w, X)
    ensures out == Steps(48, w, X)
  {
    Table3();
    Schedule3();
    hide *;
    var a, b, c, d := v.a, v.b, v.c, v.d;
    QuadH(w, X, 32);
    a := SetH(a, b, c, d, X[5], 4, T_MASK ^ 0x0005c6bd);
    d := SetH(d, a, b, c, X[8], 11, T_MASK ^ 0x788e097e);
    c := SetH(c, d, a, b, X[11], 16, 0x6d9d6122);
    b := SetH(b, c, d, a, X[14], 23, T_MASK ^ 0x021ac7f3);
    QuadH(w, X, 36);
    a := SetH(a, b, c, d, X[1], 4, T_MASK ^ 0x5b4115bb);
    d := SetH(d, a, b, c, X[4], 11, 0x4bdecfa9);
    c := SetH(c, d, a, b, X[7], 16, T_MASK ^ 0x0944b49f);
    b := SetH(b, c, d, a, X[10], 23, T_MASK ^ 0x4140438f);
    QuadH(w, X, 40);
    a := SetH(a, b, c, d, X[13], 4, 0x289b7ec6);
    d := SetH(d, a, b, c, X[0], 11, T_MASK ^ 0x155ed805);
    c := SetH(c, d, a, b, X[3], 16, T_MASK ^ 0x2b10cf7a);
    b := SetH(b, c, d, a, X[6], 23, 0x04881d05);
    QuadH(w, X, 44);
    a := SetH(a, b, c, d, X[9], 4, T_MASK ^ 0x262b2fc6);
    d := SetH(d, a, b, c, X[12], 11, T_MASK ^ 0x1924661a);
    c := SetH(c, d, a, b, X[15], 16, 0x1fa27cf8);
    b := SetH(b, c, d, a, X[2], 23, T_MASK ^ 0x3b53a99a);
    out := Words(a, b, c, d);
  }

  /** Round 4. */
  method Round4(v: Words, X: seq<bv32>, ghost w: Words) returns (out: Words)
    requires |X| == 16 && v == Steps(48, w, X)
    ensures out == Steps(64, w, X)
  {
    Table4();
    Schedule4();
    hide *;
    var a, b, c, d := v.a, v.b, v.c, v.d;
    QuadI(w, X, 48);
    a := SetI(a, b, c, d, X[0], 6, T_MASK ^ 0x0bd6ddbb);
    d := SetI(d, a, b, c, X[7], 10, 0x432aff97);
    c := SetI(c, d, a, b, X[14], 15, T_MASK ^ 0x546bdc58);
    b := SetI(b, c, d, a, X[5], 21, T_MASK ^ 0x036c5fc6);
    QuadI(w, X, 52);
    a := SetI(a, b, c, d, X[12], 6, 0x655b59c3);
    d := SetI(d, a, b, c, X[3], 10, T_MASK ^ 0x70f3336d);
    c := SetI(c, d, a, b, X[10], 15, T_MASK ^ 0x00100b82);
    b := SetI(b, c, d, a, X[1], 21, T_MASK ^ 0x7a7ba22e);
    QuadI(w, X, 56);
    a := SetI(a, b, c, d, X[8], 6, 0x6fa87e4f);
    d := SetI(d, a, b, c, X[15], 10, T_MASK ^ 0x01d3191f);
    c := SetI(c, d, a, b, X[6], 15, T_MASK ^ 0x5cfebceb);
    b := SetI(b, c, d, a, X[13], 21, 0x4e0811a1);
    QuadI(w, X, 60);
    a := SetI(a, b, c, d, X[4], 6, T_MASK ^ 0x08ac817d);
    d := SetI(d, a, b, c, X[11], 10, T_MASK ^ 0x42c50dca);
    c := SetI(c, d, a, b, X[2], 15, 0x2ad7d2bb);
    b := SetI(b, c, d, a, X[9], 21, T_MASK ^ 0x14792c6e);
    out := Words(a, b, c, d);
  }

  /** The sixteen words of a block. */
  method LoadWords(data: seq<byte>) returns (X: seq<bv32>)
    requires |data| == 64
    ensures X == BlockWords(data)
  {
    X := [];
    for i := 0 to 16
      invariant |X| == i && forall k :: 0 <= k < i ==> X[k] == Word(data, k)
    {
      X := X + [Word(data, i)];
    }
  }

  lemma CompressIs(w: Words, block: seq<byte>)
    requires |block| == 64
    ensures |BlockWords(block)| == 16 && Steps(0, w, BlockWords(block)) == w
    ensures Compress(w, block) == AddWords(w, Steps(64, w, BlockWords(block)))
  {
  }

  /** md5_process on the registers `abcd`. */
  method Process(abcd: Words, data: seq<byte>) returns (next: Words)
    requires |data| == 64
    ensures next == Compress(abcd, data)
  {
    CompressIs(abcd, data);
    hide *;
    var X := LoadWords(data);
    var w := Round1(abcd, X, abcd);
    w := Round2(w, X, abcd);
    w := Round3(w, X, abcd);
    w := Round4(w, X, abcd);
    next := AddWords(abcd, w);
  }
}
