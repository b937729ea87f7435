/** BER lengths, message ids and their INTEGER encoding. */
module Ber {
  import opened Bytes

  /** Width in bits of the C `int` whose shifts the length encoder uses. */
  const INT_WIDTH := 32

  /** Largest length INSERT_LENGTH can encode without shifting an int by its whole width. */
  const LENGTH_LIMIT := 0x100_0000

  // ---- Reference definitions: X.690 sections 8.1.3 and 8.3 ----

  /** Base-256 digits of `n`, most significant first, with no leading zero. */
  function Digits(n: nat): (s: seq<byte>)
    ensures n == 0 <==> s == []
  {
    if n == 0 then [] else Digits(n / 256) + [n % 256]
  }

  /** The number a big-endian octet string denotes. */
  function BigEndian(s: seq<byte>): nat {
    if s == [] then 0 else BigEndian(s[..|s| - 1]) * 256 + s[|s| - 1]
  }

  /** The definite length form with the fewest octets. */
  function LengthOctets(n: nat): (s: seq<byte>)
    ensures |s| >= 1
  {
    if n < 128 then [n] else [Octet(128 + |Digits(n)|)] + Digits(n)
  }

  /** A length FIND_LENGTH can read: its value fits an int and its octets are all there. A lone 0x80 reads as 0. */
  predicate ReadableLength(s: seq<byte>) {
    && |s| >= 1
    && (s[0] < 128 ==> |s| == 1)
    && (s[0] >= 128 ==> |s| == s[0] - 127 && BigEndian(s[1..]) < TWO_31)
  }

  /** The value of a readable length. */
  function LengthValue(s: seq<byte>): (n: nat)
    requires ReadableLength(s)
    ensures n < TWO_31
  {
    if s[0] < 128 then s[0] else BigEndian(s[1..])
  }

  /** A tag, the length octets and the content. */
  function Tlv(tag: byte, content: seq<byte>): (s: seq<byte>)
    ensures |s| >= 2 + |content| && s[0] == tag
  {
    [tag] + LengthOctets(|content|) + content
  }

  // ---- Digits and shifts ----

  /** `x >> (8 * r)` for a non-negative x. */
  function Shr8(x: nat, r: nat): nat {
    if r == 0 then x else Shr8(x / 256, r - 1)
  }

  lemma {:induction false} Shr8Step(x: nat, r: nat)
    ensures Shr8(x, r + 1) == Shr8(x, r) / 256
  {
    if r > 0 {
      Shr8Step(x / 256, r - 1);
    }
  }

  /** Counting shifts until nothing is left counts the digits. */
  lemma {:induction false} Shr8Positive(x: nat, r: nat)
    ensures Shr8(x, r) > 0 <==> r < |Digits(x)|
  {
    if r > 0 {
      Shr8Positive(x / 256, r - 1);
    }
  }

  lemma {:induction false} BigEndianDigits(n: nat)
    ensures BigEndian(Digits(n)) == n
  {
    if n != 0 {
      BigEndianDigits(n / 256);
      assert Digits(n)[..|Digits(n)| - 1] == Digits(n / 256);
    }
  }

  lemma {:induction false} DigitsShorter(n: nat, m: nat)
    requires n <= m
    ensures |Digits(n)| <= |Digits(m)|
  {
    if n != 0 {
      DigitsShorter(n / 256, m / 256);
    }
  }

  lemma DigitsBound(n: nat)
    ensures n < 256 ==> |Digits(n)| <= 1
    ensures n < 0x1_0000 ==> |Digits(n)| <= 2
    ensures |Digits(n)| <= 3 <==> n < LENGTH_LIMIT
    ensures n < TWO_32 ==> |Digits(n)| <= 4
  {
    assert Digits(n) == [] || |Digits(n)| == 1 + |Digits(n / 256)|;
    assert Digits(n / 256) == [] || |Digits(n / 256)| == 1 + |Digits(n / 256 / 256)|;
    assert Digits(n / 256 / 256) == [] || |Digits(n / 256 / 256)| == 1 + |Digits(n / 256 / 256 / 256)|;
    var q := n / 256 / 256 / 256;
    assert Digits(q) == [] || |Digits(q)| == 1 + |Digits(q / 256)|;
  }

  /** Minimality of Digits among all octet strings with the same value. */
  lemma {:induction false} DigitsFewest(s: seq<byte>)
    ensures |Digits(BigEndian(s))| <= |s|
  {
    if s != [] {
      var t := s[..|s| - 1];
      DigitsFewest(t);
      var n := BigEndian(s);
      assert n / 256 == BigEndian(t);
    }
  }

  // ---- Lengths ----

  /** The counting loop `while ((x >> (r * 8)) > 0) r++`, started at `r`, on an integer of `width` bits. */
  method CountOctets(x: nat, r: nat, width: nat) returns (r': nat)
    requires r <= |Digits(x)| && 8 * |Digits(x)| < width
    ensures r' == |Digits(x)|
  {
    r' := r;
    Shr8Positive(x, r');
    while Shr8(x, r') > 0
      invariant r' <= |Digits(x)|
      invariant Shr8(x, r') > 0 <==> r' < |Digits(x)|
      decreases |Digits(x)| - r'
    {
      r' := r' + 1;
      assert 8 * r' < width;
      Shr8Positive(x, r');
    }
  }

  /** The writing loop: the low r octets of x, the highest first. */
  method PutDigits(b: Buffer, x: nat, r: nat)
    requires r == |Digits(x)| && b.Valid() && |b.contents| + r <= b.data.Length
    modifies b, b.data
    ensures b.Valid() && b.contents == old(b.contents) + Digits(x)
  {
    var r' := r;
    Shr8Positive(x, r);
    assert Digits(Shr8(x, r')) == [];
    while r' > 0
      invariant 0 <= r' <= r && b.Valid()
      invariant |Digits(Shr8(x, r'))| == r - r'
      invariant b.contents == old(b.contents) + Digits(Shr8(x, r'))
    {
      r' := r' - 1;
      Shr8Step(x, r');
      Shr8Positive(x, r');
      b.Put(Octet(Shr8(x, r')));
    }
  }

  lemma LengthOctetsParts(n: nat)
    requires n < LENGTH_LIMIT
    ensures n < 128 ==> LengthOctets(n) == [n]
    ensures 128 <= n < 256 ==> LengthOctets(n) == [0x80 + 1, n]
    ensures 8 * |Digits(n)| < 8 * 4 == INT_WIDTH && (n >= 128 ==> LengthOctets(n) == [0x80 + |Digits(n)|] + Digits(n))
  {
    DigitsBound(n);
    if 128 <= n < 256 {
      assert Digits(n / 256) == [];
      assert Digits(n) == [n];
    }
  }

  /** INSERT_LENGTH; `r` is the macro's scratch variable, read by later code. */
  method InsertLength(b: Buffer, len: nat, r: nat) returns (r': nat)
    requires len < LENGTH_LIMIT
    requires b.Valid() && |b.contents| + |LengthOctets(len)| <= b.data.Length
    modifies b, b.data
    ensures b.Valid() && b.contents == old(b.contents) + LengthOctets(len)
    ensures r' == if len < 256 then r else 0
  {
    hide *;
    r' := r;
    LengthOctetsParts(len);
    if len < 128 {
      b.Put(len);
    } else if len < 256 {
      b.Put(0x80 + 1);
      b.Put(len);
    } else {
      r' := CountOctets(len, 0, INT_WIDTH);
      b.Put(0x80 + r');
      PutDigits(b, len, r');
      r' := 0;
    }
  }

  /** A high octet, promoted with its sign, compares above 0xffffff00 as an unsigned int. */
  predicate IsHigh(b: byte) {
    U32(SignedChar(b)) > 0xffff_ff00
  }

  /** `p[0] - 0xffffff80`: how many length octets follow. */
  function HighCount(b: byte): int {
    I32(U32(SignedChar(b)) - 0xffff_ff80)
  }

  /** `pp + (int)p[0]`, less 0xffffff00 when the char was negative. */
  function AddChar(pp: int, b: byte): int {
    if IsHigh(b) then I32(U32(pp + SignedChar(b)) - 0xffff_ff00) else I32(pp + SignedChar(b))
  }

  /** The sign extension and its correction cancel: the octet is added unsigned. */
  lemma AddCharIsUnsigned(pp: nat, b: byte)
    requires pp + b < TWO_31
    ensures AddChar(pp, b) == pp + b
    ensures IsHigh(b) <==> b >= 128
    ensures IsHigh(b) ==> HighCount(b) == b - 128
  {
  }

  /** The loop of FIND_LENGTH over the octets after the first. */
  method ReadOctets(data: seq<byte>, i: nat, size: nat, ghost content: seq<byte>) returns (pp: nat)
    requires |content| == size && At(data, i, content) && BigEndian(content) < TWO_31
    ensures pp == BigEndian(content)
  {
    pp := 0;
    var p, rest := i, size;
    while rest > 0
      invariant 0 <= rest <= size && p == i + size - rest
      invariant pp == if 0 < rest < size then BigEndian(content[..size - rest]) * 256
                      else BigEndian(content[..size - rest])
    {
      ghost var d := size - rest;
      AtIndex(data, i, content, d);
      BigEndianNext(content, d);
      PrefixValue(content, d + 1);
      AddCharIsUnsigned(pp, data[p]);
      pp := AddChar(pp, data[p]);
      if rest > 1 {
        BigEndianNext(content, d + 1);
        PrefixValue(content, d + 2);
        I32Small(pp * 256);
        pp := I32(pp * 256);
      }
      p := p + 1;
      rest := rest - 1;
    }
    assert content[..size] == content;
  }

  /** FIND_LENGTH and FIND_LEN: reads a length at `i` through a signed char promoted to int. */
  method FindLength(data: seq<byte>, i: nat, ghost octets: seq<byte>) returns (k: nat, len: nat, lenSize: nat)
    requires ReadableLength(octets) && At(data, i, octets)
    ensures k == i + |octets| && len == LengthValue(octets) && lenSize == |octets| - 1
  {
    AtIndex(data, i, octets, 0);
    AddCharIsUnsigned(0, data[i]);
    if IsHigh(data[i]) {
      lenSize := HighCount(data[i]);
      assert octets == octets[..1] + octets[1..];
      AtSplit(data, i, octets[..1], octets[1..]);
      len := ReadOctets(data, i + 1, lenSize, octets[1..]);
      k := i + lenSize;
    } else {
      lenSize := 0;
      k := i;
      len := SignedChar(data[i]);
    }
    k := k + 1;
  }

  lemma I32Small(x: nat)
    requires x < TWO_31
    ensures I32(x) == x
  {
  }

  lemma BigEndianNext(s: seq<byte>, d: nat)
    requires d < |s|
    ensures BigEndian(s[..d + 1]) == BigEndian(s[..d]) * 256 + s[d]
  {
    assert s[..d + 1][..d] == s[..d];
  }

  /** A prefix of an octet string never denotes more than the whole. */
  lemma {:induction false} PrefixValue(s: seq<byte>, n: nat)
    requires n <= |s|
    ensures BigEndian(s[..n]) <= BigEndian(s)
  {
    if n == |s| {
      assert s[..n] == s;
    } else {
      var t := s[..|s| - 1];
      PrefixValue(t, n);
      assert t[..n] == s[..n];
    }
  }

  /** FIND_LENGTH inverts INSERT_LENGTH, and no readable length of the same value is shorter. */
  lemma LengthRoundTrip(n: nat)
    requires n < TWO_31
    ensures ReadableLength(LengthOctets(n)) && LengthValue(LengthOctets(n)) == n
    ensures forall s :: ReadableLength(s) && LengthValue(s) == n ==> |s| >= |LengthOctets(n)|
  {
    LengthReadsBack(n);
    hide *;
    forall s | ReadableLength(s) && LengthValue(s) == n ensures |s| >= |LengthOctets(n)| {
      LengthFewest(s);
    }
  }

  lemma LengthReadsBack(n: nat)
    requires n < TWO_31
    ensures ReadableLength(LengthOctets(n)) && LengthValue(LengthOctets(n)) == n
  {
    DigitsBound(n);
    BigEndianDigits(n);
    if n >= 128 {
      assert LengthOctets(n)[1..] == Digits(n);
    }
  }

  lemma LengthFewest(s: seq<byte>)
    requires ReadableLength(s)
    ensures |s| >= |LengthOctets(LengthValue(s))|
  {
    if s[0] >= 128 {
      DigitsFewest(s[1..]);
    }
  }

  /**
   The encoder's counting loop evaluates `len >> (8 * r)` for every r up to the digit count, so its
   shift counts stay below the width of an int exactly for lengths under 2^24.
   */
  lemma InsertLengthShiftsDefined(n: nat)
    requires 256 <= n < TWO_31
    ensures (forall r: nat | Shr8(n, r) > 0 :: 8 * (r + 1) < INT_WIDTH) <==> n < LENGTH_LIMIT
  {
    DigitsBound(n);
    if n < LENGTH_LIMIT {
      forall r: nat | Shr8(n, r) > 0
        ensures 8 * (r + 1) < INT_WIDTH
      {
        Shr8Positive(n, r);
      }
    } else {
      var r: nat := 3;
      Shr8Positive(n, r);
      assert Shr8(n, r) > 0 && !(8 * (r + 1) < INT_WIDTH);
    }
  }

  /** Reading a whole element where it stands. */
  method FindTlvLength(data: seq<byte>, i: nat, ghost tag: byte, ghost content: seq<byte>)
    returns (k: nat, len: nat, lenSize: nat)
    requires 1 <= i && |content| < TWO_31 && At(data, i - 1, Tlv(tag, content))
    ensures len == |content| && k == i + 1 + lenSize && 1 + lenSize == |LengthOctets(len)|
    ensures At(data, k, content) && k + len == i - 1 + |Tlv(tag, content)| <= |data|
    ensures data[k..k + len] == content
  {
    hide *;
    ghost var n := |content|;
    TlvParts(data, i - 1, tag, content);
    LengthRoundTrip(n);
    k, len, lenSize := FindLength(data, i, LengthOctets(n));
    AtSlice(data, k, content);
  }

  lemma TlvParts(data: seq<byte>, i: nat, tag: byte, content: seq<byte>)
    requires At(data, i, Tlv(tag, content))
    ensures At(data, i, [tag]) && At(data, i + 1, LengthOctets(|content|))
    ensures At(data, i + 1 + |LengthOctets(|content|)|, content)
    ensures |Tlv(tag, content)| == 1 + |LengthOctets(|content|)| + |content|
  {
    hide *;
    var head := LengthOctets(|content|);
    TlvShape(tag, content);
    AtSplit(data, i, [tag], head + content);
    AtSplit(data, i + 1, head, content);
  }

  lemma TlvShape(tag: byte, content: seq<byte>)
    ensures Tlv(tag, content) == [tag] + (LengthOctets(|content|) + content)
  {
  }

  lemma ShortTlv(tag: byte, s: seq<byte>)
    requires |s| < 128
    ensures Tlv(tag, s) == [tag, |s|] + s
  {
    LengthOctetsParts(|s|);
    assert Tlv(tag, s) == [tag] + [|s|] + s;
  }

  /** An element followed by the rest of a list. */
  lemma ElementAt(data: seq<byte>, i: nat, tag: byte, content: seq<byte>, rest: seq<byte>)
    requires At(data, i, Tlv(tag, content) + rest)
    ensures At(data, i, Tlv(tag, content)) && At(data, i + |Tlv(tag, content)|, rest)
    ensures i < |data| && data[i] == tag
  {
    hide Tlv;
    AtSplit(data, i, Tlv(tag, content), rest);
    TlvTag(data, i, tag, content);
  }

  lemma TlvTag(data: seq<byte>, i: nat, tag: byte, content: seq<byte>)
    requires At(data, i, Tlv(tag, content))
    ensures i < |data| && data[i] == tag
  {
    assert data[i] == data[i..i + |Tlv(tag, content)|][0];
  }

  /** Tag and length octets in front of a content written next. */
  method PutHeader(b: Buffer, tag: byte, len: nat, r: nat) returns (r': nat)
    requires len < LENGTH_LIMIT
    requires b.Valid() && |b.contents| + 1 + |LengthOctets(len)| <= b.data.Length
    modifies b, b.data
    ensures b.Valid() && b.contents == old(b.contents) + ([tag] + LengthOctets(len))
    ensures r' == if len < 256 then r else 0
  {
    hide LengthOctets;
    b.Put(tag);
    r' := InsertLength(b, len, r);
  }

  /** A short element: the tag, its length as one octet, and the content copied behind them. */
  method PutShort(b: Buffer, tag: byte, content: seq<byte>)
    requires |content| < 128
    requires b.Valid() && |b.contents| + 2 + |content| <= b.data.Length
    modifies b, b.data
    ensures b.Valid() && b.contents == old(b.contents) + Tlv(tag, content)
  {
    b.Put(tag);
    b.Put(Octet(|content|));
    b.Copy(content);
  }

  // ---- Message ids ----

  /** Ids a client hands out. */
  predicate IsId(t: int) {
    1 <= t <= 0x7FFF_FFFE
  }

  /** The specification of tid_increment on the counter it keeps. */
  function NextId(tid: int): int {
    if tid + 1 == 0 then 1
    else if tid + 1 >= 0x7FFF_FFFF then 1
    else tid + 1
  }

  /** The id handed out by the n-th call after the counter held `tid`. */
  function IdAfter(tid: int, n: nat): int {
    if n == 0 then tid else NextId(IdAfter(tid, n - 1))
  }

  /** The client's counter; SDF_random fills at most its three low octets at start. */
  class IdSource {
    var tid: int

    constructor (seed: int)
      requires 0 <= seed < LENGTH_LIMIT
      ensures tid == seed
    {
      tid := seed;
    }

    /** tid_increment */
    method TidIncrement() returns (t: int)
      requires 0 <= tid <= 0x7FFF_FFFE
      modifies this
      ensures t == tid == NextId(old(tid)) && IsId(t) && 1 <= t <= 0x7FFF_FFFE
      ensures t == if old(tid) < 0x7FFF_FFFE then old(tid) + 1 else 1
    {
      t := tid;
      t := t + 1;
      if t == 0 { t := t + 1; }
      if t >= 0x7FFF_FFFF { t := 1; }
      tid := t;
    }
  }

  lemma {:induction false} IdAfterClosed(tid: int, n: nat)
    requires 0 <= tid <= 0x7FFF_FFFE && n >= 1
    ensures IsId(IdAfter(tid, n)) && 1 <= IdAfter(tid, n) <= 0x7FFF_FFFE
    ensures n <= 0x7FFF_FFFE ==>
              IdAfter(tid, n) == if tid + n <= 0x7FFF_FFFE then tid + n else tid + n - 0x7FFF_FFFE
  {
    if n > 1 {
      IdAfterClosed(tid, n - 1);
    }
    assert IdAfter(tid, n) == NextId(IdAfter(tid, n - 1));
  }

  /** Every id is in range and no id repeats within a full period of 2^31 - 2 calls. */
  lemma IdsDistinctForAPeriod(tid: int, m: nat, n: nat)
    requires 0 <= tid <= 0x7FFF_FFFE
    requires 1 <= m < n && n - m < 0x7FFF_FFFE
    ensures IsId(IdAfter(tid, m)) && IsId(IdAfter(tid, n))
    ensures IdAfter(tid, m) != IdAfter(tid, n)
    ensures IdAfter(tid, m + 0x7FFF_FFFE) == IdAfter(tid, m)
  {
    IdAfterClosed(tid, m);
    IdAfterClosed(tid, n);
    var t := IdAfter(tid, m);
    IdAfterShift(tid, m, n - m);
    IdAfterClosed(t, n - m);
    IdAfterShift(tid, m, 0x7FFF_FFFE);
    IdAfterClosed(t, 0x7FFF_FFFE);
  }

  lemma {:induction false} IdAfterShift(tid: int, m: nat, d: nat)
    ensures IdAfter(tid, m + d) == IdAfter(IdAfter(tid, m), d)
  {
    if d > 0 {
      IdAfterShift(tid, m, d - 1);
      assert IdAfter(tid, m + d) == NextId(IdAfter(tid, m + (d - 1)));
    }
  }

  /** Content octets of a positive INTEGER: a zero octet in front when the top bit is set. */
  function IntegerContent(n: nat): (s: seq<byte>)
    requires n >= 1
    ensures |s| >= 1
  {
    var d := Digits(n);
    if d[0] >= 128 then [0] + d else d
  }

  /** The INTEGER element of a message id. */
  function IdTlv(n: nat): seq<byte>
    requires n >= 1
  {
    Tlv(0x02, IntegerContent(n))
  }

  /** 2^(8 * r - 1) bounds the numbers of r octets whose top bit is clear. */
  function Half(r: nat): nat
    requires r >= 1
  {
    if r == 1 then 128 else 256 * Half(r - 1)
  }

  lemma {:induction false} TopBit(n: nat)
    requires n >= 1
    ensures Digits(n)[0] >= 128 <==> n >= Half(|Digits(n)|)
    ensures n < 2 * Half(|Digits(n)|)
  {
    if n >= 256 {
      TopBit(n / 256);
      assert Digits(n)[0] == Digits(n / 256)[0];
    } else {
      assert Digits(n / 256) == [];
      assert Digits(n) == [n];
    }
  }

  /** The wrapped int product of `c` doublings, as the encoder's min and max loops compute it. */
  function Doubled(c: nat): int {
    if c == 0 then 1 else I32(2 * Doubled(c - 1))
  }

  lemma DoubledNext(c: nat)
    requires 0 <= 2 * Doubled(c) < TWO_31
    ensures Doubled(c + 1) == 2 * Doubled(c)
  {
    I32Small(2 * Doubled(c));
  }

  lemma DoubledSix(c: nat, x: nat)
    requires Doubled(c) == x && 64 * x < TWO_31
    ensures Doubled(c + 6) == 64 * x
  {
    DoubledNext(c);
    DoubledNext(c + 1);
    DoubledNext(c + 2);
    DoubledNext(c + 3);
    DoubledNext(c + 4);
    DoubledNext(c + 5);
  }

  lemma DoubledEight(c: nat, x: nat)
    requires Doubled(c) == x && 256 * x < TWO_31
    ensures Doubled(c + 7) == 128 * x && Doubled(c + 8) == 256 * x
  {
    DoubledSix(c, x);
    DoubledNext(c + 6);
    DoubledNext(c + 7);
  }

  /** Up to three octets the products are exact; at four, min wraps to -2^31 and max to 0. */
  lemma DoubledOctets(r: nat)
    requires 1 <= r <= 4
    ensures r <= 3 ==> Doubled(8 * r - 1) == Half(r) && Doubled(8 * r) == 2 * Half(r) < TWO_31
    ensures r == 4 ==> Doubled(8 * r - 1) == -TWO_31 && Doubled(8 * r) == 0
  {
    hide Half, Doubled, I32;
    HalfValues();
    DoubledStart();
    DoubledEight(0, 1);
    DoubledEight(8, 0x100);
    DoubledEight(16, 0x1_0000);
    DoubledSix(24, 0x100_0000);
    DoubledWraps(30);
  }

  lemma DoubledStart()
    ensures Doubled(0) == 1
  {
  }

  lemma DoubledWraps(c: nat)
    requires Doubled(c) == 0x4000_0000
    ensures Doubled(c + 1) == -TWO_31 && Doubled(c + 2) == 0
  {
    assert Doubled(c + 1) == I32(2 * Doubled(c)) == -TWO_31;
    assert Doubled(c + 2) == I32(2 * Doubled(c + 1));
  }

  /** The guard `min <= tid && tid < max` on the wrapped products asks for a set top bit. */
  lemma MinMaxTestsTopBit(tid: nat)
    requires IsId(tid)
    ensures 1 <= |Digits(tid)| <= 4 && (|Digits(tid)| == 4 ==> Digits(tid)[0] < 128)
    ensures var r := |Digits(tid)|;
            (Doubled(8 * r - 1) <= tid < Doubled(8 * r)) <==> Digits(tid)[0] >= 128
  {
    DigitsBound(tid);
    TopBit(tid);
    DoubledOctets(|Digits(tid)|);
    HalfValues();
  }

  lemma HalfValues()
    ensures Half(1) == 128 && Half(2) == 0x8000 && Half(3) == 0x80_0000 && Half(4) == TWO_31
  {
  }

  /** The doubling loops of ber_tid_create. */
  method Double(count: nat) returns (x: int)
    ensures x == Doubled(count)
  {
    x := 1;
    for d := 1 to count + 1
      invariant x == Doubled(d - 1)
    {
      x := I32(x * 2);
    }
  }

  lemma IdTlvParts(tid: nat)
    requires IsId(tid)
    ensures var n := |Digits(tid)|;
            && 1 <= n <= 4
            && IdTlv(tid) == (if Digits(tid)[0] >= 128 then [0x02, n + 1, 0] else [0x02, n]) + Digits(tid)
  {
    DigitsBound(tid);
  }

  /** ber_tid_create, whose min and max wrap to -2^31 and 0 for four-octet ids. */
  method BerTidCreate(tid: nat, msg: Buffer)
    requires IsId(tid)
    requires msg.Valid() && |msg.contents| + 6 <= msg.data.Length
    modifies msg, msg.data
    ensures msg.Valid() && msg.contents == old(msg.contents) + IdTlv(tid)
  {
    hide *;
    MinMaxTestsTopBit(tid);
    IdTlvParts(tid);
    msg.Put(0x02);
    var r := CountOctets(tid, 0, 64);
    var min := Double(8 * r - 1);
    var max := Double(8 * r);
    if min <= tid && tid < max {
      msg.Put(r + 1);
      msg.Put(0);
    } else {
      msg.Put(r);
    }
    PutDigits(msg, tid, r);
  }

  /** The ids there are. */
  lemma IdRange(t: int)
    ensures IsId(t) <==> 1 <= t <= 0x7FFF_FFFE
  {
  }

  /** Lengths and ids, spelled out. */
  lemma LengthExamples()
    ensures LengthOctets(0) == [0] && LengthOctets(127) == [127] && LengthOctets(128) == [0x81, 128]
    ensures LengthOctets(255) == [0x81, 255] && LengthOctets(256) == [0x82, 1, 0]
    ensures LengthOctets(0x1234) == [0x82, 0x12, 0x34] && LengthOctets(0x12_3456) == [0x83, 0x12, 0x34, 0x56]
  {
    DigitsNext(0x1234, 0x12);
    DigitsNext(0x12_3456, 0x1234);
    DigitsNext(256, 1);
    DigitsOne(1);
    DigitsOne(0x12);
    DigitsOne(128);
    DigitsOne(255);
    hide Digits;
  }

  lemma IdExamples()
    ensures IdTlv(1) == [0x02, 1, 1] && IdTlv(127) == [0x02, 1, 127] && IdTlv(128) == [0x02, 2, 0, 128]
    ensures IdTlv(0x7FFF_FFFE) == [0x02, 4, 0x7f, 0xff, 0xff, 0xfe]
  {
    DigitsOne(1);
    DigitsOne(127);
    DigitsOne(128);
    DigitsOne(0x7f);
    DigitsNext(0x7fff, 0x7f);
    DigitsNext(0x7f_ffff, 0x7fff);
    DigitsNext(0x7fff_fffe, 0x7f_ffff);
    hide Digits;
  }

  lemma SmallId(n: nat)
    requires 0 < n < 128
    ensures IdTlv(n) == [0x02, 1, n]
  {
    DigitsOne(n);
    ShortTlv(0x02, [n]);
  }

  lemma DigitsOne(n: nat)
    requires 0 < n < 256
    ensures Digits(n) == [n]
  {
    assert Digits(n / 256) == [];
  }

  lemma DigitsNext(n: nat, m: nat)
    requires n > 0 && m == n / 256
    ensures Digits(n) == Digits(m) + [n % 256]
  {
  }

  /** The conversions of a 32-bit machine, spelled out. */
  lemma IntExamples()
    ensures U32(-1) == 0xffff_ffff && U32(0x1_0000_0000) == 0 && I32(0x7fff_ffff) == 0x7fff_ffff
    ensures I32(0x8000_0000) == -0x8000_0000 && I32(0xffff_ffff) == -1
    ensures SignedChar(127) == 127 && SignedChar(128) == -128 && SignedChar(255) == -1
  {
  }

  /** One octet of the sum `id += octet << (8 * rest)` on an unsigned int. */
  function AddOctet(id: int, b: byte, rest: nat): int {
    U32(id + b * Pow256(rest))
  }

  lemma AddOctetIs(was: nat, b: byte, rest: nat)
    ensures AddOctet(U32(was * Pow256(rest + 1)), b, rest) == U32((was * 256 + b) * Pow256(rest))
  {
    var p := Pow256(rest);
    assert was * (256 * p) == was * 256 * p;
    assert (was * 256 + b) * p == was * 256 * p + b * p;
    U32Add(was * 256 * p, b * p);
  }

  lemma U32Add(x: int, y: int)
    ensures U32(U32(x) + y) == U32(x + y)
  {
  }

  /** The decoder's message-id loop over `len` octets from `j`; with at most four no shift reaches the width. */
  method ReadMessageId(data: seq<byte>, j: nat, len: nat) returns (id: nat)
    requires j + len <= |data| && len <= 4
    ensures id == BigEndian(data[j..j + len]) % TWO_32
  {
    hide *;
    id := 0;
    var rest, p := len, j;
    NothingRead(data, j, len);
    while rest > 0
      invariant 0 <= rest <= len && p == j + len - rest && IdSoFar(data, j, p, rest, id)
    {
      rest := rest - 1;
      OctetRead(data, j, p, rest, id);
      id := AddOctet(id, data[p], rest);
      p := p + 1;
    }
    AllRead(data, j, p, id);
  }

  /** The octets read so far, shifted by those to come. */
  ghost predicate IdSoFar(data: seq<byte>, j: nat, p: nat, rest: nat, id: int) {
    j <= p <= |data| && id == U32(BigEndian(data[j..p]) * Pow256(rest))
  }

  lemma NothingRead(data: seq<byte>, j: nat, rest: nat)
    requires j <= |data|
    ensures IdSoFar(data, j, j, rest, 0)
  {
  }

  lemma OctetRead(data: seq<byte>, j: nat, p: nat, rest: nat, id: nat)
    requires p < |data| && rest < 4 && IdSoFar(data, j, p, rest + 1, id)
    ensures AddOctet(id, data[p], rest) >= 0
    ensures IdSoFar(data, j, p + 1, rest, AddOctet(id, data[p], rest))
  {
    assert data[j..p + 1][..p - j] == data[j..p];
    AddOctetIs(BigEndian(data[j..p]), data[p], rest);
    hide AddOctet, Pow256;
  }

  lemma AllRead(data: seq<byte>, j: nat, p: nat, id: nat)
    requires IdSoFar(data, j, p, 0, id)
    ensures j <= p <= |data| && id == BigEndian(data[j..p]) % TWO_32
  {
  }

  function Pow256(r: nat): nat {
    if r == 0 then 1 else 256 * Pow256(r - 1)
  }

  /** An id's encoding is minimal (X.690 section 8.3.2), never negative, and reads back as the id. */
  lemma IdRoundTrip(n: nat)
    requires IsId(n)
    ensures 1 <= |IntegerContent(n)| <= 4 && |IdTlv(n)| == 2 + |IntegerContent(n)|
    ensures IntegerContent(n)[0] < 128
    ensures |IntegerContent(n)| > 1 ==> IntegerContent(n)[0] != 0 || IntegerContent(n)[1] >= 128
    ensures BigEndian(IntegerContent(n)) % TWO_32 == n
  {
    MinMaxTestsTopBit(n);
    BigEndianDigits(n);
    var d := Digits(n);
    FirstDigit(n);
    if d[0] >= 128 {
      LeadingZero(d);
    }
  }

  lemma {:induction false} FirstDigit(n: nat)
    requires n >= 1
    ensures Digits(n)[0] != 0
  {
    if n >= 256 {
      FirstDigit(n / 256);
    } else {
      assert Digits(n / 256) == [];
    }
  }

  lemma {:induction false} LeadingZero(s: seq<byte>)
    ensures BigEndian([0] + s) == BigEndian(s)
  {
    if s != [] {
      LeadingZero(s[..|s| - 1]);
      assert ([0] + s)[..|s|] == [0] + s[..|s| - 1];
    } else {
      assert BigEndian([0]) == BigEndian([]) * 256 + 0;
    }
  }
}
