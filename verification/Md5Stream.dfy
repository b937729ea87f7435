/** The streaming interface of md5.c: any sequence of appends digests the concatenated message. */
module Md5Stream {
  import opened Bytes
  import opened Md5

  const TWO_64 := 0x1_0000_0000_0000_0000

  /** What does not fill a block. */
  function Tail(m: seq<byte>): seq<byte> {
    m[|m| - |m| % 64..]
  }

  /** The registers after the whole blocks of m. */
  function Absorbed(m: seq<byte>): Words {
    Fold(InitialWords(), m)
  }

  // ---- The bit counter ----

  /** The two counters hold the length of a message in bits, modulo 2^64. */
  predicate Counts(count0: int, count1: int, length: nat) {
    0 <= count0 < TWO_32 && 0 <= count1 < TWO_32 && (8 * length - count0 - TWO_32 * count1) % TWO_64 == 0
  }

  lemma CountOffset(count0: int, count1: int, length: nat)
    requires Counts(count0, count1, length)
    ensures count0 / 8 % 64 == length % 64 && (55 - count0 / 8) % 64 == (55 - length) % 64
  {
    var k := (8 * length - count0 - TWO_32 * count1) / TWO_64;
    assert 8 * length == count0 + TWO_32 * count1 + TWO_64 * k;
    var z := 0x80_0000 * count1 + 0x80_0000_0000_0000 * k;
    assert count0 == 8 * (length - 64 * z);
    ModuloShift(length, count0 / 8, z);
  }

  lemma ModuloShift(x: int, y: int, z: int)
    requires y == x - 64 * z
    ensures y % 64 == x % 64 && (55 - y) % 64 == (55 - x) % 64
  {
  }

  /** The carry from the low counter to the high one. */
  lemma CountNext(count0: int, count1: int, length: nat, nbytes: nat)
    requires Counts(count0, count1, length)
    ensures var nbits := U32(8 * nbytes);
            var low := U32(count0 + nbits);
            var high := U32(count1 + nbytes / 0x2000_0000);
            Counts(low, if low < nbits then U32(high + 1) else high, length + nbytes)
  {
    var nbits := U32(8 * nbytes);
    var low := U32(count0 + nbits);
    var high := U32(count1 + nbytes / 0x2000_0000);
    var last := if low < nbits then U32(high + 1) else high;
    var carried := count1 + nbytes / 0x2000_0000 + if low < nbits then 1 else 0;
    BitsOf(nbytes);
    LowCarry(count0, nbits);
    HighCarry(count1 + nbytes / 0x2000_0000, if low < nbits then 1 else 0);
    hide *;
    var j := carried / TWO_32;
    var k := CountsBy(count0, count1, length);
    CountsOf(low, last, length + nbytes, k + j);
  }

  lemma BitsOf(nbytes: nat)
    ensures 8 * nbytes == U32(8 * nbytes) + TWO_32 * (nbytes / 0x2000_0000)
    ensures 0 <= U32(8 * nbytes) < TWO_32
  {
    var q, low := nbytes / 0x2000_0000, 8 * (nbytes % 0x2000_0000);
    assert 8 * nbytes == low + TWO_32 * q;
    LowBits(low, q);
  }

  lemma LowBits(low: nat, q: nat)
    requires low < TWO_32
    ensures U32(low + TWO_32 * q) == low
  {
  }

  lemma LowCarry(count0: int, nbits: int)
    requires 0 <= count0 < TWO_32 && 0 <= nbits < TWO_32
    ensures var low := U32(count0 + nbits);
            0 <= low < TWO_32 && count0 + nbits == low + if low < nbits then TWO_32 else 0
  {
  }

  lemma HighCarry(sum: nat, carry: nat)
    requires carry <= 1
    ensures var last := if carry == 1 then U32(U32(sum) + 1) else U32(sum);
            0 <= last < TWO_32 && sum + carry == last + TWO_32 * ((sum + carry) / TWO_32)
  {
  }

  lemma CountsBy(count0: int, count1: int, length: nat) returns (k: int)
    requires Counts(count0, count1, length)
    ensures 0 <= count0 < TWO_32 && 0 <= count1 < TWO_32 && 8 * length - count0 - TWO_32 * count1 == TWO_64 * k
  {
    k := (8 * length - count0 - TWO_32 * count1) / TWO_64;
  }

  lemma CountsOf(count0: int, count1: int, length: nat, k: int)
    requires 0 <= count0 < TWO_32 && 0 <= count1 < TWO_32 && 8 * length - count0 - TWO_32 * count1 == TWO_64 * k
    ensures Counts(count0, count1, length)
  {
  }

  /** Four octets by shifts. */
  function Octets(x: nat): seq<byte> {
    [x % 0x100, x / 0x100 % 0x100, x / 0x1_0000 % 0x100, x / 0x100_0000 % 0x100]
  }

  lemma WordOctets(x: nat, n: nat)
    ensures LittleEndian(x, 4 + n) == Octets(x) + LittleEndian(x / TWO_32, n)
  {
    assert x / 0x100 / 0x100 == x / 0x1_0000 && x / 0x1_0000 / 0x100 == x / 0x100_0000;
    assert x / 0x100_0000 / 0x100 == x / TWO_32;
    assert LittleEndian(x, 4 + n) == [x % 0x100] + LittleEndian(x / 0x100, 3 + n);
    assert LittleEndian(x / 0x100, 3 + n) == [x / 0x100 % 0x100] + LittleEndian(x / 0x1_0000, 2 + n);
    assert LittleEndian(x / 0x1_0000, 2 + n) == [x / 0x1_0000 % 0x100] + LittleEndian(x / 0x100_0000, 1 + n);
    assert LittleEndian(x / 0x100_0000, 1 + n) == [x / 0x100_0000 % 0x100] + LittleEndian(x / TWO_32, n);
  }

  lemma ShiftSum(c: nat, q: nat)
    ensures (c + TWO_32 * q) / 0x100 == c / 0x100 + 0x100 * (0x1_0000 * q)
    ensures (c + TWO_32 * q) / 0x1_0000 == c / 0x1_0000 + 0x100 * (0x100 * q)
    ensures (c + TWO_32 * q) / 0x100_0000 == c / 0x100_0000 + 0x100 * q
  {
  }

  lemma DropHigh(a: nat, z: nat)
    ensures (a + 0x100 * z) % 0x100 == a % 0x100
  {
  }

  /** The high octets of a number do not show in its low word. */
  lemma OctetsOfSum(c: nat, q: nat)
    requires c < TWO_32
    ensures Octets(c + TWO_32 * q) == Octets(c) && (c + TWO_32 * q) / TWO_32 == q
  {
    ShiftSum(c, q);
    DropHigh(c, 0x100_0000 * q);
    DropHigh(c / 0x100, 0x1_0000 * q);
    DropHigh(c / 0x1_0000, 0x100 * q);
    DropHigh(c / 0x100_0000, q);
  }

  /** The counters, low word first, are the eight octets of the length in bits. */
  lemma CountIsLength(count0: int, count1: int, length: nat)
    requires Counts(count0, count1, length)
    ensures LittleEndian(8 * length, 8) == Octets(count0) + Octets(count1)
  {
    var x := 8 * length;
    var k := (x - count0 - TWO_32 * count1) / TWO_64;
    assert x - count0 - TWO_32 * count1 == TWO_64 * k;
    assert k >= 0;
    assert x == count0 + TWO_32 * (count1 + TWO_32 * k);
    hide *;
    WordOctets(x, 4);
    OctetsOfSum(count0, count1 + TWO_32 * k);
    WordOctets(count1 + TWO_32 * k, 0);
    OctetsOfSum(count1, k);
    NoOctets(k);
  }

  lemma NoOctets(x: nat)
    ensures LittleEndian(x, 0) == []
  {
  }

  // ---- What an append does to the fold ----

  /** Whole blocks followed by less than a block. */
  lemma Closed(whole: seq<byte>, rest: seq<byte>)
    requires |whole| % 64 == 0 && |rest| < 64
    ensures Absorbed(whole + rest) == Absorbed(whole)
    ensures Tail(whole + rest) == rest && |whole + rest| % 64 == |rest|
  {
    hide Fold;
    FoldTail(InitialWords(), whole, rest);
    LengthModulo(|whole|, |rest|);
    assert |whole + rest| == |whole| + |rest|;
  }

  lemma LengthModulo(n: nat, r: nat)
    requires n % 64 == 0 && r < 64
    ensures (n + r) % 64 == r
  {
  }

  lemma NextWhole(n: nat)
    requires n % 64 == 0
    ensures (n + 64) % 64 == 0
  {
  }

  lemma Whole(m: seq<byte>) returns (whole: seq<byte>)
    ensures m == whole + Tail(m) && |whole| % 64 == 0 && |Tail(m)| == |m| % 64
    ensures Absorbed(m) == Absorbed(whole)
  {
    whole := m[..|m| - |m| % 64];
    assert m == whole + Tail(m);
    FoldTail(InitialWords(), whole, Tail(m));
  }

  /** Appending without filling the block. */
  lemma Partial(m: seq<byte>, x: seq<byte>)
    requires |m| % 64 + |x| < 64
    ensures Absorbed(m + x) == Absorbed(m) && Tail(m + x) == Tail(m) + x && |m + x| % 64 == |m| % 64 + |x|
  {
    var whole := Whole(m);
    hide *;
    Regroup(whole, Tail(m), x);
    Closed(whole, Tail(m) + x);
  }

  /** Appending what fills the block. */
  lemma Filled(m: seq<byte>, x: seq<byte>)
    requires |m| % 64 + |x| == 64
    ensures Absorbed(m + x) == Compress(Absorbed(m), Tail(m) + x) && |m + x| % 64 == 0
  {
    var whole := Whole(m);
    hide *;
    Regroup(whole, Tail(m), x);
    AbsorbBlock(whole, Tail(m) + x);
  }

  // ---- md5_state_t ----

  class Md5State {
    var count0: int
    var count1: int
    var abcd: Words
    const buf: array<byte>
    ghost var msg: seq<byte>

    /** The registers fold the whole blocks of what was appended, `buf` holds the rest, `count` its length in bits. */
    ghost predicate Valid()
      reads this, buf
    {
      && buf.Length == 64
      && Counts(count0, count1, |msg|)
      && abcd == Absorbed(msg)
      && buf[..|msg| % 64] == Tail(msg)
    }

    /** md5_init */
    constructor ()
      ensures Valid() && msg == []
      ensures fresh(buf)
    {
      count0, count1 := 0, 0;
      abcd := Words(0x67452301, T_MASK ^ 0x10325476, T_MASK ^ 0x67452301, 0x10325476);
      buf := new byte[64](_ => 0);
      msg := [];
      new;
      assert abcd == InitialWords();
    }

    /** The running counters of md5_append. */
    method Count(nbytes: nat)
      requires Counts(count0, count1, |msg|)
      modifies `count0, `count1
      ensures Counts(count0, count1, |msg| + nbytes)
    {
      CountNext(count0, count1, |msg|, nbytes);
      hide Counts;
      var nbits := U32(8 * nbytes);
      count1 := U32(count1 + nbytes / 0x2000_0000);
      count0 := U32(count0 + nbits);
      if count0 < nbits {
        count1 := U32(count1 + 1);
      }
    }

    /** memcpy into the block buffer. */
    method Store(offset: nat, data: seq<byte>, p: nat, n: nat)
      requires offset + n <= buf.Length && p + n <= |data|
      modifies buf
      ensures buf[..offset + n] == old(buf[..offset]) + data[p..p + n]
    {
      forall j | 0 <= j < n {
        buf[offset + j] := data[p + j];
      }
    }

    /** Complete a partial block, if there is one, and process it if that fills it. */
    method Start(data: seq<byte>, nbytes: nat, offset: nat, ghost m: seq<byte>) returns (p: nat, done: bool)
      requires 0 < nbytes <= |data| && offset == |m| % 64 && offset + nbytes < TWO_31
      requires buf.Length == 64 && abcd == Absorbed(m) && buf[..offset] == Tail(m)
      modifies buf, `abcd
      ensures p <= nbytes && abcd == Absorbed(m + data[..p])
      ensures done ==> p == nbytes && buf[..|m + data[..p]| % 64] == Tail(m + data[..p])
      ensures !done ==> |m + data[..p]| % 64 == 0
    {
      hide Fold, Compress, Tail, Absorbed;
      p, done := 0, false;
      assert m + data[..0] == m;
      if offset != 0 {
        var copy := if offset + nbytes > 64 then 64 - offset else nbytes;
        Store(offset, data, 0, copy);
        assert data[0..copy] == data[..copy];
        p := copy;
        if offset + copy < 64 {
          Partial(m, data[..p]);
          return p, true;
        }
        Filled(m, data[..p]);
        assert buf[..64] == buf[..];
        abcd := Process(abcd, buf[..]);
      }
    }

    /** The loop over whole blocks. */
    method Blocks(data: seq<byte>, nbytes: nat, start: nat, ghost m: seq<byte>) returns (p: nat)
      requires start <= nbytes <= |data|
      requires |m + data[..start]| % 64 == 0 && abcd == Absorbed(m + data[..start])
      modifies `abcd
      ensures p <= nbytes < p + 64
      ensures |m + data[..p]| % 64 == 0 && abcd == Absorbed(m + data[..p])
    {
      hide *;
      p := start;
      while nbytes - p >= 64
        invariant p <= nbytes
        invariant |m + data[..p]| % 64 == 0 && abcd == Absorbed(m + data[..p])
        decreases nbytes - p
      {
        var block := data[p..p + 64];
        NextBlock(m, data, p);
        abcd := Process(abcd, block);
        p := p + 64;
      }
    }

    /** What md5_append does with the octets once they are counted. */
    method Absorb(data: seq<byte>, nbytes: nat, offset: nat, ghost m: seq<byte>, ghost all: seq<byte>)
      requires 0 < nbytes <= |data| && offset == |m| % 64 && offset + nbytes < TWO_31
      requires buf.Length == 64 && abcd == Absorbed(m) && buf[..offset] == Tail(m)
      requires all == m + data[..nbytes]
      modifies buf, `abcd
      ensures abcd == Absorbed(all) && buf[..|all| % 64] == Tail(all)
    {
      hide *;
      var p, done := Start(data, nbytes, offset, m);
      if done {
        return;
      }
      p := Blocks(data, nbytes, p, m);
      Store(0, data, p, nbytes - p);
      Closed(m + data[..p], data[p..nbytes]);
      assert data[..nbytes] == data[..p] + data[p..nbytes];
      Regroup(m, data[..p], data[p..nbytes]);
    }

    lemma ValidIs()
      ensures Valid() <==>
              && buf.Length == 64 && Counts(count0, count1, |msg|) && abcd == Absorbed(msg)
              && buf[..|msg| % 64] == Tail(msg)
      ensures Valid() ==> 0 <= count0 && 0 <= count1 && count0 / 8 % 64 == |msg| % 64
    {
      if Valid() {
        CountOffset(count0, count1, |msg|);
      }
    }

    /** md5_append, for a length that does not overflow an int. */
    method Append(data: seq<byte>, nbytes: int)
      requires Valid() && nbytes <= |data| && |msg| % 64 + nbytes < TWO_31
      modifies this, buf
      ensures Valid() && msg == old(msg) + data[..if nbytes <= 0 then 0 else nbytes]
    {
      ValidIs();
      hide *;
      var offset := count0 / 8 % 64;
      if nbytes <= 0 {
        return;
      }
      Count(nbytes);
      ghost var m := msg;
      msg := m + data[..nbytes];
      Absorb(data, nbytes, offset, m, msg);
      ValidIs();
    }

    /** The length before padding. */
    method SaveLength() returns (data: seq<byte>)
      requires 0 <= count0 && 0 <= count1
      ensures data == Octets(count0) + Octets(count1)
    {
      var low := LoadOctets(count0);
      var high := LoadOctets(count1);
      data := low + high;
    }

    /** Pad to 56 octets modulo 64. */
    method PadOut()
      requires Valid()
      modifies this, buf
      ensures Valid() && msg == old(msg) + Pad()[..(55 - |old(msg)|) % 64 + 1]
    {
      hide *;
      ValidIs();
      FinishFacts(count0, count1, msg);
      PaddingSize(count0, msg);
      var pad := Pad();
      Append(pad, (55 - count0 / 8) % 64 + 1);
    }

    /** md5_finish */
    method Finish() returns (digest: seq<byte>)
      requires Valid()
      modifies this, buf
      ensures digest == Hash(old(msg))
    {
      hide *;
      ValidIs();
      FinishFacts(count0, count1, msg);
      ghost var m := msg;
      var data := SaveLength();
      PadOut();
      PaddingSize(0, msg);
      Append(data, 8);
      HashIs(m, (55 - |m|) % 64, Pad(), data, msg);
      ValidIs();
      digest := Store4(abcd);
    }
  }

  /** The array `pad`. */
  function Pad(): (s: seq<byte>)
    ensures |s| == 64
  {
    [0x80] + seq(63, _ => 0)
  }

  lemma FinishFacts(count0: int, count1: int, m: seq<byte>)
    requires Counts(count0, count1, |m|)
    ensures LittleEndian(8 * |m|, 8) == Octets(count0) + Octets(count1)
    ensures |Octets(count0)| == 4 && |Octets(count1)| == 4
    ensures (55 - count0 / 8) % 64 == (55 - |m|) % 64
  {
    CountIsLength(count0, count1, |m|);
    CountOffset(count0, count1, |m|);
  }

  lemma PaddingSize(x: int, m: seq<byte>)
    ensures 0 <= (55 - x / 8) % 64 < 64 && |m| % 64 + 64 < TWO_31
  {
  }

  lemma HashIs(m: seq<byte>, zeros: nat, pad: seq<byte>, octets: seq<byte>, all: seq<byte>)
    requires zeros == (55 - |m|) % 64 && |octets| == 8 && octets == LittleEndian(8 * |m|, 8)
    requires pad == Pad() && all == m + pad[..zeros + 1] + octets[..8]
    ensures Hash(m) == Digest(Absorbed(all))
  {
    PaddingIs(zeros);
    assert octets[..8] == octets;
    assert Padding(|m|) == [0x80] + Zeros(zeros) + octets;
    assert Hash(m) == Digest(Absorbed(m + Padding(|m|)));
    hide *;
    Regroup(m, pad[..zeros + 1], octets);
  }

  lemma PaddingIs(zeros: nat)
    requires zeros < 64
    ensures Pad()[..zeros + 1] == [0x80] + Zeros(zeros)
  {
  }

  /** The shifts by 0, 8, 16 and 24 bits that store a word. */
  method LoadOctets(x: nat) returns (s: seq<byte>)
    ensures s == Octets(x)
  {
    s := [];
    var shift := 1;
    for i := 0 to 4
      invariant shift == [1, 0x100, 0x1_0000, 0x100_0000, TWO_32][i]
      invariant s == Octets(x)[..i]
    {
      s := s + [x / shift % 0x100];
      shift := shift * 0x100;
    }
  }

  /** The sixteen octets of the digest. */
  method Store4(w: Words) returns (digest: seq<byte>)
    ensures digest == Digest(w)
  {
    hide *;
    DigestIs(w);
    var a := LoadOctets(AsNumber(w.a));
    var b := LoadOctets(AsNumber(w.b));
    var c := LoadOctets(AsNumber(w.c));
    var d := LoadOctets(AsNumber(w.d));
    digest := a + b + c + d;
  }

  lemma DigestIs(w: Words)
    ensures Digest(w) == Octets(AsNumber(w.a)) + Octets(AsNumber(w.b)) + Octets(AsNumber(w.c)) + Octets(AsNumber(w.d))
  {
    hide *;
    DigestShape(w);
    FourWords(AsNumber(w.a), AsNumber(w.b), AsNumber(w.c), AsNumber(w.d));
  }

  lemma DigestShape(w: Words)
    ensures Digest(w)
            == LittleEndian(AsNumber(w.a), 4) + LittleEndian(AsNumber(w.b), 4) + LittleEndian(AsNumber(w.c), 4)
               + LittleEndian(AsNumber(w.d), 4)
  {
    hide LittleEndian;
  }

  lemma FourWords(a: nat, b: nat, c: nat, d: nat)
    ensures LittleEndian(a, 4) + LittleEndian(b, 4) + LittleEndian(c, 4) + LittleEndian(d, 4)
            == Octets(a) + Octets(b) + Octets(c) + Octets(d)
  {
    hide *;
    WordIs(a);
    WordIs(b);
    WordIs(c);
    WordIs(d);
  }

  lemma WordIs(x: nat)
    ensures LittleEndian(x, 4) == Octets(x)
  {
    WordOctets(x, 0);
    assert Octets(x) + [] == Octets(x);
  }

  /** However a message is cut into appends, its digest is the digest of the message. */
  method HashPieces(pieces: seq<seq<byte>>) returns (digest: seq<byte>)
    requires forall p :: p in pieces ==> |p| < TWO_31 - 64
    ensures digest == Hash(Flatten(pieces))
  {
    hide Hash;
    var state := new Md5State();
    ghost var left := pieces;
    var i := 0;
    while i < |pieces|
      invariant i <= |pieces| && fresh(state) && fresh(state.buf) && state.Valid()
      invariant state.msg + Flatten(pieces[i..]) == Flatten(pieces)
    {
      assert pieces[i..][0] == pieces[i] && pieces[i..][1..] == pieces[i + 1..];
      assert pieces[i][..|pieces[i]|] == pieces[i];
      Regroup(state.msg, pieces[i], Flatten(pieces[i + 1..]));
      state.Append(pieces[i], |pieces[i]|);
      i := i + 1;
    }
    assert state.msg == Flatten(pieces);
    digest := state.Finish();
  }

  lemma AbsorbBlock(n: seq<byte>, block: seq<byte>)
    requires |n| % 64 == 0 && |block| == 64
    ensures Absorbed(n + block) == Compress(Absorbed(n), block) && |n + block| % 64 == 0
  {
    hide Fold, Compress;
    FoldBlock(InitialWords(), n, block);
    NextWhole(|n|);
  }

  lemma NextBlock(m: seq<byte>, data: seq<byte>, p: nat)
    requires p + 64 <= |data| && |m + data[..p]| % 64 == 0
    ensures Absorbed(m + data[..p + 64]) == Compress(Absorbed(m + data[..p]), data[p..p + 64])
    ensures |m + data[..p + 64]| % 64 == 0
  {
    hide *;
    assert data[..p + 64] == data[..p] + data[p..p + 64];
    Regroup(m, data[..p], data[p..p + 64]);
    AbsorbBlock(m + data[..p], data[p..p + 64]);
  }
}
