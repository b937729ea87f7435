/** The resumable base64 codec over bounded buffers (RFC 4648 section 4). */
module Base64 {
  import opened Bytes

  const PAD: byte := 61

  /** _base64_charcters_ */
  const CHARACTERS := "ABCDEFGHIJKLMNOPQRSTUVWXYZ" + "abcdefghijklmnopqrstuvwxyz" + "0123456789" + "+" + "/"

  datatype Option<T> = None | Some(value: T)

  // ---- The alphabet ----

  function Character(v: nat): byte
    requires v < 64
  {
    AlphabetSize();
    AlphabetOctets(v);
    CHARACTERS[v] as int
  }

  lemma AlphabetSize()
    ensures |CHARACTERS| == 64
  {
  }

  /** The characters run through three ranges and two symbols. */
  lemma AlphabetOctets(v: nat)
    requires v < 64
    ensures |CHARACTERS| == 64
    ensures CHARACTERS[v] as int ==
            if v < 26 then 65 + v else if v < 52 then 97 + (v - 26) else if v < 62 then 48 + (v - 52)
            else if v == 62 then 43 else 47
  {
    if v < 26 {
      Upper(v);
    } else if v < 52 {
      Lower(v - 26);
    }
  }

  lemma Upper(v: nat)
    requires v < 26
    ensures "ABCDEFGHIJKLMNOPQRSTUVWXYZ"[v] as int == 65 + v
  {
  }

  lemma Lower(v: nat)
    requires v < 26
    ensures "abcdefghijklmnopqrstuvwxyz"[v] as int == 97 + v
  {
  }

  /** _BASE64_DECODE_CHAR */
  function DecodeChar(c: byte): byte {
    if 65 <= c <= 90 then c - 65
    else if 97 <= c <= 122 then c - 97 + 26
    else if 48 <= c <= 57 then c - 48 + 26 + 26
    else if c == 43 then 26 + 26 + 10
    else if c == 47 then 26 + 26 + 10 + 1
    else 0xff
  }

  /** The two directions of the alphabet are inverse, and the pad is outside it. */
  lemma CharacterInverse(v: nat)
    requires v < 64
    ensures DecodeChar(Character(v)) == v && Character(v) != PAD
  {
    AlphabetOctets(v);
  }

  // ---- RFC 4648 section 4 ----

  /** Four groups of six bits, the first `n + 1` of them as characters and the rest as padding. */
  function SixBits(x: nat, n: nat): seq<byte>
    requires x < 0x100_0000 && 1 <= n <= 3
  {
    [Character(x / 0x4_0000), Character(x / 0x1000 % 64),
     if n < 2 then PAD else Character(x / 64 % 64), if n < 3 then PAD else Character(x % 64)]
  }

  /** Three octets as one number. */
  function Together(a: int, b: int, c: int): int {
    0x1_0000 * a + 0x100 * b + c
  }

  /** The encoding the standard asks for: bits that pad out the last group are zero. */
  function Canonical(s: seq<byte>): seq<byte> {
    if s == [] then []
    else if |s| == 1 then SixBits(Together(s[0], 0, 0), 1)
    else if |s| == 2 then SixBits(Together(s[0], s[1], 0), 2)
    else SixBits(Together(s[0], s[1], s[2]), 3) + Canonical(s[3..])
  }

  // ---- Encoding ----

  /** The alphabet: capitals, small letters, digits, '+' and '/'. */
  lemma CharacterIs(v: nat)
    requires v < 64
    ensures v < 26 ==> Character(v) == 65 + v
    ensures 26 <= v < 52 ==> Character(v) == 97 + (v - 26)
    ensures 52 <= v < 62 ==> Character(v) == 48 + (v - 52)
    ensures v == 62 ==> Character(v) == 43
    ensures v == 63 ==> Character(v) == 47
  {
    AlphabetOctets(v);
  }

  /** No other octet, '=' among them, is decoded. */
  lemma NoCharacter(c: byte)
    ensures DecodeChar(c) == 0xff
            <==> !(65 <= c <= 90 || 97 <= c <= 122 || 48 <= c <= 57 || c == 43 || c == 47)
    ensures DecodeChar(61) == 0xff
  {
  }

  /** A last group of one octet ends in two '=', one of two octets in one, whatever lies past the end. */
  lemma PadIs(a: byte, b: byte, past: byte)
    ensures Encoded([a], past) == [Character(a / 4), Character(a % 4 * 16 + past / 16), 61, 61]
    ensures Encoded([a, b], past)
            == [Character(a / 4), Character(a % 4 * 16 + b / 16), Character(b % 16 * 4 + past / 64), 61]
  {
    hide Character;
  }

  /** A whole group is its 24 bits, six at a time. */
  lemma GroupIs(a: byte, b: byte, c: byte)
    ensures Quad(a, b, c, 3)
            == [Character(a / 4), Character(a % 4 * 16 + b / 16), Character(b % 16 * 4 + c / 64), Character(c % 64)]
  {
    hide Character;
  }

  /** The test vectors of RFC 4648 section 10 that end in each of the three ways: "foob", "fooba" and "foobar". */
  lemma Vectors()
    ensures Encoded([102, 111, 111, 98], 0) == [90, 109, 57, 118, 89, 103, 61, 61]
    ensures Encoded([102, 111, 111, 98, 97], 0) == [90, 109, 57, 118, 89, 109, 69, 61]
    ensures Encoded([102, 111, 111, 98, 97, 114], 0) == [90, 109, 57, 118, 89, 109, 70, 121]
  {
    hide *;
    var foo: seq<byte> := [102, 111, 111];
    assert foo + [98] == [102, 111, 111, 98];
    assert foo + [98, 97] == [102, 111, 111, 98, 97];
    assert foo + [98, 97, 114] == [102, 111, 111, 98, 97, 114];
    Foo([98], 0);
    Foo([98, 97], 0);
    Foo([98, 97, 114], 0);
    BarOne();
    BarTwo();
    BarThree();
  }

  lemma BarOne()
    ensures Encoded([98], 0) == [89, 103, 61, 61]
  {
    hide *;
    PadIs(98, 0, 0);
    CharacterIs(24);
    CharacterIs(32);
  }

  lemma BarTwo()
    ensures Encoded([98, 97], 0) == [89, 109, 69, 61]
  {
    hide *;
    PadIs(98, 97, 0);
    CharacterIs(24);
    CharacterIs(38);
    CharacterIs(4);
  }

  lemma BarThree()
    ensures Encoded([98, 97, 114], 0) == [89, 109, 70, 121]
  {
    hide *;
    GroupFirst(98, 97, 114, [], 0);
    BarGroup();
    assert [98 as byte, 97, 114] + [] == [98, 97, 114];
    assert [89 as byte, 109, 70, 121] + [] == [89, 109, 70, 121];
  }

  lemma BarGroup()
    ensures Quad(98, 97, 114, 3) == [89, 109, 70, 121] && Encoded([], 0) == []
  {
    hide *;
    BothHeads([], 0);
    GroupIs(98, 97, 114);
    CharacterIs(24);
    CharacterIs(38);
    CharacterIs(5);
    CharacterIs(50);
  }

  /** "foo" in front. */
  lemma Foo(s: seq<byte>, past: byte)
    ensures Encoded([102, 111, 111] + s, past) == [90, 109, 57, 118] + Encoded(s, past)
  {
    hide *;
    GroupFirst(102, 111, 111, s, past);
    FooGroup();
  }

  lemma FooGroup()
    ensures Quad(102, 111, 111, 3) == [90, 109, 57, 118]
  {
    hide *;
    GroupIs(102, 111, 111);
    CharacterIs(25);
    CharacterIs(38);
    CharacterIs(61);
    CharacterIs(47);
  }

  lemma GroupFirst(a: byte, b: byte, c: byte, s: seq<byte>, past: byte)
    ensures Encoded([a, b, c] + s, past) == Quad(a, b, c, 3) + Encoded(s, past)
  {
    assert ([a, b, c] + s)[3..] == s;
    hide Quad;
  }

  /** The four characters _BASE64_ENCODE_ writes when `n` octets are left. */
  function Quad(a: byte, b: byte, c: byte, n: nat): seq<byte>
    requires n > 0
  {
    [Character(a / 4), Character(a % 4 * 16 + b / 16),
     if n <= 1 then PAD else Character(b % 16 * 4 + c / 64), if n <= 2 then PAD else Character(c % 64)]
  }

  /** The encoding of s in a memory where `past` follows it. */
  function Encoded(s: seq<byte>, past: byte): seq<byte> {
    if s == [] then []
    else if |s| == 1 then Quad(s[0], past, 0, 1)
    else if |s| == 2 then Quad(s[0], s[1], past, 2)
    else Quad(s[0], s[1], s[2], 3) + Encoded(s[3..], past)
  }

  /** The octet after the input, or zero when it is not read. */
  function Past(mem: seq<byte>, end: nat): byte {
    if end < |mem| then mem[end] else 0
  }

  lemma EncodedStep(s: seq<byte>, past: byte)
    requires s != []
    ensures var n := if |s| < 3 then |s| else 3;
            && |Encoded(s, past)| == 4 + |Encoded(s[n..], past)|
            && Encoded(s, past) == Encoded(s[..n], past) + Encoded(s[n..], past)
            && Encoded(s[..n], past)
               == Quad(s[0], if n > 1 then s[1] else past, if n > 2 then s[2] else if n == 2 then past else 0, n)
  {
    hide Character;
    if |s| < 3 {
      assert s[..|s|] == s && s[|s|..] == [];
    } else {
      assert s[..3][3..] == [];
      assert Encoded(s[..3], past) == Quad(s[0], s[1], s[2], 3) + Encoded([], past);
    }
  }

  /** `written` has been encoded of mem[start..end], and mem[i..end] is left. */
  ghost predicate Encoding(mem: seq<byte>, start: nat, i: nat, end: nat, written: seq<byte>) {
    && start <= i <= end <= |mem| && ((end - start) % 3 != 0 ==> end < |mem|)
    && (i < end ==> (i - start) % 3 == 0)
    && written + Encoded(mem[i..end], Past(mem, end)) == Encoded(mem[start..end], Past(mem, end))
  }

  /** How much of the input one group takes. */
  function Taken(ilen: nat): nat {
    if ilen < 3 then ilen else 3
  }

  /** The group _BASE64_ENCODE_ reads from memory. */
  function QuadAt(mem: seq<byte>, i: nat, ilen: nat): seq<byte>
    requires 0 < ilen && i + ilen <= |mem| && (ilen < 3 ==> i + ilen < |mem|)
  {
    Quad(mem[i], mem[i + 1], if ilen > 1 then mem[i + 2] else 0, ilen)
  }

  lemma EncodingStep(mem: seq<byte>, start: nat, i: nat, ilen: nat, written: seq<byte>)
    requires Encoding(mem, start, i, i + ilen, written) && ilen > 0
    ensures i + ilen <= |mem| && (ilen < 3 ==> i + ilen < |mem|) && 0 < Taken(ilen) <= ilen
    ensures |QuadAt(mem, i, ilen)| == 4
    ensures Encoding(mem, start, i + Taken(ilen), i + ilen, written + QuadAt(mem, i, ilen))
  {
    hide Quad;
    var end := i + ilen;
    var past, s, n := Past(mem, end), mem[i..end], Taken(ilen);
    EncodedStep(s, past);
    assert s[n..] == mem[i + n..end];
    assert end - start == (i - start) + ilen;
    QuadIgnores(s[0], if |s| > 1 then s[1] else past, |s|);
    var quad := QuadAt(mem, i, ilen);
    assert Encoded(s[..n], past) == quad;
    QuadSize(mem[i], mem[i + 1], if ilen > 1 then mem[i + 2] else 0, ilen);
    Regroup(written, quad, Encoded(mem[i + n..end], past));
  }

  lemma QuadIgnores(a: byte, b: byte, n: nat)
    requires n > 0
    ensures forall c :: n >= 3 ==> Quad(a, b, c, n) == Quad(a, b, c, 3)
  {
  }

  lemma NothingLeft(mem: seq<byte>, start: nat, end: nat)
    requires start <= end <= |mem| && ((end - start) % 3 != 0 ==> end < |mem|)
    ensures Encoding(mem, start, start, end, [])
  {
  }

  /** One group more. */
  method EncodeNext(mem: seq<byte>, ghost start: nat, i: nat, ilen: nat, ghost end: nat, out: array<byte>,
                    ghost to: nat, o: nat)
    requires to <= o && o + 4 <= out.Length && 0 < ilen && end == i + ilen
    requires Encoding(mem, start, i, end, out[to..o])
    modifies out
    ensures Encoding(mem, start, i + Taken(ilen), end, out[to..o + 4]) && Taken(ilen) <= ilen
    ensures forall k :: 0 <= k < out.Length && !(o <= k < o + 4) ==> out[k] == old(out[k])
  {
    hide *;
    ghost var before := out[to..o];
    EncodingStep(mem, start, i, ilen, before);
    EncodeQuad(mem, i, ilen, out, o);
    assert out[to..o] == before;
    assert out[to..o + 4] == before + out[o..o + 4];
  }

  lemma TakenIs(ilen: nat)
    ensures Taken(ilen) == if ilen < 3 then ilen else 3
  {
  }

  /** base64_encode: the pointers advance together, and what is written is a prefix of the encoding. */
  method Encode(mem: seq<byte>, start: nat, length: nat, out: array<byte>, to: nat, room: nat)
    returns (i: nat, ilen: nat, o: nat, olen: nat)
    requires start + length <= |mem| && (length % 3 != 0 ==> start + length < |mem|)
    requires to + room <= out.Length
    modifies out
    ensures start <= i && to <= o && i + ilen == start + length && o + olen == to + room
    ensures ilen == 0 || olen < 4
    ensures Encoding(mem, start, i, start + length, out[to..o])
    ensures forall k :: 0 <= k < out.Length && !(to <= k < to + room) ==> out[k] == old(out[k])
  {
    i, ilen, o, olen := start, length, to, room;
    hide *;
    ghost var end := start + length;
    NothingLeft(mem, start, end);
    assert out[to..to] == [];
    while ilen > 0 && olen >= 4
      invariant start <= i && to <= o && i + ilen == end && o + olen == to + room
      invariant Encoding(mem, start, i, end, out[to..o])
      invariant forall k :: 0 <= k < out.Length && !(to <= k < to + room) ==> out[k] == old(out[k])
    {
      TakenIs(ilen);
      EncodeNext(mem, start, i, ilen, end, out, to, o);
      if ilen < 3 {
        i := i + ilen;
        ilen := 0;
      } else {
        i := i + 3;
        ilen := ilen - 3;
      }
      o := o + 4;
      olen := olen - 4;
    }
  }

  /** _BASE64_ENCODE_ */
  method EncodeQuad(mem: seq<byte>, i: nat, ilen: nat, out: array<byte>, o: nat)
    requires 0 < ilen && i + ilen <= |mem| && (ilen < 3 ==> i + ilen < |mem|)
    requires o + 4 <= out.Length
    modifies out
    ensures out[o..o + 4] == QuadAt(mem, i, ilen)
    ensures forall k :: 0 <= k < out.Length && !(o <= k < o + 4) ==> out[k] == old(out[k])
  {
    hide Character;
    out[o] := Character(mem[i] / 4);
    out[o + 1] := Character(mem[i] % 4 * 16 + mem[i + 1] / 16);
    out[o + 2] := if ilen <= 1 then PAD else Character(mem[i + 1] % 16 * 4 + mem[i + 2] / 64);
    out[o + 3] := if ilen <= 2 then PAD else Character(mem[i + 2] % 64);
  }

  /** The encoding is the standard's exactly when the octet read past the end has zero in the bits that show. */
  predicate Clean(length: nat, past: byte) {
    length % 3 == 0 || past < if length % 3 == 1 then 16 else 64
  }

  lemma {:induction false} EncodedIsCanonical(s: seq<byte>, past: byte)
    ensures Encoded(s, past) == Canonical(s) <==> Clean(|s|, past)
  {
    hide *;
    BothHeads(s, past);
    CleanIs(|s|, past);
    if |s| == 1 {
      PastShows(s[0], 0, past, 1);
    } else if |s| == 2 {
      PastShows(s[0], s[1], past, 2);
    } else if |s| > 2 {
      EncodedIsCanonical(s[3..], past);
      SameTail(Quad(s[0], s[1], s[2], 3), Encoded(s[3..], past), Canonical(s[3..]));
    }
  }

  /** The first group of both encodings. */
  lemma BothHeads(s: seq<byte>, past: byte)
    ensures s == [] ==> Encoded(s, past) == Canonical(s) == []
    ensures |s| == 1 ==> Encoded(s, past) == Quad(s[0], past, 0, 1) && Canonical(s) == Quad(s[0], 0, 0, 1)
    ensures |s| == 2 ==> Encoded(s, past) == Quad(s[0], s[1], past, 2) && Canonical(s) == Quad(s[0], s[1], 0, 2)
    ensures |s| > 2 ==>
              var q := Quad(s[0], s[1], s[2], 3);
              Encoded(s, past) == q + Encoded(s[3..], past) && Canonical(s) == q + Canonical(s[3..])
  {
    hide Quad, SixBits;
    if |s| > 0 {
      QuadIsSixBits(s[0], if |s| > 1 then s[1] else 0, if |s| > 2 then s[2] else 0, if |s| < 3 then |s| else 3);
    }
  }

  lemma CleanIs(length: nat, past: byte)
    ensures length == 0 ==> Clean(length, past)
    ensures length == 1 ==> (Clean(length, past) <==> past < 16)
    ensures length == 2 ==> (Clean(length, past) <==> past < 64)
    ensures length > 2 ==> (Clean(length, past) <==> Clean(length - 3, past))
  {
  }

  /** The bits of the octet past the end that reach the text. */
  lemma PastShows(a: byte, b: byte, past: byte, n: nat)
    requires 1 <= n <= 2
    ensures n == 1 ==> (Quad(a, past, 0, 1) == Quad(a, 0, 0, 1) <==> past < 16)
    ensures n == 2 ==> (Quad(a, b, past, 2) == Quad(a, b, 0, 2) <==> past < 64)
  {
    hide Character;
    if n == 1 {
      SameCharacter(a % 4 * 16, past / 16);
      SecondAndThird(a, past, 0, 1);
      SecondAndThird(a, 0, 0, 1);
    } else {
      SameCharacter(b % 16 * 4, past / 64);
      SecondAndThird(a, b, past, 2);
      SecondAndThird(a, b, 0, 2);
    }
  }

  lemma SecondAndThird(a: byte, b: byte, c: byte, n: nat)
    requires 1 <= n <= 2
    ensures Quad(a, b, c, n) == [Character(a / 4), Character(a % 4 * 16 + b / 16),
                                 if n == 1 then PAD else Character(b % 16 * 4 + c / 64), PAD]
  {
    hide Character;
  }

  lemma SameCharacter(v: nat, w: nat)
    requires v + w < 64
    ensures Character(v + w) == Character(v) <==> w == 0
  {
    hide Character, DecodeChar;
    CharacterInverse(v + w);
    CharacterInverse(v);
  }

  lemma QuadIsSixBits(a: byte, b: byte, c: byte, n: nat)
    requires 1 <= n <= 3 && (n < 2 ==> b == 0) && (n < 3 ==> c == 0)
    ensures Quad(a, b, c, n) == SixBits(Together(a, b, c), n)
  {
    hide Character;
    Split24(a, b, c);
  }

  lemma Split24(a: int, b: int, c: int)
    requires 0 <= a < 256 && 0 <= b < 256 && 0 <= c < 256
    ensures var x := Together(a, b, c);
            && 0 <= x < 0x100_0000 && x / 0x4_0000 == a / 4 && x / 0x1000 % 64 == a % 4 * 16 + b / 16
            && x / 64 % 64 == b % 16 * 4 + c / 64 && x % 64 == c % 64
  {
    var x := Together(a, b, c);
    assert x / 0x1000 == a * 16 + b / 16;
    assert x / 64 == a * 1024 + b * 4 + c / 64;
    assert a * 16 + b / 16 == 64 * (a / 4) + (a % 4 * 16 + b / 16);
    assert a * 1024 + b * 4 + c / 64 == 64 * (a * 16 + b / 16) + (b % 16 * 4 + c / 64);
  }

  // ---- Decoding ----

  /** Six bits before and two, four or six bits after, as `_h_ | _l_ >> n` joins them in an octet. */
  function Octet0(h: byte, l: byte): byte
    requires h < 64 && l < 64
  {
    h * 4 + l / 16
  }

  function Octet1(h: byte, l: byte): byte
    requires h < 64 && l < 64
  {
    h % 16 * 16 + l / 4
  }

  function Octet2(h: byte, l: byte): byte
    requires h < 64 && l < 64
  {
    h % 4 * 64 + l
  }

  /** The octets four characters decode to, if they are well formed. */
  function DecodeGroup(c: seq<byte>): (r: Option<seq<byte>>)
    requires |c| == 4
    ensures r.Some? ==> 1 <= |r.value| <= 3
  {
    var p, q, r, t := DecodeChar(c[0]), DecodeChar(c[1]), DecodeChar(c[2]), DecodeChar(c[3]);
    if p >= 64 || q >= 64 then None
    else if c[2] == PAD && c[3] == PAD then Some([Octet0(p, q)])
    else if r >= 64 then None
    else if c[3] == PAD then Some([Octet0(p, q), Octet1(q, r)])
    else if t >= 64 then None
    else Some([Octet0(p, q), Octet1(q, r), Octet2(r, t)])
  }

  /** A group is four characters, or two or three and padding. */
  lemma GroupAccepted(c: seq<byte>)
    requires |c| == 4
    ensures DecodeGroup(c).Some? <==>
            && DecodeChar(c[0]) < 64 && DecodeChar(c[1]) < 64
            && ((c[2] == 61 && c[3] == 61) || (DecodeChar(c[2]) < 64 && (c[3] == 61 || DecodeChar(c[3]) < 64)))
    ensures DecodeGroup(c).Some? ==>
              |DecodeGroup(c).value| == if c[2] == 61 && c[3] == 61 then 1 else if c[3] == 61 then 2 else 3
  {
    hide DecodeChar;
    NoCharacter(61);
  }

  /** Padding is refused anywhere but at the end, and so are one, two or three characters there. */
  lemma TextRefused(c: seq<byte>, rest: seq<byte>)
    requires |c| == 4 && rest != []
    ensures c[3] == 61 ==> Decoded(c + rest) == None
    ensures |rest| < 4 ==> Decoded(rest) == None && Decoded(c + rest) == None
  {
    assert (c + rest)[..4] == c && (c + rest)[4..] == rest;
    GroupAccepted(c);
    hide DecodeGroup;
  }

  /** The message a whole text stands for: groups of four, padding only in the last. */
  function Decoded(text: seq<byte>): Option<seq<byte>> {
    if text == [] then Some([])
    else if |text| < 4 then None
    else
      var g := DecodeGroup(text[..4]);
      if g.None? then None
      else if |g.value| < 3 then if |text| == 4 then g else None
      else
        var rest := Decoded(text[4..]);
        if rest.None? then None else Some(g.value + rest.value)
  }

  lemma QuadRoundTrip(a: byte, b: byte, c: byte, n: nat)
    requires n > 0
    ensures DecodeGroup(Quad(a, b, c, n)) == Some([a, b, c][..if n < 3 then n else 3])
  {
    CharacterInverse(a / 4);
    CharacterInverse(a % 4 * 16 + b / 16);
    CharacterInverse(b % 16 * 4 + c / 64);
    CharacterInverse(c % 64);
    SixBitsBack(a, b, c);
    assert [a, b, c][..1] == [a] && [a, b, c][..2] == [a, b] && [a, b, c][..3] == [a, b, c];
    hide Character, DecodeChar, Octet0, Octet1, Octet2;
  }

  lemma SixBitsBack(a: byte, b: byte, c: byte)
    ensures Octet0(a / 4, a % 4 * 16 + b / 16) == a
    ensures Octet1(a % 4 * 16 + b / 16, b % 16 * 4 + c / 64) == b
    ensures Octet1(a % 4 * 16 + b / 16, b % 16 * 4) == b
    ensures Octet2(b % 16 * 4 + c / 64, c % 64) == c
  {
    assert (a % 4 * 16 + b / 16) % 16 == b / 16;
    assert (b % 16 * 4 + c / 64) % 4 == c / 64;
  }

  /** Decoding undoes encoding, whatever lies past the end of the input. */
  lemma {:induction false} EncodeDecode(s: seq<byte>, past: byte)
    ensures Decoded(Encoded(s, past)) == Some(s)
    decreases |s|
  {
    hide Quad, DecodeGroup;
    if s == [] {
    } else if |s| < 3 {
      var b := if |s| == 1 then past else s[1];
      var c := if |s| == 1 then 0 else past;
      QuadRoundTrip(s[0], b, c, |s|);
      QuadSize(s[0], b, c, |s|);
      var q := Quad(s[0], b, c, |s|);
      assert q[..4] == q && [s[0], b, c][..|s|] == s;
    } else {
      QuadRoundTrip(s[0], s[1], s[2], 3);
      QuadSize(s[0], s[1], s[2], 3);
      EncodeDecode(s[3..], past);
      var q, e := Quad(s[0], s[1], s[2], 3), Encoded(s[3..], past);
      assert (q + e)[..4] == q && (q + e)[4..] == e;
      assert [s[0], s[1], s[2]][..3] == [s[0], s[1], s[2]];
      assert [s[0], s[1], s[2]] + s[3..] == s;
    }
  }

  lemma QuadSize(a: byte, b: byte, c: byte, n: nat)
    requires n > 0
    ensures |Quad(a, b, c, n)| == 4
  {
  }

  /** What was decoded before, in front of what is decoded now. */
  function Join(written: seq<byte>, rest: Option<seq<byte>>): Option<seq<byte>> {
    if rest.None? then None else Some(written + rest.value)
  }

  /** text[start..end] decodes to `written` followed by what text[i..end] decodes to. */
  ghost predicate Decoding(text: seq<byte>, start: nat, i: nat, end: nat, written: seq<byte>) {
    && start <= i <= end <= |text|
    && Decoded(text[start..end]) == Join(written, Decoded(text[i..end]))
  }

  lemma DecodingStart(text: seq<byte>, start: nat, end: nat)
    requires start <= end <= |text|
    ensures Decoding(text, start, start, end, [])
  {
    var d := Decoded(text[start..end]);
    if d.Some? {
      assert [] + d.value == d.value;
    }
  }

  lemma DecodingStep(text: seq<byte>, start: nat, i: nat, end: nat, written: seq<byte>)
    requires Decoding(text, start, i, end, written) && i < end
    ensures end - i < 4 ==> Decoded(text[start..end]) == None
    ensures end - i >= 4 ==>
              var g := DecodeGroup(text[i..i + 4]);
              && (g.None? ==> Decoded(text[start..end]) == None)
              && (g.Some? && |g.value| < 3 && end - i > 4 ==> Decoded(text[start..end]) == None)
              && (g.Some? && (|g.value| == 3 || end - i == 4) ==> Decoding(text, start, i + 4, end, written + g.value))
              && (Decoded(text[start..end]).Some? ==> |Decoded(text[start..end]).value| >= |written| + |g.value| > |written|)
  {
    hide DecodeGroup;
    var u := text[i..end];
    if end - i >= 4 {
      assert u[..4] == text[i..i + 4] && u[4..] == text[i + 4..end];
      var g := DecodeGroup(text[i..i + 4]);
      if g.Some? {
        var rest := Decoded(text[i + 4..end]);
        if rest.Some? {
          Regroup(written, g.value, rest.value);
        }
        assert end - i == 4 ==> rest == Some([]);
        assert g.value + [] == g.value;
      }
    }
  }

  /** _BASE64_DECODE_: the count of octets written, or which character is wrong, counted from -1. */
  method DecodeQuad(c: seq<byte>, out: array<byte>, o: nat) returns (n: int)
    requires |c| == 4 && o + 3 <= out.Length
    modifies out
    ensures n <= 0 <==> DecodeGroup(c) == None
    ensures n > 0 ==> n == |DecodeGroup(c).value| <= 3 && out[o..o + n] == DecodeGroup(c).value
    ensures forall k :: 0 <= k < out.Length && !(o <= k < o + 3) ==> out[k] == old(out[k])
  {
    hide DecodeChar, Octet0, Octet1, Octet2;
    var l := DecodeChar(c[0]);
    if l >= 64 {
      return -1;
    }
    var h := l;
    l := DecodeChar(c[1]);
    if l >= 64 {
      return -2;
    }
    out[o] := Octet0(h, l);
    h := l;
    if c[2] == PAD && c[3] == PAD {
      return 1;
    }
    l := DecodeChar(c[2]);
    if l >= 64 {
      return -3;
    }
    out[o + 1] := Octet1(h, l);
    h := l;
    if c[3] == PAD {
      return 2;
    }
    l := DecodeChar(c[3]);
    if l >= 64 {
      return -4;
    }
    out[o + 2] := Octet2(h, l);
    return 3;
  }

  /** What a call of base64_decode leaves behind: `r` and how far each pointer has come. */
  ghost predicate Outcome(text: seq<byte>, start: nat, length: nat, room: nat, r: int, i: nat, ilen: nat, olen: nat,
                          written: seq<byte>)
    requires start + length <= |text|
  {
    var d := Decoded(text[start..start + length]);
    && start <= i && i + ilen == start + length
    && |written| + olen == room
    && (r == 0 || r == -1)
    && (d.Some? ==> r == 0 && Decoding(text, start, i, start + length, written))
    && (r == 0 && ilen == 0 <==> d.Some? && |d.value| <= room)
  }

  /** Everything was consumed. */
  lemma OutcomeDone(text: seq<byte>, start: nat, length: nat, room: nat, written: seq<byte>)
    requires start + length <= |text| && |written| <= room
    requires Decoding(text, start, start + length, start + length, written)
    ensures Outcome(text, start, length, room, 0, start + length, 0, room - |written|, written)
  {
    assert text[start + length..start + length] == [];
    assert written + [] == written;
  }

  /** The text is malformed. */
  lemma OutcomeBad(text: seq<byte>, start: nat, length: nat, room: nat, r: int, i: nat, written: seq<byte>)
    requires start <= i <= start + length <= |text| && |written| <= room
    requires Decoded(text[start..start + length]) == None
    requires r == -1 || (r == 0 && i < start + length)
    ensures Outcome(text, start, length, room, r, i, start + length - i, room - |written|, written)
  {
  }

  /** The next group does not fit. */
  lemma OutcomeFull(text: seq<byte>, start: nat, length: nat, room: nat, i: nat, written: seq<byte>)
    requires start + length <= |text| && |written| <= room && i < start + length
    requires Decoding(text, start, i, start + length, written)
    requires var d := Decoded(text[start..start + length]); d.Some? ==> |d.value| > room
    ensures Outcome(text, start, length, room, 0, i, start + length - i, room - |written|, written)
  {
  }

  /** One group written to `out`: the text is malformed, or the group joins what was written before. */
  method Next(text: seq<byte>, ghost start: nat, i: nat, ghost end: nat, out: array<byte>, ghost to: nat, o: nat)
    returns (n: int)
    requires to <= o && o + 3 <= out.Length && Decoding(text, start, i, end, out[to..o]) && end - i >= 4
    modifies out
    ensures start <= i + 4 <= end <= |text| && n <= 3
    ensures out[to..o] == old(out[to..o])
    ensures forall k :: 0 <= k < out.Length && !(o <= k < o + 3) ==> out[k] == old(out[k])
    ensures n <= 0 ==> Decoded(text[start..end]) == None
    ensures n > 0 && n < 3 && i + 4 < end ==> Decoded(text[start..end]) == None
    ensures n > 0 && (n == 3 || i + 4 == end) ==> Decoding(text, start, i + 4, end, out[to..o + n])
  {
    hide *;
    DecodingStep(text, start, i, end, out[to..o]);
    DecodingBounds(text, start, i, end, out[to..o]);
    ghost var before := out[to..o];
    n := DecodeQuad(text[i..i + 4], out, o);
    assert out[to..o] == before;
    if n > 0 {
      assert out[to..o + n] == before + out[o..o + n];
    }
  }

  /** One group when fewer than three octets of room are left: decoded aside, and copied if it fits. */
  method NextShort(text: seq<byte>, ghost start: nat, i: nat, ghost end: nat, out: array<byte>, ghost to: nat, o: nat,
                   olen: nat)
    returns (n: int)
    requires to <= o && o + olen <= out.Length && olen < 3
    requires Decoding(text, start, i, end, out[to..o]) && end - i >= 4
    modifies out
    ensures start <= i + 4 <= end <= |text| && n <= 3
    ensures out[to..o] == old(out[to..o])
    ensures forall k :: 0 <= k < out.Length && !(o <= k < o + olen) ==> out[k] == old(out[k])
    ensures n <= 0 ==> Decoded(text[start..end]) == None
    ensures 0 < n < 3 && i + 4 < end ==> Decoded(text[start..end]) == None
    ensures 0 < n <= olen && i + 4 == end ==> Decoding(text, start, i + 4, end, out[to..o + n])
    ensures n > olen ==> var d := Decoded(text[start..end]); d.Some? ==> |d.value| > (o - to) + olen
  {
    hide *;
    DecodingStep(text, start, i, end, out[to..o]);
    DecodingBounds(text, start, i, end, out[to..o]);
    var temp := new byte[3](_ => 0);
    n := DecodeQuad(text[i..i + 4], temp, 0);
    if 0 < n <= olen {
      ghost var before, got := out[to..o], temp[0..0 + n];
      forall k | 0 <= k < n {
        out[o + k] := temp[k];
      }
      assert out[to..o + n] == before + got;
    }
  }

  lemma DecodingBounds(text: seq<byte>, start: nat, i: nat, end: nat, written: seq<byte>)
    requires Decoding(text, start, i, end, written)
    ensures start <= i <= end <= |text|
  {
  }

  /**
   base64_decode: a well-formed text is never refused, what is left decodes to what is missing, and the
   call ends with nothing left exactly when the text is well formed and its message fits.
   */
  method Decode(text: seq<byte>, start: nat, length: nat, out: array<byte>, to: nat, room: nat)
    returns (r: int, i: nat, ilen: nat, o: nat, olen: nat)
    requires start + length <= |text| && to + room <= out.Length
    modifies out
    ensures to <= o && o + olen == to + room
    ensures Outcome(text, start, length, room, r, i, ilen, olen, out[to..o])
    ensures forall k :: 0 <= k < out.Length && !(to <= k < to + room) ==> out[k] == old(out[k])
  {
    hide *;
    ghost var end := start + length;
    DecodingStart(text, start, end);
    r, i, ilen, o, olen := 0, start, length, to, room;
    assert out[to..to] == [];
    while ilen >= 4 && olen >= 3
      invariant start <= i && to <= o && i + ilen == end && o + olen == to + room
      invariant Decoding(text, start, i, end, out[to..o])
      invariant forall k :: 0 <= k < out.Length && !(to <= k < to + room) ==> out[k] == old(out[k])
    {
      var n := Next(text, start, i, end, out, to, o);
      if n <= 0 {
        OutcomeBad(text, start, length, room, -1, i, out[to..o]);
        r := -1;
        return;
      }
      o := o + n;
      olen := olen - n;
      i := i + 4;
      ilen := ilen - 4;
      if n < 3 {
        if ilen == 0 {
          OutcomeDone(text, start, length, room, out[to..o]);
        } else {
          OutcomeBad(text, start, length, room, 0, i, out[to..o]);
        }
        return;
      }
    }
    if ilen <= 0 {
      OutcomeDone(text, start, length, room, out[to..o]);
      return;
    }
    DecodingStep(text, start, i, end, out[to..o]);
    if ilen < 4 {
      OutcomeBad(text, start, length, room, -1, i, out[to..o]);
      r := -1;
      return;
    }
    if olen > 0 {
      var n := NextShort(text, start, i, end, out, to, o, olen);
      if n <= 0 {
        OutcomeBad(text, start, length, room, -1, i, out[to..o]);
        r := -1;
        return;
      }
      if n > olen {
        OutcomeFull(text, start, length, room, i, out[to..o]);
        return;
      }
      o := o + n;
      olen := olen - n;
      i := i + 4;
      ilen := ilen - 4;
      if ilen == 0 {
        OutcomeDone(text, start, length, room, out[to..o]);
      } else {
        OutcomeBad(text, start, length, room, 0, i, out[to..o]);
      }
    } else {
      OutcomeFull(text, start, length, room, i, out[to..o]);
    }
  }

  // ---- Stopping, resuming, and both directions together ----

  /** An encoder that stopped for lack of room and is called again writes what one call would have written. */
  lemma EncodingResumes(mem: seq<byte>, start: nat, i: nat, j: nat, end: nat, first: seq<byte>, second: seq<byte>)
    requires Encoding(mem, start, i, end, first) && Encoding(mem, i, j, end, second)
    ensures Encoding(mem, start, j, end, first + second)
  {
    hide Encoded, Past;
    Regroup(first, second, Encoded(mem[j..end], Past(mem, end)));
    assert j - start == (j - i) + (i - start);
  }

  /** The same for a decoder. */
  lemma DecodingResumes(text: seq<byte>, start: nat, i: nat, j: nat, end: nat, first: seq<byte>, second: seq<byte>)
    requires Decoding(text, start, i, end, first) && Decoding(text, i, j, end, second)
    ensures Decoding(text, start, j, end, first + second)
  {
    hide Decoded;
    var rest := Decoded(text[j..end]);
    if rest.Some? {
      Regroup(first, second, rest.value);
    }
  }

  lemma {:induction false} EncodedSize(s: seq<byte>, past: byte)
    ensures |Encoded(s, past)| == 4 * ((|s| + 2) / 3)
  {
    hide *;
    if s == [] {
      BothHeads(s, past);
    } else {
      EncodedStep(s, past);
      EncodedSize(s[if |s| < 3 then |s| else 3..], past);
      GroupsStep(|s|);
    }
  }

  lemma GroupsStep(n: nat)
    requires n > 0
    ensures 4 * ((n + 2) / 3) == 4 + 4 * (((if n < 3 then 0 else n - 3) + 2) / 3)
  {
  }

  /** An encoder with room for the whole encoding leaves nothing. */
  lemma EncodingComplete(mem: seq<byte>, start: nat, i: nat, end: nat, written: seq<byte>, room: nat)
    requires Encoding(mem, start, i, end, written) && room >= 4 * ((end - start + 2) / 3)
    requires i == end || |written| > room - 4
    ensures i == end && written == Encoded(mem[start..end], Past(mem, end))
  {
    hide *;
    EncodingIs(mem, start, i, end, written);
    EncodedSize(mem[start..end], Past(mem, end));
    EncodedSize(mem[i..end], Past(mem, end));
    GroupsLeft(end - start, end - i, |written|, room);
    BothHeads([], Past(mem, end));
    assert mem[end..end] == [] && written + [] == written;
  }

  lemma EncodingIs(mem: seq<byte>, start: nat, i: nat, end: nat, written: seq<byte>)
    requires Encoding(mem, start, i, end, written)
    ensures start <= i <= end <= |mem|
    ensures written + Encoded(mem[i..end], Past(mem, end)) == Encoded(mem[start..end], Past(mem, end))
  {
  }

  lemma GroupsLeft(all: nat, rest: nat, written: nat, room: nat)
    requires written + 4 * ((rest + 2) / 3) == 4 * ((all + 2) / 3) <= room
    ensures rest > 0 ==> written <= room - 4
  {
  }

  /** Encode into a buffer of the encoded size, and decode into one of exactly the decoded size. */
  method RoundTrip(mem: seq<byte>, start: nat, length: nat) returns (r: int, back: seq<byte>)
    requires start + length <= |mem| && (length % 3 != 0 ==> start + length < |mem|)
    ensures r == 0 && back == mem[start..start + length]
  {
    hide *;
    ghost var s, past := mem[start..start + length], Past(mem, start + length);
    var size := 4 * ((length + 2) / 3);
    var out := new byte[size](_ => 0);
    var i, ilen, o, olen := Encode(mem, start, length, out, 0, size);
    EncodingComplete(mem, start, i, start + length, out[0..o], size);
    EncodedSize(s, past);
    EncodeDecode(s, past);
    var text := out[..];
    assert text[0..size] == out[0..o];
    var plain := new byte[length](_ => 0);
    r, i, ilen, o, olen := Decode(text, 0, size, plain, 0, length);
    OutcomeExact(text, size, length, r, i, ilen, olen, plain[0..o], s);
    back := plain[..];
    assert plain[..] == plain[0..o];
  }

  lemma OutcomeExact(text: seq<byte>, size: nat, room: nat, r: int, i: nat, ilen: nat, olen: nat, written: seq<byte>,
                     s: seq<byte>)
    requires size <= |text| && Outcome(text, 0, size, room, r, i, ilen, olen, written)
    requires Decoded(text[0..0 + size]) == Some(s) && |s| <= room
    ensures r == 0 && written == s
  {
    assert written + [] == written;
    assert text[size..size] == [];
  }
}
