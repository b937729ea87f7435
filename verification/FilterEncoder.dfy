/** process_filter and the functions below it: filter text to BER, in caller-supplied buffers. */
module FilterEncoder {
  import opened Bytes
  import opened Ber
  import opened FilterSpec

  // ---- Scanning C strings ----

  /** The octet a C string shows at `i`: its terminator when `i` is the end. */
  function CharAt(s: seq<byte>, i: nat): byte {
    if i < |s| then s[i] else 0
  }

  /** Index of the first `c`, or the length. */
  function First(s: seq<byte>, c: byte): (k: nat)
    ensures k <= |s|
    ensures k < |s| ==> s[k] == c
    ensures forall j :: 0 <= j < k ==> s[j] != c
  {
    if s == [] || s[0] == c then 0 else 1 + First(s[1..], c)
  }

  lemma FirstIs(s: seq<byte>, c: byte, k: nat)
    requires k <= |s| && (k < |s| ==> s[k] == c)
    requires forall j :: 0 <= j < k ==> s[j] != c
    ensures First(s, c) == k
  {
  }

  /** The scan that steps past the first `oper` at or behind `start`, or to the end when there is none. */
  method ScanPast(s: seq<byte>, start: nat, oper: byte) returns (end: nat)
    requires start < |s|
    ensures end == start + (if First(s[start..], oper) < |s| - start then First(s[start..], oper) + 1 else |s| - start)
  {
    end := start + 1;
    while s[end - 1] != oper && end < |s|
      invariant start < end <= |s|
      invariant forall j :: start <= j < end - 1 ==> s[j] != oper
      decreases |s| - end
    {
      end := end + 1;
    }
    FirstIs(s[start..], oper, if s[end - 1] == oper then end - 1 - start else |s| - start);
  }

  /** The scan for the end of the text leaves the pointer one past the terminator. */
  method PastTerminator(s: seq<byte>, start: nat) returns (end: nat)
    requires start <= |s| && 0 !in s
    ensures end == |s| + 1
  {
    end := start;
    while CharAt(s, end) != 0
      invariant start <= end <= |s|
      decreases |s| - end
    {
      end := end + 1;
    }
    end := end + 1;
  }

  // ---- One comparison ----

  /** The text up to the first `oper` is the attribute when `=` follows directly. */
  predicate Matches(expression: seq<byte>, oper: byte) {
    CharAt(expression, First(expression, oper) + 1) == EQUALS && First(expression, oper) < |expression|
  }

  /** The first `oper` is there, and '=' follows it. */
  lemma MatchesIs(expression: seq<byte>, oper: byte, k: nat)
    requires oper != 0 && k < |expression| && expression[k] == oper && oper !in expression[..k]
    ensures Matches(expression, oper) <==> k + 1 < |expression| && expression[k + 1] == 61
  {
    forall j | 0 <= j < k
      ensures expression[j] != oper
    {
      assert expression[..k][j] == expression[j];
    }
    FirstIs(expression, oper, k);
  }

  lemma NoMatch(expression: seq<byte>, oper: byte)
    requires oper !in expression
    ensures !Matches(expression, oper)
  {
  }

  method CheckOperation(oper: byte, tag: byte, bFilt: Buffer, expression: seq<byte>) returns (matched: bool)
    requires 0 < |expression| < TEXT_BUFFER && 0 !in expression
    requires bFilt.Valid()
    requires Matches(expression, oper) ==> |bFilt.contents| + 3 + |LengthOctets(|expression| + 2)| + |expression| <= bFilt.data.Length
    modifies bFilt, bFilt.data
    ensures bFilt.Valid() && matched == Matches(expression, oper)
    ensures !matched ==> bFilt.contents == old(bFilt.contents)
    ensures matched ==>
              var k := First(expression, oper);
              && k + 2 <= |expression|
              && bFilt.contents == old(bFilt.contents) + Tlv(tag, Tlv(0x04, expression[..k]) + Tlv(0x04, expression[k + 2..]))
  {
    matched := false;
    var len := |expression|;
    var endP := ScanPast(expression, 0, oper);
    assert expression[0..] == expression;
    if CharAt(expression, endP) == EQUALS {
      var filtP := endP + 1;
      ghost var name, value := expression[..endP - 1], expression[filtP..];
      assert First(expression, oper) == endP - 1;
      TlvSize(tag, name, value);
      endP := PastTerminator(expression, endP);
      var r := endP - filtP - 1;
      assert expression[filtP..filtP + r] == value;
      PutCompare(bFilt, tag, len + 2, expression[..filtP - 2], expression[filtP..filtP + r]);
      matched := true;
    }
  }

  lemma TlvSize(tag: byte, name: seq<byte>, value: seq<byte>)
    requires |name| < 128 && |value| < 128
    ensures var n := |name| + |value| + 4;
            |Tlv(tag, Tlv(0x04, name) + Tlv(0x04, value))| == 1 + |LengthOctets(n)| + n
  {
    SmallLengths(|name|);
    SmallLengths(|value|);
  }

  /** A header and two short octet strings. */
  method PutCompare(bFilt: Buffer, tag: byte, len: nat, name: seq<byte>, value: seq<byte>)
    requires |name| < 128 && |value| < 128 && len == |name| + |value| + 4
    requires bFilt.Valid() && |bFilt.contents| + |Tlv(tag, Tlv(0x04, name) + Tlv(0x04, value))| <= bFilt.data.Length
    modifies bFilt, bFilt.data
    ensures bFilt.Valid()
    ensures bFilt.contents == old(bFilt.contents) + Tlv(tag, Tlv(0x04, name) + Tlv(0x04, value))
  {
    SmallLengths(|name|);
    SmallLengths(|value|);
    DigitsBound(len);
    assert len < LENGTH_LIMIT;
    ghost var head := [tag] + LengthOctets(len);
    ghost var first, second := Tlv(0x04, name), Tlv(0x04, value);
    assert |first| == 2 + |name| && |second| == 2 + |value|;
    assert Tlv(tag, first + second) == head + (first + second);
    hide *;
    var r := PutHeader(bFilt, tag, len, 0);
    PutShort(bFilt, 0x04, name);
    PutShort(bFilt, 0x04, value);
    Regroup4(old(bFilt.contents), head, first, second);
    Regroup(head, first, second);
  }

  // ---- Leaves ----

  predicate IsLeaf(f: Filter) {
    f.Compare? || f.Present? || f.Substring?
  }

  /** The name the encoder supplies when an expression holds no `=`. */
  const OBJECT_CLASS: seq<byte> := [111, 98, 106, 101, 99, 116, 67, 108, 97, 115, 115]

  /** Text `e` stands for the leaf `f`: its body, or a bare name meaning objectClass=name. */
  predicate Denotes(e: seq<byte>, f: Filter)
    requires Valid(f)
  {
    e == Body(f) || (f == Compare(Equal, OBJECT_CLASS, e) && NameOk(e))
  }

  /** Text `e` stands for `f`: a leaf may be a bare name, a compound is written out. */
  predicate StandsFor(e: seq<byte>, f: Filter)
    requires Valid(f)
  {
    if IsLeaf(f) then Denotes(e, f) else e == Body(f)
  }

  function OpChar(op: Op): byte {
    OpText(op)[0]
  }

  /** No `c` before `m` and no pair from there on: no pair, so no operator. */
  lemma NoPair(e: seq<byte>, m: nat, c: byte)
    requires m <= |e| && !HasPair(e[m..], c)
    requires forall j :: 0 <= j < m ==> e[j] != c
    ensures !HasPair(e, c) && !Matches(e, c)
  {
    forall i | 0 <= i < |e| - 1 && e[i] == c
      ensures e[i + 1] != EQUALS
    {
      assert e[m..][i - m] == c && e[i + 1] == e[m..][i - m + 1];
    }
  }

  lemma NameChars(name: seq<byte>, j: nat)
    requires NameOk(name) && j < |name|
    ensures name[j] !in {0, LPAREN, RPAREN, STAR, EQUALS, LESS, GREATER, TILDE, COLON}
  {
    assert name[j] in name;
  }

  /** Where each operator character stands in a comparison's text. */
  lemma CompareShape(op: Op, name: seq<byte>, value: seq<byte>)
    requires NameOk(name) && ValueOk(value)
    ensures var e := Body(Compare(op, name, value));
            && 0 !in e && First(e, OpChar(op)) == |name|
            && (op != Equal ==> Matches(e, OpChar(op)))
            && (forall c :: c in {LESS, GREATER, TILDE} && c != OpChar(op) ==> !Matches(e, c))
            && !HasPair(e, COLON)
  {
    var e := Body(Compare(op, name, value));
    var m := |name| + |OpText(op)|;
    assert e[m..] == value;
    forall j | 0 <= j < |name| ensures e[j] !in {0, EQUALS, LESS, GREATER, TILDE, COLON} {
      NameChars(name, j);
      assert e[j] == name[j];
    }
    FirstIs(e, OpChar(op), |name|);
    forall c | c in {LESS, GREATER, TILDE, COLON} && c != OpChar(op)
      ensures !HasPair(e, c) && !Matches(e, c)
    {
      NoPair(e, m, c);
    }
  }

  /** A presence or substring text: the first `=` ends the name and no operator occurs. */
  lemma StarShape(name: seq<byte>, value: seq<byte>)
    requires NameOk(name) && value != []
    requires 0 !in value && forall c :: c in {LESS, GREATER, TILDE, COLON} ==> !HasPair(value, c)
    ensures var e := name + [EQUALS] + value;
            && 0 !in e && First(e, EQUALS) == |name|
            && (forall c :: c in {LESS, GREATER, TILDE} ==> !Matches(e, c))
            && !HasPair(e, COLON)
  {
    var e := name + [EQUALS] + value;
    var m := |name| + 1;
    assert e[m..] == value;
    forall j | 0 <= j < |name| ensures e[j] !in {0, EQUALS, LESS, GREATER, TILDE, COLON} {
      NameChars(name, j);
      assert e[j] == name[j];
    }
    FirstIs(e, EQUALS, |name|);
    forall c | c in {LESS, GREATER, TILDE, COLON}
      ensures !HasPair(e, c) && !Matches(e, c)
    {
      NoPair(e, m, c);
    }
  }

  /** A bare name has no operator at all. */
  lemma BareShape(e: seq<byte>)
    requires NameOk(e)
    ensures 0 !in e && First(e, EQUALS) == |e|
    ensures forall c :: c in {LESS, GREATER, TILDE} ==> !Matches(e, c)
    ensures !HasPair(e, COLON)
  {
    assert forall j :: 0 <= j < |e| ==> e[j] in e;
    FirstIs(e, EQUALS, |e|);
  }

  lemma NoPairJoin(a: seq<byte>, b: seq<byte>, c: byte)
    requires !HasPair(a, c) && !HasPair(b, c) && c != STAR
    ensures !HasPair(a + [STAR] + b, c)
  {
    var t := a + [STAR] + b;
    forall i | 0 <= i < |t| - 1 && t[i] == c
      ensures t[i + 1] != EQUALS
    {
      if i < |a| {
        assert a[i] == c;
        assert i < |a| - 1 ==> t[i + 1] == a[i + 1];
      } else {
        assert b[i - |a| - 1] == c && t[i + 1] == b[i - |a|];
      }
    }
  }

  /** Joining star-free values around a star brings no operator with it. */
  lemma JoinShape(a: seq<byte>, b: seq<byte>)
    requires (a == [] || ValueOk(a)) && (b == [] || ValueOk(b)) && |a| + |b| > 0
    ensures var t := a + [STAR] + b;
            && 0 !in t
            && (forall c :: c in {LESS, GREATER, TILDE, COLON} ==> !HasPair(t, c))
            && multiset(t)[STAR] == 1
            && First(t, STAR) == |a|
            && (t[0] == STAR <==> a == [])
            && (t[|t| - 1] == STAR <==> b == [])
  {
    var t := a + [STAR] + b;
    assert STAR !in a && STAR !in b;
    forall j | 0 <= j < |a| ensures t[j] != STAR {
      assert a[j] in a;
    }
    FirstIs(t, STAR, |a|);
    forall c | c in {LESS, GREATER, TILDE, COLON} ensures !HasPair(t, c) {
      NoPairJoin(a, b, c);
    }
    assert b != [] ==> t[|t| - 1] == b[|b| - 1] && b[|b| - 1] in b;
  }

  lemma PartsShape(parts: seq<Part>)
    requires OneStar(parts) && forall p :: p in parts ==> ValueOk(p.v)
    ensures var t := PartsText(parts);
            && |t| >= 2 && 0 !in t
            && (forall c :: c in {LESS, GREATER, TILDE, COLON} ==> !HasPair(t, c))
            && multiset(t)[STAR] == 1
            && (t[0] == STAR <==> parts[0].Final?)
            && (t[|t| - 1] == STAR <==> |parts| == 1 && parts[0].Initial?)
            && (|parts| == 2 ==> First(t, STAR) == |parts[0].v|)
  {
    hide *;
    var a, b := Around(parts);
    JoinShape(a, b);
  }

  /** The text before the star and behind it. */
  lemma Around(parts: seq<Part>) returns (a: seq<byte>, b: seq<byte>)
    requires OneStar(parts) && forall p :: p in parts ==> ValueOk(p.v)
    ensures parts != [] && PartsText(parts) == a + [STAR] + b && (b == [] <==> |parts| == 1 && parts[0].Initial?)
    ensures (a == [] <==> parts[0].Final?) && (a == [] || ValueOk(a)) && (b == [] || ValueOk(b)) && |a| + |b| > 0
    ensures |parts| == 2 ==> parts[0].Initial? && a == parts[0].v
  {
    a := if parts[0].Initial? then parts[0].v else [];
    b := if parts[|parts| - 1].Final? then parts[|parts| - 1].v else [];
    assert parts[0] in parts && parts[|parts| - 1] in parts;
    if |parts| == 1 {
      assert a + [STAR] + b == PartsText(parts);
    }
  }

  lemma StarSlices(e: seq<byte>, i: nat, a: seq<byte>, b: seq<byte>)
    requires i <= |e| && e[i..] == a + [STAR] + b
    ensures i + |a| + 1 + |b| == |e|
    ensures e[i..i + |a|] == a && e[i + |a|] == STAR && e[i + |a| + 1..|e|] == b
    ensures a != [] ==> e[i] == a[0]
    ensures b != [] ==> e[|e| - 1] == b[|b| - 1]
  {
    assert forall j :: 0 <= j < |e| - i ==> e[i + j] == e[i..][j];
  }

  lemma ValueChars(s: seq<byte>, j: nat)
    requires ValueOk(s) && j < |s|
    ensures s[j] !in {0, LPAREN, RPAREN, STAR}
  {
    assert s[j] in s;
  }

  /** `case v*`, `case *v` and `case v*w`: the substring sequence of a text with one star. */
  method PutSubstring(bFilt: Buffer, expression: seq<byte>, valueAt: nat, ghost parts: seq<Part>)
    requires OneStar(parts) && forall p :: p in parts ==> ValueOk(p.v)
    requires |expression| < TEXT_BUFFER && 0 !in expression
    requires 2 <= valueAt <= |expression| && expression[valueAt..] == PartsText(parts)
    requires bFilt.Valid() && |bFilt.contents| + |PartsSequence(parts)| <= bFilt.data.Length
    modifies bFilt, bFilt.data
    ensures bFilt.Valid() && bFilt.contents == old(bFilt.contents) + PartsSequence(parts)
  {
    hide PartsText, PartsTlv, OnePart;
    var last := |expression| - 1;
    PartsCases(expression, valueAt, parts);
    if expression[valueAt] == STAR {
      PutOnePart(bFilt, 0x82, expression[valueAt + 1..last + 1]);
    } else if expression[last] == STAR {
      PutOnePart(bFilt, 0x80, expression[valueAt..last]);
    } else {
      bFilt.Put(0x30);
      bFilt.Put(Octet(|expression| - valueAt + 4 - 1));
      PutInitialFinal(bFilt, expression, valueAt, parts[0].v, parts[1].v);
    }
  }

  /** The three shapes of a one-star value, told apart by its first and last characters. */
  lemma PartsCases(e: seq<byte>, i: nat, parts: seq<Part>)
    requires OneStar(parts) && forall p :: p in parts ==> ValueOk(p.v)
    requires |e| < TEXT_BUFFER && i <= |e| && e[i..] == PartsText(parts)
    ensures i + 2 <= |e|
    ensures e[i] == STAR ==> PartsSequence(parts) == OnePart(0x82, e[i + 1..|e|])
    ensures e[i] != STAR && e[|e| - 1] == STAR ==> PartsSequence(parts) == OnePart(0x80, e[i..|e| - 1])
    ensures e[i] != STAR && e[|e| - 1] != STAR ==>
              && |parts| == 2 && |PartsTlv(parts)| == |e| - i + 3
              && PartsTlv(parts) == Tlv(0x80, parts[0].v) + Tlv(0x82, parts[1].v)
              && e[i..] == parts[0].v + [STAR] + parts[1].v && ValueOk(parts[0].v) && ValueOk(parts[1].v)
  {
    var a := if parts[0].Initial? then parts[0].v else [];
    var b := if parts[|parts| - 1].Final? then parts[|parts| - 1].v else [];
    PartsAround(parts, a, b);
    hide *;
    StarSlices(e, i, a, b);
  }

  /** A one-star value as what comes before the star and what comes after. */
  lemma PartsAround(parts: seq<Part>, a: seq<byte>, b: seq<byte>)
    requires OneStar(parts) && forall p :: p in parts ==> ValueOk(p.v)
    requires |PartsText(parts)| < TEXT_BUFFER
    requires a == if parts[0].Initial? then parts[0].v else []
    requires b == if parts[|parts| - 1].Final? then parts[|parts| - 1].v else []
    ensures PartsText(parts) == a + [STAR] + b && |a| + |b| > 0
    ensures a != [] ==> a[0] != STAR && ValueOk(a)
    ensures b != [] ==> b[|b| - 1] != STAR && ValueOk(b)
    ensures a == [] ==> PartsSequence(parts) == OnePart(0x82, b)
    ensures b == [] ==> PartsSequence(parts) == OnePart(0x80, a)
    ensures a != [] && b != [] ==>
              && |parts| == 2 && a == parts[0].v && b == parts[1].v
              && PartsTlv(parts) == Tlv(0x80, a) + Tlv(0x82, b) && |PartsTlv(parts)| == |a| + |b| + 4
  {
    hide *;
    PartsSize(parts);
    OneStarParts(parts);
    assert parts[0] in parts && parts[|parts| - 1] in parts;
    ValueNotEmpty(parts[0].v);
    ValueNotEmpty(parts[|parts| - 1].v);
    if a != [] { ValueChars(a, 0); }
    if b != [] { ValueChars(b, |b| - 1); }
  }

  lemma ValueNotEmpty(s: seq<byte>)
    requires ValueOk(s)
    ensures s != []
  {
  }

  /** The one or two parts of a text with one star. */
  lemma OneStarParts(parts: seq<Part>)
    requires OneStar(parts) && |PartsText(parts)| < TEXT_BUFFER
    ensures (|parts| == 1 && !parts[0].Any?) || (|parts| == 2 && parts[0].Initial? && parts[1].Final?)
    ensures |parts| == 2 ==>
              && PartsText(parts) == parts[0].v + [STAR] + parts[1].v
              && PartTlv(parts[0]) == Tlv(0x80, parts[0].v) && PartTlv(parts[1]) == Tlv(0x82, parts[1].v)
    ensures |parts| == 1 && parts[0].Initial? ==>
              && PartsText(parts) == parts[0].v + [STAR] + []
              && PartsSequence(parts) == OnePart(0x80, parts[0].v)
    ensures |parts| == 1 && parts[0].Final? ==>
              && PartsText(parts) == [] + [STAR] + parts[0].v
              && PartsSequence(parts) == OnePart(0x82, parts[0].v)
  {
    PartsSize(parts);
  }

  function OnePart(tag: byte, v: seq<byte>): seq<byte> {
    [0x30, Octet(|v| + 2)] + Tlv(tag, v)
  }

  method PutOnePart(bFilt: Buffer, tag: byte, v: seq<byte>)
    requires |v| < TEXT_BUFFER && bFilt.Valid() && |bFilt.contents| + |OnePart(tag, v)| <= bFilt.data.Length
    modifies bFilt, bFilt.data
    ensures bFilt.Valid() && bFilt.contents == old(bFilt.contents) + OnePart(tag, v)
  {
    SmallLengths(|v|);
    assert OnePart(tag, v) == [0x30, |v| + 2] + Tlv(tag, v) && |Tlv(tag, v)| == 2 + |v|;
    assert |v| < 128;
    hide *;
    bFilt.Put(0x30);
    bFilt.Put(|v| + 2);
    PutShort(bFilt, tag, v);
  }

  /** `case v*w`, after the header of the sequence. */
  method PutInitialFinal(bFilt: Buffer, expression: seq<byte>, valueAt: nat, ghost a: seq<byte>, ghost b: seq<byte>)
    requires ValueOk(a) && ValueOk(b)
    requires |expression| < TEXT_BUFFER && 0 !in expression
    requires 2 <= valueAt < |expression| && expression[valueAt..] == a + [STAR] + b
    requires bFilt.Valid() && |bFilt.contents| + |Tlv(0x80, a)| + |Tlv(0x82, b)| <= bFilt.data.Length
    modifies bFilt, bFilt.data
    ensures bFilt.Valid() && bFilt.contents == old(bFilt.contents) + (Tlv(0x80, a) + Tlv(0x82, b))
  {
    hide *;
    StarSlices(expression, valueAt, a, b);
    TwoValues(a, b);
    JoinShape(a, b);
    var filtP := valueAt;
    var subP := ScanPast(expression, filtP, STAR);
    var r := subP - filtP - 1;
    PutShort(bFilt, 0x80, expression[filtP..filtP + r]);
    filtP := subP;
    var endP := PastTerminator(expression, valueAt);
    PutShort(bFilt, 0x82, expression[filtP..endP - 1]);
    Regroup(old(bFilt.contents), Tlv(0x80, a), Tlv(0x82, b));
  }

  lemma TwoValues(a: seq<byte>, b: seq<byte>)
    requires ValueOk(a) && ValueOk(b) && |a| < TEXT_BUFFER && |b| < TEXT_BUFFER
    ensures a != [] && b != [] && |a| < 128 && |b| < 128
    ensures |Tlv(0x80, a)| == 2 + |a| && |Tlv(0x82, b)| == 2 + |b|
  {
    SmallLengths(|a|);
    SmallLengths(|b|);
  }

  /** No `=` sign: the expression is taken as the value of objectClass. */
  method PutObjectClass(expression: seq<byte>, bFilt: Buffer)
    requires |expression| < TEXT_BUFFER
    requires bFilt.Valid() && |bFilt.contents| + |Encode(Compare(Equal, OBJECT_CLASS, expression))| <= bFilt.data.Length
    modifies bFilt, bFilt.data
    ensures bFilt.Valid()
    ensures bFilt.contents == old(bFilt.contents) + Encode(Compare(Equal, OBJECT_CLASS, expression))
  {
    var len, r := |expression|, |OBJECT_CLASS|;
    assert Encode(Compare(Equal, OBJECT_CLASS, expression)) == Tlv(0xa3, Tlv(0x04, OBJECT_CLASS) + Tlv(0x04, expression));
    hide Encode, Tlv;
    PutCompare(bFilt, 0xa3, r + len + 4, OBJECT_CLASS, expression);
  }

  /** The part of create_ber_filter reached when no operator other than `=` matched. */
  method CreateEquals(expression: seq<byte>, bFilt: Buffer, ghost f: Filter)
    requires Valid(f) && IsLeaf(f) && Denotes(expression, f) && |expression| < TEXT_BUFFER
    requires !(f.Compare? && f.op != Equal)
    requires bFilt.Valid() && |bFilt.contents| + |Encode(f)| <= bFilt.data.Length
    modifies bFilt, bFilt.data
    ensures bFilt.Valid() && bFilt.contents == old(bFilt.contents) + Encode(f)
  {
    LeafShape(expression, f);
    LeafSize(expression, f);
    var len := |expression|;
    var endP := ScanPast(expression, 0, EQUALS);
    assert expression[0..] == expression;
    AfterEquals(expression, f);
    if CharAt(expression, endP) == STAR && endP == len - 1 {
      PutShort(bFilt, 0x87, expression[..endP - 1]);
    } else if endP == len {
      PutObjectClass(expression, bFilt);
    } else {
      ValueStars(expression, endP, f);
      PutAssertion(expression, bFilt, endP, f);
    }
  }

  /** The loop counting the stars from `start` on. */
  method CountStars(expression: seq<byte>, start: nat) returns (countSub: nat)
    requires start <= |expression|
    ensures countSub == multiset(expression[start..])[STAR]
  {
    countSub := 0;
    var subP := start;
    while subP < |expression|
      invariant start <= subP <= |expression|
      invariant countSub == multiset(expression[start..subP])[STAR]
    {
      assert expression[start..subP + 1] == expression[start..subP] + [expression[subP]];
      if expression[subP] == STAR {
        countSub := countSub + 1;
      }
      subP := subP + 1;
    }
    assert expression[start..|expression|] == expression[start..];
  }

  /** An equality or a substring match whose value starts at `endP`. */
  method PutAssertion(expression: seq<byte>, bFilt: Buffer, endP: nat, ghost f: Filter)
    requires Valid(f) && IsLeaf(f) && !f.Present? && (f.Compare? ==> f.op == Equal)
    requires expression == Body(f) && 0 !in expression && |expression| < TEXT_BUFFER
    requires 2 <= endP < |expression| && expression[..endP - 1] == f.name
    requires multiset(expression[endP..])[STAR] == if f.Substring? then 1 else 0
    requires expression[endP..] == if f.Compare? then f.value else PartsText(f.parts)
    requires bFilt.Valid() && |bFilt.contents| + |Encode(f)| <= bFilt.data.Length
    modifies bFilt, bFilt.data
    ensures bFilt.Valid() && bFilt.contents == old(bFilt.contents) + Encode(f)
  {
    hide *;
    AssertionFacts(expression, endP, f);
    var len := |expression|;
    var countSub := CountStars(expression, endP);
    if countSub > 0 {
      assert countSub == 1;  // so the any_substring branch is not taken
      PutOneStar(expression, bFilt, endP, f);
    } else {
      var past := PastTerminator(expression, endP);
      var r := past - endP - 1;
      assert expression[endP..endP + r] == f.value;
      PutCompare(bFilt, 0xa3, len + 3, expression[..endP - 1], expression[endP..endP + r]);
    }
  }

  lemma AssertionFacts(e: seq<byte>, endP: nat, f: Filter)
    requires Valid(f) && IsLeaf(f) && !f.Present? && (f.Compare? ==> f.op == Equal)
    requires e == Body(f) && |e| < TEXT_BUFFER && 2 <= endP < |e|
    requires e[endP..] == if f.Compare? then f.value else PartsText(f.parts)
    ensures f.Compare? || f.Substring?
    ensures f.Compare? ==>
              && Encode(f) == Tlv(0xa3, Tlv(0x04, f.name) + Tlv(0x04, f.value))
              && |f.name| < 128 && |f.value| < 128 && |e| + 3 == |f.name| + |f.value| + 4
    ensures f.Substring? ==> ((e[endP] == STAR || e[|e| - 1] == STAR) <==> |f.parts| == 1)
  {
    if f.Substring? {
      PartsShape(f.parts);
      var text := PartsText(f.parts);
      assert text[0] == e[endP] && text[|text| - 1] == e[|e| - 1];
    } else {
      LeafSize(e, f);
    }
  }

  /** A substring filter with one star. */
  method PutOneStar(expression: seq<byte>, bFilt: Buffer, endP: nat, ghost f: Filter)
    requires Valid(f) && f.Substring?
    requires expression == Body(f) && 0 !in expression && |expression| < TEXT_BUFFER
    requires 2 <= endP < |expression| && expression[..endP - 1] == f.name
    requires expression[endP..] == PartsText(f.parts)
    requires (expression[endP] == STAR || expression[|expression| - 1] == STAR) <==> |f.parts| == 1
    requires bFilt.Valid() && |bFilt.contents| + |Encode(f)| <= bFilt.data.Length
    modifies bFilt, bFilt.data
    ensures bFilt.Valid() && bFilt.contents == old(bFilt.contents) + Encode(f)
  {
    LeafSize(expression, f);
    var len := |expression|;
    SmallLengths(|f.name|);
    ghost var name, sequence := Tlv(0x04, f.name), PartsSequence(f.parts);
    assert |name| == 2 + |f.name|;
    assert Encode(f) == [0xa4] + LengthOctets(|Content(f)|) + (name + sequence);
    hide LengthOctets, Encode, Content, Tlv, PartsText, PartsSequence, Body;
    var r: nat;
    if expression[len - 1] == STAR || expression[endP] == STAR {
      r := PutHeader(bFilt, 0xa4, len + 4, 0);
    } else {
      r := PutHeader(bFilt, 0xa4, len + 6, 0);
    }
    ghost var head := [0xa4] + LengthOctets(|Content(f)|);
    assert bFilt.contents == old(bFilt.contents) + head;
    PutShort(bFilt, 0x04, expression[..endP - 1]);
    PutSubstring(bFilt, expression, endP, f.parts);
    Regroup4(old(bFilt.contents), head, name, sequence);
    Regroup(head, name, sequence);
  }

  /** What follows the first `=` tells the three kinds of text apart. */
  lemma AfterEquals(e: seq<byte>, f: Filter)
    requires Valid(f) && IsLeaf(f) && Denotes(e, f) && !(f.Compare? && f.op != Equal)
    ensures var k := First(e, EQUALS);
            && (f.Compare? && e == Body(f) ==> k + 1 < |e| && e[k + 1] != STAR)
            && (f.Compare? && e != Body(f) ==> k == |e|)
            && (f.Substring? ==> k + 2 < |e|)
            && (f.Present? ==> k + 2 == |e| && e[k + 1] == STAR)
  {
    LeafShape(e, f);
    if f.Substring? {
      PartsShape(f.parts);
    } else if f.Compare? && e == Body(f) {
      ValueChars(f.value, 0);
      assert e[|f.name| + 1..][0] == f.value[0];
    }
  }

  /** The stars after the first `=`: one in a substring text, none in an equality. */
  lemma ValueStars(e: seq<byte>, endP: nat, f: Filter)
    requires Valid(f) && IsLeaf(f) && Denotes(e, f) && !(f.Compare? && f.op != Equal)
    requires endP == First(e, EQUALS) + 1 < |e| && (e[endP] == STAR ==> endP != |e| - 1)
    ensures e == Body(f) && !f.Present?
    ensures multiset(e[endP..])[STAR] == if f.Substring? then 1 else 0
    ensures f.Compare? ==> e[..endP - 1] == f.name && e[endP..] == f.value
    ensures f.Substring? ==> e[..endP - 1] == f.name && e[endP..] == PartsText(f.parts)
  {
    LeafShape(e, f);
    if f.Substring? {
      PartsShape(f.parts);
    } else if f.Compare? {
      assert STAR !in f.value;
    }
  }

  /** create_ber_filter */
  method CreateBerFilter(expression: seq<byte>, bFilt: Buffer, ghost f: Filter)
    requires Valid(f) && IsLeaf(f) && Denotes(expression, f) && |expression| < TEXT_BUFFER
    requires bFilt.Valid() && |bFilt.contents| + |Encode(f)| <= bFilt.data.Length
    modifies bFilt, bFilt.data
    ensures bFilt.Valid() && bFilt.contents == old(bFilt.contents) + Encode(f)
  {
    LeafShape(expression, f);
    LeafSize(expression, f);
    hide LengthOctets, HasPair, Matches, Valid;
    assert !HasPair(expression, COLON);  // so the matching_rule branch is not taken
    var matched := CheckOperation(LESS, 0xa6, bFilt, expression);
    if matched { return; }
    matched := CheckOperation(GREATER, 0xa5, bFilt, expression);
    if matched { return; }
    matched := CheckOperation(TILDE, 0xa8, bFilt, expression);
    if matched { return; }
    CreateEquals(expression, bFilt, f);
  }

  /** What the three operator checks find in a leaf's text. */
  lemma LeafShape(e: seq<byte>, f: Filter)
    requires Valid(f) && IsLeaf(f) && Denotes(e, f)
    ensures e != [] && 0 !in e && !HasPair(e, COLON)
    ensures forall c :: c in {LESS, GREATER, TILDE} ==>
                          (Matches(e, c) <==> e == Body(f) && f.Compare? && c == OpChar(f.op))
    ensures f.Compare? && e == Body(f) ==>
              var k := First(e, OpChar(f.op));
              k == |f.name| && k + |OpText(f.op)| <= |e| && e[..k] == f.name && e[k + |OpText(f.op)|..] == f.value
    ensures !(f.Compare? && e == Body(f) && f.op != Equal) ==>
              var k := First(e, EQUALS);
              if e == Body(f) then k == |f.name| && e[..k] == f.name else k == |e|
  {
    if e == Body(f) {
      match f
      case Compare(op, name, value) =>
          CompareShape(op, name, value);
      case Present(name) =>
        StarShape(name, [STAR]);
        assert e == name + [EQUALS] + [STAR];
      case Substring(name, parts) =>
        PartsShape(parts);
        StarShape(name, PartsText(parts));
    } else {
      BareShape(e);
    }
  }

  lemma LeafSize(e: seq<byte>, f: Filter)
    requires Valid(f) && IsLeaf(f) && Denotes(e, f) && |e| < TEXT_BUFFER
    ensures f.Compare? ==> |f.name| < 128 && |f.value| < 128 && |Content(f)| == 4 + |f.name| + |f.value|
    ensures f.Substring? ==> |Content(f)| == 4 + |f.name| + |PartsTlv(f.parts)|
    ensures f.Substring? ==> |PartsTlv(f.parts)| == |PartsText(f.parts)| + if |f.parts| == 1 then 1 else 3
    ensures |Encode(f)| == 1 + |LengthOctets(|Content(f)|)| + |Content(f)|
    ensures f.Compare? && f.op != Equal ==> |Encode(f)| <= |e| + 5
    ensures f.Compare? && f.op != Equal ==> |Content(f)| == |e| + 2 && |Encode(f)| >= |e| + 4
  {
    SmallLengths(|Content(f)|);
    if f.Compare? {
      SmallLengths(|f.name|);
      SmallLengths(|f.value|);
    } else if f.Substring? {
      SmallLengths(|f.name|);
      PartsSize(f.parts);
    }
  }

  // ---- Matching parentheses ----

  /** One character of the loop that looks for the parenthesis closing a subexpression. */
  function Close(s: seq<byte>, i: nat, count: nat): (k: nat)
    requires i <= |s|
    ensures i <= k <= |s|
    decreases |s| - i
  {
    if i == |s| then i
    else if s[i] == LPAREN then Close(s, i + 1, count + 1)
    else if s[i] == RPAREN && count > 0 then Close(s, i + 1, count - 1)
    else if s[i] == RPAREN then i
    else Close(s, i + 1, count)
  }

  lemma {:induction false} CloseSkipsPlain(s: seq<byte>, i: nat, t: seq<byte>, count: nat)
    requires At(s, i, t) && LPAREN !in t && RPAREN !in t
    ensures Close(s, i, count) == Close(s, i + |t|, count)
    decreases |t|
  {
    if t != [] {
      AtIndex(s, i, t, 0);
      assert t == [t[0]] + t[1..];
      AtSplit(s, i, [t[0]], t[1..]);
      CloseSkipsPlain(s, i + 1, t[1..], count);
    }
  }

  /** A filter's text leaves the parenthesis count as it found it. */
  lemma {:induction false} CloseSkipsBody(s: seq<byte>, i: nat, f: Filter, count: nat)
    requires Valid(f) && At(s, i, Body(f))
    ensures Close(s, i, count) == Close(s, i + |Body(f)|, count)
    decreases f, 1
  {
    if IsLeaf(f) {
      LeafParens(f);
      CloseSkipsPlain(s, i, Body(f), count);
    } else {
      CompoundBody(f);
      var head := [Body(f)[0]];
      AtSplit(s, i, head, Bodies(Children(f)));
      CloseSkipsPlain(s, i, head, count);
      if f.Not? {
        CloseSkipsPrinted(s, i + 1, f.f, count);
      } else {
        CloseSkipsBodies(s, i + 1, Children(f), count);
      }
    }
  }

  /** The children of a compound filter. */
  function Children(f: Filter): seq<Filter> {
    match f
    case And(fs) => fs
    case Or(fs) => fs
    case Not(g) => [g]
    case _ => []
  }

  /** A compound's text is its operator and its children's texts; its content is theirs. */
  lemma CompoundBody(f: Filter)
    requires Valid(f) && !IsLeaf(f)
    ensures AllValid(Children(f)) && Body(f) != []
    ensures Body(f) == [Body(f)[0]] + Bodies(Children(f))
    ensures Body(f)[0] == if f.And? then AMP else if f.Or? then BAR else BANG
    ensures f.Not? ==> Bodies(Children(f)) == Printed(f.f)
    ensures Content(f) == EncodeAll(Children(f))
  {
    if f.Not? {
      assert EncodeAll([f.f]) == Encode(f.f) + EncodeAll([]);
      assert Bodies([f.f]) == Printed(f.f) + Bodies([]);
    }
  }

  lemma {:induction false} CloseSkipsPrinted(s: seq<byte>, i: nat, f: Filter, count: nat)
    requires Valid(f) && At(s, i, Printed(f))
    ensures Close(s, i, count) == Close(s, i + |Printed(f)|, count)
    decreases f, 2
  {
    assert Printed(f) == [LPAREN] + (Body(f) + [RPAREN]);
    AtSplit(s, i, [LPAREN], Body(f) + [RPAREN]);
    AtSplit(s, i + 1, Body(f), [RPAREN]);
    AtIndex(s, i, [LPAREN], 0);
    AtIndex(s, i + 1 + |Body(f)|, [RPAREN], 0);
    CloseSkipsBody(s, i + 1, f, count + 1);
  }

  lemma {:induction false} CloseSkipsBodies(s: seq<byte>, i: nat, fs: seq<Filter>, count: nat)
    requires AllValid(fs) && At(s, i, Bodies(fs))
    ensures Close(s, i, count) == Close(s, i + |Bodies(fs)|, count)
    decreases fs, 0
  {
    if fs != [] {
      AtSplit(s, i, Printed(fs[0]), Bodies(fs[1..]));
      CloseSkipsPrinted(s, i, fs[0], count);
      CloseSkipsBodies(s, i + |Printed(fs[0])|, fs[1..], count);
    }
  }

  lemma LeafParens(f: Filter)
    requires Valid(f) && IsLeaf(f)
    ensures LPAREN !in Body(f) && RPAREN !in Body(f)
  {
    if f.Substring? {
      assert f.parts[0] in f.parts && f.parts[|f.parts| - 1] in f.parts;
    }
  }

  /** The counting loop over the `objectLen` characters left from `filtP`. */
  method FindClose(s: seq<byte>, filtP: nat, objectLen: nat) returns (endP: nat)
    requires filtP + objectLen == |s| && Close(s, filtP, 0) < |s|
    ensures endP == Close(s, filtP, 0) + 1
  {
    endP := filtP;
    var count := 0;
    while endP - filtP - 1 < objectLen
      invariant filtP <= endP < |s|
      invariant Close(s, filtP, 0) == Close(s, endP, count)
    {
      if s[endP] == LPAREN {
        count := count + 1;
      } else if s[endP] == RPAREN && count > 0 {
        count := count - 1;
      } else if s[endP] == RPAREN {
        endP := endP + 1;
        break;
      }
      endP := endP + 1;
    }
  }

  // ---- Whole filters ----

  /** A nested filter fits its buffers as soon as its text does. */
  lemma {:induction false} NestedFits(f: Filter)
    requires Valid(f) && |Body(f)| < TEXT_BUFFER
    ensures Fits(f)
  {
    EncodeSize(f);
    match f
    case And(fs) => ShortChildren(fs);
    case Or(fs) => ShortChildren(fs);
    case _ =>
  }

  lemma {:induction false} ShortChildren(fs: seq<Filter>)
    requires AllValid(fs) && |Bodies(fs)| < TEXT_BUFFER
    ensures ChildrenFit(fs)
  {
    if fs != [] {
      ShortChildren(fs[1..]);
    }
  }

  /** The first character of a leaf's text never starts a compound. */
  lemma LeafStart(e: seq<byte>, f: Filter)
    requires Valid(f) && IsLeaf(f) && Denotes(e, f)
    ensures e != [] && e[0] !in {AMP, BAR, BANG}
  {
    LeafShape(e, f);
  }

  /** process_filter */
  method ProcessFilter(expression: seq<byte>, bFilt: Buffer, ghost f: Filter)
    requires Valid(f) && Fits(f)
    requires StandsFor(expression, f) && (IsLeaf(f) ==> |expression| < TEXT_BUFFER)
    requires bFilt.Valid() && |bFilt.contents| + |Encode(f)| <= bFilt.data.Length
    modifies bFilt, bFilt.data
    ensures bFilt.Valid() && bFilt.contents == old(bFilt.contents) + Encode(f)
    decreases f, 2
  {
    if IsLeaf(f) {
      LeafStart(expression, f);
    } else {
      CompoundBody(f);
    }
    hide Encode, Body, Valid;
    if expression[0] == AMP || expression[0] == BAR || expression[0] == BANG {
      ProcessCompound(expression, bFilt, f);
    } else {
      CreateBerFilter(expression, bFilt, f);
    }
  }

  method PutCompoundTag(bFilt: Buffer, c: byte)
    requires bFilt.Valid() && |bFilt.contents| + 1 <= bFilt.data.Length && c in {AMP, BAR, BANG}
    modifies bFilt, bFilt.data
    ensures bFilt.Valid()
    ensures bFilt.contents == old(bFilt.contents) + [if c == AMP then 0xa0 else if c == BAR then 0xa1 else 0xa2]
  {
    if c == AMP { bFilt.Put(0xa0); }
    else if c == BAR { bFilt.Put(0xa1); }
    else { bFilt.Put(0xa2); }
  }

  /** The branch of process_filter for a compound expression. */
  method ProcessCompound(expression: seq<byte>, bFilt: Buffer, ghost f: Filter)
    requires Valid(f) && Fits(f) && !IsLeaf(f) && expression == Body(f)
    requires bFilt.Valid() && |bFilt.contents| + |Encode(f)| <= bFilt.data.Length
    modifies bFilt, bFilt.data
    ensures bFilt.Valid() && bFilt.contents == old(bFilt.contents) + Encode(f)
    decreases f, 1
  {
    CompoundBody(f);
    ghost var head := LengthOctets(|Content(f)|);
    assert Encode(f) == [Tag(f)] + head + Content(f);
    hide Encode, Body, Content, EncodeAll, Bodies, LengthOctets, Valid;
    PutCompoundTag(bFilt, expression[0]);
    var bBuff := new Buffer(BER_FILTER_BUFFER);
    ProcessChildren(expression, bBuff, Children(f), f);
    var body := bBuff.Written();
    var r := InsertLength(bFilt, |body|, 0);
    bFilt.Copy(body);
    Regroup4(old(bFilt.contents), [Tag(f)], head, body);
  }

  lemma ChildrenStart(f: Filter)
    requires !IsLeaf(f)
    ensures Children(f)[0..] == Children(f) && EncodeAll(Children(f)[..0]) == []
    ensures f.Not? || ((f.And? || f.Or?) && Children(f) == f.fs)
    ensures f.Not? ==> Children(f) == [f.f]
  {
  }

  /** The loop of process_filter over the parenthesised children. */
  method ProcessChildren(expression: seq<byte>, bBuff: Buffer, ghost fs: seq<Filter>, ghost f: Filter)
    requires fs == Children(f) && !IsLeaf(f) && AllValid(fs) && ChildrenFit(fs)
    requires |expression| >= 1 && expression[1..] == Bodies(fs)
    requires bBuff.Valid() && bBuff.contents == [] && |EncodeAll(fs)| <= bBuff.data.Length
    modifies bBuff, bBuff.data
    ensures bBuff.Valid() && bBuff.contents == EncodeAll(fs)
    decreases f, 0
  {
    hide *;
    ChildrenStart(f);
    var filtP, objectLen := 1, |expression| - 1;
    ghost var n := 0;
    while objectLen > 0
      invariant 0 <= objectLen && 0 <= n <= |fs| && AllValid(fs[n..])
      invariant filtP + objectLen == |expression|
      invariant expression[filtP..] == Bodies(fs[n..])
      invariant bBuff.Valid() && bBuff.contents == EncodeAll(fs[..n])
      decreases objectLen
    {
      ChildStep(expression, filtP, fs, n);
      ghost var g := fs[n];
      assert f.Not? || g in f.fs;
      filtP, objectLen := filtP + 1, objectLen - 1;
      var endP := FindClose(expression, filtP, objectLen);
      var r := endP - filtP - 1;
      var buff := expression[filtP..filtP + r];
      assert |buff| < TEXT_BUFFER;
      ProcessFilter(buff, bBuff, g);
      objectLen := objectLen - (endP - filtP);
      filtP := endP;
      n := n + 1;
    }
    ChildStep(expression, filtP, fs, n);
    assert fs[..n] == fs;
  }

  /** What one round of the loop finds and has room for. */
  lemma ChildStep(e: seq<byte>, i: nat, fs: seq<Filter>, n: nat)
    requires AllValid(fs) && ChildrenFit(fs) && n <= |fs| && i <= |e|
    requires AllValid(fs[n..]) && e[i..] == Bodies(fs[n..])
    ensures n < |fs| <==> i < |e|
    ensures n < |fs| ==>
              var g := fs[n];
              && Valid(g) && Fits(g) && |Body(g)| < TEXT_BUFFER && StandsFor(Body(g), g)
              && i + 2 + |Body(g)| <= |e| && e[i + 1..i + 1 + |Body(g)|] == Body(g)
              && Close(e, i + 1, 0) == i + 1 + |Body(g)|
              && AllValid(fs[n + 1..]) && e[i + 2 + |Body(g)|..] == Bodies(fs[n + 1..])
              && EncodeAll(fs[..n + 1]) == EncodeAll(fs[..n]) + Encode(g)
              && |EncodeAll(fs[..n + 1])| <= |EncodeAll(fs)|
  {
    if n < |fs| {
      assert fs[n..][0] == fs[n] && fs[n..][1..] == fs[n + 1..];
      assert Bodies(fs[n..]) == Printed(fs[n]) + Bodies(fs[n + 1..]);
      ChildFits(fs, n);
      NestedFits(fs[n]);
      ChildAt(e, i, fs[n], Bodies(fs[n + 1..]));
      EncodeAllNext(fs, n);
      EncodeAllSplit(fs, n + 1);
    }
  }

  /** Where the next child stands, and what its closing parenthesis is. */
  lemma ChildAt(s: seq<byte>, i: nat, g: Filter, rest: seq<byte>)
    requires Valid(g) && i <= |s| && s[i..] == Printed(g) + rest
    ensures i + 1 + |Body(g)| < |s| && s[i + 1..i + 1 + |Body(g)|] == Body(g)
    ensures Close(s, i + 1, 0) == i + 1 + |Body(g)|
    ensures s[i + 2 + |Body(g)|..] == rest
  {
    hide *;
    PrintedIs(g);
    InParens(s, i, Body(g), rest);
    CloseSkipsBody(s, i + 1, g, 0);
    CloseHere(s, i + 1 + |Body(g)|);
  }

  lemma InParens(s: seq<byte>, i: nat, b: seq<byte>, rest: seq<byte>)
    requires i <= |s| && s[i..] == [LPAREN] + b + [RPAREN] + rest
    ensures i + 1 + |b| < |s| && s[i + 1..i + 1 + |b|] == b && s[i + 1 + |b|] == RPAREN && s[i + 2 + |b|..] == rest
  {
    assert s[i..][1..1 + |b|] == b;
    assert s[i..][1 + |b|] == RPAREN;
    assert s[i..][2 + |b|..] == rest;
  }

  lemma CloseHere(s: seq<byte>, i: nat)
    requires i < |s| && s[i] == RPAREN
    ensures Close(s, i, 0) == i
  {
  }
}
