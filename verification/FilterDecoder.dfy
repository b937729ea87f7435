/** LDAP_string_to_filter and LDAP_filter_to_string, and the round trip through both. */
module FilterDecoder {
  import opened Bytes
  import opened Ber
  import opened FilterSpec
  import FilterEncoder

  // ---- Decoding ----

  /** What the decoder needs to know of the filter standing at the start of its input. */
  predicate Decodable(f: Filter) {
    Valid(f) && Fits(f)
  }

  lemma ContentSmall(f: Filter)
    requires Decodable(f)
    ensures |Content(f)| < BER_FILTER_BUFFER && |Content(f)| < TWO_31
    ensures |LengthOctets(|Content(f)|)| <= 3
    ensures FilterEncoder.IsLeaf(f) ==> |Content(f)| < 256 && |LengthOctets(|Content(f)|)| <= 2
  {
    SmallLengths(|Content(f)|);
    if FilterEncoder.IsLeaf(f) {
      FilterEncoder.LeafSize(Body(f), f);
    }
  }

  /** LDAP_string_to_filter, on any input that starts with the encoding of `f`. */
  method StringToFilter(expression: seq<byte>, ghost f: Filter) returns (t: Filter)
    requires Decodable(f) && At(expression, 0, Encode(f))
    ensures t == Trim(f)
    decreases f, 2
  {
    TlvTag(expression, 0, Tag(f), Content(f));
    match expression[0] % 32
    case 0 =>
      var list := DecodeList(expression, f);
      t := And(list);
    case 1 =>
      var list := DecodeList(expression, f);
      t := Or(list);
    case 2 =>
      t := DecodeNot(expression, f);
    case 4 =>
      t := DecodeSubstring(expression, f);
    case 7 =>
      t := DecodePresent(expression, f);
    case _ =>
      t := DecodeCompare(expression, f);
  }

  method DecodeNot(expression: seq<byte>, ghost f: Filter) returns (t: Filter)
    requires Decodable(f) && f.Not? && At(expression, 0, Encode(f))
    ensures t == Trim(f)
    decreases f, 1
  {
    var i, length, lenSize := FindTlvLength(expression, 1, Tag(f), Content(f));
    FilterEncoder.NestedFits(f.f);
    assert length < TEMP_BUFFER by { EncodeSize(f.f); }
    var notTemp := expression[i..i + length];
    assert notTemp[0..|notTemp|] == notTemp;
    var g := StringToFilter(notTemp, f.f);
    t := Not(g);
  }

  method DecodePresent(expression: seq<byte>, ghost f: Filter) returns (t: Filter)
    requires Decodable(f) && f.Present? && At(expression, 0, Encode(f))
    ensures t == f
  {
    var i, length, lenSize := FindTlvLength(expression, 1, Tag(f), Content(f));
    t := Present(expression[i..i + length]);
  }

  /** The loop over the children of an AND or an OR. */
  method DecodeList(expression: seq<byte>, ghost f: Filter) returns (list: seq<Filter>)
    requires Decodable(f) && (f.And? || f.Or?) && At(expression, 0, Encode(f))
    ensures list == Kept(f.fs, TrimAll(f.fs))
    decreases f, 1
  {
    hide *;
    ContentSmall(f);
    ListStart(f);
    ghost var fs := f.fs;
    var i, length, lenSize := FindTlvLength(expression, 1, Tag(f), Content(f));
    ghost var start := i;
    ghost var n := 0;
    list := [];
    while i <= length
      invariant 0 <= n <= |fs|
      invariant i == start + |EncodeAll(fs[..n])|
      invariant n > 0 ==> start + |EncodeAll(fs[..n - 1])| <= length
      invariant list == TrimAll(fs)[..n]
      decreases |fs| - n
    {
      ListStep(expression, start, f, n);
      ghost var g := fs[n];
      var p := i;
      i := i + 1;
      var len, size;
      i, len, size := FindTlvLength(expression, i, Tag(g), Content(g));
      assert len + size + 2 < TEMP_BUFFER;
      AtSlice(expression, p, Encode(g));
      var temp := expression[p..p + len + size + 2];
      var child := StringToFilter(temp, g);
      list := list + [child];
      i := i + len;
      n := n + 1;
    }
    ListEnd(start, length, f, n);
  }

  lemma ListStart(f: Filter)
    requires f.And? || f.Or?
    ensures EncodeAll(f.fs[..0]) == [] && Content(f) == EncodeAll(f.fs) && Encode(f) == Tlv(Tag(f), Content(f))
  {
  }

  /** One round of the list loop: there is a child left, and it stands at the index. */
  lemma ListStep(expression: seq<byte>, start: nat, f: Filter, n: nat)
    requires Decodable(f) && (f.And? || f.Or?) && n <= |f.fs|
    requires start >= 2 && At(expression, start, EncodeAll(f.fs))
    requires start + |EncodeAll(f.fs[..n])| <= |EncodeAll(f.fs)|
    ensures n < |f.fs|
    ensures var g := f.fs[n];
            var i := start + |EncodeAll(f.fs[..n])|;
            && Decodable(g) && |Encode(g)| < TEMP_BUFFER - 1
            && At(expression, i, Encode(g)) && Encode(g) == Tlv(Tag(g), Content(g)) && |Content(g)| < TWO_31
            && i + |Encode(g)| == start + |EncodeAll(f.fs[..n + 1])|
            && TrimAll(f.fs)[..n + 1] == TrimAll(f.fs)[..n] + [Trim(g)]
  {
    hide *;
    var fs := f.fs;
    assert fs[..|fs|] == fs;
    ListChild(f, n);
    EncodeAllNext(fs, n);
    EncodeAllSplit(fs, n + 1);
    AtSplit(expression, start, EncodeAll(fs[..n + 1]), EncodeAll(fs[n + 1..]));
    AtSplit(expression, start, EncodeAll(fs[..n]), Encode(fs[n]));
    TrimAllAt(fs, n);
  }

  lemma ListChild(f: Filter, n: nat)
    requires Decodable(f) && (f.And? || f.Or?) && n < |f.fs|
    ensures var g := f.fs[n];
            Decodable(g) && |Encode(g)| < TEMP_BUFFER - 1 && Encode(g) == Tlv(Tag(g), Content(g)) && |Content(g)| < TWO_31
  {
    ChildFits(f.fs, n);
    FilterEncoder.NestedFits(f.fs[n]);
    EncodeSize(f.fs[n]);
  }

  /** Where the list loop stops: after the last child, or before it when it is too short. */
  lemma ListEnd(start: nat, length: nat, f: Filter, n: nat)
    requires Decodable(f) && (f.And? || f.Or?) && n <= |f.fs|
    requires length == |EncodeAll(f.fs)| && start == 1 + |LengthOctets(length)|
    requires start + |EncodeAll(f.fs[..n])| > length
    requires n == 0 || start + |EncodeAll(f.fs[..n - 1])| <= length
    ensures TrimAll(f.fs)[..n] == Kept(f.fs, TrimAll(f.fs))
  {
    hide *;
    var fs := f.fs;
    ContentSmall(f);
    ListStart(f);
    KeptIs(fs);
    assert fs[..|fs|] == fs;
    if fs != [] {
      var m := |fs| - 1;
      EncodeAllNext(fs, m);
      EncodeAllSplit(fs, n);
      TwoOctetsEach(fs[n..]);
    }
  }

  lemma KeptIs(fs: seq<Filter>)
    ensures fs == [] ==> Kept(fs, TrimAll(fs)) == []
    ensures fs != [] ==>
              var m := |fs| - 1;
              TrimAll(fs)[..if |Encode(fs[m])| >= 1 + |LengthOctets(|EncodeAll(fs)|)| then m + 1 else m] == Kept(fs, TrimAll(fs))
  {
  }

  lemma {:induction false} TwoOctetsEach(fs: seq<Filter>)
    ensures |EncodeAll(fs)| >= 2 * |fs|
  {
    if fs != [] {
      TwoOctetsEach(fs[1..]);
    }
  }

  /** The four comparison cases: two octet strings. */
  method DecodeCompare(expression: seq<byte>, ghost f: Filter) returns (t: Filter)
    requires Decodable(f) && f.Compare? && At(expression, 0, Encode(f))
    ensures t == f
  {
    hide *;
    CompareParts(f);
    TlvTag(expression, 0, Tag(f), Content(f));
    var op := OpOfTag(expression, f);
    var i, length, lenSize := FindTlvLength(expression, 1, Tag(f), Content(f));
    AtSplit(expression, i, Tlv(0x04, f.name), Tlv(0x04, f.value));
    i, length, lenSize := FindTlvLength(expression, i + 1, 0x04, f.name);
    var name := expression[i..i + length];
    i := i + length;
    i, length, lenSize := FindTlvLength(expression, i + 1, 0x04, f.value);
    var value := expression[i..i + length];
    t := Compare(op, name, value);
  }

  lemma CompareParts(f: Filter)
    requires Decodable(f) && f.Compare?
    ensures Encode(f) == Tlv(Tag(f), Content(f)) && Content(f) == Tlv(0x04, f.name) + Tlv(0x04, f.value)
    ensures |Content(f)| < TWO_31 && |f.name| < TWO_31 && |f.value| < TWO_31
  {
    ContentSmall(f);
    FilterEncoder.LeafSize(Body(f), f);
  }

  /** The choice the tag's low five bits select among the comparisons. */
  method OpOfTag(expression: seq<byte>, ghost f: Filter) returns (op: Op)
    requires f.Compare? && |expression| > 0 && expression[0] == Tag(f)
    ensures op == f.op
  {
    match expression[0] % 32
    case 3 => op := Equal;
    case 5 => op := GreaterOrEqual;
    case 6 => op := LessOrEqual;
    case _ => op := Approx;
  }

  /** The substring case, whose part loop has the same guard as the list loop. */
  method DecodeSubstring(expression: seq<byte>, ghost f: Filter) returns (t: Filter)
    requires Decodable(f) && f.Substring? && At(expression, 0, Encode(f))
    ensures t == f
  {
    hide *;
    SubstringParts(f);
    OneOctetLength(f);
    OneOctetValue(f);
    var i, length, len, lenSize;
    i, length, lenSize := FindTlvLength(expression, 1, Tag(f), Content(f));
    ghost var end := i + length;
    AtSplit(expression, i, Tlv(0x04, f.name), PartsSequence(f.parts));
    TlvTag(expression, i, 0x04, f.name);
    i, len, lenSize := FindTlvLength(expression, i + 1, 0x04, f.name);
    var name := expression[i..i + len];
    i := i + len;
    SequenceHead(expression, i, f);
    i, len, lenSize := FindLength(expression, i + 1, [Octet(|PartsTlv(f.parts)|)]);
    var list := DecodeParts(expression, i, length, end, f);
    t := Substring(name, list);
  }

  method DecodeParts(expression: seq<byte>, start: nat, length: nat, ghost end: nat, ghost f: Filter)
    returns (list: seq<Part>)
    requires Decodable(f) && f.Substring?
    requires At(expression, start, PartsTlv(f.parts)) && start + |PartsTlv(f.parts)| == end
    requires length + 2 <= end <= length + 3
    ensures list == f.parts
  {
    hide *;
    ghost var parts := f.parts;
    assert parts[0..] == parts;
    var i: nat, len: nat, lenSize: nat := start, 0, 0;
    list := [];
    ghost var n := 0;
    while i <= length
      invariant 0 <= n <= |parts| && list == parts[..n]
      invariant At(expression, i, PartsTlv(parts[n..])) && i + |PartsTlv(parts[n..])| == end
      decreases |parts| - n
    {
      PartStep(expression, i, f, n);
      var tag := expression[i];
      i, len, lenSize := FindTlvLength(expression, i + 1, tag, parts[n].v);
      list := AddPart(list, tag, expression[i..i + len], parts[n]);
      i := i + len;
      n := n + 1;
    }
    PartsEnd(f, n);
  }

  /** The part that a tag selects. */
  method AddPart(list: seq<Part>, tag: byte, v: seq<byte>, ghost p: Part) returns (l: seq<Part>)
    requires v == p.v && tag == if p.Initial? then 0x80 else if p.Any? then 0x81 else 0x82
    ensures l == list + [p]
  {
    l := list;
    if tag == 0x80 {
      l := l + [Initial(v)];
    } else if tag == 0x81 {
      l := l + [Any(v)];
    } else if tag == 0x82 {
      l := l + [Final(v)];
    }
  }

  /** The sequence header is one octet the decoder can read, even when it is 0x80. */
  lemma SequenceHead(expression: seq<byte>, i: nat, f: Filter)
    requires Decodable(f) && f.Substring? && At(expression, i, PartsSequence(f.parts))
    ensures At(expression, i + 1, [Octet(|PartsTlv(f.parts)|)]) && expression[i] == 0x30
    ensures ReadableLength([Octet(|PartsTlv(f.parts)|)])
    ensures At(expression, i + 2, PartsTlv(f.parts))
  {
    hide *;
    OneOctetLength(f);
    SequenceShape(f.parts);
    AtTwo<byte>(expression, i, 0x30, Octet(|PartsTlv(f.parts)|), PartsTlv(f.parts));
  }

  lemma SequenceShape(parts: seq<Part>)
    ensures PartsSequence(parts) == [0x30, Octet(|PartsTlv(parts)|)] + PartsTlv(parts)
  {
  }

  lemma SubstringParts(f: Filter)
    requires Decodable(f) && f.Substring?
    ensures Encode(f) == Tlv(Tag(f), Content(f)) && |Content(f)| < TWO_31
    ensures Content(f) == Tlv(0x04, f.name) + PartsSequence(f.parts) && |f.name| < TWO_31
    ensures |PartsSequence(f.parts)| == 2 + |PartsTlv(f.parts)| && 1 <= |LengthOctets(|Content(f)|)| <= 2
    ensures |Content(f)| == |Tlv(0x04, f.name)| + 2 + |PartsTlv(f.parts)|
  {
    ContentSmall(f);
    FilterEncoder.LeafSize(Body(f), f);
  }

  lemma OneOctetValue(f: Filter)
    requires Decodable(f) && f.Substring?
    ensures var s := [Octet(|PartsTlv(f.parts)|)];
            ReadableLength(s) && (LengthValue(s) == |PartsTlv(f.parts)| || |PartsTlv(f.parts)| == 128)
  {
    OneOctetLength(f);
  }

  lemma OneOctetLength(f: Filter)
    requires Decodable(f) && f.Substring?
    ensures |PartsTlv(f.parts)| <= 128
    ensures ReadableLength([Octet(|PartsTlv(f.parts)|)])
  {
    FilterEncoder.LeafSize(Body(f), f);
    assert BigEndian([Octet(|PartsTlv(f.parts)|)][1..]) == 0;
  }

  /** The one case in which the sequence's length octet is not the definite length of its content. */
  lemma SequenceWellFormed(f: Filter)
    requires Decodable(f) && f.Substring?
    ensures PartsSequence(f.parts) == Tlv(0x30, PartsTlv(f.parts)) <==> |PartsTlv(f.parts)| < 128
  {
    OneOctetLength(f);
    SmallLengths(|PartsTlv(f.parts)|);
    assert |PartsTlv(f.parts)| == 128 ==> |LengthOctets(128)| == 2;
  }

  /** An attribute and two parts of 62 letters: a filter every buffer has room for, with that length octet. */
  lemma SequenceMalformed(v: seq<byte>)
    requires |v| == 62 && forall c :: c in v ==> 97 <= c <= 122
    ensures var f := Substring([97], [Initial(v), Final(v)]);
            && Decodable(f) && |PartsTlv(f.parts)| == 128
            && PartsSequence(f.parts) != Tlv(0x30, PartsTlv(f.parts))
  {
    var parts := [Initial(v), Final(v)];
    var f := Substring([97], parts);
    LettersOk(v);
    assert Valid(f);
    assert PartsText(parts) == v + [STAR] + v;
    assert Body(f) == [97] + [EQUALS] + (v + [STAR] + v);
    PartsSize(parts);
    assert |PartTlv(parts[0])| == 64 && |PartTlv(parts[1])| == 64;
    FilterEncoder.LeafSize(Body(f), f);
    SequenceWellFormed(f);
  }

  lemma LettersOk(v: seq<byte>)
    requires v != [] && forall c :: c in v ==> 97 <= c <= 122
    ensures ValueOk(v) && NameOk([97])
  {
    forall c: byte | HasPair(v, c)
      ensures c in v
    {
      var i :| 0 <= i < |v| - 1 && v[i] == c && v[i + 1] == EQUALS;
      assert v[i] in v;
    }
  }

  lemma PartStep(expression: seq<byte>, i: nat, f: Filter, n: nat)
    requires Decodable(f) && f.Substring? && n <= |f.parts|
    requires At(expression, i, PartsTlv(f.parts[n..])) && PartsTlv(f.parts[n..]) != []
    ensures n < |f.parts| && f.parts[..n + 1] == f.parts[..n] + [f.parts[n]]
    ensures At(expression, i, PartTlv(f.parts[n])) && |f.parts[n].v| < TWO_31
    ensures PartTlv(f.parts[n]) == Tlv(expression[i], f.parts[n].v)
    ensures expression[i] == if f.parts[n].Initial? then 0x80 else if f.parts[n].Any? then 0x81 else 0x82
    ensures At(expression, i + |PartTlv(f.parts[n])|, PartsTlv(f.parts[n + 1..]))
    ensures |PartsTlv(f.parts[n..])| == |PartTlv(f.parts[n])| + |PartsTlv(f.parts[n + 1..])|
    ensures expression[i] == PartTlv(f.parts[n])[0]
  {
    var parts := f.parts;
    assert n < |parts|;
    assert parts[n..][0] == parts[n] && parts[n..][1..] == parts[n + 1..];
    AtSplit(expression, i, PartTlv(parts[n]), PartsTlv(parts[n + 1..]));
    AtIndex(expression, i, PartTlv(parts[n]), 0);
    FilterEncoder.LeafSize(Body(f), f);
    PartsSize(parts);
  }

  lemma PartsEnd(f: Filter, n: nat)
    requires Decodable(f) && f.Substring? && n <= |f.parts|
    requires |PartsTlv(f.parts[n..])| < 3
    ensures f.parts[..n] == f.parts
  {
    ThreeOctetsEach(f.parts[n..]);
  }

  lemma {:induction false} ThreeOctetsEach(parts: seq<Part>)
    requires forall p :: p in parts ==> ValueOk(p.v)
    ensures |PartsTlv(parts)| >= 3 * |parts|
  {
    if parts != [] {
      assert parts[0] in parts;
      ThreeOctetsEach(parts[1..]);
    }
  }

  // ---- Printing ----

  /** LDAP_filter_to_string, which consumes the child lists as it prints. */
  method FilterToString(f: Filter) returns (expression: seq<byte>)
    requires Valid(f) && TextsFit(f)
    ensures expression == Printed(f)
    decreases f, 2
  {
    match f
    case And(fs) =>
      var list := PrintList(fs);
      expression := [LPAREN, AMP] + list + [RPAREN];
    case Or(fs) =>
      var list := PrintList(fs);
      expression := [LPAREN, BAR] + list + [RPAREN];
    case Not(g) =>
      FilterEncoder.NestedFits(g);
      var expressionA := FilterToString(g);
      assert |expressionA| < PRINT_BUFFER;
      expression := [LPAREN, BANG] + expressionA + [RPAREN];
    case _ =>
      expression := PrintLeaf(f);
  }

  method PrintLeaf(f: Filter) returns (expression: seq<byte>)
    requires Valid(f) && FilterEncoder.IsLeaf(f)
    ensures expression == Printed(f)
  {
    match f
    case Compare(op, name, value) =>
      expression := [LPAREN] + (name + OpText(op) + value) + [RPAREN];
    case Present(name) =>
      expression := [LPAREN] + (name + [EQUALS, STAR]) + [RPAREN];
    case Substring(name, parts) =>
      var value := PrintParts(parts);
      expression := [LPAREN] + (name + [EQUALS] + value) + [RPAREN];
  }

  method PrintList(fs: seq<Filter>) returns (expression: seq<byte>)
    requires AllValid(fs) && ChildrenFit(fs)
    ensures expression == Bodies(fs)
    decreases fs, 1
  {
    hide *;
    var list := fs;
    expression := [];
    PrintStep(list);
    while list != []
      invariant AllValid(list) && ChildrenFit(list) && |list| <= |fs| && list == fs[|fs| - |list|..]
      invariant expression + Bodies(list) == Bodies(fs)
      invariant list == [] ==> Bodies(list) == []
      decreases |list|
    {
      assert list[0] in fs;
      PrintStep(list);
      var expressionA := FilterToString(list[0]);
      assert |expressionA| < PRINT_BUFFER;
      Regroup(expression, expressionA, Bodies(list[1..]));
      expression := expression + expressionA;
      list := list[1..];
      PrintStep(list);
    }
  }

  lemma PrintStep(list: seq<Filter>)
    requires AllValid(list) && ChildrenFit(list)
    ensures list == [] ==> Bodies(list) == []
    ensures list != [] ==>
              && Valid(list[0]) && TextsFit(list[0]) && |Printed(list[0])| < PRINT_BUFFER
              && AllValid(list[1..]) && ChildrenFit(list[1..])
              && Bodies(list) == Printed(list[0]) + Bodies(list[1..])
  {
    if list != [] {
      FilterEncoder.NestedFits(list[0]);
    }
  }

  /** One round of the substring loop; `ck` tells whether a star already ends the text so far. */
  method PrintPart(text: seq<byte>, ck: nat, part: Part) returns (text': seq<byte>, ck': nat)
    ensures part.Initial? ==> text' == part.v + [STAR] && ck' == ck + |part.v|
    ensures !part.Initial? ==>
              text' == text + (if FilterEncoder.CharAt(text, ck) == STAR then [] else [STAR]) + part.v
                       + (if part.Any? then [STAR] else [])
  {
    text', ck' := text, ck;
    if part.Initial? {
      text' := part.v + [STAR];
      ck' := ck + |part.v|;
    } else if part.Any? {
      if FilterEncoder.CharAt(text, ck) == STAR {
        text' := text' + part.v;
      } else {
        text' := text' + [STAR];
        text' := text' + part.v;
      }
      text' := text' + [STAR];
      ck' := ck + |part.v| + 1;
    } else if FilterEncoder.CharAt(text, ck) == STAR {
      text' := text' + part.v;
    } else {
      text' := text' + [STAR];
      text' := text' + part.v;
    }
  }

  method PrintParts(parts: seq<Part>) returns (text: seq<byte>)
    requires OneStar(parts)
    ensures text == PartsText(parts)
  {
    var list, ck := parts, 0;
    text := [];
    while list != []
      invariant |list| <= |parts| && list == parts[|parts| - |list|..]
      invariant |list| == |parts| ==> text == [] && ck == 0
      invariant |list| == 1 && |parts| == 2 ==> text == parts[0].v + [STAR] && ck == |parts[0].v|
      invariant list == [] ==> text == PartsText(parts)
      decreases |list|
    {
      text, ck := PrintPart(text, ck, list[0]);
      list := list[1..];
    }
  }

  // ---- The round trip ----

  lemma {:induction false} TrimValid(f: Filter)
    requires Valid(f)
    ensures Valid(Trim(f))
    ensures Trim(f) == f <==> AllLastFit(f)
    ensures |Body(Trim(f))| <= |Body(f)|
    ensures |Body(Trim(f))| == |Body(f)| ==> AllLastFit(f)
    decreases f, 1
  {
    match f
    case And(fs) => TrimListValid(fs);
    case Or(fs) => TrimListValid(fs);
    case Not(g) => TrimValid(g);
    case _ =>
  }

  lemma TrimListValid(fs: seq<Filter>)
    requires AllValid(fs)
    ensures var ts := Kept(fs, TrimAll(fs));
            && AllValid(ts)
            && (ts == fs <==> LastFits(fs) && EachLastFits(fs))
            && |Bodies(ts)| <= |Bodies(fs)|
            && (|Bodies(ts)| == |Bodies(fs)| ==> LastFits(fs) && EachLastFits(fs))
    decreases fs, 1
  {
    hide *;
    var ts := TrimAll(fs);
    TrimAllValid(fs);
    LastKept(fs, ts);
    if !LastFits(fs) {
      var n := |ts| - 1;
      BodiesNext(ts, n);
      PrintedIs(ts[n]);
      assert ts[..n + 1] == ts;
    }
  }

  lemma LastKept(fs: seq<Filter>, ts: seq<Filter>)
    requires |ts| == |fs|
    ensures LastFits(fs) ==> Kept(fs, ts) == ts
    ensures !LastFits(fs) ==> |ts| > 0 && Kept(fs, ts) == ts[..|ts| - 1]
  {
    hide Encode, EncodeAll;
  }

  lemma {:induction false} TrimAllValid(fs: seq<Filter>)
    requires AllValid(fs)
    ensures AllValid(TrimAll(fs))
    ensures TrimAll(fs) == fs <==> EachLastFits(fs)
    ensures |Bodies(TrimAll(fs))| <= |Bodies(fs)|
    ensures |Bodies(TrimAll(fs))| == |Bodies(fs)| ==> EachLastFits(fs)
    decreases fs, 0
  {
    if fs != [] {
      TrimValid(fs[0]);
      TrimAllValid(fs[1..]);
      assert TrimAll(fs)[1..] == TrimAll(fs[1..]);
      assert TrimAll(fs) == fs <==> Trim(fs[0]) == fs[0] && TrimAll(fs[1..]) == fs[1..];
    }
  }

  lemma TrimTextsFit(f: Filter)
    requires Valid(f) && TextsFit(f)
    ensures Valid(Trim(f)) && TextsFit(Trim(f))
  {
    TrimValid(f);
    match f
    case And(fs) => TrimChildrenFit(fs);
    case Or(fs) => TrimChildrenFit(fs);
    case Not(g) => TrimValid(g);
    case _ =>
  }

  lemma TrimChildrenFit(fs: seq<Filter>)
    requires AllValid(fs) && ChildrenFit(fs)
    ensures AllValid(Kept(fs, TrimAll(fs))) && ChildrenFit(Kept(fs, TrimAll(fs)))
  {
    TrimListValid(fs);
    TrimAllFit(fs);
    if !LastFits(fs) {
      PrefixFits(TrimAll(fs), |fs| - 1);
    }
  }

  lemma {:induction false} TrimAllFit(fs: seq<Filter>)
    requires AllValid(fs) && ChildrenFit(fs)
    ensures AllValid(TrimAll(fs)) && ChildrenFit(TrimAll(fs))
  {
    if fs != [] {
      TrimValid(fs[0]);
      TrimAllFit(fs[1..]);
    }
  }

  lemma {:induction false} PrefixFits(fs: seq<Filter>, n: nat)
    requires AllValid(fs) && ChildrenFit(fs) && n <= |fs|
    ensures AllValid(fs[..n]) && ChildrenFit(fs[..n])
  {
    if n > 0 {
      PrefixFits(fs[1..], n - 1);
      assert fs[..n][1..] == fs[1..][..n - 1];
    }
  }

  /**
   Text to BER to tree to text. The printed text is the parenthesised input exactly when every list's
   last child is at least as long as the list's own header; otherwise the short last children are lost.
   */
  method EncodeDecodePrint(text: seq<byte>, ghost f: Filter) returns (printed: seq<byte>, tree: Filter)
    requires Valid(f) && Fits(f) && text == Body(f)
    ensures tree == Trim(f) && Valid(tree) && printed == Printed(tree)
    ensures printed == [LPAREN] + text + [RPAREN] <==> AllLastFit(f)
    ensures AllLastFit(f) ==> tree == f
  {
    hide *;
    BodyEncodes(f);
    TrimPrints(f);
    TrimTextsFit(f);
    var bFilt := new Buffer(BER_FILTER_BUFFER);
    FilterEncoder.ProcessFilter(text, bFilt, f);
    var ber := bFilt.Written();
    AtWhole(ber);
    tree := StringToFilter(ber, f);
    printed := FilterToString(tree);
  }

  lemma TrimPrints(f: Filter)
    requires Valid(f)
    ensures Valid(Trim(f)) && (Trim(f) == f <==> AllLastFit(f))
    ensures Printed(Trim(f)) == [LPAREN] + Body(f) + [RPAREN] <==> AllLastFit(f)
  {
    hide *;
    TrimValid(f);
    PrintedIs(f);
    PrintedIs(Trim(f));
  }

  lemma BodyEncodes(f: Filter)
    requires Valid(f) && Fits(f)
    ensures Decodable(f) && TextsFit(f) && |Encode(f)| <= BER_FILTER_BUFFER
    ensures FilterEncoder.StandsFor(Body(f), f) && (FilterEncoder.IsLeaf(f) ==> |Body(f)| < TEXT_BUFFER)
  {
    hide Body, Encode;
  }

  /** No list is empty. */
  predicate NoEmptyList(f: Filter)
    decreases f, 1
  {
    match f
    case And(fs) => fs != [] && NoEmptyLists(fs)
    case Or(fs) => fs != [] && NoEmptyLists(fs)
    case Not(g) => NoEmptyList(g)
    case _ => true
  }

  predicate NoEmptyLists(fs: seq<Filter>)
    decreases fs, 0
  {
    fs == [] || (NoEmptyList(fs[0]) && NoEmptyLists(fs[1..]))
  }

  /** Encoded bodies under 256 octets and no empty list are enough for the exact round trip. */
  lemma {:induction false} SmallBodiesRoundTrip(f: Filter)
    requires Valid(f) && NoEmptyList(f) && |Content(f)| < 256
    ensures AllLastFit(f) && |Encode(f)| >= 3
    decreases f, 1
  {
    SmallLengths(|Content(f)|);
    match f
    case And(fs) => SmallListRoundTrip(fs);
    case Or(fs) => SmallListRoundTrip(fs);
    case Not(g) => SmallBodiesRoundTrip(g);
    case _ =>
  }

  lemma SmallListRoundTrip(fs: seq<Filter>)
    requires AllValid(fs) && fs != [] && NoEmptyLists(fs) && |EncodeAll(fs)| < 256
    ensures LastFits(fs) && EachLastFits(fs) && |EncodeAll(fs)| >= 3
    decreases fs, 1
  {
    SmallLengths(|EncodeAll(fs)|);
    SmallEach(fs);
    EncodeAllNext(fs, |fs| - 1);
    assert fs[..|fs| - 1 + 1] == fs;
  }

  lemma {:induction false} SmallEach(fs: seq<Filter>)
    requires AllValid(fs) && NoEmptyLists(fs) && |EncodeAll(fs)| < 256
    ensures EachLastFits(fs) && (fs != [] ==> |Encode(fs[|fs| - 1])| >= 3)
    decreases fs, 0
  {
    if fs != [] {
      SmallBodiesRoundTrip(fs[0]);
      SmallEach(fs[1..]);
    }
  }

  /** Three presence tests of 102 octets each followed by one of 3: the last is lost. */
  function LongList(): Filter {
    var long := Present(seq(100, _ => 97));
    And([long, long, long, Present([120])])
  }

  lemma LastChildLost()
    ensures Valid(LongList()) && Fits(LongList()) && !AllLastFit(LongList())
    ensures Trim(LongList()) == And(LongList().fs[..3])
  {
    var fs := LongList().fs;
    var f := fs[0];
    LongListSizes();
    LongListValid();
    hide *;
    TrimAllAt(fs, 0);
    TrimAllAt(fs, 1);
    TrimAllAt(fs, 2);
    LongListTrim();
  }

  lemma LongListTrim()
    ensures var fs := LongList().fs;
            && fs[..3] == [fs[0], fs[0], fs[0]] && !LastFits(fs) && Trim(fs[0]) == fs[0]
            && Trim(LongList()) == And(TrimAll(fs)[..3]) && !AllLastFit(LongList())
  {
    LongListSizes();
    hide Encode, EncodeAll;
    assert Digits(309) == [1, 53] by { assert Digits(1) == [1]; }
  }

  lemma LongListValid()
    ensures Valid(LongList()) && TextsFit(LongList())
  {
    var fs := LongList().fs;
    AllValidAt(fs);
    assert ChildrenFit(fs[1..]) && ChildrenFit(fs[2..]) && ChildrenFit(fs[3..]);
  }

  lemma LongListSizes()
    ensures |Encode(LongList().fs[3])| == 3 && |EncodeAll(LongList().fs)| == 309
  {
    var fs := LongList().fs;
    var f := fs[0];
    assert |Encode(f)| == 102;
    assert |Encode(fs[3])| == 3;
    assert EncodeAll(fs) == Encode(f) + EncodeAll(fs[1..]);
    assert EncodeAll(fs[1..]) == Encode(f) + EncodeAll(fs[2..]);
    assert EncodeAll(fs[2..]) == Encode(f) + EncodeAll(fs[3..]);
    assert EncodeAll(fs[3..]) == Encode(fs[3]) + EncodeAll(fs[4..]);
  }
}
