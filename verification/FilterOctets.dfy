/** Search filters spelled out: which text is which octets (RFC 4515 section 3, RFC 4511 section 4.5.1). */
module FilterOctets {
  import opened Bytes
  import opened Ber
  import opened FilterSpec
  import FilterDecoder
  import FilterEncoder

  // ---- Which names and values there are ----

  /** A name holds no NUL, parenthesis, star, '=', '<', '>', '~' or ':', and does not begin with '&', '|' or '!'. */
  lemma NamesAre(n: seq<byte>)
    ensures NameOk(n) <==>
            && n != [] && n[0] != 38 && n[0] != 124 && n[0] != 33
            && forall i :: 0 <= i < |n| ==> n[i] !in [0, 40, 41, 42, 61, 60, 62, 126, 58]
  {
    assert NameOk(n) ==> forall i :: 0 <= i < |n| ==> n[i] in n;
  }

  /** A value holds no NUL, parenthesis or star, and none of '<', '>', '~' and ':' in front of '='. */
  lemma ValuesAre(v: seq<byte>)
    ensures ValueOk(v) <==>
            && v != [] && (forall i :: 0 <= i < |v| ==> v[i] !in [0, 40, 41, 42])
            && forall i :: 0 <= i < |v| - 1 && v[i + 1] == 61 ==> v[i] !in [60, 62, 126, 58]
  {
    assert ValueOk(v) ==> forall i :: 0 <= i < |v| ==> v[i] in v;
    forall i | 0 <= i < |v| - 1 && v[i + 1] == 61 && v[i] in [60, 62, 126, 58]
      ensures HasPair(v, v[i]) && v[i] in {LESS, GREATER, TILDE, COLON}
    {
    }
  }

  // ---- From text to octets ----

  /** process_filter on a text, in a buffer of its own. */
  method Process(text: seq<byte>, ghost f: Filter) returns (ber: seq<byte>)
    requires Valid(f) && Fits(f)
    requires FilterEncoder.StandsFor(text, f) && (FilterEncoder.IsLeaf(f) ==> |text| < TEXT_BUFFER)
    ensures ber == Encode(f)
  {
    hide *;
    FitsIs(f);
    var bFilt := new Buffer(BER_FILTER_BUFFER);
    FilterEncoder.ProcessFilter(text, bFilt, f);
    ber := bFilt.Written();
  }

  lemma FitsIs(f: Filter)
    requires Valid(f)
    ensures Fits(f) <==> |Encode(f)| <= BER_FILTER_BUFFER && TextsFit(f)
  {
  }

  lemma CompareIs(op: Op, n: seq<byte>, v: seq<byte>)
    requires NameOk(n) && ValueOk(v) && |n| + |v| + 2 < 128
    ensures var f := Compare(op, n, v);
            && Valid(f) && Fits(f) && FilterDecoder.Decodable(f) && TextsFit(f) && FilterEncoder.IsLeaf(f)
            && FilterEncoder.StandsFor(Body(f), f) && |Body(f)| < TEXT_BUFFER
            && Trim(f) == f && Printed(f) == [40] + Body(f) + [41]
    ensures op == Equal ==> Body(Compare(op, n, v)) == n + [61] + v
    ensures op == GreaterOrEqual ==> Body(Compare(op, n, v)) == n + [62, 61] + v
    ensures op == LessOrEqual ==> Body(Compare(op, n, v)) == n + [60, 61] + v
    ensures op == Approx ==> Body(Compare(op, n, v)) == n + [126, 61] + v
    ensures var c := [0x04, |n|] + n + [0x04, |v|] + v;
            && (op == Equal ==> Encode(Compare(op, n, v)) == [0xa3] + LengthOctets(|c|) + c)
            && (op == GreaterOrEqual ==> Encode(Compare(op, n, v)) == [0xa5] + LengthOctets(|c|) + c)
            && (op == LessOrEqual ==> Encode(Compare(op, n, v)) == [0xa6] + LengthOctets(|c|) + c)
            && (op == Approx ==> Encode(Compare(op, n, v)) == [0xa8] + LengthOctets(|c|) + c)
  {
    var f := Compare(op, n, v);
    assert Valid(f);
    FilterEncoder.NestedFits(f);
    ShortTlv(0x04, n);
    ShortTlv(0x04, v);
    hide LengthOctets, NameOk, ValueOk;
    assert Tlv(0x04, n) + Tlv(0x04, v) == [0x04, |n|] + n + [0x04, |v|] + v;
  }

  /** '=', ">=", "<=" and "~=" are the choices 3, 5, 6 and 8. */
  method ComparisonOctets(n: seq<byte>, v: seq<byte>)
    returns (equal: seq<byte>, greater: seq<byte>, less: seq<byte>, approx: seq<byte>)
    requires NameOk(n) && ValueOk(v) && |n| + |v| + 2 < 128
    ensures var c := [0x04, |n|] + n + [0x04, |v|] + v;
            && equal == [0xa3] + LengthOctets(|c|) + c && greater == [0xa5] + LengthOctets(|c|) + c
            && less == [0xa6] + LengthOctets(|c|) + c && approx == [0xa8] + LengthOctets(|c|) + c
  {
    hide *;
    CompareIs(Equal, n, v);
    CompareIs(GreaterOrEqual, n, v);
    CompareIs(LessOrEqual, n, v);
    CompareIs(Approx, n, v);
    equal := Process(n + [61] + v, Compare(Equal, n, v));
    greater := Process(n + [62, 61] + v, Compare(GreaterOrEqual, n, v));
    less := Process(n + [60, 61] + v, Compare(LessOrEqual, n, v));
    approx := Process(n + [126, 61] + v, Compare(Approx, n, v));
  }

  /** "name=*" is the choice 7. */
  method PresenceOctets(n: seq<byte>) returns (ber: seq<byte>)
    requires NameOk(n) && |n| + 2 < 128
    ensures ber == [0x87, |n|] + n
  {
    hide *;
    PresentIs(n);
    ber := Process(n + [61, 42], Present(n));
  }

  lemma PresentIs(n: seq<byte>)
    requires NameOk(n) && |n| + 2 < 128
    ensures var f := Present(n);
            && Valid(f) && Fits(f) && FilterDecoder.Decodable(f) && TextsFit(f) && FilterEncoder.IsLeaf(f)
            && FilterEncoder.StandsFor(Body(f), f) && |Body(f)| < TEXT_BUFFER
            && Trim(f) == f && Printed(f) == [40] + Body(f) + [41]
            && Body(f) == n + [61, 42] && Encode(f) == [0x87, |n|] + n
  {
    ShortTlv(0x87, n);
    FilterEncoder.NestedFits(Present(n));
  }

  /** A text without an operator is a value of objectClass. */
  method BareOctets(n: seq<byte>) returns (ber: seq<byte>)
    requires NameOk(n) && |n| + 13 < 128
    ensures var c := [0x04, 11, 111, 98, 106, 101, 99, 116, 67, 108, 97, 115, 115] + [0x04, |n|] + n;
            ber == [0xa3] + LengthOctets(|c|) + c
  {
    hide *;
    var objectClass: seq<byte> := [111, 98, 106, 101, 99, 116, 67, 108, 97, 115, 115];
    BareIs(n, objectClass);
    CompareIs(Equal, objectClass, n);
    assert [0x04 as byte, 11] + objectClass == [0x04, 11, 111, 98, 106, 101, 99, 116, 67, 108, 97, 115, 115];
    ber := Process(n, Compare(Equal, objectClass, n));
  }

  lemma BareIs(n: seq<byte>, objectClass: seq<byte>)
    requires NameOk(n) && |n| + 13 < 128
    requires objectClass == [111, 98, 106, 101, 99, 116, 67, 108, 97, 115, 115]
    ensures ValueOk(n) && NameOk(objectClass) && FilterEncoder.StandsFor(n, Compare(Equal, objectClass, n))
  {
    NamesAre(n);
    ValuesAre(n);
    NamesAre(objectClass);
    hide NameOk, ValueOk, Body;
  }

  /** A text with one star is the choice 4: what stands in front is tagged 0x80, what stands behind 0x82. */
  method SubstringOctets(n: seq<byte>, a: seq<byte>, b: seq<byte>) returns (ber: seq<byte>)
    requires NameOk(n) && (a == [] || ValueOk(a)) && (b == [] || ValueOk(b)) && (a != [] || b != [])
    requires |n| + |a| + |b| + 2 < 128
    ensures var p := (if a == [] then [] else [0x80, |a|] + a) + (if b == [] then [] else [0x82, |b|] + b);
            var c := [0x04, |n|] + n + ([0x30, |p|] + p);
            ber == [0xa4] + LengthOctets(|c|) + c
  {
    hide *;
    SubstringIs(n, a, b);
    ber := Process(n + [61] + a + [42] + b, Around(n, a, b));
  }

  /** The filter for a text in front of the star and one behind it. */
  function Around(n: seq<byte>, a: seq<byte>, b: seq<byte>): Filter {
    Substring(n, (if a == [] then [] else [Initial(a)]) + if b == [] then [] else [Final(b)])
  }

  lemma SubstringIs(n: seq<byte>, a: seq<byte>, b: seq<byte>)
    requires NameOk(n) && (a == [] || ValueOk(a)) && (b == [] || ValueOk(b)) && (a != [] || b != [])
    requires |n| + |a| + |b| + 2 < 128
    ensures var f := Around(n, a, b);
            && Valid(f) && Fits(f) && FilterDecoder.Decodable(f) && TextsFit(f) && FilterEncoder.IsLeaf(f)
            && FilterEncoder.StandsFor(Body(f), f) && |Body(f)| < TEXT_BUFFER
            && Trim(f) == f && Printed(f) == [40] + Body(f) + [41]
            && Body(f) == n + [61] + a + [42] + b
    ensures var p := (if a == [] then [] else [0x80, |a|] + a) + (if b == [] then [] else [0x82, |b|] + b);
            var c := [0x04, |n|] + n + ([0x30, |p|] + p);
            Encode(Around(n, a, b)) == [0xa4] + LengthOctets(|c|) + c
  {
    hide *;
    var f := Around(n, a, b);
    AroundIs(n, a, b);
    SubstringContent(n, f.parts);
    LeafIs(f);
    ShortTlv(0x04, n);
    PrintedIs(f);
    Limits();
  }

  lemma LeafIs(f: Filter)
    requires Valid(f) && f.Substring? && |Body(f)| < 128
    ensures Fits(f) && FilterDecoder.Decodable(f) && TextsFit(f) && FilterEncoder.IsLeaf(f)
    ensures FilterEncoder.StandsFor(Body(f), f) && Trim(f) == f
  {
    hide Body, Encode;
    FilterEncoder.NestedFits(f);
  }

  lemma SubstringContent(n: seq<byte>, parts: seq<Part>)
    requires |PartsTlv(parts)| < 256
    ensures var c := Tlv(0x04, n) + ([0x30, |PartsTlv(parts)|] + PartsTlv(parts));
            Encode(Substring(n, parts)) == [0xa4] + LengthOctets(|c|) + c
  {
    hide PartsTlv, LengthOctets;
    assert Content(Substring(n, parts)) == Tlv(0x04, n) + PartsSequence(parts);
  }

  lemma AroundIs(n: seq<byte>, a: seq<byte>, b: seq<byte>)
    requires NameOk(n) && (a == [] || ValueOk(a)) && (b == [] || ValueOk(b)) && (a != [] || b != [])
    requires |a| < 128 && |b| < 128
    ensures var f := Around(n, a, b);
            && f.Substring? && f.name == n && Valid(f) && Body(f) == n + [61] + a + [42] + b
            && PartsTlv(f.parts) == (if a == [] then [] else [0x80, |a|] + a) + (if b == [] then [] else [0x82, |b|] + b)
  {
    hide NameOk, ValueOk, LengthOctets;
    ShortTlv(0x80, a);
    ShortTlv(0x82, b);
    hide Tlv;
    var parts := Around(n, a, b).parts;
    if a != [] && b != [] {
      assert parts == [Initial(a), Final(b)] && parts[1..] == [Final(b)];
      assert PartsTlv(parts[1..]) == PartTlv(Final(b)) + PartsTlv([]);
    } else if a != [] {
      assert parts == [Initial(a)];
    } else {
      assert parts == [Final(b)];
    }
    assert PartsText(parts) == a + [42] + b;
    assert n + [61] + (a + [42] + b) == n + [61] + a + [42] + b;
  }

  /** '&' and '|' around two filters, and '!' around one, are the choices 0, 1 and 2. */
  method CompoundOctets(s: seq<byte>, t: seq<byte>, ghost f: Filter, ghost g: Filter)
    returns (all: seq<byte>, any: seq<byte>, not: seq<byte>)
    requires Valid(f) && Valid(g) && s == Body(f) && t == Body(g) && |s| < 128 && |t| < 128
    ensures var n := |Encode(f)| + |Encode(g)|;
            && all == [0xa0] + LengthOctets(n) + Encode(f) + Encode(g)
            && any == [0xa1] + LengthOctets(n) + Encode(f) + Encode(g)
    ensures not == [0xa2] + LengthOctets(|Encode(f)|) + Encode(f)
  {
    hide *;
    CompoundIs(f, g);
    all := Process([38, 40] + s + [41, 40] + t + [41], And([f, g]));
    any := Process([124, 40] + s + [41, 40] + t + [41], Or([f, g]));
    not := Process([33, 40] + s + [41], Not(f));
  }

  lemma CompoundIs(f: Filter, g: Filter)
    requires Valid(f) && Valid(g) && |Body(f)| < 128 && |Body(g)| < 128
    ensures forall h :: h in {And([f, g]), Or([f, g]), Not(f)} ==>
              Valid(h) && Fits(h) && !FilterEncoder.IsLeaf(h) && FilterEncoder.StandsFor(Body(h), h)
    ensures Body(And([f, g])) == [38, 40] + Body(f) + [41, 40] + Body(g) + [41]
    ensures Body(Or([f, g])) == [124, 40] + Body(f) + [41, 40] + Body(g) + [41]
    ensures Body(Not(f)) == [33, 40] + Body(f) + [41]
    ensures var n := |Encode(f)| + |Encode(g)|;
            && Encode(And([f, g])) == [0xa0] + LengthOctets(n) + Encode(f) + Encode(g)
            && Encode(Or([f, g])) == [0xa1] + LengthOctets(n) + Encode(f) + Encode(g)
    ensures Encode(Not(f)) == [0xa2] + LengthOctets(|Encode(f)|) + Encode(f)
  {
    hide *;
    var fs := [f, g];
    Limits();
    TwoBodies(f, g);
    TwoEncoded(f, g);
    EncodeSize(f);
    EncodeSize(g);
    SmallLengths(|Encode(f)| + |Encode(g)|);
    SmallLengths(|Encode(f)|);
    PrintedIs(f);
    PrintedIs(g);
    var e := LengthOctets(|Encode(f)| + |Encode(g)|);
    ListIs(0xa0, 38, fs, And(fs));
    ListIs(0xa1, 124, fs, Or(fs));
    NotIs(f);
    Regroup([0xa0] + e, Encode(f), Encode(g));
    Regroup([0xa1] + e, Encode(f), Encode(g));
    Joined(38, Body(f), Body(g));
    Joined(124, Body(f), Body(g));
    assert [33] + ([40] + Body(f) + [41]) == [33, 40] + Body(f) + [41];
  }

  lemma Limits()
    ensures TEXT_BUFFER == 128 && BER_FILTER_BUFFER == 1024 && LPAREN == 40 && RPAREN == 41
  {
  }

  lemma Joined(c: byte, a: seq<byte>, b: seq<byte>)
    ensures [c] + (([40] + a + [41]) + ([40] + b + [41])) == [c, 40] + a + [41, 40] + b + [41]
  {
  }

  lemma TwoBodies(f: Filter, g: Filter)
    requires Valid(f) && Valid(g)
    ensures AllValid([f, g]) && Bodies([f, g]) == Printed(f) + Printed(g)
    ensures |Body(f)| < 128 && |Body(g)| < 128 ==> ChildrenFit([f, g])
  {
    hide Printed, Valid, Body;
    assert [f, g][1..] == [g] && [g][1..] == [];
    assert AllValid([]) && AllValid([g]) && AllValid([f, g]);
    assert Bodies([g]) == Printed(g) + Bodies([]);
    assert |Body(g)| < 128 ==> ChildrenFit([g]);
  }

  lemma TwoEncoded(f: Filter, g: Filter)
    ensures EncodeAll([f, g]) == Encode(f) + Encode(g)
  {
    hide Encode;
    assert [f, g][1..] == [g] && [g][1..] == [];
    assert EncodeAll([g]) == Encode(g) + EncodeAll([]);
  }

  lemma ListIs(tag: byte, c: byte, fs: seq<Filter>, h: Filter)
    requires AllValid(fs) && ChildrenFit(fs) && 1 + |LengthOctets(|EncodeAll(fs)|)| + |EncodeAll(fs)| <= 1024
    requires (h == And(fs) && tag == 0xa0 && c == 38) || (h == Or(fs) && tag == 0xa1 && c == 124)
    ensures Valid(h) && Fits(h) && !FilterEncoder.IsLeaf(h) && FilterEncoder.StandsFor(Body(h), h)
    ensures Body(h) == [c] + Bodies(fs)
    ensures Encode(h) == [tag] + LengthOctets(|EncodeAll(fs)|) + EncodeAll(fs)
  {
    assert Content(h) == EncodeAll(fs) && Encode(h) == [tag] + LengthOctets(|EncodeAll(fs)|) + EncodeAll(fs);
    hide Bodies, EncodeAll, AllValid, ChildrenFit, LengthOctets;
  }

  lemma NotIs(f: Filter)
    requires Valid(f) && |Body(f)| < 128 && 1 + |LengthOctets(|Encode(f)|)| + |Encode(f)| <= 1024
    ensures var h := Not(f);
            && Valid(h) && Fits(h) && !FilterEncoder.IsLeaf(h) && FilterEncoder.StandsFor(Body(h), h)
            && Body(h) == [33] + Printed(f)
            && Encode(h) == [0xa2] + LengthOctets(|Encode(f)|) + Encode(f)
  {
    assert Content(Not(f)) == Encode(f);
    hide Printed, LengthOctets;
  }

  // ---- From octets to text ----

  /** LDAP_string_to_filter and LDAP_filter_to_string, one after the other. */
  method Show(ber: seq<byte>, ghost f: Filter) returns (text: seq<byte>)
    requires FilterDecoder.Decodable(f) && TextsFit(f) && Trim(f) == f && ber == Encode(f)
    ensures Valid(f) && text == Printed(f)
  {
    hide *;
    DecodableIs(f);
    AtWhole(ber);
    var tree := FilterDecoder.StringToFilter(ber, f);
    text := FilterDecoder.FilterToString(tree);
  }

  lemma DecodableIs(f: Filter)
    ensures FilterDecoder.Decodable(f) ==> Valid(f) && Fits(f)
  {
  }

  /** The choices 3, 5, 6 and 8 are printed with '=', ">=", "<=" and "~=". */
  method ComparisonTexts(n: seq<byte>, v: seq<byte>, three: seq<byte>, five: seq<byte>, six: seq<byte>,
                         eight: seq<byte>)
    returns (equal: seq<byte>, greater: seq<byte>, less: seq<byte>, approx: seq<byte>)
    requires NameOk(n) && ValueOk(v) && |n| + |v| + 2 < 128
    requires var c := [0x04, |n|] + n + [0x04, |v|] + v;
             && three == [0xa3] + LengthOctets(|c|) + c && five == [0xa5] + LengthOctets(|c|) + c
             && six == [0xa6] + LengthOctets(|c|) + c && eight == [0xa8] + LengthOctets(|c|) + c
    ensures equal == [40] + (n + [61] + v) + [41] && greater == [40] + (n + [62, 61] + v) + [41]
    ensures less == [40] + (n + [60, 61] + v) + [41] && approx == [40] + (n + [126, 61] + v) + [41]
  {
    hide *;
    CompareIs(Equal, n, v);
    CompareIs(GreaterOrEqual, n, v);
    CompareIs(LessOrEqual, n, v);
    CompareIs(Approx, n, v);
    equal := Show(three, Compare(Equal, n, v));
    greater := Show(five, Compare(GreaterOrEqual, n, v));
    less := Show(six, Compare(LessOrEqual, n, v));
    approx := Show(eight, Compare(Approx, n, v));
  }

  /** The choice 7 is printed as "name=*". */
  method PresenceText(n: seq<byte>, seven: seq<byte>) returns (text: seq<byte>)
    requires NameOk(n) && |n| + 2 < 128 && seven == [0x87, |n|] + n
    ensures text == [40] + (n + [61, 42]) + [41]
  {
    hide *;
    PresentIs(n);
    text := Show(seven, Present(n));
  }

  /** The choice 4 is printed with one star, behind the part tagged 0x80 and in front of the part tagged 0x82. */
  method SubstringText(n: seq<byte>, a: seq<byte>, b: seq<byte>, four: seq<byte>) returns (text: seq<byte>)
    requires NameOk(n) && (a == [] || ValueOk(a)) && (b == [] || ValueOk(b)) && (a != [] || b != [])
    requires |n| + |a| + |b| + 2 < 128
    requires var p := (if a == [] then [] else [0x80, |a|] + a) + (if b == [] then [] else [0x82, |b|] + b);
             var c := [0x04, |n|] + n + ([0x30, |p|] + p);
             four == [0xa4] + LengthOctets(|c|) + c
    ensures text == [40] + (n + [61] + a + [42] + b) + [41]
  {
    hide *;
    SubstringIs(n, a, b);
    text := Show(four, Around(n, a, b));
  }

  /** The choices 0, 1 and 2 are printed as '&', '|' and '!' around the printed filters they hold. */
  method CompoundTexts(f: Filter, g: Filter) returns (all: seq<byte>, any: seq<byte>, not: seq<byte>)
    requires Valid(f) && Valid(g) && |Body(f)| < 128 && |Body(g)| < 128
    ensures all == [40, 38, 40] + Body(f) + [41, 40] + Body(g) + [41, 41]
    ensures any == [40, 124, 40] + Body(f) + [41, 40] + Body(g) + [41, 41]
    ensures not == [40, 33, 40] + Body(f) + [41, 41]
  {
    hide *;
    CompoundIs(f, g);
    PrintsCompound(f, g);
    all := FilterDecoder.FilterToString(And([f, g]));
    any := FilterDecoder.FilterToString(Or([f, g]));
    not := FilterDecoder.FilterToString(Not(f));
  }

  lemma PrintsCompound(f: Filter, g: Filter)
    requires Valid(f) && Valid(g) && |Body(f)| < 128 && |Body(g)| < 128
    ensures var h := And([f, g]);
            && Valid(h) && TextsFit(h)
            && Printed(h) == [40, 38, 40] + Body(f) + [41, 40] + Body(g) + [41, 41]
    ensures var h := Or([f, g]);
            && Valid(h) && TextsFit(h)
            && Printed(h) == [40, 124, 40] + Body(f) + [41, 40] + Body(g) + [41, 41]
    ensures var h := Not(f);
            && Valid(h) && TextsFit(h) && Printed(h) == [40, 33, 40] + Body(f) + [41, 41]
  {
    hide *;
    CompoundIs(f, g);
    Limits();
    FitsIs(And([f, g]));
    FitsIs(Or([f, g]));
    FitsIs(Not(f));
    PrintedIs(And([f, g]));
    PrintedIs(Or([f, g]));
    PrintedIs(Not(f));
    InParens(38, Body(f), Body(g));
    InParens(124, Body(f), Body(g));
    assert [40] + ([33, 40] + Body(f) + [41]) + [41] == [40, 33, 40] + Body(f) + [41, 41];
  }

  lemma InParens(c: byte, a: seq<byte>, b: seq<byte>)
    ensures [40] + ([c, 40] + a + [41, 40] + b + [41]) + [41] == [40, c, 40] + a + [41, 40] + b + [41, 41]
  {
  }
}
