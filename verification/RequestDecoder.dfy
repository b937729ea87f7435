/** ldap_decode_request on generated bytes, and the round trip of whole requests. */
module RequestDecoder {
  import opened Bytes
  import opened Ber
  import opened BerLists
  import opened BerListDecoder
  import opened FilterSpec
  import opened Requests
  import FilterDecoder

  datatype Result = DataAvailable(msg: Message) | DecodeError

  /** The parts of an operation, one after the other. */
  lemma TwoParts(data: seq<byte>, i: nat, a: seq<byte>, b: seq<byte>)
    requires At(data, i, Flatten([a, b]))
    ensures At(data, i, a) && At(data, i + |a|, b) && i + |a| + |b| <= |data|
    ensures |b| <= |Flatten([a, b])|
  {
    TwoFlat(a, b);
    hide Flatten;
    AtSplit(data, i, a, b);
  }

  lemma TwoFlat(a: seq<byte>, b: seq<byte>)
    ensures Flatten([a, b]) == a + b
  {
    assert Flatten([b]) == b + Flatten<byte>([]);
    assert Flatten([a, b]) == a + Flatten([b]);
  }

  lemma ThreeParts(data: seq<byte>, i: nat, a: seq<byte>, b: seq<byte>, c: seq<byte>)
    requires At(data, i, Flatten([a, b, c]))
    ensures At(data, i, a) && At(data, i + |a|, b) && At(data, i + |a| + |b|, c)
  {
    assert Flatten([a, b, c]) == a + Flatten([b, c]);
    hide Flatten;
    AtSplit(data, i, a, Flatten([b, c]));
    TwoParts(data, i + |a|, b, c);
  }

  lemma AliasedParts(data: seq<byte>, i: nat, tag: byte, s: seq<byte>)
    requires At(data, i, AliasedTlv(tag, s))
    ensures i < |data| && data[i] == tag
    ensures At(data, i + 1, AliasedLength(|s|)) && At(data, i + 1 + |AliasedLength(|s|)|, SentName(s))
    ensures ReadableLength(AliasedLength(|s|)) && LengthValue(AliasedLength(|s|)) == |SentName(s)|
    ensures |AliasedTlv(tag, s)| == 1 + |AliasedLength(|s|)| + |SentName(s)|
  {
    hide *;
    AliasedShape(tag, s);
    var len, kept := AliasedLength(|s|), SentName(s);
    AtSplit(data, i, [tag], len + kept);
    AtSplit(data, i + 1, len, kept);
    AtIndex(data, i, [tag], 0);
  }

  lemma AliasedShape(tag: byte, s: seq<byte>)
    ensures var len, kept := AliasedLength(|s|), SentName(s);
            && AliasedTlv(tag, s) == [tag] + (len + kept) && ReadableLength(len) && LengthValue(len) == |kept|
            && |AliasedTlv(tag, s)| == 1 + |len| + |kept|
  {
    hide BigEndian, LengthOctets, ReadableLength, LengthValue;
    if |s| < 256 {
      LengthReadsBack(|s|);
    } else {
      NoOctets();
    }
  }

  lemma NoOctets()
    ensures ReadableLength([0x80]) && LengthValue([0x80]) == 0
  {
    assert [0x80 as byte][1..] == [];
  }

  /** A tag, a length and, when it is not zero, the octets. */
  method ReadName(data: seq<byte>, i: nat, ghost tag: byte, ghost s: seq<byte>) returns (k: nat, out: seq<byte>)
    requires At(data, i, AliasedTlv(tag, s))
    ensures k == i + |AliasedTlv(tag, s)| && out == SentName(s)
  {
    hide *;
    AliasedParts(data, i, tag, s);
    var len, lenSize;
    k, len, lenSize := FindLength(data, i + 1, AliasedLength(|s|));
    out := [];
    if len > 0 {
      AtSlice(data, k, SentName(s));
      out := data[k..k + len];
      k := k + len;
    }
  }

  lemma MessageParts(data: seq<byte>, id: nat, q: Request)
    requires Sendable(id, q) && At(data, 0, MessageTlv(id, q))
    ensures 0 < |data| && data[0] == 0x30
    ensures MessageTlv(id, q) == Tlv(0x30, IdTlv(id) + OpTlv(q)) && |IdTlv(id) + OpTlv(q)| < TWO_31
    ensures IsId(id) && RequestOk(q) && |OpTlv(q)| < LENGTH_LIMIT
    ensures |IdTlv(id) + OpTlv(q)| <= |MessageTlv(id, q)|
  {
    TlvTag(data, 0, 0x30, IdTlv(id) + OpTlv(q));
  }

  lemma IdParts(data: seq<byte>, i: nat, id: nat, q: Request)
    requires IsId(id) && At(data, i, IdTlv(id) + OpTlv(q))
    ensures var c := IntegerContent(id);
            && i + 1 < |data| && data[i] == 0x02 && data[i + 1] == |c| <= 4
            && i + 2 + |c| <= |data| && data[i + 2..i + 2 + |c|] == c
            && BigEndian(c) % TWO_32 == id
            && At(data, i + 2 + |c|, OpTlv(q))
  {
    hide *;
    IdShape(id);
    var c := IntegerContent(id);
    AtSplit(data, i, IdTlv(id), OpTlv(q));
    AtTwo<byte>(data, i, 0x02, |c|, c);
    AtSlice(data, i + 2, c);
  }

  lemma IdShape(id: nat)
    requires IsId(id)
    ensures var c := IntegerContent(id);
            id >= 1 && |c| <= 4 && IdTlv(id) == [0x02, |c|] + c && |IdTlv(id)| == 2 + |c| && BigEndian(c) % TWO_32 == id
  {
    IdRoundTrip(id);
  }

  /** ldap_decode_request on a buffer whose first message is `MessageTlv(id, q)`. */
  method DecodeRequest(data: seq<byte>, berLen: nat, ghost id: nat, ghost q: Request) returns (r: Result)
    requires Sendable(id, q) && At(data, 0, MessageTlv(id, q)) && berLen == |MessageTlv(id, q)|
    ensures r == DataAvailable(Message(id, Sent(q)))
  {
    hide *;
    MessageParts(data, id, q);
    var i, len, lenSize := FindTlvLength(data, 1, 0x30, IdTlv(id) + OpTlv(q));
    assert len <= berLen;
    IdParts(data, i, id, q);
    i := i + 1;
    len := data[i];
    i := i + 1;
    var messageId := ReadMessageId(data, i, len);
    i := i + len;
    var request := DecodeOp(data, i, q);
    r := DataAvailable(Message(messageId, request));
  }

  lemma OpHead(data: seq<byte>, i: nat, q: Request)
    requires RequestOk(q) && At(data, i, OpTlv(q)) && |OpTlv(q)| < LENGTH_LIMIT
    ensures i < |data| && data[i] == OpTag(q)
    ensures q.Delete? ==> At(data, i, AliasedTlv(0x4a, q.dn))
    ensures !q.Delete? ==> At(data, i, Tlv(OpTag(q), Flatten(OpParts(q)))) && |Flatten(OpParts(q))| < TWO_31
  {
    if q.Delete? {
      AliasedParts(data, i, 0x4a, q.dn);
    } else {
      TlvTag(data, i, OpTag(q), Flatten(OpParts(q)));
    }
  }

  /** The switch on the operation's tag. */
  method DecodeOp(data: seq<byte>, i: nat, ghost q: Request) returns (r: Request)
    requires RequestOk(q) && At(data, i, OpTlv(q)) && |OpTlv(q)| < LENGTH_LIMIT
    ensures r == Sent(q)
  {
    OpHead(data, i, q);
    var k, dn;
    match data[i]
    case 0x77 =>
      r := DecodeExtended(data, i, q);
    case 0x63 =>
      r := DecodeSearch(data, i, q);
    case 0x66 =>
      r := DecodeModify(data, i, q);
    case 0x68 =>
      r := DecodeAdd(data, i, q);
    case 0x6c =>
      r := DecodeModDn(data, i, q);
    case _ =>
      k, dn := ReadName(data, i, 0x4a, q.dn);
      r := Delete(dn);
  }

  lemma AddParts(data: seq<byte>, i: nat, q: Request)
    requires q.Add? && At(data, i, Flatten(OpParts(q))) && |Flatten(OpParts(q))| < TWO_31
    ensures At(data, i, AliasedTlv(0x04, q.dn))
    ensures At(data, i + |AliasedTlv(0x04, q.dn)|, Tlv(0x30, Attrs(q.attrs))) && |Attrs(q.attrs)| < TWO_31
  {
    hide *;
    ListShape(q);
    TwoParts(data, i, AliasedTlv(0x04, q.dn), Tlv(0x30, Attrs(q.attrs)));
  }

  lemma ListShape(q: Request)
    ensures q.Add? ==> OpParts(q) == [AliasedTlv(0x04, q.dn), Tlv(0x30, Attrs(q.attrs))]
    ensures q.Add? ==> |Attrs(q.attrs)| <= |Tlv(0x30, Attrs(q.attrs))|
    ensures q.Modify? ==> OpParts(q) == [AliasedTlv(0x04, q.dn), Tlv(0x30, Mods(q.mods))]
    ensures q.Modify? ==> |Mods(q.mods)| <= |Tlv(0x30, Mods(q.mods))|
  {
  }

  lemma AddOk(q: Request)
    requires q.Add? && RequestOk(q)
    ensures ListOk(q.attrs) && Sent(q) == Add(SentName(q.dn), q.attrs)
  {
  }

  method DecodeAdd(data: seq<byte>, i: nat, ghost q: Request) returns (r: Request)
    requires q.Add? && RequestOk(q) && At(data, i, Tlv(OpTag(q), Flatten(OpParts(q))))
    requires |Flatten(OpParts(q))| < TWO_31
    ensures r == Sent(q)
  {
    hide *;
    AddOk(q);
    var k, len, lenSize := FindTlvLength(data, i + 1, OpTag(q), Flatten(OpParts(q)));
    AddParts(data, k, q);
    AliasedParts(data, k, 0x04, q.dn);
    assert data[k] == 0x04;  // any other tag is refused
    var dn, attrs;
    k, dn := ReadName(data, k, 0x04, q.dn);
    k, len, lenSize := FindTlvLength(data, k + 1, 0x30, Attrs(q.attrs));
    k, attrs := ReadAttrs(data, k, len, false, q.attrs);
    StoredPlain(q.attrs);
    r := Add(dn, attrs);
  }

  lemma ModifyParts(data: seq<byte>, i: nat, q: Request)
    requires q.Modify? && At(data, i, Flatten(OpParts(q))) && |Flatten(OpParts(q))| < TWO_31
    ensures At(data, i, AliasedTlv(0x04, q.dn))
    ensures At(data, i + |AliasedTlv(0x04, q.dn)|, Tlv(0x30, Mods(q.mods))) && |Mods(q.mods)| < TWO_31
  {
    hide *;
    ListShape(q);
    TwoParts(data, i, AliasedTlv(0x04, q.dn), Tlv(0x30, Mods(q.mods)));
  }

  lemma ModifyOk(q: Request)
    requires q.Modify? && RequestOk(q)
    ensures ModsOk(q.mods) && Sent(q) == Modify(SentName(q.dn), q.mods)
  {
  }

  method DecodeModify(data: seq<byte>, i: nat, ghost q: Request) returns (r: Request)
    requires q.Modify? && RequestOk(q) && At(data, i, Tlv(OpTag(q), Flatten(OpParts(q))))
    requires |Flatten(OpParts(q))| < TWO_31
    ensures r == Sent(q)
  {
    hide *;
    ModifyOk(q);
    var k, len, lenSize := FindTlvLength(data, i + 1, OpTag(q), Flatten(OpParts(q)));
    ModifyParts(data, k, q);
    AliasedParts(data, k, 0x04, q.dn);
    assert data[k] == 0x04;  // any other tag is refused
    var dn, changes;
    k, dn := ReadName(data, k, 0x04, q.dn);
    k, len, lenSize := FindTlvLength(data, k + 1, 0x30, Mods(q.mods));
    k, changes := ReadMods(data, k, len, q.mods);
    r := Modify(dn, changes);
  }

  lemma ModDnParts(data: seq<byte>, i: nat, q: Request)
    requires q.ModDn? && At(data, i, Flatten(OpParts(q)))
    ensures At(data, i, AliasedTlv(0x04, q.dn))
    ensures At(data, i + |AliasedTlv(0x04, q.dn)|, AliasedTlv(0x04, q.rdn))
    ensures var m := i + |AliasedTlv(0x04, q.dn)| + |AliasedTlv(0x04, q.rdn)|;
            m + 2 < |data| && data[m] == 1 && data[m + 2] == q.deleteOld
  {
    var a, b, c := AliasedTlv(0x04, q.dn), AliasedTlv(0x04, q.rdn), [1, 1, q.deleteOld];
    assert OpParts(q) == [a, b, c];
    hide *;
    ThreeParts(data, i, a, b, c);
    AtIndex(data, i + |a| + |b|, c, 0);
    AtIndex(data, i + |a| + |b|, c, 2);
    AtBounds(data, i + |a| + |b|, c);
  }

  lemma ModDnOk(q: Request)
    requires q.ModDn? && RequestOk(q)
    ensures Sent(q) == ModDn(SentName(q.dn), SentName(q.rdn), q.deleteOld)
    ensures SignedChar(q.deleteOld) == q.deleteOld
  {
  }

  method DecodeModDn(data: seq<byte>, i: nat, ghost q: Request) returns (r: Request)
    requires q.ModDn? && RequestOk(q) && At(data, i, Tlv(OpTag(q), Flatten(OpParts(q))))
    requires |Flatten(OpParts(q))| < TWO_31
    ensures r == Sent(q)
  {
    hide *;
    ModDnOk(q);
    var k, len, lenSize := FindTlvLength(data, i + 1, OpTag(q), Flatten(OpParts(q)));
    ModDnParts(data, k, q);
    AliasedParts(data, k, 0x04, q.dn);
    AliasedParts(data, k + |AliasedTlv(0x04, q.dn)|, 0x04, q.rdn);
    assert data[k] == 0x04;  // any other tag is refused
    var dn, rdn;
    k, dn := ReadName(data, k, 0x04, q.dn);
    assert data[k] == 0x04;  // any other tag is refused
    k, rdn := ReadName(data, k, 0x04, q.rdn);
    assert data[k] == 0x01;  // any other tag is refused
    k := k + 2;
    r := ModDn(dn, rdn, SignedChar(data[k]));
  }

  lemma ExtendedParts(data: seq<byte>, i: nat, q: Request)
    requires q.Extended? && At(data, i, Flatten(OpParts(q))) && |Flatten(OpParts(q))| < TWO_31
    ensures i < |data| && data[i] == 0x80 && At(data, i, Tlv(0x80, q.oid)) && |q.oid| < TWO_31
    ensures var m := i + |Tlv(0x80, q.oid)|;
            m < |data| && data[m] == 0x81 && At(data, m, Tlv(0x81, q.value)) && |q.value| < TWO_31
  {
    var a, b := Tlv(0x80, q.oid), Tlv(0x81, q.value);
    assert OpParts(q) == [a, b] && |q.oid| <= |a| && |q.value| <= |b|;
    TwoFlat(a, b);
    hide *;
    TwoParts(data, i, a, b);
    TlvTag(data, i, 0x80, q.oid);
    TlvTag(data, i + |a|, 0x81, q.value);
  }

  lemma ExtendedOk(q: Request)
    requires q.Extended? && RequestOk(q)
    ensures |q.oid| < MAX_OID && Sent(q) == q
  {
  }

  method DecodeExtended(data: seq<byte>, i: nat, ghost q: Request) returns (r: Request)
    requires q.Extended? && RequestOk(q) && At(data, i, Tlv(OpTag(q), Flatten(OpParts(q))))
    requires |Flatten(OpParts(q))| < TWO_31
    ensures r == Sent(q)
  {
    hide *;
    ExtendedOk(q);
    var k, len, lenSize := FindTlvLength(data, i + 1, OpTag(q), Flatten(OpParts(q)));
    ExtendedParts(data, k, q);
    assert data[k] == 0x80;
    k, len, lenSize := FindTlvLength(data, k + 1, 0x80, q.oid);
    assert len < MAX_OID;
    var name := data[k..k + len];
    k := k + len;
    assert data[k] == 0x81;
    k, len, lenSize := FindTlvLength(data, k + 1, 0x81, q.value);
    r := Extended(name, data[k..k + len]);
  }

  lemma SearchParts(data: seq<byte>, i: nat, q: Request)
    requires q.Search? && At(data, i, Flatten(OpParts(q))) && |Flatten(OpParts(q))| < TWO_31
    ensures At(data, i, AliasedTlv(0x04, q.dn))
    ensures var m := i + |AliasedTlv(0x04, q.dn)|;
            && m + 15 <= |data| && data[m..m + 15] == SearchFlags(q.scope, q.deref)
            && At(data, m + 15, Encode(q.filter))
            && At(data, m + 15 + |Encode(q.filter)|, Tlv(0x30, Names(q.names))) && |Names(q.names)| < TWO_31
  {
    hide *;
    SearchShape(q);
    var a, b, c, d := AliasedTlv(0x04, q.dn), SearchFlags(q.scope, q.deref), Encode(q.filter), Tlv(0x30, Names(q.names));
    assert d in [a, b, c, d];
    FlattenContains([a, b, c, d], d);
    FourParts(data, i, a, b, c, d);
    AtSlice(data, i + |a|, b);
  }

  lemma SearchShape(q: Request)
    requires q.Search?
    ensures OpParts(q) == [AliasedTlv(0x04, q.dn), SearchFlags(q.scope, q.deref), Encode(q.filter), Tlv(0x30, Names(q.names))]
    ensures |SearchFlags(q.scope, q.deref)| == 15 && |Names(q.names)| <= |Tlv(0x30, Names(q.names))|
  {
  }

  lemma FourParts(data: seq<byte>, i: nat, a: seq<byte>, b: seq<byte>, c: seq<byte>, d: seq<byte>)
    requires At(data, i, Flatten([a, b, c, d]))
    ensures At(data, i, a) && At(data, i + |a|, b)
    ensures At(data, i + |a| + |b|, c) && At(data, i + |a| + |b| + |c|, d)
  {
    assert Flatten([d]) == d + Flatten<byte>([]);
    assert Flatten([c, d]) == c + Flatten([d]);
    assert Flatten([b, c, d]) == b + Flatten([c, d]);
    assert Flatten([a, b, c, d]) == a + Flatten([b, c, d]);
    hide *;
    AtSplit(data, i, a, Flatten([b, c, d]));
    AtSplit(data, i + |a|, b, Flatten([c, d]));
    AtSplit(data, i + |a| + |b|, c, Flatten([d]));
  }

  lemma FlagsAt(data: seq<byte>, m: nat)
    requires m + 15 <= |data|
    ensures var f := data[m..m + 15];
            && data[m] == f[0] && data[m + 2] == f[2] && data[m + 3] == f[3] && data[m + 5] == f[5]
            && data[m + 6] == f[6] && data[m + 8] == f[8] && data[m + 9] == f[9] && data[m + 11] == f[11]
            && data[m + 12] == f[12] && data[m + 14] == f[14]
  {
  }

  /** The five fixed fields after the base object, each read as a signed char. */
  method ReadFlags(data: seq<byte>, m: nat, ghost scope: byte, ghost deref: byte) returns (s: byte, d: byte)
    requires scope <= 2 && deref < 128
    requires m + 15 <= |data| && data[m..m + 15] == SearchFlags(scope, deref)
    ensures s == scope == data[m + 2] && d == deref == data[m + 5]
  {
    FlagsAt(data, m);
    var i := m;
    assert data[i] == 0x0a;  // the scope; any other tag is refused
    i := i + 2;
    s := SignedChar(data[i]);
    i := i + 1;
    assert data[i] == 0x0a;  // how aliases are followed; any other tag is refused
    i := i + 2;
    d := SignedChar(data[i]);
    i := i + 1;
    assert data[i] == 0x02 && data[i + 2] == 0;  // the size limit
    i := i + 3;
    assert data[i] == 0x02 && data[i + 2] == 0;  // the time limit
    i := i + 3;
    assert data[i] == 0x01 && data[i + 2] == 0;  // types and values
  }

  method DecodeSearch(data: seq<byte>, i: nat, ghost q: Request) returns (r: Request)
    requires q.Search? && RequestOk(q) && At(data, i, Tlv(OpTag(q), Flatten(OpParts(q))))
    requires |Flatten(OpParts(q))| < TWO_31
    ensures r == Sent(q)
    ensures var m := i + 1 + |LengthOctets(|Flatten(OpParts(q))|)| + |AliasedTlv(0x04, q.dn)|;
            m + 5 < |data| && r.Search? && r.scope == data[m + 2] && r.deref == data[m + 5]
  {
    hide *;
    SearchOk(q);
    var k, len, lenSize := FindTlvLength(data, i + 1, OpTag(q), Flatten(OpParts(q)));
    SearchParts(data, k, q);
    AliasedParts(data, k, 0x04, q.dn);
    assert data[k] == 0x04;  // the base object; any other tag is refused
    var dn, scope, deref, filter, names;
    k, dn := ReadName(data, k, 0x04, q.dn);
    scope, deref := ReadFlags(data, k, q.scope, q.deref);
    k := k + 15;
    k, filter := ReadFilter(data, k, q.filter);
    k, len, lenSize := FindTlvLength(data, k + 1, 0x30, Names(q.names));
    k, names := ReadNames(data, k, len, q.names);
    r := Search(dn, scope, deref, filter, names);
  }

  lemma SearchOk(q: Request)
    requires q.Search? && RequestOk(q)
    ensures q.scope <= 2 && q.deref < 128 && FilterDecoder.Decodable(q.filter) && ValsOk(q.names)
    ensures Sent(q) == Search(SentName(q.dn), q.scope, q.deref, Trim(q.filter), q.names)
  {
  }

  /** FIND_LEN over the filter, a step back to its first octet, and the filter decoder. */
  method ReadFilter(data: seq<byte>, i: nat, ghost f: Filter) returns (k: nat, filter: Filter)
    requires FilterDecoder.Decodable(f) && At(data, i, Encode(f))
    ensures k == i + |Encode(f)| && filter == Trim(f)
  {
    FilterDecoder.ContentSmall(f);
    assert Encode(f) == Tlv(Tag(f), Content(f));
    FilterStart(data, i, f);
    hide *;
    var len, lenSize;
    k, len, lenSize := FindTlvLength(data, i + 1, Tag(f), Content(f));
    k := k - lenSize - 2;
    assert k == i;
    filter := FilterDecoder.StringToFilter(data[k..], f);
    k := k + len + lenSize + 2;
  }

  lemma FilterStart(data: seq<byte>, i: nat, f: Filter)
    requires At(data, i, Encode(f))
    ensures i < |data| && At(data[i..], 0, Encode(f))
    ensures data[i] % 32 <= 9  // one of the filter choices
  {
    TlvTag(data, i, Tag(f), Content(f));
    assert data[i..][0..|Encode(f)|] == data[i..i + |Encode(f)|];
  }

  /** One attribute name. */
  method ReadOne(data: seq<byte>, i: nat, ghost name: seq<byte>) returns (k: nat, out: seq<byte>)
    requires At(data, i, Tlv(0x04, name)) && |name| < TWO_31
    ensures k == i + |Tlv(0x04, name)| && out == name
  {
    TlvTag(data, i, 0x04, name);
    hide *;
    assert data[i] == 0x04;
    var len, lenSize;
    k, len, lenSize := FindTlvLength(data, i + 1, 0x04, name);
    out := data[k..k + len];
    k := k + len;
  }

  /** Between two turns of the loop over the names: `left` is still to be read, in `rest` octets from `k`. */
  ghost predicate NamesLeft(data: seq<byte>, k: nat, rest: int, left: seq<seq<byte>>, out: seq<seq<byte>>,
                            names: seq<seq<byte>>)
  {
    ValsOk(left) && At(data, k, Values(left)) && rest == |Values(left)| && out + left == names
  }

  lemma NextName(data: seq<byte>, k: nat, rest: int, left: seq<seq<byte>>, out: seq<seq<byte>>, names: seq<seq<byte>>)
    requires NamesLeft(data, k, rest, left, out, names)
    ensures rest <= 0 ==> rest == 0 && out == names
    ensures rest > 0 ==>
              var e := Tlv(0x04, left[0]);
              && left != [] && At(data, k, e) && |left[0]| < TWO_31 && 0 < |e| <= rest
              && NamesLeft(data, k + |e|, rest - |e|, left[1..], out + [left[0]], names)
  {
    ValueStep(data, k, left, false);
    if rest > 0 {
      assert left == [left[0]] + left[1..];
      Shift(out, left[0], left[1..], names);
    }
  }

  /** The loop over the attribute names of a search. */
  method ReadNames(data: seq<byte>, i: nat, length: nat, ghost names: seq<seq<byte>>)
    returns (k: nat, out: seq<seq<byte>>)
    requires ValsOk(names) && At(data, i, Names(names)) && length == |Names(names)|
    ensures k == i + length && out == names
  {
    var rest: int := length;
    k, out := i, [];
    ghost var left := names;
    assert NamesLeft(data, k, rest, left, out, names);
    hide *;
    while rest > 0
      invariant NamesLeft(data, k, rest, left, out, names) && k + rest == i + length
      decreases rest
    {
      NextName(data, k, rest, left, out, names);
      var j, name := ReadOne(data, k, left[0]);
      rest := rest - (j - k);
      k, out, left := j, out + [name], left[1..];
    }
    NextName(data, k, rest, left, out, names);
  }

  // ---- The round trip ----

  /** A client adds an entry: the server decodes the same message exactly when the name is short enough. */
  method AddRoundTrip(ids: IdSource, dn: seq<byte>, attrs: seq<Attr>) returns (r: Result)
    requires forall a :: a in attrs ==> AttrOk(a) && a.vals != []
    requires CanSend(ids.tid, Add(dn, attrs)) && |Attrs(attrs)| <= BER_BUFFER
    modifies ids
    ensures IsId(ids.tid) && ids.tid == NextId(old(ids.tid))
    ensures r == DataAvailable(Message(ids.tid, Add(SentName(dn), attrs)))
    ensures r == DataAvailable(Message(ids.tid, Add(dn, attrs))) <==> |dn| < 256
  {
    var list := new Buffer(BER_BUFFER);
    var ret := GenAttrList(attrs, list);
    var bytes := list.Written();
    assert bytes == Attrs(attrs);
    ghost var q := Add(dn, attrs);
    assert Sent(q) == Add(SentName(dn), attrs) && SentName(dn) == dn <==> |dn| < 256;
    assert CanSend(ids.tid, q) ==> Sendable(NextIdNat(ids.tid), q);
    hide *;
    var ber, tid := GenAdd(ids, dn, bytes, attrs);
    AtWhole(ber);
    r := DecodeRequest(ber, |ber|, tid, q);
  }

  /** A client modifies an entry. */
  method ModifyRoundTrip(ids: IdSource, dn: seq<byte>, mods: seq<Mod>) returns (r: Result)
    requires CanSend(ids.tid, Modify(dn, mods)) && |Mods(mods)| <= BER_BUFFER
    modifies ids
    ensures IsId(ids.tid) && ids.tid == NextId(old(ids.tid))
    ensures r == DataAvailable(Message(ids.tid, Modify(SentName(dn), mods)))
    ensures r == DataAvailable(Message(ids.tid, Modify(dn, mods))) <==> |dn| < 256
  {
    var list := new Buffer(BER_BUFFER);
    var ret := GenModList(mods, list);
    var bytes := list.Written();
    assert bytes == Mods(mods);
    ghost var q := Modify(dn, mods);
    assert Sent(q) == Modify(SentName(dn), mods) && SentName(dn) == dn <==> |dn| < 256;
    assert CanSend(ids.tid, q) ==> Sendable(NextIdNat(ids.tid), q);
    hide *;
    var ber, tid := GenModify(ids, dn, bytes, mods);
    AtWhole(ber);
    r := DecodeRequest(ber, |ber|, tid, q);
  }

  /** A client deletes an entry. */
  method DeleteRoundTrip(ids: IdSource, dn: seq<byte>) returns (r: Result)
    requires CanSend(ids.tid, Delete(dn))
    modifies ids
    ensures IsId(ids.tid) && ids.tid == NextId(old(ids.tid))
    ensures r == DataAvailable(Message(ids.tid, Delete(SentName(dn))))
    ensures r == DataAvailable(Message(ids.tid, Delete(dn))) <==> |dn| < 256
  {
    SendableNext(ids.tid, Delete(dn));
    assert Sent(Delete(dn)) == Delete(SentName(dn)) && SentName(dn) == dn <==> |dn| < 256;
    hide *;
    var ber, tid := GenDelete(ids, dn);
    AtWhole(ber);
    r := DecodeRequest(ber, |ber|, tid, Delete(dn));
  }

  lemma SendableNext(t: int, q: Request)
    requires CanSend(t, q)
    ensures 0 <= t <= 0x7FFF_FFFE && Sendable(NextIdNat(t), q) && RequestOk(q)
  {
  }

  /** A client renames an entry below the same superior. */
  method ModDnRoundTrip(ids: IdSource, dn: seq<byte>, rdn: seq<byte>, deleteFlag: int) returns (r: Result)
    requires CanSend(ids.tid, ModDn(dn, rdn, if deleteFlag == 1 then 1 else 0))
    modifies ids
    ensures IsId(ids.tid) && ids.tid == NextId(old(ids.tid))
    ensures var flag := if deleteFlag == 1 then 1 else 0;
            && r == DataAvailable(Message(ids.tid, ModDn(SentName(dn), SentName(rdn), flag)))
            && (r == DataAvailable(Message(ids.tid, ModDn(dn, rdn, flag))) <==> |dn| < 256 && |rdn| < 256)
  {
    ghost var q := ModDn(dn, rdn, if deleteFlag == 1 then 1 else 0);
    SendableNext(ids.tid, q);
    SentExactly(q);
    assert Recoverable(q) <==> |dn| < 256 && |rdn| < 256;
    assert Sent(q) == ModDn(SentName(dn), SentName(rdn), q.deleteOld);
    hide *;
    var ber, tid := GenModDn(ids, dn, rdn, deleteFlag);
    AtWhole(ber);
    r := DecodeRequest(ber, |ber|, tid, q);
  }

  /** A client sends an extended request: the server always decodes the same message. */
  method ExtendedRoundTrip(ids: IdSource, oid: seq<byte>, extAttr: seq<byte>) returns (r: Result)
    requires CanSend(ids.tid, Extended(oid, extAttr))
    modifies ids
    ensures IsId(ids.tid) && ids.tid == NextId(old(ids.tid))
    ensures r == DataAvailable(Message(ids.tid, Extended(oid, extAttr)))
  {
    SendableNext(ids.tid, Extended(oid, extAttr));
    ExtendedOk(Extended(oid, extAttr));
    hide *;
    var ber, tid := GenExtended(ids, oid, extAttr);
    AtWhole(ber);
    r := DecodeRequest(ber, |ber|, tid, Extended(oid, extAttr));
  }

  /** A client searches: the filter comes back trimmed, so whole exactly when every list decodes whole. */
  method SearchRoundTrip(ids: IdSource, dn: seq<byte>, scope: byte, deref: byte, expression: seq<byte>,
                         names: seq<seq<byte>>, ghost f: Filter)
    returns (r: Result)
    requires Valid(f) && Fits(f) && Asks(expression, f)
    requires CanSend(ids.tid, Search(dn, scope, deref, f, names)) && |Names(names)| <= BER_BUFFER
    modifies ids
    ensures IsId(ids.tid) && ids.tid == NextId(old(ids.tid))
    ensures r == DataAvailable(Message(ids.tid, Sent(Search(dn, scope, deref, f, names))))
    ensures r == DataAvailable(Message(ids.tid, Search(dn, scope, deref, f, names))) <==> |dn| < 256 && AllLastFit(f)
  {
    ghost var q := Search(dn, scope, deref, f, names);
    assert Sendable(NextIdNat(ids.tid), q) && RequestOk(q);
    SentExactly(q);
    assert Recoverable(q) <==> |dn| < 256 && AllLastFit(f);
    assert forall n :: n in names ==> |n| < MAX_NAME_LENGTH;
    hide *;
    var list := new Buffer(BER_BUFFER);
    GenNames(names, list);
    var bytes := list.Written();
    assert bytes == Names(names);
    var ber, tid := GenSearch(ids, dn, scope, expression, bytes, deref, f, names);
    AtWhole(ber);
    r := DecodeRequest(ber, |ber|, tid, q);
  }
}
