/** The decoders of attribute and modification lists: countdown loops that must end exactly at the end. */
module BerListDecoder {
  import opened Bytes
  import opened Ber
  import opened BerLists

  /** What strlen leaves of an octet string copied to a C string. */
  function CString(s: seq<byte>): (t: seq<byte>)
    ensures t <= s
    ensures t == s <==> 0 !in s
  {
    if s == [] || s[0] == 0 then [] else [s[0]] + CString(s[1..])
  }

  /** An octet string as a request decoder keeps it, or as ber_to_attrs does, through strlen. */
  function Stored(s: seq<byte>, cstr: bool): seq<byte> {
    if cstr then CString(s) else s
  }

  function StoredVals(vals: seq<seq<byte>>, cstr: bool): seq<seq<byte>> {
    if vals == [] then [] else [Stored(vals[0], cstr)] + StoredVals(vals[1..], cstr)
  }

  function StoredAttr(a: Attr, cstr: bool): Attr {
    Attr(Stored(a.name, cstr), StoredVals(a.vals, cstr))
  }

  /** A list an encoder could have been given. */
  predicate ListOk(attrs: seq<Attr>) {
    forall a :: a in attrs ==> AttrOk(a)
  }

  // ---- Where the elements stand ----

  predicate ValsOk(vals: seq<seq<byte>>) {
    forall v :: v in vals ==> |v| < MAX_VALUE
  }

  lemma ValueStep(data: seq<byte>, i: nat, vals: seq<seq<byte>>, cstr: bool)
    requires ValsOk(vals) && At(data, i, Values(vals))
    ensures |Values(vals)| == 0 <==> vals == []
    ensures vals == [] ==> StoredVals(vals, cstr) == []
    ensures vals != [] ==>
              var v, t := vals[0], vals[1..];
              && |v| < TWO_31 && At(data, i, Tlv(0x04, v)) && i < |data| && data[i] == 0x04
              && ValsOk(t) && At(data, i + |Tlv(0x04, v)|, Values(t))
              && |Values(vals)| == |Tlv(0x04, v)| + |Values(t)|
              && StoredVals(vals, cstr) == [Stored(v, cstr)] + StoredVals(t, cstr)
  {
    if vals != [] {
      assert vals[0] in vals;
      assert |vals[0]| < MAX_VALUE < TWO_31;
      assert Values(vals) == Tlv(0x04, vals[0]) + Values(vals[1..]);
      ElementAt(data, i, 0x04, vals[0], Values(vals[1..]));
    }
  }

  lemma Shift<T>(done: seq<T>, x: T, rest: seq<T>, all: seq<T>)
    requires done + ([x] + rest) == all
    ensures done + [x] + rest == all
  {
  }

  /** The loop over one attribute's values. */
  method ReadValues(data: seq<byte>, i: nat, listLen: nat, cstr: bool, ghost vals: seq<seq<byte>>)
    returns (k: nat, out: seq<seq<byte>>)
    requires ValsOk(vals) && At(data, i, Values(vals)) && listLen == |Values(vals)|
    ensures k == i + listLen && out == StoredVals(vals, cstr)
  {
    hide *;
    var rest: int := listLen;
    k, out := i, [];
    ghost var left := vals;
    ValueStep(data, k, left, cstr);
    while rest > 0
      invariant ValsOk(left) && At(data, k, Values(left)) && rest == |Values(left)| && k + rest == i + listLen
      invariant rest == 0 ==> StoredVals(left, cstr) == []
      invariant out + StoredVals(left, cstr) == StoredVals(vals, cstr)
      decreases rest
    {
      ValueStep(data, k, left, cstr);
      assert data[k] == 0x04;
      k := k + 1;
      var j := k;
      var len, lenSize;
      k, len, lenSize := FindTlvLength(data, k, 0x04, left[0]);
      rest := rest - (1 + (k - j) + len);
      Shift(out, Stored(left[0], cstr), StoredVals(left[1..], cstr), StoredVals(vals, cstr));
      out := out + [Stored(data[k..k + len], cstr)];
      k := k + len;
      left := left[1..];
      ValueStep(data, k, left, cstr);
    }
  }

  lemma AttrParts(data: seq<byte>, i: nat, a: Attr)
    requires AttrOk(a) && At(data, i, AttrContent(a))
    ensures At(data, i, Tlv(0x04, a.name)) && data[i] == 0x04 && |a.name| < TWO_31
    ensures var v := i + |Tlv(0x04, a.name)|;
            && At(data, v, Tlv(0x31, Values(a.vals))) && data[v] == 0x31 && |Values(a.vals)| < TWO_31
            && v + |Tlv(0x31, Values(a.vals))| == i + |AttrContent(a)|
    ensures ValsOk(a.vals)
  {
    AtSplit(data, i, Tlv(0x04, a.name), Tlv(0x31, Values(a.vals)));
    TlvTag(data, i, 0x04, a.name);
    TlvTag(data, i + |Tlv(0x04, a.name)|, 0x31, Values(a.vals));
  }

  /** One attribute: its name and its set of values, from `i` to `i + partLen`. */
  method ReadAttr(data: seq<byte>, i: nat, cstr: bool, ghost a: Attr) returns (k: nat, out: Attr)
    requires AttrOk(a) && At(data, i, AttrContent(a))
    ensures k == i + |AttrContent(a)| && out == StoredAttr(a, cstr)
  {
    AttrParts(data, i, a);
    hide *;
    var len, lenSize;
    k := i + 1;
    k, len, lenSize := FindTlvLength(data, k, 0x04, a.name);
    var name := data[k..k + len];
    k := k + len;
    k := k + 1;
    k, len, lenSize := FindTlvLength(data, k, 0x31, Values(a.vals));
    var vals;
    k, vals := ReadValues(data, k, len, cstr, a.vals);
    out := StoredPair(name, vals, cstr, a);
  }

  method StoredPair(name: seq<byte>, vals: seq<seq<byte>>, cstr: bool, ghost a: Attr) returns (out: Attr)
    requires name == a.name && vals == StoredVals(a.vals, cstr)
    ensures out == StoredAttr(a, cstr)
  {
    out := Attr(Stored(name, cstr), vals);
  }

  function StoredAttrs(attrs: seq<Attr>, cstr: bool): seq<Attr> {
    if attrs == [] then [] else [StoredAttr(attrs[0], cstr)] + StoredAttrs(attrs[1..], cstr)
  }

  lemma AttrStep(data: seq<byte>, i: nat, attrs: seq<Attr>, cstr: bool)
    requires ListOk(attrs) && At(data, i, Attrs(attrs))
    ensures |Attrs(attrs)| == 0 <==> attrs == []
    ensures attrs == [] ==> StoredAttrs(attrs, cstr) == []
    ensures attrs != [] ==>
              var a, t := attrs[0], attrs[1..];
              && AttrOk(a) && |AttrContent(a)| < TWO_31 && i < |data| && data[i] == 0x30
              && At(data, i, Tlv(0x30, AttrContent(a)))
              && ListOk(t) && At(data, i + |Tlv(0x30, AttrContent(a))|, Attrs(t))
              && |Attrs(attrs)| == |Tlv(0x30, AttrContent(a))| + |Attrs(t)|
              && StoredAttrs(attrs, cstr) == [StoredAttr(a, cstr)] + StoredAttrs(t, cstr)
  {
    hide *;
    AttrHead(attrs, cstr);
    if attrs != [] {
      ElementAt(data, i, 0x30, AttrContent(attrs[0]), Attrs(attrs[1..]));
    }
  }

  lemma AttrHead(attrs: seq<Attr>, cstr: bool)
    requires ListOk(attrs)
    ensures attrs == [] ==> Attrs(attrs) == [] && StoredAttrs(attrs, cstr) == []
    ensures attrs != [] ==>
              var a, t := attrs[0], attrs[1..];
              && AttrOk(a) && |AttrContent(a)| < TWO_31 && ListOk(t)
              && Attrs(attrs) == Tlv(0x30, AttrContent(a)) + Attrs(t) && |Tlv(0x30, AttrContent(a))| > 0
              && StoredAttrs(attrs, cstr) == [StoredAttr(a, cstr)] + StoredAttrs(t, cstr)
  {
    if attrs != [] {
      assert attrs[0] in attrs;
      AttrSizes(attrs[0]);
    }
  }

  /**
   The loop over a list of attributes, shared by the ADD branch of ldap_decode_request and by
   ber_to_attrs: from the octet after the outer header it ends exactly at the end of the list.
   */
  method ReadAttrs(data: seq<byte>, i: nat, constLen: nat, cstr: bool, ghost attrs: seq<Attr>)
    returns (k: nat, out: seq<Attr>)
    requires ListOk(attrs) && At(data, i, Attrs(attrs)) && constLen == |Attrs(attrs)|
    ensures k == i + constLen && out == StoredAttrs(attrs, cstr)
  {
    hide *;
    var rest: int := constLen;
    k, out := i, [];
    ghost var left := attrs;
    AttrStep(data, k, left, cstr);
    while rest > 0
      invariant ListOk(left) && At(data, k, Attrs(left)) && rest == |Attrs(left)| && k + rest == i + constLen
      invariant rest == 0 ==> StoredAttrs(left, cstr) == []
      invariant out + StoredAttrs(left, cstr) == StoredAttrs(attrs, cstr)
      decreases rest
    {
      AttrStep(data, k, left, cstr);
      assert data[k] == 0x30;
      k := k + 1;
      var j := k;
      var len, lenSize, attr;
      k, len, lenSize := FindTlvLength(data, k, 0x30, AttrContent(left[0]));
      rest := rest - (1 + (k - j) + len);
      k, attr := ReadAttr(data, k, cstr, left[0]);
      Shift(out, StoredAttr(left[0], cstr), StoredAttrs(left[1..], cstr), StoredAttrs(attrs, cstr));
      out := out + [attr];
      left := left[1..];
      AttrStep(data, k, left, cstr);
    }
  }

  /** ber_to_attrs on a buffer that holds a list behind its SEQUENCE header. */
  method BerToAttrs(data: seq<byte>, ghost attrs: seq<Attr>) returns (alist: seq<Attr>)
    requires ListOk(attrs) && |Attrs(attrs)| < TWO_31 && data == Tlv(0x30, Attrs(attrs))
    ensures alist == StoredAttrs(attrs, true)
    ensures alist == attrs <==> forall a :: a in attrs ==> 0 !in a.name && forall v :: v in a.vals ==> 0 !in v
  {
    assert data[0..|data|] == data;
    assert At(data, 0, Tlv(0x30, Attrs(attrs)));
    StoredExactly(attrs);
    hide *;
    var i := 1;
    var attrLen, lenSize;
    i, attrLen, lenSize := FindTlvLength(data, i, 0x30, Attrs(attrs));
    i, alist := ReadAttrs(data, i, attrLen, true, attrs);
    assert i == |data|;
  }

  /** Storing through strlen loses nothing exactly when no name or value holds a NUL. */
  lemma {:induction false} StoredExactly(attrs: seq<Attr>)
    ensures StoredAttrs(attrs, true) == attrs <==>
            forall a :: a in attrs ==> 0 !in a.name && forall v :: v in a.vals ==> 0 !in v
  {
    if attrs != [] {
      StoredExactly(attrs[1..]);
      StoredValsExactly(attrs[0].vals);
      assert attrs == [attrs[0]] + attrs[1..];
      assert StoredAttrs(attrs, true)[1..] == StoredAttrs(attrs[1..], true);
    }
  }

  lemma {:induction false} StoredValsExactly(vals: seq<seq<byte>>)
    ensures StoredVals(vals, true) == vals <==> forall v :: v in vals ==> 0 !in v
  {
    if vals != [] {
      StoredValsExactly(vals[1..]);
      assert vals == [vals[0]] + vals[1..];
      assert StoredVals(vals, true)[1..] == StoredVals(vals[1..], true);
    }
  }

  lemma {:induction false} StoredPlain(attrs: seq<Attr>)
    ensures StoredAttrs(attrs, false) == attrs
  {
    if attrs != [] {
      StoredPlain(attrs[1..]);
      StoredValsPlain(attrs[0].vals);
    }
  }

  lemma {:induction false} StoredValsPlain(vals: seq<seq<byte>>)
    ensures StoredVals(vals, false) == vals
  {
    if vals != [] {
      StoredValsPlain(vals[1..]);
    }
  }

  // ---- Modifications ----

  predicate ModsOk(mods: seq<Mod>) {
    forall m :: m in mods ==> AttrOk(m.attr) && m.operation < 128
  }

  lemma ModStep(data: seq<byte>, i: nat, mods: seq<Mod>)
    requires ModsOk(mods) && At(data, i, Mods(mods))
    ensures |Mods(mods)| == 0 <==> mods == []
    ensures mods != [] ==>
              var m, t := mods[0], mods[1..];
              && AttrOk(m.attr) && m.operation < 128 && |ModContent(m)| < TWO_31 && i < |data| && data[i] == 0x30
              && At(data, i, Tlv(0x30, ModContent(m)))
              && ModsOk(t) && At(data, i + |Tlv(0x30, ModContent(m))|, Mods(t))
              && |Mods(mods)| == |Tlv(0x30, ModContent(m))| + |Mods(t)|
  {
    hide *;
    ModHead(mods);
    if mods != [] {
      ElementAt(data, i, 0x30, ModContent(mods[0]), Mods(mods[1..]));
    }
  }

  lemma ModHead(mods: seq<Mod>)
    requires ModsOk(mods)
    ensures mods == [] ==> Mods(mods) == []
    ensures mods != [] ==>
              var m, t := mods[0], mods[1..];
              && AttrOk(m.attr) && m.operation < 128 && |ModContent(m)| < TWO_31 && ModsOk(t)
              && Mods(mods) == Tlv(0x30, ModContent(m)) + Mods(t) && |Tlv(0x30, ModContent(m))| > 0
  {
    if mods != [] {
      assert mods[0] in mods;
      ModSizes(mods[0]);
    }
  }

  lemma ModParts(data: seq<byte>, i: nat, m: Mod)
    requires AttrOk(m.attr) && At(data, i, ModContent(m))
    ensures i + 3 < |data| && data[i] == 0x0a && data[i + 2] == m.operation && data[i + 3] == 0x30
    ensures ReadableLength([1]) && LengthValue([1]) == 1 && At(data, i + 1, [1])
    ensures At(data, i + 3, Tlv(0x30, AttrContent(m.attr))) && |AttrContent(m.attr)| < TWO_31
    ensures i + |ModContent(m)| == i + 3 + |Tlv(0x30, AttrContent(m.attr))|
  {
    AttrSizes(m.attr);
    var head := [0x0a, 1, m.operation];
    AtSplit(data, i, head, AttrTlv(m.attr));
    AtIndex(data, i, head, 0);
    AtIndex(data, i, head, 2);
    assert head == [0x0a] + ([1] + [m.operation]);
    AtSplit(data, i, [0x0a], [1] + [m.operation]);
    AtSplit(data, i + 1, [1], [m.operation]);
    TlvTag(data, i + 3, 0x30, AttrContent(m.attr));
  }

  /** One change: an ENUMERATED operation and a partial attribute. */
  method ReadMod(data: seq<byte>, i: nat, ghost m: Mod) returns (k: nat, out: Mod)
    requires AttrOk(m.attr) && m.operation < 128 && At(data, i, ModContent(m))
    ensures k == i + |ModContent(m)| && out == m
  {
    ModParts(data, i, m);
    StoredValsPlain(m.attr.vals);
    assert StoredAttr(m.attr, false) == m.attr;
    assert SignedChar(m.operation) == m.operation;
    hide *;
    var len, lenSize;
    k := i + 1;
    k, len, lenSize := FindLength(data, k, [1]);
    var operation := SignedChar(data[k]);
    k := k + 1;
    k := k + 1;
    k, len, lenSize := FindTlvLength(data, k, 0x30, AttrContent(m.attr));
    var attr;
    k, attr := ReadAttr(data, k, false, m.attr);
    out := Mod(operation, attr);
  }

  /** The change loop of the MODIFY branch. */
  method ReadMods(data: seq<byte>, i: nat, constLen: nat, ghost mods: seq<Mod>) returns (k: nat, out: seq<Mod>)
    requires ModsOk(mods) && At(data, i, Mods(mods)) && constLen == |Mods(mods)|
    ensures k == i + constLen && out == mods
  {
    hide *;
    var rest: int := constLen;
    k, out := i, [];
    ghost var left := mods;
    ModStep(data, k, left);
    while rest > 0
      invariant ModsOk(left) && At(data, k, Mods(left)) && rest == |Mods(left)| && k + rest == i + constLen
      invariant rest == 0 ==> left == []
      invariant out + left == mods
      decreases rest
    {
      ModStep(data, k, left);
      assert data[k] == 0x30;
      k := k + 1;
      var j := k;
      var len, lenSize, change;
      k, len, lenSize := FindTlvLength(data, k, 0x30, ModContent(left[0]));
      rest := rest - (1 + (k - j) + len);
      k, change := ReadMod(data, k, left[0]);
      out := out + [change];
      left := left[1..];
      ModStep(data, k, left);
    }
  }

  // ---- Generator and decoder together ----

  /** A generated attribute list, wrapped and decoded: the same names and values in order, when NUL-free. */
  method AttrListRoundTrip(attrs: seq<Attr>) returns (decoded: seq<Attr>)
    requires forall a :: a in attrs ==> AttrOk(a) && a.vals != []
    requires |Attrs(attrs)| <= BER_BUFFER
    ensures decoded == attrs <==> forall a :: a in attrs ==> 0 !in a.name && forall v :: v in a.vals ==> 0 !in v
  {
    hide *;
    AttrOkNames(attrs);
    WrappedSize(Attrs(attrs));
    var list := new Buffer(BER_BUFFER);
    var ret := GenAttrList(attrs, list);
    var bytes := list.Written();
    assert bytes == Attrs(attrs);
    var data := Wrap(bytes);
    decoded := BerToAttrs(data, attrs);
  }

  lemma AttrOkNames(attrs: seq<Attr>)
    requires forall a :: a in attrs ==> AttrOk(a)
    ensures ListOk(attrs)
  {
  }

  /** The SEQUENCE header around a generated list. */
  method Wrap(bytes: seq<byte>) returns (data: seq<byte>)
    requires |bytes| <= BER_BUFFER
    ensures data == Tlv(0x30, bytes)
  {
    WrappedSize(bytes);
    assert BER_BUFFER < LENGTH_LIMIT;
    hide *;
    var ber := new Buffer(|bytes| + 5);
    var r := PutHeader(ber, 0x30, |bytes|, 0);
    ber.Copy(bytes);
    data := ber.Written();
  }

  lemma WrappedSize(s: seq<byte>)
    requires |s| <= BER_BUFFER
    ensures |s| < LENGTH_LIMIT < TWO_31 && 1 + |LengthOctets(|s|)| <= 5
    ensures Tlv(0x30, s) == [0x30] + LengthOctets(|s|) + s
  {
    DigitsBound(|s|);
  }
}
