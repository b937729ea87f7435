/** Attribute and modification lists: reference encodings, and generators whose scratch variable is never reset. */
module BerLists {
  import opened Bytes
  import opened Ber

  /** BER_BUFFER: room for one element's values, and for the whole list. */
  const BER_BUFFER := 131072
  const MAX_NAME := 256
  const MAX_VALUE := 8192

  datatype Attr = Attr(name: seq<byte>, vals: seq<seq<byte>>)

  datatype Mod = Mod(operation: byte, attr: Attr)

  datatype Ret = Ok | ErrEncode | ErrDecode

  /** What the C structures can hold: names and values with room for a terminator. */
  predicate AttrOk(a: Attr) {
    && |a.name| < MAX_NAME
    && (forall v :: v in a.vals ==> |v| < MAX_VALUE)
    && |Values(a.vals)| <= BER_BUFFER
  }

  // ---- Reference encoding (RFC 4511 sections 4.1.7, 4.6 and 4.7) ----

  function Values(vals: seq<seq<byte>>): seq<byte> {
    if vals == [] then [] else Tlv(0x04, vals[0]) + Values(vals[1..])
  }

  function AttrContent(a: Attr): seq<byte> {
    Tlv(0x04, a.name) + Tlv(0x31, Values(a.vals))
  }

  function AttrTlv(a: Attr): (s: seq<byte>)
    ensures |s| >= 2
  {
    Tlv(0x30, AttrContent(a))
  }

  function Attrs(attrs: seq<Attr>): seq<byte> {
    if attrs == [] then [] else AttrTlv(attrs[0]) + Attrs(attrs[1..])
  }

  function ModContent(m: Mod): seq<byte> {
    [0x0a, 1, m.operation] + AttrTlv(m.attr)
  }

  function ModTlv(m: Mod): (s: seq<byte>)
    ensures |s| >= 2
  {
    Tlv(0x30, ModContent(m))
  }

  function Mods(mods: seq<Mod>): seq<byte> {
    if mods == [] then [] else ModTlv(mods[0]) + Mods(mods[1..])
  }

  // ---- Appending one element to a list's encoding ----

  lemma {:induction false} ValuesNext(vals: seq<seq<byte>>, n: nat)
    requires n < |vals|
    ensures Values(vals[..n + 1]) == Values(vals[..n]) + Tlv(0x04, vals[n])
    ensures |Values(vals[..n + 1])| <= |Values(vals)|
  {
    hide Tlv;
    if n == 0 {
      assert vals[..1] == [vals[0]];
      assert Values([vals[0]]) == Tlv(0x04, vals[0]) + Values([]);
    } else {
      ValuesNext(vals[1..], n - 1);
      assert vals[..n + 1][1..] == vals[1..][..n];
      assert vals[..n][1..] == vals[1..][..n - 1];
    }
  }

  lemma {:induction false} AttrsNext(attrs: seq<Attr>, n: nat)
    requires n < |attrs|
    ensures Attrs(attrs[..n + 1]) == Attrs(attrs[..n]) + AttrTlv(attrs[n])
    ensures |Attrs(attrs[..n + 1])| <= |Attrs(attrs)|
  {
    hide AttrTlv;
    if n == 0 {
      assert attrs[..1] == [attrs[0]];
      assert Attrs([attrs[0]]) == AttrTlv(attrs[0]) + Attrs([]);
    } else {
      AttrsNext(attrs[1..], n - 1);
      assert attrs[..n + 1][1..] == attrs[1..][..n];
      assert attrs[..n][1..] == attrs[1..][..n - 1];
    }
  }

  lemma {:induction false} ModsNext(mods: seq<Mod>, n: nat)
    requires n < |mods|
    ensures Mods(mods[..n + 1]) == Mods(mods[..n]) + ModTlv(mods[n])
    ensures |Mods(mods[..n + 1])| <= |Mods(mods)|
  {
    hide ModTlv;
    if n == 0 {
      assert mods[..1] == [mods[0]];
      assert Mods([mods[0]]) == ModTlv(mods[0]) + Mods([]);
    } else {
      ModsNext(mods[1..], n - 1);
      assert mods[..n + 1][1..] == mods[1..][..n];
      assert mods[..n][1..] == mods[1..][..n - 1];
    }
  }

  /** The sizes the generators compute ahead of the bytes. */
  lemma AttrSizes(a: Attr)
    requires AttrOk(a)
    ensures |Tlv(0x04, a.name)| == 1 + |LengthOctets(|a.name|)| + |a.name| <= MAX_NAME + 2
    ensures |AttrContent(a)| == |Tlv(0x04, a.name)| + 1 + |LengthOctets(|Values(a.vals)|)| + |Values(a.vals)|
    ensures |Values(a.vals)| < |AttrContent(a)| < LENGTH_LIMIT - 16
    ensures |AttrTlv(a)| == 1 + |LengthOctets(|AttrContent(a)|)| + |AttrContent(a)|
  {
    DigitsBound(|a.name|);
    DigitsBound(|Values(a.vals)|);
  }

  // ---- Generators ----

  /** An octet string in a buffer of its own: tag, length, content. */
  method PutString(b: Buffer, s: seq<byte>, r: nat) returns (r': nat)
    requires |s| < LENGTH_LIMIT && b.Valid() && |b.contents| + |Tlv(0x04, s)| <= b.data.Length
    modifies b, b.data
    ensures b.Valid() && b.contents == old(b.contents) + Tlv(0x04, s)
    ensures r' == if |s| < 256 then r else 0
  {
    assert Tlv(0x04, s) == [0x04] + LengthOctets(|s|) + s;
    hide *;
    r' := PutHeader(b, 0x04, |s|, r);
    b.Copy(s);
  }

  /** The inner loop over the values, which may reset the scratch variable. */
  method PutValues(vals: seq<seq<byte>>, buff: Buffer, r: nat) returns (r': nat)
    requires forall v :: v in vals ==> |v| < MAX_VALUE
    requires buff.Valid() && buff.contents == [] && |Values(vals)| <= buff.data.Length
    modifies buff, buff.data
    ensures buff.Valid() && buff.contents == Values(vals)
    ensures r' == r || r' == 0
  {
    assert Values(vals[..0]) == [];
    assert MAX_VALUE < LENGTH_LIMIT;
    hide *;
    r' := r;
    var n := 0;
    while n < |vals|
      invariant 0 <= n <= |vals|
      invariant buff.Valid() && buff.contents == Values(vals[..n])
      invariant r' == r || r' == 0
    {
      ValuesNext(vals, n);
      r' := PutString(buff, vals[n], r');
      n := n + 1;
    }
    assert vals[..n] == vals;
  }

  /** `sum += 2` for a short body, else the octets are counted on from the scratch variable's value. */
  method HeaderSize(len: nat, r: nat) returns (size: nat, r': nat)
    requires len < LENGTH_LIMIT
    requires len >= 128 ==> r <= |Digits(len)|
    ensures size == 1 + |LengthOctets(len)|
    ensures r' == if len < 128 then r else |Digits(len)|
  {
    DigitsBound(len);
    r' := r;
    if len < 128 {
      size := 2;
    } else {
      r' := CountOctets(len, r', INT_WIDTH);
      size := 2 + r';
    }
  }

  lemma SmallScratch(len: nat)
    requires len < LENGTH_LIMIT
    ensures len >= 128 ==> 1 <= |Digits(len)|
    ensures len < 256 ==> |Digits(len)| <= 1
  {
    DigitsBound(len);
  }

  /** The name and the values, built in buffers of their own before any length is known. */
  method BuildParts(al: Attr, r: nat) returns (name: seq<byte>, values: seq<byte>, r': nat)
    requires AttrOk(al)
    ensures name == Tlv(0x04, al.name) && values == Values(al.vals)
    ensures r' == r || r' == 0
  {
    AttrSizes(al);
    assert |al.name| < 256 < LENGTH_LIMIT;
    hide Tlv, Values;
    var nameBuffer := new Buffer(MAX_NAME + 2);
    r' := PutString(nameBuffer, al.name, r);
    name := nameBuffer.Written();
    var buff := new Buffer(BER_BUFFER);
    r' := PutValues(al.vals, buff, r');
    values := buff.Written();
  }

  /** The name and the values written out behind the sequence and set headers. */
  method WriteAttr(ber: Buffer, name: seq<byte>, values: seq<byte>, sum: nat, r: nat, ghost al: Attr) returns (r': nat)
    requires AttrOk(al) && name == Tlv(0x04, al.name) && values == Values(al.vals) && sum == |AttrContent(al)|
    requires ber.Valid() && |ber.contents| + |AttrTlv(al)| <= ber.data.Length
    modifies ber, ber.data
    ensures ber.Valid() && ber.contents == old(ber.contents) + AttrTlv(al)
    ensures r' == if sum < 256 then r else 0
  {
    AttrSizes(al);
    ghost var head, valueHead := [0x30] + LengthOctets(sum), [0x31] + LengthOctets(|values|);
    AttrTlvIs(al);
    hide *;
    r' := PutHeader(ber, 0x30, sum, r);
    ber.Copy(name);
    r' := PutHeader(ber, 0x31, |values|, r');
    ber.Copy(values);
    ListJoin(old(ber.contents), head, name, valueHead, values);
  }

  lemma AttrTlvIs(a: Attr)
    ensures AttrTlv(a) == [0x30] + LengthOctets(|AttrContent(a)|) + (Tlv(0x04, a.name) +
                          ([0x31] + LengthOctets(|Values(a.vals)|) + Values(a.vals)))
  {
    assert AttrContent(a) == Tlv(0x04, a.name) + ([0x31] + LengthOctets(|Values(a.vals)|) + Values(a.vals));
  }

  /** One round of LDAP_gen_ber_attrlist: whatever 0 or 1 the last round left in `r`, the lengths are exact. */
  method GenAttr(al: Attr, ber: Buffer, r: nat) returns (r': nat)
    requires AttrOk(al) && r <= 1
    requires ber.Valid() && |ber.contents| + |AttrTlv(al)| <= ber.data.Length
    modifies ber, ber.data
    ensures ber.Valid() && ber.contents == old(ber.contents) + AttrTlv(al)
    ensures r' <= 1
  {
    hide *;
    AttrSizes(al);
    var name, values, size;
    name, values, r' := BuildParts(al, r);
    var vlen := |values|;
    SmallScratch(vlen);
    size, r' := HeaderSize(vlen, r');
    var sum := |name| + vlen + size;
    r' := WriteAttr(ber, name, values, sum, r', al);
  }

  lemma ListJoin(o: seq<byte>, h: seq<byte>, a: seq<byte>, v: seq<byte>, w: seq<byte>)
    ensures o + h + a + v + w == o + (h + (a + (v + w)))
  {
    Regroup(o + h + a, v, w);
    Regroup4(o, h, a, v + w);
    Regroup(h, a, v + w);
  }

  /** LDAP_gen_ber_attrlist */
  method GenAttrList(attrlist: seq<Attr>, ber: Buffer) returns (ret: Ret)
    requires forall a :: a in attrlist ==> AttrOk(a) && a.vals != []
    requires ber.Valid() && |ber.contents| + |Attrs(attrlist)| <= ber.data.Length
    modifies ber, ber.data
    ensures ber.Valid() && ber.contents == old(ber.contents) + Attrs(attrlist)
    ensures ret == if attrlist == [] then ErrEncode else Ok
  {
    hide *;
    NoneListed();
    assert attrlist[..0] == [];
    if attrlist == [] {
      return ErrEncode;
    }
    var r, n := 0, 0;
    while n < |attrlist|
      invariant 0 <= n <= |attrlist|
      invariant 0 <= r <= 1
      invariant ber.Valid() && ber.contents == old(ber.contents) + Attrs(attrlist[..n])
    {
      AttrsNext(attrlist, n);
      r := GenAttr(attrlist[n], ber, r);
      Regroup(old(ber.contents), Attrs(attrlist[..n]), AttrTlv(attrlist[n]));
      n := n + 1;
    }
    assert attrlist[..n] == attrlist;
    ret := Ok;
  }

  lemma NoneListed()
    ensures Attrs([]) == [] && Mods([]) == []
  {
  }

  /** One round of LDAP_gen_ber_modlist, which counts on from `r` twice. */
  method GenMod(ml: Mod, ber: Buffer, r: nat) returns (r': nat)
    requires AttrOk(ml.attr) && r <= 1
    requires ber.Valid() && |ber.contents| + |ModTlv(ml)| <= ber.data.Length
    modifies ber, ber.data
    ensures ber.Valid() && ber.contents == old(ber.contents) + ModTlv(ml)
    ensures r' <= 1
  {
    hide *;
    var al := ml.attr;
    AttrSizes(al);
    ModSizes(ml);
    var name, values, tlen, size;
    name, values, r' := BuildParts(al, r);
    var vlen := |values|;
    SmallScratch(vlen);
    tlen, r' := HeaderSize(vlen, r');
    tlen := tlen + vlen + |name|;
    SmallScratch(tlen);
    DigitsShorter(vlen, tlen);
    size, r' := HeaderSize(tlen, r');
    var sum := tlen + size + 3;
    r' := PutHeader(ber, 0x30, sum, r');
    ber.Copy([0x0a, 1, ml.operation]);
    r' := WriteAttr(ber, name, values, tlen, r', al);
    Regroup4(old(ber.contents), [0x30] + LengthOctets(sum), [0x0a, 1, ml.operation], AttrTlv(al));
    Regroup([0x30] + LengthOctets(sum), [0x0a, 1, ml.operation], AttrTlv(al));
  }

  lemma ModSizes(m: Mod)
    requires AttrOk(m.attr)
    ensures |ModContent(m)| == 3 + |AttrTlv(m.attr)| < LENGTH_LIMIT
    ensures |ModTlv(m)| == 1 + |LengthOctets(|ModContent(m)|)| + |ModContent(m)|
    ensures ModTlv(m) == [0x30] + LengthOctets(|ModContent(m)|) + ([0x0a, 1, m.operation] + AttrTlv(m.attr))
  {
    AttrSizes(m.attr);
    DigitsBound(|AttrContent(m.attr)|);
  }

  /** LDAP_gen_ber_modlist */
  method GenModList(modlist: seq<Mod>, ber: Buffer) returns (ret: Ret)
    requires forall m :: m in modlist ==> AttrOk(m.attr)
    requires ber.Valid() && |ber.contents| + |Mods(modlist)| <= ber.data.Length
    modifies ber, ber.data
    ensures ber.Valid() && ber.contents == old(ber.contents) + Mods(modlist)
    ensures ret == if modlist == [] then ErrEncode else Ok
  {
    hide *;
    NoneListed();
    assert modlist[..0] == [];
    if modlist == [] {
      return ErrEncode;
    }
    var r, n := 0, 0;
    while n < |modlist|
      invariant 0 <= n <= |modlist|
      invariant 0 <= r <= 1
      invariant ber.Valid() && ber.contents == old(ber.contents) + Mods(modlist[..n])
    {
      ModsNext(modlist, n);
      r := GenMod(modlist[n], ber, r);
      Regroup(old(ber.contents), Mods(modlist[..n]), ModTlv(modlist[n]));
      n := n + 1;
    }
    assert modlist[..n] == modlist;
    ret := Ok;
  }
}
