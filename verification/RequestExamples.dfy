/** One request of each kind, octet by octet. */
module RequestExamples {
  import opened Bytes
  import opened Ber
  import opened BerLists
  import opened FilterSpec
  import opened Requests
  import FilterOctets

  // "cn", "sn", "ou" and the value "x"
  const CN: seq<byte> := [99, 110]
  const SN: seq<byte> := [115, 110]
  const OU: seq<byte> := [111, 117]
  const X: seq<byte> := [120]

  lemma Spelled()
    ensures CN == [99, 110] && SN == [115, 110] && OU == [111, 117] && X == [120]
  {
  }

  /** The attribute sn with the one value x, and its replacement. */
  lemma ListOctets()
    ensures Values([X]) == [0x04, 1, 120] && Values([SN]) == [0x04, 2, 115, 110]
    ensures AttrTlv(Attr(SN, [X])) == [0x30, 9, 0x04, 2, 115, 110, 0x31, 3, 0x04, 1, 120]
    ensures Attrs([Attr(SN, [X])]) == AttrTlv(Attr(SN, [X]))
    ensures ModTlv(Mod(2, Attr(SN, [X]))) == [0x30, 14, 0x0a, 1, 2] + AttrTlv(Attr(SN, [X]))
    ensures Mods([Mod(2, Attr(SN, [X]))]) == ModTlv(Mod(2, Attr(SN, [X])))
  {
    hide *;
    Spelled();
    var a := Attr(SN, [X]);
    ShortTlv(0x04, X);
    ShortTlv(0x04, SN);
    OneEach(X, a, Mod(2, a));
    OneEach(SN, a, Mod(2, a));
    assert [0x04 as byte, 1] + X == [0x04, 1, 120] && [0x04 as byte, 2] + SN == [0x04, 2, 115, 110];
    ShortTlv(0x31, [0x04, 1, 120]);
    assert [0x04 as byte, 2, 115, 110] + ([0x31, 3] + [0x04, 1, 120]) == [0x04, 2, 115, 110, 0x31, 3, 0x04, 1, 120];
    ShortTlv(0x30, [0x04, 2, 115, 110, 0x31, 3, 0x04, 1, 120]);
    var t := AttrTlv(a);
    assert [0x30 as byte, 9] + [0x04, 2, 115, 110, 0x31, 3, 0x04, 1, 120]
           == [0x30, 9, 0x04, 2, 115, 110, 0x31, 3, 0x04, 1, 120];
    ShortTlv(0x30, [0x0a, 1, 2] + t);
    assert [0x30 as byte, 14] + ([0x0a, 1, 2] + t) == [0x30, 14, 0x0a, 1, 2] + t;
  }

  /** Lists of one element, and the parts of an attribute and a modification. */
  lemma OneEach(v: seq<byte>, a: Attr, m: Mod)
    ensures Values([v]) == Tlv(0x04, v) && Attrs([a]) == AttrTlv(a) && Mods([m]) == ModTlv(m)
    ensures AttrTlv(a) == Tlv(0x30, Tlv(0x04, a.name) + Tlv(0x31, Values(a.vals)))
    ensures ModTlv(m) == Tlv(0x30, [0x0a, 1, m.operation] + AttrTlv(m.attr))
  {
    hide Tlv;
    assert Values([v]) == Tlv(0x04, v) + Values([]);
    assert Attrs([a]) == AttrTlv(a) + Attrs([]);
    assert Mods([m]) == ModTlv(m) + Mods([]);
  }

  /** A message around an operation of under 120 octets. */
  lemma Enclosed(id: nat, q: Request, op: seq<byte>)
    requires 0 < id < 128 && OpTlv(q) == op && |op| < 120
    ensures MessageTlv(id, q) == [0x30, 3 + |op|, 0x02, 1, id] + op
    ensures RequestOk(q) ==> CanSend(id - 1, q)
  {
    hide *;
    CanSendIs(id, q);
    MessageTlvIs(id, q);
    SmallId(id);
    ShortTlv(0x30, [0x02, 1, id] + op);
    assert [0x30 as byte, 3 + |op|] + ([0x02, 1, id] + op) == [0x30, 3 + |op|, 0x02, 1, id] + op;
  }

  lemma CanSendIs(id: nat, q: Request)
    requires 0 < id < 128
    ensures CanSend(id - 1, q) <==> RequestOk(q) && |MessageTlv(id, q)| < 0x100_0000
  {
    hide MessageTlv, RequestOk;
  }

  /** What may be sent. */
  lemma SendableExamples()
    ensures RequestOk(Delete(CN)) && RequestOk(ModDn(CN, OU, 1)) && RequestOk(Extended(OU, X))
    ensures RequestOk(Add(CN, [Attr(SN, [X])])) && RequestOk(Modify(CN, [Mod(2, Attr(SN, [X]))]))
  {
    ListOctets();
  }

  lemma DeleteExample()
    ensures CanSend(4, Delete(CN))
    ensures MessageTlv(5, Delete(CN)) == [0x30, 7, 0x02, 1, 5] + [0x4a, 2, 99, 110]
  {
    hide *;
    SendableExamples();
    Spelled();
    OperationOctets(Delete(CN));
    NameOctets(0x4a, CN);
    assert [0x4a as byte, 2] + CN == [0x4a, 2, 99, 110];
    Enclosed(5, Delete(CN), [0x4a, 2, 99, 110]);
  }

  lemma RenameExample()
    ensures CanSend(5, ModDn(CN, OU, 1))
    ensures MessageTlv(6, ModDn(CN, OU, 1))
            == [0x30, 16, 0x02, 1, 6] + [0x6c, 11, 0x04, 2, 99, 110, 0x04, 2, 111, 117, 1, 1, 1]
  {
    hide *;
    SendableExamples();
    Spelled();
    var q := ModDn(CN, OU, 1);
    OperationOctets(q);
    NameOctets(0x04, CN);
    NameOctets(0x04, OU);
    var body: seq<byte> := [0x04, 2, 99, 110, 0x04, 2, 111, 117, 1, 1, 1];
    assert ([0x04 as byte, 2] + CN) + (([0x04 as byte, 2] + OU) + [1, 1, 1]) == body;
    ShortTlv(0x6c, body);
    assert [0x6c as byte, 11] + body == [0x6c, 11, 0x04, 2, 99, 110, 0x04, 2, 111, 117, 1, 1, 1];
    Enclosed(6, q, [0x6c, 11, 0x04, 2, 99, 110, 0x04, 2, 111, 117, 1, 1, 1]);
  }

  lemma AddExample()
    ensures CanSend(6, Add(CN, [Attr(SN, [X])]))
    ensures MessageTlv(7, Add(CN, [Attr(SN, [X])]))
            == [0x30, 22, 0x02, 1, 7]
               + ([0x68, 17] + ([0x04, 2, 99, 110] + ([0x30, 11] + [0x30, 9, 0x04, 2, 115, 110, 0x31, 3, 0x04, 1, 120])))
  {
    hide *;
    SendableExamples();
    Spelled();
    ListOctets();
    var q := Add(CN, [Attr(SN, [X])]);
    OperationOctets(q);
    NameOctets(0x04, CN);
    assert [0x04 as byte, 2] + CN == [0x04, 2, 99, 110];
    var list: seq<byte> := [0x30, 9, 0x04, 2, 115, 110, 0x31, 3, 0x04, 1, 120];
    ShortTlv(0x30, list);
    var body: seq<byte> := [0x04, 2, 99, 110] + ([0x30, 11] + list);
    ShortTlv(0x68, body);
    Enclosed(7, q, [0x68, 17] + body);
  }

  /** Operation 2 replaces. */
  lemma ModifyExample()
    ensures CanSend(7, Modify(CN, [Mod(2, Attr(SN, [X]))]))
    ensures MessageTlv(8, Modify(CN, [Mod(2, Attr(SN, [X]))]))
            == [0x30, 27, 0x02, 1, 8]
               + ([0x66, 22]
                  + ([0x04, 2, 99, 110]
                     + ([0x30, 16]
                        + ([0x30, 14, 0x0a, 1, 2] + [0x30, 9, 0x04, 2, 115, 110, 0x31, 3, 0x04, 1, 120]))))
  {
    hide *;
    SendableExamples();
    Spelled();
    ListOctets();
    var q := Modify(CN, [Mod(2, Attr(SN, [X]))]);
    OperationOctets(q);
    NameOctets(0x04, CN);
    assert [0x04 as byte, 2] + CN == [0x04, 2, 99, 110];
    var list: seq<byte> := [0x30, 14, 0x0a, 1, 2] + [0x30, 9, 0x04, 2, 115, 110, 0x31, 3, 0x04, 1, 120];
    ShortTlv(0x30, list);
    var body: seq<byte> := [0x04, 2, 99, 110] + ([0x30, 16] + list);
    ShortTlv(0x66, body);
    Enclosed(8, q, [0x66, 22] + body);
  }

  function Wanted(): Request {
    Search(CN, 2, 0, Compare(GreaterOrEqual, SN, X), [SN])
  }

  /** The whole subtree below cn, aliases never followed, for sn >= x; the attribute sn is wanted. */
  lemma SearchExample()
    ensures Wanted() == Search([99, 110], 2, 0, Compare(GreaterOrEqual, [115, 110], [120]), [[115, 110]])
    ensures CanSend(8, Wanted())
    ensures MessageTlv(9, Wanted())
            == [0x30, 39, 0x02, 1, 9]
               + ([0x63, 34]
                  + ([0x04, 2, 99, 110]
                     + ([0x0a, 1, 2, 0x0a, 1, 0, 2, 1, 0, 2, 1, 0, 1, 1, 0]
                        + ([0xa5, 7, 0x04, 2, 115, 110, 0x04, 1, 120] + [0x30, 4, 0x04, 2, 115, 110]))))
  {
    hide *;
    WantedIs();
    WantedFilter();
    SearchSendable(Wanted());
    SearchOctets();
    var flags: seq<byte> := [0x0a, 1, 2, 0x0a, 1, 0, 2, 1, 0, 2, 1, 0, 1, 1, 0];
    var rest: seq<byte> := [0xa5, 7, 0x04, 2, 115, 110, 0x04, 1, 120] + [0x30, 4, 0x04, 2, 115, 110];
    Enclosed(9, Wanted(), [0x63, 34] + ([0x04, 2, 99, 110] + (flags + rest)));
  }

  lemma WantedIs()
    ensures Wanted() == Search(CN, 2, 0, Compare(GreaterOrEqual, SN, X), [SN])
    ensures Wanted() == Search([99, 110], 2, 0, Compare(GreaterOrEqual, [115, 110], [120]), [[115, 110]])
  {
  }

  lemma WantedFilter()
    ensures var f := Compare(GreaterOrEqual, SN, X);
            Valid(f) && Fits(f) && Encode(f) == [0xa5, 7, 0x04, 2, 115, 110, 0x04, 1, 120]
  {
    hide *;
    Spelled();
    FilterOctets.NamesAre(SN);
    FilterOctets.ValuesAre(X);
    FilterOctets.CompareIs(GreaterOrEqual, SN, X);
    GreaterOctets();
    SmallLength(7);
  }

  lemma SearchOctets()
    ensures OpTlv(Wanted())
            == [0x63, 34]
               + ([0x04, 2, 99, 110]
                  + ([0x0a, 1, 2, 0x0a, 1, 0, 2, 1, 0, 2, 1, 0, 1, 1, 0]
                     + ([0xa5, 7, 0x04, 2, 115, 110, 0x04, 1, 120] + [0x30, 4, 0x04, 2, 115, 110])))
  {
    hide *;
    Spelled();
    WantedIs();
    WantedFilter();
    ListOctets();
    OperationOctets(Wanted());
    NameOctets(0x04, CN);
    assert [0x04 as byte, 2] + CN == [0x04, 2, 99, 110];
    ShortTlv(0x30, [0x04, 2, 115, 110]);
    assert [0x30 as byte, 4] + [0x04, 2, 115, 110] == [0x30, 4, 0x04, 2, 115, 110];
    var flags: seq<byte> := [0x0a, 1, 2, 0x0a, 1, 0, 2, 1, 0, 2, 1, 0, 1, 1, 0];
    var rest: seq<byte> := [0xa5, 7, 0x04, 2, 115, 110, 0x04, 1, 120] + [0x30, 4, 0x04, 2, 115, 110];
    ShortTlv(0x63, [0x04, 2, 99, 110] + (flags + rest));
  }

  lemma SearchSendable(q: Request)
    requires q.Search? && q.scope == 2 && q.deref == 0 && Valid(q.filter) && Fits(q.filter) && q.names == [SN]
    ensures RequestOk(q)
  {
  }

  lemma GreaterOctets()
    ensures [0x04 as byte, 2] + SN + [0x04, 1] + X == [0x04, 2, 115, 110, 0x04, 1, 120]
    ensures [0xa5 as byte] + [7] + [0x04, 2, 115, 110, 0x04, 1, 120] == [0xa5, 7, 0x04, 2, 115, 110, 0x04, 1, 120]
  {
  }

  lemma SmallLength(n: nat)
    requires n < 128
    ensures LengthOctets(n) == [n]
  {
  }

  lemma ExtendedExample()
    ensures CanSend(9, Extended(OU, X))
    ensures MessageTlv(10, Extended(OU, X)) == [0x30, 12, 0x02, 1, 10] + [0x77, 7, 0x80, 2, 111, 117, 0x81, 1, 120]
  {
    hide *;
    SendableExamples();
    Spelled();
    var q := Extended(OU, X);
    OperationOctets(q);
    ShortTlv(0x80, OU);
    ShortTlv(0x81, X);
    var body: seq<byte> := [0x80, 2, 111, 117, 0x81, 1, 120];
    assert ([0x80 as byte, 2] + OU) + ([0x81 as byte, 1] + X) == body;
    ShortTlv(0x77, body);
    assert [0x77 as byte, 7] + body == [0x77, 7, 0x80, 2, 111, 117, 0x81, 1, 120];
    Enclosed(10, q, [0x77, 7] + body);
  }
}
