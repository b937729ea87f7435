/** Whole LDAP requests as the client's generators build them (RFC 4511 sections 4.1.1 and 4.5 to 4.12). */
module Requests {
  import opened Bytes
  import opened Ber
  import opened BerLists
  import opened BerListDecoder
  import opened FilterSpec
  import FilterEncoder
  import FilterDecoder

  const MAX_NAME_LENGTH := 128
  const MAX_OID := 1024

  datatype Request =
    | Add(dn: seq<byte>, attrs: seq<Attr>)
    | Modify(dn: seq<byte>, mods: seq<Mod>)
    | Delete(dn: seq<byte>)
    | ModDn(dn: seq<byte>, rdn: seq<byte>, deleteOld: byte)
    | Search(dn: seq<byte>, scope: byte, deref: byte, filter: Filter, names: seq<seq<byte>>)
    | Extended(oid: seq<byte>, value: seq<byte>)

  datatype Message = Message(id: nat, request: Request)

  // ---- The bytes the generators send ----

  /**
   CREATE_DN passes the scratch variable itself as the length to insert: once the macro resets it, a
   length of 256 or more is written as 0x80 and no content follows.
   */
  function AliasedLength(n: nat): seq<byte> {
    if n < 256 then LengthOctets(n) else [0x80]
  }

  /** What of a name is sent. */
  function SentName(s: seq<byte>): seq<byte> {
    if |s| < 256 then s else []
  }

  function AliasedTlv(tag: byte, s: seq<byte>): seq<byte> {
    [tag] + AliasedLength(|s|) + SentName(s)
  }

  function Names(names: seq<seq<byte>>): seq<byte> {
    Values(names)
  }

  function SearchFlags(scope: byte, deref: byte): seq<byte> {
    [0x0a, 1, scope, 0x0a, 1, deref, 0x02, 1, 0, 0x02, 1, 0, 0x01, 1, 0]
  }

  function OpTag(q: Request): byte {
    match q
    case Add(_, _) => 0x68
    case Modify(_, _) => 0x66
    case Delete(_) => 0x4a
    case ModDn(_, _, _) => 0x6c
    case Search(_, _, _, _, _) => 0x63
    case Extended(_, _) => 0x77
  }

  /** The parts of an operation, in order. */
  function OpParts(q: Request): seq<seq<byte>>
    requires !q.Delete?
  {
    match q
    case Add(dn, attrs) => [AliasedTlv(0x04, dn), Tlv(0x30, Attrs(attrs))]
    case Modify(dn, mods) => [AliasedTlv(0x04, dn), Tlv(0x30, Mods(mods))]
    case ModDn(dn, rdn, deleteOld) => [AliasedTlv(0x04, dn), AliasedTlv(0x04, rdn), [1, 1, deleteOld]]
    case Search(dn, scope, deref, filter, names) =>
      [AliasedTlv(0x04, dn), SearchFlags(scope, deref), Encode(filter), Tlv(0x30, Names(names))]
    case Extended(oid, value) => [Tlv(0x80, oid), Tlv(0x81, value)]
  }

  function OpTlv(q: Request): seq<byte> {
    if q.Delete? then AliasedTlv(0x4a, q.dn) else Tlv(OpTag(q), Flatten(OpParts(q)))
  }

  function MessageTlv(id: nat, q: Request): seq<byte>
    requires id >= 1
  {
    Tlv(0x30, IdTlv(id) + OpTlv(q))
  }

  /** What the generators demand of their callers, and the sizes of the structures on the other side. */
  predicate RequestOk(q: Request) {
    match q
    case Add(_, attrs) => ListOk(attrs)
    case Modify(_, mods) => ModsOk(mods)
    case Delete(_) => true
    case ModDn(_, _, deleteOld) => deleteOld <= 1
    case Search(_, scope, deref, filter, names) =>
      && scope <= 2 && deref < 128 && Valid(filter) && Fits(filter)
      && forall n :: n in names ==> |n| < MAX_NAME_LENGTH
    case Extended(oid, value) => |oid| < MAX_OID
  }

  /** The whole message stays below the length encoder's limit. */
  predicate Sendable(id: nat, q: Request) {
    IsId(id) && RequestOk(q) && |MessageTlv(id, q)| < LENGTH_LIMIT
  }

  /** What the server gets to see. */
  function Sent(q: Request): Request {
    match q
    case Add(dn, attrs) => Add(SentName(dn), attrs)
    case Modify(dn, mods) => Modify(SentName(dn), mods)
    case Delete(dn) => Delete(SentName(dn))
    case ModDn(dn, rdn, deleteOld) => ModDn(SentName(dn), SentName(rdn), deleteOld)
    case Search(dn, scope, deref, filter, names) => Search(SentName(dn), scope, deref, Trim(filter), names)
    case Extended(_, _) => q
  }

  /** Every name under 256 octets, and a filter whose lists decode whole. */
  predicate Recoverable(q: Request) {
    match q
    case Add(dn, _) => |dn| < 256
    case Modify(dn, _) => |dn| < 256
    case Delete(dn) => |dn| < 256
    case ModDn(dn, rdn, _) => |dn| < 256 && |rdn| < 256
    case Search(dn, _, _, filter, _) => |dn| < 256 && AllLastFit(filter)
    case Extended(_, _) => true
  }

  /** The server sees the request the client meant exactly when it is recoverable. */
  lemma SentExactly(q: Request)
    requires RequestOk(q)
    ensures Sent(q) == q <==> Recoverable(q)
  {
    if q.Search? {
      FilterDecoder.TrimValid(q.filter);
    }
  }

  /** A name is encoded as an octet string exactly when it is shorter than 256 octets. */
  lemma AliasedIsTlv(tag: byte, s: seq<byte>)
    requires |s| < TWO_31
    ensures AliasedTlv(tag, s) == Tlv(tag, s) <==> |s| < 256
  {
    LengthReadsBack(|s|);
    if |s| >= 256 {
      assert |Tlv(tag, s)| > 2;
    } else {
      assert AliasedTlv(tag, s) == Tlv(tag, s);
    }
  }

  // ---- The same, spelled out (RFC 4511 sections 4.1.1, 4.5 to 4.9 and 4.12) ----

  /** The octets of each operation: its application tag, its length and its fields. */
  lemma OperationOctets(q: Request)
    ensures q.Add? ==> OpTlv(q) == Tlv(0x68, AliasedTlv(0x04, q.dn) + Tlv(0x30, Attrs(q.attrs)))
    ensures q.Modify? ==> OpTlv(q) == Tlv(0x66, AliasedTlv(0x04, q.dn) + Tlv(0x30, Mods(q.mods)))
    ensures q.Delete? ==> OpTlv(q) == AliasedTlv(0x4a, q.dn)
    ensures q.ModDn? ==>
              OpTlv(q) == Tlv(0x6c, AliasedTlv(0x04, q.dn) + (AliasedTlv(0x04, q.rdn) + [1, 1, q.deleteOld]))
    ensures q.Search? ==>
              OpTlv(q) == Tlv(0x63, AliasedTlv(0x04, q.dn)
                                    + ([0x0a, 1, q.scope, 0x0a, 1, q.deref, 2, 1, 0, 2, 1, 0, 1, 1, 0]
                                       + (Encode(q.filter) + Tlv(0x30, Values(q.names)))))
    ensures q.Extended? ==> OpTlv(q) == Tlv(0x77, Tlv(0x80, q.oid) + Tlv(0x81, q.value))
  {
    hide Tlv, AliasedTlv, Attrs, Mods, Values, Encode, Flatten;
    if q.Search? {
      FlatFour(AliasedTlv(0x04, q.dn), SearchFlags(q.scope, q.deref), Encode(q.filter), Tlv(0x30, Names(q.names)));
    } else if q.ModDn? {
      FlatThree(AliasedTlv(0x04, q.dn), AliasedTlv(0x04, q.rdn), [1, 1, q.deleteOld]);
    } else if q.Add? {
      FlatTwo(AliasedTlv(0x04, q.dn), Tlv(0x30, Attrs(q.attrs)));
    } else if q.Modify? {
      FlatTwo(AliasedTlv(0x04, q.dn), Tlv(0x30, Mods(q.mods)));
    } else if q.Extended? {
      FlatTwo(Tlv(0x80, q.oid), Tlv(0x81, q.value));
    }
  }

  lemma FlatTwo(a: seq<byte>, b: seq<byte>)
    ensures Flatten([a, b]) == a + b
  {
    FlatOne(b);
    assert Flatten([a, b]) == a + Flatten([b]);
  }

  lemma FlatOne(a: seq<byte>)
    ensures Flatten([a]) == a
  {
    assert Flatten([a]) == a + Flatten<byte>([]);
  }

  lemma FlatThree(a: seq<byte>, b: seq<byte>, c: seq<byte>)
    ensures Flatten([a, b, c]) == a + (b + c)
  {
    FlatTwo(b, c);
    assert Flatten([a, b, c]) == a + Flatten([b, c]);
  }

  lemma FlatFour(a: seq<byte>, b: seq<byte>, c: seq<byte>, d: seq<byte>)
    ensures Flatten([a, b, c, d]) == a + (b + (c + d))
  {
    FlatThree(b, c, d);
    assert Flatten([a, b, c, d]) == a + Flatten([b, c, d]);
  }

  /** A name up to 127 octets is sent with one length octet, up to 255 with two, and a longer one as nothing. */
  lemma NameOctets(tag: byte, s: seq<byte>)
    ensures |s| < 128 ==> AliasedTlv(tag, s) == [tag, |s|] + s
    ensures 128 <= |s| < 256 ==> AliasedTlv(tag, s) == [tag, 0x81, |s|] + s
    ensures |s| >= 256 ==> AliasedTlv(tag, s) == [tag, 0x80]
  {
    LengthOctetsSmall(|s|);
    hide AliasedLength;
  }

  /** The fixed fields of a search stand behind its base object: scope, aliases, two limits and the types flag. */
  lemma SearchFields(ber: seq<byte>, id: nat, dn: seq<byte>, scope: byte, deref: byte, f: Filter, names: seq<seq<byte>>)
    requires id >= 1 && ber == MessageTlv(id, Search(dn, scope, deref, f, names))
    ensures var m := |ber| - |Tlv(0x30, Names(names))| - |Encode(f)| - 15;
            && m >= |AliasedTlv(0x04, dn)| && ber[m - |AliasedTlv(0x04, dn)|..m] == AliasedTlv(0x04, dn)
            && ber[m..m + 3] == [0x0a, 1, scope] && ber[m + 3..m + 6] == [0x0a, 1, deref]
            && ber[m + 6..m + 9] == [0x02, 1, 0] && ber[m + 9..m + 12] == [0x02, 1, 0]
            && ber[m + 12..m + 15] == [0x01, 1, 0]
  {
    hide *;
    var q := Search(dn, scope, deref, f, names);
    var name := AliasedTlv(0x04, dn);
    var fields: seq<byte> := [0x0a, 1, scope, 0x0a, 1, deref, 2, 1, 0, 2, 1, 0, 1, 1, 0];
    var rest := Encode(f) + Tlv(0x30, Names(names));
    OperationOctets(q);
    MessageTlvIs(id, q);
    var head := Wrapped(id, q, name + (fields + rest));
    FieldsIn(ber, head, name, fields, rest);
  }

  /** A message ends in the content of its operation. */
  lemma Wrapped(id: nat, q: Request, body: seq<byte>) returns (head: seq<byte>)
    requires id >= 1 && OpTlv(q) == Tlv(0x63, body)
    ensures MessageTlv(id, q) == head + body
  {
    hide *;
    MessageTlvIs(id, q);
    TlvEnds(0x63, body);
    TlvEnds(0x30, IdTlv(id) + OpTlv(q));
    var a, c := [0x30] + LengthOctets(|IdTlv(id) + OpTlv(q)|), [0x63] + LengthOctets(|body|);
    head := a + IdTlv(id) + c;
    Behind(a, IdTlv(id), c, body);
  }

  lemma MessageTlvIs(id: nat, q: Request)
    requires id >= 1
    ensures MessageTlv(id, q) == Tlv(0x30, IdTlv(id) + OpTlv(q))
    ensures q.Search? ==> Names(q.names) == Values(q.names)
  {
  }

  lemma TlvEnds(tag: byte, content: seq<byte>)
    ensures Tlv(tag, content) == [tag] + LengthOctets(|content|) + content
  {
  }

  lemma Behind(a: seq<byte>, b: seq<byte>, c: seq<byte>, d: seq<byte>)
    ensures a + (b + (c + d)) == (a + b + c) + d
  {
  }

  lemma FieldsIn(ber: seq<byte>, head: seq<byte>, name: seq<byte>, fields: seq<byte>, rest: seq<byte>)
    requires ber == head + (name + (fields + rest)) && |fields| == 15
    ensures var m := |ber| - |rest| - 15;
            && m >= |name| && ber[m - |name|..m] == name
            && ber[m..m + 3] == fields[..3] && ber[m + 3..m + 6] == fields[3..6] && ber[m + 6..m + 9] == fields[6..9]
            && ber[m + 9..m + 12] == fields[9..12] && ber[m + 12..m + 15] == fields[12..]
  {
    var m := |head| + |name|;
    AtWhole(ber);
    AtSplit(ber, 0, head, name + (fields + rest));
    AtSplit(ber, |head|, name, fields + rest);
    AtSplit(ber, m, fields, rest);
    forall i, j | 0 <= i <= j <= 15
      ensures ber[m + i..m + j] == fields[i..j]
    {
      assert ber[m..m + 15][i..j] == ber[m + i..m + j];
    }
  }

  // ---- Generators ----

  /** INSERT_LENGTH with its length argument aliased to its scratch variable. */
  method InsertLengthAliased(b: Buffer, r: nat) returns (r': nat)
    requires b.Valid() && |b.contents| + |AliasedLength(r)| <= b.data.Length
    modifies b, b.data
    ensures b.Valid() && b.contents == old(b.contents) + AliasedLength(r)
    ensures r' == if r < 256 then r else 0
  {
    LengthOctetsSmall(r);
    hide *;
    r' := r;
    if r < 128 {
      b.Put(r);
    } else if r < 256 {
      b.Put(0x80 + 1);
      b.Put(r);
    } else {
      r' := 0;
      // the counting loop now tests 0 >> 0 and stops at once; the writing loop has nothing to write
      b.Put(0x80 + r');
    }
  }

  lemma LengthOctetsSmall(n: nat)
    ensures n < 128 ==> AliasedLength(n) == [n]
    ensures 128 <= n < 256 ==> AliasedLength(n) == [0x80 + 1, n]
    ensures n >= 256 ==> AliasedLength(n) == [0x80]
  {
    if n < 256 {
      LengthOctetsParts(n);
    }
  }

  /** CREATE_DN, and the same steps for a new RDN or a deleted entry. */
  method CreateDn(tag: byte, dn: seq<byte>) returns (bytes: seq<byte>)
    ensures bytes == AliasedTlv(tag, dn)
  {
    LengthOctetsSmall(|dn|);
    hide AliasedLength;
    var b := new Buffer(|dn| + 3);
    b.Put(tag);
    var r := InsertLengthAliased(b, |dn|);
    b.Copy(dn[..r]);
    bytes := b.Written();
  }

  /** A header in a six-octet buffer of its own. */
  method Header(tag: byte, len: nat) returns (bytes: seq<byte>)
    requires len < LENGTH_LIMIT
    ensures bytes == [tag] + LengthOctets(len)
  {
    LengthOctetsParts(len);
    hide *;
    var b := new Buffer(6);
    var r := PutHeader(b, tag, len, 0);
    bytes := b.Written();
  }

  /**
   The tail every generator shares: the operation's header, the message id, CREATE_LDAP and
   COPY_TO_BER. Each length is computed before the bytes it counts are copied, and the buffer
   allocated for `sum` octets is filled exactly.
   */
  method Assemble(ids: IdSource, tag: byte, parts: seq<seq<byte>>) returns (ber: seq<byte>, tid: nat)
    requires 0 <= ids.tid <= 0x7FFF_FFFE
    requires |Tlv(0x30, IdTlv(NextIdNat(ids.tid)) + Tlv(tag, Flatten(parts)))| < LENGTH_LIMIT
    modifies ids
    ensures IsId(tid) && tid == ids.tid == NextId(old(ids.tid))
    ensures ber == Tlv(0x30, IdTlv(tid) + Tlv(tag, Flatten(parts)))
  {
    EnvelopeSizes(NextIdNat(ids.tid), tag, Flatten(parts));
    hide *;
    var sum := TotalLength(parts);
    var op := Header(tag, sum);
    sum := sum + |op|;
    var head;
    head, tid := LdapHead(ids, sum);
    ber := Fill(head, op, parts, |head| + sum);
    EnvelopeJoin(ber, tid, tag, op, Flatten(parts));
  }

  /** COPY_TO_BER and the copies after it, into a buffer of exactly `sum` octets. */
  method Fill(head: seq<byte>, op: seq<byte>, parts: seq<seq<byte>>, sum: nat) returns (ber: seq<byte>)
    requires sum == |head| + |op| + |Flatten(parts)|
    ensures ber == head + op + Flatten(parts)
  {
    hide *;
    var b := new Buffer(sum);
    b.Copy(head);
    assert b.contents == head;
    b.Copy(op);
    CopyParts(b, parts);
    ber := b.Written();
  }

  /** The message id and CREATE_LDAP around an operation of `sum` octets. */
  method LdapHead(ids: IdSource, sum: nat) returns (head: seq<byte>, tid: nat)
    requires 0 <= ids.tid <= 0x7FFF_FFFE
    requires |IdTlv(NextIdNat(ids.tid))| + sum < LENGTH_LIMIT
    modifies ids
    ensures IsId(tid) && tid == ids.tid == NextId(old(ids.tid))
    ensures head == [0x30] + LengthOctets(|IdTlv(tid)| + sum) + IdTlv(tid)
  {
    hide IdTlv, LengthOctets;
    tid := ids.TidIncrement();
    var msg := CreateId(tid);
    var ldap := Header(0x30, |msg| + sum);
    head := ldap + msg;
  }

  function NextIdNat(t: int): nat
    requires 0 <= t <= 0x7FFF_FFFE
    ensures NextIdNat(t) == NextId(t) && IsId(NextIdNat(t))
  {
    NextId(t)
  }

  lemma EnvelopeJoin(ber: seq<byte>, id: nat, tag: byte, op: seq<byte>, body: seq<byte>)
    requires IsId(id) && op == [tag] + LengthOctets(|body|)
    requires ber == [0x30] + LengthOctets(|IdTlv(id)| + (|body| + |op|)) + IdTlv(id) + op + body
    ensures ber == Tlv(0x30, IdTlv(id) + Tlv(tag, body))
  {
    var i, content := IdTlv(id), IdTlv(id) + (op + body);
    assert Tlv(tag, body) == op + body;
    assert Tlv(0x30, content) == [0x30] + LengthOctets(|content|) + content;
    hide *;
    assert |content| == |i| + (|body| + |op|);
    Regroup4([0x30] + LengthOctets(|content|), i, op, body);
    Regroup(i, op, body);
  }

  lemma EnvelopeSizes(id: nat, tag: byte, body: seq<byte>)
    requires IsId(id)
    ensures |IdTlv(id)| + (1 + |LengthOctets(|body|)|) + |body| < |Tlv(0x30, IdTlv(id) + Tlv(tag, body))|
  {
  }

  method CreateId(tid: nat) returns (msg: seq<byte>)
    requires IsId(tid)
    ensures msg == IdTlv(tid)
  {
    var b := new Buffer(6);
    BerTidCreate(tid, b);
    msg := b.Written();
  }

  /** The running `sum` over the parts. */
  method TotalLength(parts: seq<seq<byte>>) returns (sum: nat)
    ensures sum == |Flatten(parts)|
  {
    sum := 0;
    var n := |parts|;
    while n > 0
      invariant 0 <= n <= |parts|
      invariant sum == |Flatten(parts[n..])|
    {
      n := n - 1;
      assert parts[n..][0] == parts[n] && parts[n..][1..] == parts[n + 1..];
      sum := sum + |parts[n]|;
    }
    assert parts[0..] == parts;
  }

  method CopyParts(b: Buffer, parts: seq<seq<byte>>)
    requires b.Valid() && |b.contents| + |Flatten(parts)| <= b.data.Length
    modifies b, b.data
    ensures b.Valid() && b.contents == old(b.contents) + Flatten(parts)
  {
    var n := 0;
    assert parts[0..] == parts;
    while n < |parts|
      invariant 0 <= n <= |parts| && b.Valid()
      invariant b.contents + Flatten(parts[n..]) == old(b.contents) + Flatten(parts)
    {
      assert parts[n..][0] == parts[n] && parts[n..][1..] == parts[n + 1..];
      Regroup(b.contents, parts[n], Flatten(parts[n + 1..]));
      b.Copy(parts[n]);
      n := n + 1;
    }
  }

  /** A list behind its SEQUENCE header, as b_attr and attrs are copied. */
  method Sequence(attrs: seq<byte>) returns (bytes: seq<byte>)
    requires |attrs| < LENGTH_LIMIT
    ensures bytes == Tlv(0x30, attrs)
  {
    var header := Header(0x30, |attrs|);
    bytes := header + attrs;
  }

  predicate CanSend(t: int, q: Request) {
    0 <= t <= 0x7FFF_FFFE && Sendable(NextIdNat(t), q)
  }

  lemma ListSmall(id: nat, q: Request, part: seq<byte>)
    requires Sendable(id, q) && !q.Delete? && part in OpParts(q)
    ensures |part| < LENGTH_LIMIT
  {
    FlattenContains(OpParts(q), part);
    EnvelopeSizes(id, OpTag(q), Flatten(OpParts(q)));
  }

  lemma {:induction false} FlattenContains(parts: seq<seq<byte>>, part: seq<byte>)
    requires part in parts
    ensures |part| <= |Flatten(parts)|
  {
    if parts[0] != part {
      FlattenContains(parts[1..], part);
    }
  }

  /** LDAP_gen_add_request on the output of LDAP_gen_ber_attrlist. */
  method GenAdd(ids: IdSource, dn: seq<byte>, attrs: seq<byte>, ghost list: seq<Attr>)
    returns (ber: seq<byte>, tid: nat)
    requires attrs == Attrs(list) && CanSend(ids.tid, Add(dn, list))
    modifies ids
    ensures IsId(tid) && tid == ids.tid == NextId(old(ids.tid)) && ber == MessageTlv(tid, Add(dn, list))
  {
    ListSmall(NextIdNat(ids.tid), Add(dn, list), Tlv(0x30, attrs));
    var attr := Sequence(attrs);
    var bDn := CreateDn(0x04, dn);
    ber, tid := Assemble(ids, 0x68, [bDn, attr]);
  }

  /** LDAP_gen_modify_request on the output of LDAP_gen_ber_modlist. */
  method GenModify(ids: IdSource, dn: seq<byte>, attrs: seq<byte>, ghost list: seq<Mod>)
    returns (ber: seq<byte>, tid: nat)
    requires attrs == Mods(list) && CanSend(ids.tid, Modify(dn, list))
    modifies ids
    ensures IsId(tid) && tid == ids.tid == NextId(old(ids.tid)) && ber == MessageTlv(tid, Modify(dn, list))
  {
    ListSmall(NextIdNat(ids.tid), Modify(dn, list), Tlv(0x30, attrs));
    var attr := Sequence(attrs);
    var bDn := CreateDn(0x04, dn);
    ber, tid := Assemble(ids, 0x66, [bDn, attr]);
  }

  /** LDAP_gen_moddn_request without a new superior. */
  method GenModDn(ids: IdSource, dn: seq<byte>, rdn: seq<byte>, deleteFlag: int) returns (ber: seq<byte>, tid: nat)
    requires CanSend(ids.tid, ModDn(dn, rdn, if deleteFlag == 1 then 1 else 0))
    modifies ids
    ensures IsId(tid) && tid == ids.tid == NextId(old(ids.tid))
    ensures ber == MessageTlv(tid, ModDn(dn, rdn, if deleteFlag == 1 then 1 else 0))
  {
    var bDn := CreateDn(0x04, dn);
    var bRdn := CreateDn(0x04, rdn);
    ber, tid := Assemble(ids, 0x6c, [bDn, bRdn, [1, 1, if deleteFlag == 1 then 1 else 0]]);
  }

  /** LDAP_gen_extended_common_request */
  method GenExtended(ids: IdSource, oid: seq<byte>, extAttr: seq<byte>) returns (ber: seq<byte>, tid: nat)
    requires CanSend(ids.tid, Extended(oid, extAttr))
    modifies ids
    ensures IsId(tid) && tid == ids.tid == NextId(old(ids.tid)) && ber == MessageTlv(tid, Extended(oid, extAttr))
  {
    ListSmall(NextIdNat(ids.tid), Extended(oid, extAttr), Tlv(0x80, oid));
    ListSmall(NextIdNat(ids.tid), Extended(oid, extAttr), Tlv(0x81, extAttr));
    var attrAll := Header(0x81, |extAttr|);
    var bOid := Header(0x80, |oid|);
    ber, tid := Assemble(ids, 0x77, [bOid + oid, attrAll + extAttr]);
  }

  /** LDAP_gen_delete_request, whose operation is one name with no header around it. */
  method GenDelete(ids: IdSource, dn: seq<byte>) returns (ber: seq<byte>, tid: nat)
    requires CanSend(ids.tid, Delete(dn))
    modifies ids
    ensures IsId(tid) && tid == ids.tid == NextId(old(ids.tid)) && ber == MessageTlv(tid, Delete(dn))
  {
    DeleteSizes(NextIdNat(ids.tid), dn);
    hide *;
    var bDel := CreateDn(0x4a, dn);
    var head;
    head, tid := LdapHead(ids, |bDel|);
    ber := head + bDel;
    DeleteJoin(ber, tid, dn);
  }

  lemma DeleteSizes(id: nat, dn: seq<byte>)
    requires Sendable(id, Delete(dn))
    ensures |IdTlv(id)| + |AliasedTlv(0x4a, dn)| < LENGTH_LIMIT
  {
  }

  lemma DeleteJoin(ber: seq<byte>, id: nat, dn: seq<byte>)
    requires IsId(id)
    requires ber == [0x30] + LengthOctets(|IdTlv(id)| + |AliasedTlv(0x4a, dn)|) + IdTlv(id) + AliasedTlv(0x4a, dn)
    ensures ber == MessageTlv(id, Delete(dn))
  {
    var i, d := IdTlv(id), AliasedTlv(0x4a, dn);
    var content := i + d;
    assert MessageTlv(id, Delete(dn)) == [0x30] + LengthOctets(|content|) + content;
    hide *;
    assert |content| == |i| + |d|;
    Regroup([0x30] + LengthOctets(|content|), i, d);
  }

  /** LDAP_gen_ber_string: attribute names with one length octet each. */
  method GenNames(names: seq<seq<byte>>, ber: Buffer)
    requires forall n :: n in names ==> |n| < MAX_NAME_LENGTH
    requires ber.Valid() && |ber.contents| + |Names(names)| <= ber.data.Length
    modifies ber, ber.data
    ensures ber.Valid() && ber.contents == old(ber.contents) + Names(names)
  {
    var i := 0;
    NamesStep(names, 0);
    assert Values(names[..0]) == [];
    hide Tlv, Values;
    while i < |names|
      invariant 0 <= i <= |names|
      invariant ber.Valid() && ber.contents == old(ber.contents) + Values(names[..i])
    {
      ValuesNext(names, i);
      NamesStep(names, i);
      PutShort(ber, 0x04, names[i]);
      i := i + 1;
    }
    assert names[..i] == names;
  }

  lemma NamesStep(names: seq<seq<byte>>, i: nat)
    requires forall n :: n in names ==> |n| < MAX_NAME_LENGTH
    ensures i < |names| ==> |names[i]| < 128 && |Tlv(0x04, names[i])| == 2 + |names[i]|
  {
  }

  /** How a search expression is read: nothing or a star asks for any object. */
  method GenFilter(expression: seq<byte>, ghost f: Filter) returns (bytes: seq<byte>)
    requires Valid(f) && Fits(f)
    requires Asks(expression, f)
    ensures bytes == Encode(f)
    ensures expression == [] || expression == [42] || expression == [40, 42, 41] ==>
              bytes == [0x87, 11, 111, 98, 106, 101, 99, 116, 67, 108, 97, 115, 115]
  {
    hide *;
    AsksIs(expression, f);
    var bFilt := new Buffer(BER_FILTER_BUFFER);
    if expression == [] || expression == [STAR] || expression == [LPAREN, STAR, RPAREN] {
      PutShort(bFilt, 0x87, FilterEncoder.OBJECT_CLASS);
    } else {
      var text := expression;
      TextStart(expression, f);
      if expression[0] == LPAREN {
        text := expression[1..];
        if text[|text| - 1] == RPAREN {
          text := text[..|text| - 1];
        }
      }
      TextFits(text, f);
      FilterEncoder.ProcessFilter(text, bFilt, f);
    }
    bytes := bFilt.Written();
  }

  /** The search expression `expression` asks for `f`: with or without the outer parentheses. */
  predicate Asks(expression: seq<byte>, f: Filter)
    requires Valid(f)
  {
    if expression == [] || expression == [STAR] || expression == [LPAREN, STAR, RPAREN] then
      f == Present(FilterEncoder.OBJECT_CLASS)
    else
      FilterEncoder.StandsFor(expression, f) || InParens(expression, f)
  }

  predicate InParens(expression: seq<byte>, f: Filter)
    requires Valid(f)
  {
    var n := |expression| - 1;
    n > 0 && expression[0] == LPAREN && expression[n] == RPAREN && FilterEncoder.StandsFor(expression[1..n], f)
  }

  lemma AsksIs(expression: seq<byte>, f: Filter)
    requires Valid(f) && Fits(f) && Asks(expression, f)
    ensures LPAREN == 40 && RPAREN == 41 && STAR == 42 && |Encode(f)| <= BER_FILTER_BUFFER
    ensures if expression == [] || expression == [42] || expression == [40, 42, 41]
            then Encode(f) == Tlv(0x87, FilterEncoder.OBJECT_CLASS) && |FilterEncoder.OBJECT_CLASS| == 11
            else FilterEncoder.StandsFor(expression, f) || InParens(expression, f)
    ensures Tlv(0x87, FilterEncoder.OBJECT_CLASS) == [0x87, 11, 111, 98, 106, 101, 99, 116, 67, 108, 97, 115, 115]
  {
    hide Body, LengthOctets;
    ShortTlv(0x87, FilterEncoder.OBJECT_CLASS);
  }

  /** An opening parenthesis in front is the outer one. */
  lemma TextStart(expression: seq<byte>, f: Filter)
    requires Valid(f) && (FilterEncoder.StandsFor(expression, f) || InParens(expression, f))
    ensures expression != []
    ensures expression[0] == LPAREN ==>
              var n := |expression| - 1;
              n > 1 && expression[1..][n - 1] == RPAREN
              && expression[1..][..n - 1] == expression[1..n] && FilterEncoder.StandsFor(expression[1..n], f)
    ensures expression[0] != LPAREN ==> FilterEncoder.StandsFor(expression, f)
  {
    if FilterEncoder.StandsFor(expression, f) {
      TextOpens(expression, f);
    } else {
      TextOpens(expression[1..|expression| - 1], f);
    }
  }

  lemma TextOpens(text: seq<byte>, f: Filter)
    requires Valid(f) && FilterEncoder.StandsFor(text, f)
    ensures text != [] && text[0] != LPAREN
  {
    if FilterEncoder.IsLeaf(f) {
      FilterEncoder.LeafShape(text, f);
      FilterEncoder.LeafParens(f);
      hide Body;
      assert text[0] in text;
    } else {
      FilterEncoder.CompoundBody(f);
    }
  }

  lemma TextFits(text: seq<byte>, f: Filter)
    requires Valid(f) && Fits(f) && FilterEncoder.StandsFor(text, f)
    ensures FilterEncoder.IsLeaf(f) ==> |text| < TEXT_BUFFER
  {
  }

  /** LDAP_gen_search_request */
  method GenSearch(ids: IdSource, dn: seq<byte>, scope: byte, expression: seq<byte>, attrs: seq<byte>, deref: byte,
                   ghost f: Filter, ghost names: seq<seq<byte>>)
    returns (ber: seq<byte>, tid: nat)
    requires attrs == Names(names) && Valid(f) && Fits(f) && Asks(expression, f)
    requires CanSend(ids.tid, Search(dn, scope, deref, f, names))
    modifies ids
    ensures IsId(tid) && tid == ids.tid == NextId(old(ids.tid))
    ensures ber == MessageTlv(tid, Search(dn, scope, deref, f, names))
    ensures var m := |ber| - |Tlv(0x30, Names(names))| - |Encode(f)| - 15;
            && m >= |AliasedTlv(0x04, dn)| && ber[m - |AliasedTlv(0x04, dn)|..m] == AliasedTlv(0x04, dn)
            && ber[m..m + 3] == [0x0a, 1, scope] && ber[m + 3..m + 6] == [0x0a, 1, deref]
            && ber[m + 6..m + 9] == [0x02, 1, 0] && ber[m + 9..m + 12] == [0x02, 1, 0]
            && ber[m + 12..m + 15] == [0x01, 1, 0]
  {
    hide *;
    ghost var q := Search(dn, scope, deref, f, names);
    SearchReady(ids.tid, q);
    FlagsAre(scope, deref);
    var attr := Sequence(attrs);
    var filt := GenFilter(expression, f);
    var bDn := CreateDn(0x04, dn);
    var s: seq<byte>, alias: seq<byte> := [0x0a, 1, scope], [0x0a, 1, deref];
    var size: seq<byte>, time: seq<byte>, types: seq<byte> := [0x02, 1, 0], [0x02, 1, 0], [0x01, 1, 0];
    ber, tid := Assemble(ids, 0x63, [bDn, s + alias + size + time + types, filt, attr]);
    SearchIs(tid, q);
    SearchFields(ber, tid, dn, scope, deref, f, names);
  }

  lemma SearchReady(t: int, q: Request)
    requires q.Search? && CanSend(t, q)
    ensures 0 <= t <= 0x7FFF_FFFE && |Names(q.names)| < LENGTH_LIMIT
    ensures var parts := [AliasedTlv(0x04, q.dn), SearchFlags(q.scope, q.deref), Encode(q.filter), Tlv(0x30, Names(q.names))];
            |Tlv(0x30, IdTlv(NextIdNat(t)) + Tlv(0x63, Flatten(parts)))| < LENGTH_LIMIT
  {
    ListSmall(NextIdNat(t), q, Tlv(0x30, Names(q.names)));
  }

  lemma SearchIs(id: nat, q: Request)
    requires q.Search? && IsId(id)
    ensures id >= 1
    ensures var parts := [AliasedTlv(0x04, q.dn), SearchFlags(q.scope, q.deref), Encode(q.filter), Tlv(0x30, Names(q.names))];
            MessageTlv(id, q) == Tlv(0x30, IdTlv(id) + Tlv(0x63, Flatten(parts)))
  {
  }

  lemma FlagsAre(scope: byte, deref: byte)
    ensures SearchFlags(scope, deref) == [0x0a, 1, scope] + [0x0a, 1, deref] + [0x02, 1, 0] + [0x02, 1, 0] + [0x01, 1, 0]
  {
  }

}
