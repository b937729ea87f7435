/** Search filters: their text (RFC 4515), their BER form (RFC 4511 section 4.5.1) and their limits. */
module FilterSpec {
  import opened Bytes
  import opened Ber

  const AMP: byte := 38
  const LPAREN: byte := 40
  const RPAREN: byte := 41
  const STAR: byte := 42
  const COLON: byte := 58
  const LESS: byte := 60
  const EQUALS: byte := 61
  const GREATER: byte := 62
  const BANG: byte := 33
  const BAR: byte := 124
  const TILDE: byte := 126

  /** Size of the text buffer each subexpression is copied to (with its terminator). */
  const TEXT_BUFFER := 128
  /** Size of the buffers an encoded filter and the body of a compound are built in. */
  const BER_FILTER_BUFFER := 1024
  /** Size of the decoder's copy of a nested filter (with a terminator). */
  const TEMP_BUFFER := 512
  /** Size of the printer's buffer for a nested filter (with a terminator). */
  const PRINT_BUFFER := 256

  datatype Op = Equal | GreaterOrEqual | LessOrEqual | Approx

  datatype Part = Initial(v: seq<byte>) | Any(v: seq<byte>) | Final(v: seq<byte>)

  datatype Filter =
    | And(fs: seq<Filter>)
    | Or(fs: seq<Filter>)
    | Not(f: Filter)
    | Compare(op: Op, name: seq<byte>, value: seq<byte>)
    | Present(name: seq<byte>)
    | Substring(name: seq<byte>, parts: seq<Part>)

  // ---- Text ----

  function OpText(op: Op): seq<byte> {
    match op
    case Equal => [EQUALS]
    case GreaterOrEqual => [GREATER, EQUALS]
    case LessOrEqual => [LESS, EQUALS]
    case Approx => [TILDE, EQUALS]
  }

  /** The assertion text of a one-star substring match. */
  function PartsText(parts: seq<Part>): seq<byte>
    requires OneStar(parts)
  {
    if |parts| == 2 then parts[0].v + [STAR] + parts[1].v
    else if parts[0].Initial? then parts[0].v + [STAR]
    else [STAR] + parts[0].v
  }

  predicate OneStar(parts: seq<Part>) {
    || (|parts| == 1 && !parts[0].Any?)
    || (|parts| == 2 && parts[0].Initial? && parts[1].Final?)
  }

  /** A filter's text without the parentheses around it. */
  function Body(f: Filter): seq<byte>
    requires Valid(f)
    decreases f, 1
  {
    match f
    case And(fs) => [AMP] + Bodies(fs)
    case Or(fs) => [BAR] + Bodies(fs)
    case Not(g) => [BANG] + Printed(g)
    case Compare(op, name, value) => name + OpText(op) + value
    case Present(name) => name + [EQUALS, STAR]
    case Substring(name, parts) => name + [EQUALS] + PartsText(parts)
  }

  function Printed(f: Filter): seq<byte>
    requires Valid(f)
    decreases f, 2
  {
    [LPAREN] + Body(f) + [RPAREN]
  }

  function Bodies(fs: seq<Filter>): seq<byte>
    requires AllValid(fs)
    decreases fs, 0
  {
    if fs == [] then [] else Printed(fs[0]) + Bodies(fs[1..])
  }

  /** Attribute descriptions: none of the characters the syntax gives a meaning to. */
  predicate NameOk(s: seq<byte>) {
    && s != []
    && s[0] !in {AMP, BAR, BANG}
    && forall c :: c in s ==> c !in {0, LPAREN, RPAREN, STAR, EQUALS, LESS, GREATER, TILDE, COLON}
  }

  /** Assertion values: no NUL, parenthesis or star, and no operator inside. `=`, `&` and the like are allowed. */
  predicate ValueOk(s: seq<byte>) {
    && s != []
    && (forall c :: c in s ==> c !in {0, LPAREN, RPAREN, STAR})
    && forall c :: c in {LESS, GREATER, TILDE, COLON} ==> !HasPair(s, c)
  }

  /** `c` directly followed by `=`. */
  predicate HasPair(s: seq<byte>, c: byte) {
    exists i :: 0 <= i < |s| - 1 && s[i] == c && s[i + 1] == EQUALS
  }

  predicate Valid(f: Filter)
    decreases f, 1
  {
    match f
    case And(fs) => AllValid(fs)
    case Or(fs) => AllValid(fs)
    case Not(g) => Valid(g)
    case Compare(_, name, value) => NameOk(name) && ValueOk(value)
    case Present(name) => NameOk(name)
    case Substring(name, parts) =>
      NameOk(name) && OneStar(parts) && forall p :: p in parts ==> ValueOk(p.v)
  }

  predicate AllValid(fs: seq<Filter>)
    decreases fs, 0
  {
    fs == [] || (Valid(fs[0]) && AllValid(fs[1..]))
  }

  /** Every text the encoder copies to a buffer fits it, and so does the encoded result. */
  predicate Fits(f: Filter)
    requires Valid(f)
  {
    |Encode(f)| <= BER_FILTER_BUFFER && TextsFit(f)
  }

  predicate TextsFit(f: Filter)
    requires Valid(f)
  {
    match f
    case And(fs) => ChildrenFit(fs)
    case Or(fs) => ChildrenFit(fs)
    case Not(g) => |Body(g)| < TEXT_BUFFER
    case _ => |Body(f)| < TEXT_BUFFER
  }

  predicate ChildrenFit(fs: seq<Filter>)
    requires AllValid(fs)
  {
    fs == [] || (|Body(fs[0])| < TEXT_BUFFER && ChildrenFit(fs[1..]))
  }

  // ---- BER ----

  function Tag(f: Filter): byte {
    match f
    case And(_) => 0xa0
    case Or(_) => 0xa1
    case Not(_) => 0xa2
    case Compare(op, _, _) =>
      (match op case Equal => 0xa3 case GreaterOrEqual => 0xa5 case LessOrEqual => 0xa6 case Approx => 0xa8)
    case Substring(_, _) => 0xa4
    case Present(_) => 0x87
  }

  function PartTlv(p: Part): seq<byte> {
    match p
    case Initial(v) => Tlv(0x80, v)
    case Any(v) => Tlv(0x81, v)
    case Final(v) => Tlv(0x82, v)
  }

  function PartsTlv(parts: seq<Part>): seq<byte> {
    if parts == [] then [] else PartTlv(parts[0]) + PartsTlv(parts[1..])
  }

  /** The substring sequence as the encoder writes it: one length octet, whatever the length. */
  function PartsSequence(parts: seq<Part>): seq<byte> {
    [0x30, Octet(|PartsTlv(parts)|)] + PartsTlv(parts)
  }

  function Content(f: Filter): seq<byte>
    decreases f, 1
  {
    match f
    case And(fs) => EncodeAll(fs)
    case Or(fs) => EncodeAll(fs)
    case Not(g) => Encode(g)
    case Compare(_, name, value) => Tlv(0x04, name) + Tlv(0x04, value)
    case Present(name) => name
    case Substring(name, parts) => Tlv(0x04, name) + PartsSequence(parts)
  }

  function Encode(f: Filter): (s: seq<byte>)
    ensures |s| >= 2
    decreases f, 2
  {
    Tlv(Tag(f), Content(f))
  }

  function EncodeAll(fs: seq<Filter>): seq<byte>
    decreases fs, 0
  {
    if fs == [] then [] else Encode(fs[0]) + EncodeAll(fs[1..])
  }

  // ---- What the decoder recovers ----

  /**
   The decoder's list loop runs while its index is at most the length read, although the list ends
   one header later: it reaches the last child only when that child is at least as long as the header.
   */
  predicate LastFits(fs: seq<Filter>) {
    fs == [] || |Encode(fs[|fs| - 1])| >= 1 + |LengthOctets(|EncodeAll(fs)|)|
  }

  predicate AllLastFit(f: Filter)
    decreases f, 1
  {
    match f
    case And(fs) => LastFits(fs) && EachLastFits(fs)
    case Or(fs) => LastFits(fs) && EachLastFits(fs)
    case Not(g) => AllLastFit(g)
    case _ => true
  }

  predicate EachLastFits(fs: seq<Filter>)
    decreases fs, 0
  {
    fs == [] || (AllLastFit(fs[0]) && EachLastFits(fs[1..]))
  }

  /** The tree left when every list loses a last child shorter than the list's header. */
  function Trim(f: Filter): Filter
    decreases f, 1
  {
    match f
    case And(fs) => And(Kept(fs, TrimAll(fs)))
    case Or(fs) => Or(Kept(fs, TrimAll(fs)))
    case Not(g) => Not(Trim(g))
    case _ => f
  }

  function TrimAll(fs: seq<Filter>): (ts: seq<Filter>)
    ensures |ts| == |fs|
    decreases fs, 0
  {
    if fs == [] then [] else [Trim(fs[0])] + TrimAll(fs[1..])
  }

  function Kept(fs: seq<Filter>, ts: seq<Filter>): seq<Filter>
    requires |ts| == |fs|
  {
    if LastFits(fs) then ts else ts[..|ts| - 1]
  }

  // ---- Lemmas ----

  lemma PrintedIs(f: Filter)
    requires Valid(f)
    ensures Printed(f) == [LPAREN] + Body(f) + [RPAREN] && |Printed(f)| == |Body(f)| + 2
  {
    hide Body;
  }

  lemma {:induction false} AllValidAt(fs: seq<Filter>)
    ensures AllValid(fs) <==> forall i :: 0 <= i < |fs| ==> Valid(fs[i])
  {
    if fs != [] {
      AllValidAt(fs[1..]);
      if forall i :: 0 <= i < |fs| ==> Valid(fs[i]) {
        forall i | 0 <= i < |fs[1..]| ensures Valid(fs[1..][i]) {
          assert fs[1..][i] == fs[i + 1];
        }
      } else if AllValid(fs) {
        forall i | 0 <= i < |fs| ensures Valid(fs[i]) {
          if i > 0 { assert fs[i] == fs[1..][i - 1]; }
        }
      }
    }
  }

  lemma {:induction false} ChildFits(fs: seq<Filter>, n: nat)
    requires AllValid(fs) && ChildrenFit(fs) && n < |fs|
    ensures Valid(fs[n]) && |Body(fs[n])| < TEXT_BUFFER
  {
    if n > 0 {
      ChildFits(fs[1..], n - 1);
    }
  }

  lemma {:induction false} EncodeAllSplit(fs: seq<Filter>, n: nat)
    requires n <= |fs|
    ensures EncodeAll(fs) == EncodeAll(fs[..n]) + EncodeAll(fs[n..])
  {
    hide Encode;
    if n == 0 {
      assert fs[n..] == fs;
    } else {
      EncodeAllSplit(fs[1..], n - 1);
      assert fs[..n][1..] == fs[1..][..n - 1];
      assert fs[1..][n - 1..] == fs[n..];
    }
  }

  lemma EncodeAllNext(fs: seq<Filter>, n: nat)
    requires n < |fs|
    ensures EncodeAll(fs[..n + 1]) == EncodeAll(fs[..n]) + Encode(fs[n])
  {
    hide Encode;
    EncodeAllSplit(fs[..n + 1], n);
    assert fs[..n + 1][..n] == fs[..n];
    assert fs[..n + 1][n..] == [fs[n]];
    assert EncodeAll([fs[n]]) == Encode(fs[n]) + EncodeAll([]);
  }

  lemma {:induction false} BodiesSplit(fs: seq<Filter>, n: nat)
    requires AllValid(fs) && n <= |fs|
    ensures AllValid(fs[..n]) && AllValid(fs[n..])
    ensures Bodies(fs) == Bodies(fs[..n]) + Bodies(fs[n..])
  {
    hide Body, Valid;
    if n == 0 {
      assert fs[n..] == fs;
    } else {
      BodiesSplit(fs[1..], n - 1);
      assert fs[..n][1..] == fs[1..][..n - 1];
      assert fs[1..][n - 1..] == fs[n..];
    }
  }

  lemma BodiesOne(f: Filter)
    requires AllValid([f])
    ensures Valid(f) && Bodies([f]) == Printed(f)
  {
    assert Bodies([f]) == Printed(f) + Bodies([]);
  }

  lemma BodiesNext(fs: seq<Filter>, n: nat)
    requires AllValid(fs) && n < |fs|
    ensures AllValid(fs[..n]) && AllValid(fs[..n + 1]) && Valid(fs[n])
    ensures Bodies(fs[..n + 1]) == Bodies(fs[..n]) + Printed(fs[n])
  {
    hide Body, Valid;
    BodiesSplit(fs, n + 1);
    var head := fs[..n + 1];
    BodiesSplit(head, n);
    assert head[..n] == fs[..n];
    assert head[n..] == [fs[n]];
    BodiesOne(fs[n]);
  }

  lemma {:induction false} TrimAllAt(fs: seq<Filter>, n: nat)
    requires n < |fs|
    ensures TrimAll(fs)[n] == Trim(fs[n])
  {
    if n > 0 {
      TrimAllAt(fs[1..], n - 1);
    }
  }

  lemma SmallLengths(n: nat)
    ensures n < 128 ==> |LengthOctets(n)| == 1
    ensures n < 256 ==> |LengthOctets(n)| <= 2
    ensures n < 0x1_0000 ==> |LengthOctets(n)| <= 3
  {
    DigitsBound(n);
  }

  /** A nested filter's encoding is at most four times as long as its text. */
  lemma {:induction false} EncodeSize(f: Filter)
    requires Valid(f) && |Body(f)| < TEXT_BUFFER
    ensures |Encode(f)| <= 4 * |Body(f)|
    decreases f, 1
  {
    match f
    case And(fs) =>
      EncodeAllSize(fs);
      SmallLengths(|Content(f)|);
    case Or(fs) =>
      EncodeAllSize(fs);
      SmallLengths(|Content(f)|);
    case Not(g) =>
      EncodeSize(g);
      SmallLengths(|Content(f)|);
    case Compare(_, name, value) =>
      SmallLengths(|name|);
      SmallLengths(|value|);
      SmallLengths(|Content(f)|);
    case Present(_) =>
      SmallLengths(|Content(f)|);
    case Substring(name, parts) =>
      SmallLengths(|name|);
      PartsSize(parts);
      SmallLengths(|Content(f)|);
  }

  lemma {:induction false} EncodeAllSize(fs: seq<Filter>)
    requires AllValid(fs) && |Bodies(fs)| < TEXT_BUFFER
    ensures |EncodeAll(fs)| <= 4 * |Bodies(fs)|
    decreases fs, 0
  {
    if fs != [] {
      EncodeSize(fs[0]);
      EncodeAllSize(fs[1..]);
    }
  }

  /** The one or two parts of a short substring filter, written out. */
  lemma PartsSize(parts: seq<Part>)
    requires OneStar(parts) && |PartsText(parts)| < TEXT_BUFFER
    ensures PartsTlv(parts) == if |parts| == 1 then PartTlv(parts[0]) else PartTlv(parts[0]) + PartTlv(parts[1])
    ensures |PartsTlv(parts)| == |PartsText(parts)| + if |parts| == 1 then 1 else 3
  {
    assert PartsTlv(parts[1..]) == if |parts| == 1 then [] else PartTlv(parts[1]) + PartsTlv(parts[2..]);
    assert forall p :: p in parts ==> |PartTlv(p)| == 2 + |p.v|;
  }
}
