/** Printed XML trees, and what the walker finds in them. */
module XmlTree {
  import opened Bytes
  import opened Xml

  // ---- Trees and their text ----

  /** An attribute: the white space in front of it, and around its '='. */
  datatype Attribute = Attribute(gap: string, name: string, left: string, right: string, value: string, quote: char)

  /** The attributes of an element, and the white space its tag and its closing tag end in. */
  datatype Attributes = Attributes(list: seq<Attribute>, behind: string, close: string)

  /** The content of an element: text, comments and elements in order. */
  datatype Items =
    | End
    | Text(text: string, rest: Items)
    | Comment(text: string, rest: Items)
    | Element(name: string, attrs: Attributes, empty: bool, body: Items, rest: Items)

  /** Blanks, line breaks, tabs and carriage returns. */
  predicate White(s: string) {
    forall k :: 0 <= k < |s| ==> s[k] == ' ' || s[k] == '\n' || s[k] == '\t' || s[k] == '\r'
  }

  /** The name in a tag ends where it should. */
  predicate TagName(n: string) {
    n != "" && forall k :: 0 <= k < |n| ==> n[k] !in {' ', '\n', '\t', '\r', '<', '>', '/'}
  }

  /** Names do not look like a comment or a prolog. */
  predicate NameOk(n: string) {
    TagName(n) && n[0] != '!' && n != "?xml"
  }

  predicate AttributeOk(a: Attribute) {
    && a.gap != "" && White(a.gap) && White(a.left) && White(a.right)
    && a.name != "" && (a.quote == '"' || a.quote == '\'')
    && (forall k :: 0 <= k < |a.name| ==> a.name[k] !in {' ', '\n', '\t', '\r', '=', '>'})
    && (forall k :: 0 <= k < |a.value| ==> a.value[k] != '>' && a.value[k] != a.quote)
  }

  predicate AttributesOk(attrs: Attributes) {
    White(attrs.behind) && White(attrs.close) && forall a :: a in attrs.list ==> AttributeOk(a)
  }

  /** A comment ends at its own end. */
  predicate CommentOk(c: string) {
    var s := "<!--" + c + "-->";
    forall k :: 4 <= k < |s| - 1 ==> !Hits(CommentEnd, s, k)
  }

  predicate ItemsOk(items: Items) {
    match items
    case End => true
    case Text(t, rest) => (forall k :: 0 <= k < |t| ==> t[k] != '<') && ItemsOk(rest)
    case Comment(c, rest) => CommentOk(c) && ItemsOk(rest)
    case Element(name, attrs, empty, body, rest) =>
      && NameOk(name) && AttributesOk(attrs) && (empty ==> body == End)
      && ItemsOk(body) && ItemsOk(rest)
  }

  function PrintAttribute(a: Attribute): string {
    a.name + a.left + "=" + a.right + [a.quote] + a.value + [a.quote]
  }

  /** The attributes of a list, each behind its white space. */
  function PrintList(list: seq<Attribute>): string {
    if list == [] then "" else list[0].gap + PrintAttribute(list[0]) + PrintList(list[1..])
  }

  function PrintAttributes(attrs: Attributes): string {
    PrintList(attrs.list) + attrs.behind
  }

  function OpenTag(name: string, attrs: Attributes): string {
    "<" + name + PrintAttributes(attrs) + ">"
  }

  function EmptyTag(name: string, attrs: Attributes): string {
    "<" + name + PrintAttributes(attrs) + "/>"
  }

  function CloseTag(name: string, behind: string): string {
    "</" + name + behind + ">"
  }

  function Print(items: Items): string
    decreases items, 1
  {
    match items
    case End => ""
    case Text(t, rest) => t + Print(rest)
    case Comment(c, rest) => "<!--" + c + "-->" + Print(rest)
    case Element(name, attrs, empty, body, rest) => PrintElement(name, attrs, empty, body) + Print(rest)
  }

  function PrintElement(name: string, attrs: Attributes, empty: bool, body: Items): string
    decreases body, 2
  {
    if empty then EmptyTag(name, attrs) else OpenTag(name, attrs) + Print(body) + CloseTag(name, attrs.close)
  }

  /** The content without its leading text, as the walker reports it. */
  function Trimmed(items: Items): Items {
    match items
    case Text(_, rest) => Trimmed(rest)
    case _ => items
  }

  function LeadingText(items: Items): string {
    match items
    case Text(t, rest) => t + LeadingText(rest)
    case _ => ""
  }

  lemma {:induction false} LeadingSplit(items: Items)
    requires ItemsOk(items)
    ensures Print(items) == LeadingText(items) + Print(Trimmed(items))
    ensures forall k :: 0 <= k < |LeadingText(items)| ==> LeadingText(items)[k] != '<'
    ensures ItemsOk(Trimmed(items))
    ensures var kept := Print(Trimmed(items));
            Trimmed(items) == End || (|kept| >= 2 && kept[0] == '<' && kept[1] != '/')
  {
    match items
    case Text(t, rest) =>
      LeadingSplit(rest);
      assert t + (LeadingText(rest) + Print(Trimmed(rest))) == t + LeadingText(rest) + Print(Trimmed(rest));
    case Element(name, attrs, empty, body, rest) =>
      ElementBegins(name, attrs, empty, body);
    case _ =>
  }

  lemma ElementBegins(name: string, attrs: Attributes, empty: bool, body: Items)
    ensures var e := PrintElement(name, attrs, empty, body); |e| >= 2 && e[0] == '<' && (name != "" ==> e[1] == name[0])
  {
    var e := PrintElement(name, attrs, empty, body);
    if empty {
      Begins(name, PrintAttributes(attrs) + "/>");
      assert e == "<" + name + (PrintAttributes(attrs) + "/>");
    } else {
      var more := Print(body) + CloseTag(name, attrs.close);
      Begins(name, PrintAttributes(attrs) + ">" + more);
      assert e == "<" + name + (PrintAttributes(attrs) + ">" + more);
    }
  }

  lemma Begins(name: string, tail: string)
    requires tail != ""
    ensures var s := "<" + name + tail; |s| >= 2 && s[0] == '<' && (name != "" ==> s[1] == name[0])
  {
  }

  // ---- Reading at a position ----

  /** A scan passes a stretch it does not stop in. */
  lemma {:induction false} FirstSkips(m: Mark, data: string, i: nat, j: nat)
    requires i <= j <= |data| && forall k :: i <= k < j ==> !Hits(m, data, k)
    ensures First(m, data, i) == First(m, data, j)
    decreases j - i
  {
    if i < j {
      FirstSkips(m, data, i + 1, j);
    }
  }

  // ---- One printed tag ----

  lemma WhiteIs(s: string)
    ensures White(s) <==> forall k :: 0 <= k < |s| ==> IsSpace(s[k])
  {
  }

  /** What stands between a name and the end of its tag: no '>', white space in front and no '/' at the end. */
  predicate AttributesText(t: string) {
    && (forall k :: 0 <= k < |t| ==> t[k] != '>')
    && (t != "" ==> (t[0] == ' ' || t[0] == '\n' || t[0] == '\t' || t[0] == '\r') && t[|t| - 1] != '/')
  }

  /** How far the white space in front reaches. */
  predicate Leads(t: string, n: nat) {
    n <= |t| && White(t[..n]) && (n < |t| ==> !IsSpace(t[n]))
  }

  lemma {:induction false} ListText(list: seq<Attribute>)
    requires forall a :: a in list ==> AttributeOk(a)
    ensures AttributesText(PrintList(list))
    ensures list != [] ==> Leads(PrintList(list), |list[0].gap|) && PrintList(list) != ""
  {
    if list != [] {
      assert AttributeOk(list[0]);
      ListText(list[1..]);
      AttributeText(list[0]);
      TextsJoined(list[0].gap, PrintAttribute(list[0]), PrintList(list[1..]));
    }
  }

  /** White space, an attribute and more attributes, or nothing. */
  lemma TextsJoined(gap: string, p: string, rest: string)
    requires gap != "" && White(gap) && p != "" && !IsSpace(p[0]) && p[|p| - 1] != '/'
    requires (forall k :: 0 <= k < |p| ==> p[k] != '>') && AttributesText(rest)
    ensures AttributesText(gap + p + rest) && Leads(gap + p + rest, |gap|)
  {
    var t := gap + p + rest;
    assert t[..|gap|] == gap && t[0] == gap[0] && t[|gap|] == p[0];
    assert t[|t| - 1] == if rest == "" then p[|p| - 1] else rest[|rest| - 1];
  }

  lemma AttributesTextOk(attrs: Attributes)
    requires AttributesOk(attrs)
    ensures AttributesText(PrintAttributes(attrs))
    ensures Leads(PrintAttributes(attrs), LeadOf(attrs))
  {
    ListText(attrs.list);
    hide PrintList;
    BlankBehind(PrintList(attrs.list), attrs.behind, if attrs.list == [] then 0 else |attrs.list[0].gap|);
    if attrs.list == [] {
      assert PrintList([]) == "";
    }
  }

  lemma BlankBehind(t: string, behind: string, n: nat)
    requires AttributesText(t) && White(behind) && Leads(t, n)
    ensures AttributesText(t + behind)
    ensures t != "" && n < |t| ==> Leads(t + behind, n)
    ensures t == "" ==> Leads(t + behind, |behind|)
  {
    var s := t + behind;
    if t == "" {
      assert s == behind && s[..|behind|] == behind;
    } else {
      assert s[0] == t[0];
      assert s[|s| - 1] == if behind == "" then t[|t| - 1] else behind[|behind| - 1];
      if n < |t| {
        assert s[..n] == t[..n] && s[n] == t[n];
      }
    }
  }

  /** Where the first attribute begins, or the end of the tag. */
  function LeadOf(attrs: Attributes): nat {
    if attrs.list == [] then |attrs.behind| else |attrs.list[0].gap|
  }

  lemma AttributeText(a: Attribute)
    requires AttributeOk(a)
    ensures var p := PrintAttribute(a);
            && |p| >= 2 && !IsSpace(p[0]) && p[|p| - 1] != '/' && forall k :: 0 <= k < |p| ==> p[k] != '>'
  {
    var p := PrintAttribute(a);
    assert p[0] == a.name[0];
    WhiteIs(a.left);
    WhiteIs(a.right);
    assert forall k :: 0 <= k < |a.left| ==> a.left[k] != '>';
    assert forall k :: 0 <= k < |a.right| ==> a.right[k] != '>';
  }

  /** Where the parts of a printed tag lie. */
  lemma TagParts(data: string, i: nat, name: string, attrs: string, lead: nat, tail: string)
    requires TagName(name) && AttributesText(attrs) && Leads(attrs, lead) && (tail == ">" || tail == "/>")
    requires At(data, i, "<" + name + attrs + tail)
    ensures var p := i + 1 + |name|;
            var t := p + |attrs|;
            && t < |data| && data[i] == '<' && data[i + 1] == name[0]
            && First(NameStop, data, i + 1) == p && First(NonSpace, data, p) == p + lead
            && First(TagStop, data, p + lead) == t
            && data[t] == tail[0] && data[i + 1..p] == name
  {
    hide *;
    var p := i + 1 + |name|;
    var t := p + |attrs|;
    TagNotEmpty(name);
    AtSplit(data, i, "<" + name + attrs, tail);
    AtSplit(data, i, "<" + name, attrs);
    AtSplit(data, i, "<", name);
    AtSlice(data, i + 1, name);
    AtIndex(data, i, "<", 0);
    AtIndex(data, i + 1, name, 0);
    AtIndex(data, t, tail, 0);
    AtBounds(data, t, tail);
    if tail == "/>" {
      AtIndex(data, t, tail, 1);
    }
    forall k | 0 <= k < |name|
      ensures data[i + 1 + k] == name[k]
    {
      AtIndex(data, i + 1, name, k);
    }
    forall k | 0 <= k < |attrs|
      ensures data[p + k] == attrs[k]
    {
      AtIndex(data, p, attrs, k);
    }
    NameStops(data, i + 1, p, name, attrs, tail);
    LeadStops(data, p, t, attrs, lead, tail);
    AttributesStop(data, p, t, attrs, lead, tail);
  }

  lemma TagNotEmpty(name: string)
    requires TagName(name)
    ensures name != ""
  {
  }

  lemma NameStops(data: string, b: nat, p: nat, name: string, attrs: string, tail: string)
    requires TagName(name) && AttributesText(attrs) && (tail == ">" || tail == "/>")
    requires p == b + |name| && p + |attrs| + |tail| <= |data|
    requires forall k :: 0 <= k < |name| ==> data[b + k] == name[k]
    requires forall k :: 0 <= k < |attrs| ==> data[p + k] == attrs[k]
    requires data[p + |attrs|] == tail[0] && (tail == "/>" ==> data[p + |attrs| + 1] == '>')
    ensures First(NameStop, data, b) == p
  {
    hide First;
    forall k | b <= k < p
      ensures !Hits(NameStop, data, k)
    {
      assert data[b + (k - b)] == name[k - b];
    }
    assert attrs != "" ==> data[p + 0] == attrs[0];
    FirstIs(NameStop, data, b, p);
  }

  /** The white space behind a name. */
  lemma LeadStops(data: string, p: nat, t: nat, attrs: string, lead: nat, tail: string)
    requires Leads(attrs, lead) && (tail == ">" || tail == "/>")
    requires t == p + |attrs| && t + |tail| <= |data| && data[t] == tail[0]
    requires forall k :: 0 <= k < |attrs| ==> data[p + k] == attrs[k]
    ensures lead <= |attrs| && First(NonSpace, data, p) == p + lead
  {
    hide First;
    WhiteIs(attrs[..lead]);
    forall k | p <= k < p + lead
      ensures !Hits(NonSpace, data, k)
    {
      assert data[p + (k - p)] == attrs[k - p] == attrs[..lead][k - p];
    }
    assert lead < |attrs| ==> data[p + lead] == attrs[lead];
    FirstIs(NonSpace, data, p, p + lead);
  }

  lemma AttributesStop(data: string, p: nat, t: nat, attrs: string, lead: nat, tail: string)
    requires AttributesText(attrs) && lead <= |attrs| && (tail == ">" || tail == "/>")
    requires t == p + |attrs| && t + |tail| <= |data|
    requires forall k :: 0 <= k < |attrs| ==> data[p + k] == attrs[k]
    requires data[t] == tail[0] && (tail == "/>" ==> data[t + 1] == '>')
    ensures First(TagStop, data, p + lead) == t
  {
    hide First;
    if attrs != "" {
      assert data[p + (|attrs| - 1)] == attrs[|attrs| - 1];
    }
    forall k | p + lead <= k < t
      ensures !Hits(TagStop, data, k)
    {
      assert data[p + (k - p)] == attrs[k - p];
      if k + 1 < t {
        assert data[p + (k + 1 - p)] == attrs[k + 1 - p];
      }
    }
    FirstIs(TagStop, data, p + lead, t);
  }

  // ---- What the walker finds ----

  lemma SkipAtTag(data: string, i: nat, c: char)
    requires i + 1 < |data| && data[i] == '<' && data[i + 1] == c && c != '!'
    ensures Skip(data, i) == TagAt(i)
  {
    FirstIs(Opening, data, i, i);
    NotComment(data, i);
  }

  lemma NotComment(data: string, i: nat)
    requires i + 1 < |data| && data[i + 1] != '!'
    ensures !At(data, i, "<!--")
  {
    if At(data, i, "<!--") {
      AtIndex(data, i, "<!--", 1);
    }
  }

  /** The tag at j, from where its parts lie. */
  lemma TagFromParts(data: string, j: nat, p: nat, a: nat, t: nat, c: nat)
    requires j + 1 < p < |data| && First(NameStop, data, j + 1) == p
    requires First(NonSpace, data, p) == a && First(TagStop, data, a) == t < |data|
    ensures data[t] != '>' ==>
              TagFrom(data, j) == Found(Tag(j + 1, p - (j + 1), true, a, t - a, -1, 0, t + 2))
    ensures data[t] == '>' && data[j + 1] == '/' ==>
              TagFrom(data, j) == Found(Tag(j + 1, p - (j + 1), false, a, t - a, -1, 0, t + 1))
    ensures data[t] == '>' && data[j + 1] != '/' && First(NextTag, data, t + 1) == c < |data| && data[c + 1] == '/' ==>
              TagFrom(data, j) == Found(Tag(j + 1, p - (j + 1), false, a, t - a, t + 1, c - (t + 1), c))
    ensures data[t] == '>' && data[j + 1] != '/' && First(NextTag, data, t + 1) == c < |data| && data[c + 1] != '/' ==>
              TagFrom(data, j) == Found(Tag(j + 1, p - (j + 1), false, a, t - a, -1, 0, c))
  {
  }

  lemma FoundAt(data: string, i: nat, c: char)
    requires i + 1 < |data| && data[i] == '<' && data[i + 1] == c && c != '!'
    ensures FindTag(data, i) == TagFrom(data, i)
  {
    SkipAtTag(data, i, c);
    hide First, Skip, TagFrom;
  }

  lemma NameFirst(name: string)
    requires NameOk(name)
    ensures name != "" && name[0] != '!' && name[0] != '/' && TagName(name)
  {
  }

  /** A self-closing element. */
  lemma EmptyFound(data: string, i: nat, name: string, attrs: Attributes)
    requires NameOk(name) && AttributesOk(attrs) && At(data, i, EmptyTag(name, attrs))
    ensures var f := FindTag(data, i);
            && f.Found? && f.tag.closed && f.tag.next == i + |EmptyTag(name, attrs)| && f.tag.content == -1
            && Name(data, f.tag) == name && IsTagOf(data, f.tag, i, name, attrs)
  {
    hide *;
    var s := PrintAttributes(attrs);
    PrintedTags(name, attrs);
    AttributesTextOk(attrs);
    NameFirst(name);
    TagParts(data, i, name, s, LeadOf(attrs), "/>");
    AttributesRead(data, i, name, attrs, "/>");
    FoundAt(data, i, name[0]);
    var p := i + 1 + |name|;
    TagFromParts(data, i, p, p + LeadOf(attrs), p + |s|, 0);
    TagOfIs(data, FindTag(data, i).tag, i, name, attrs);
  }

  lemma PrintedTags(name: string, attrs: Attributes)
    ensures EmptyTag(name, attrs) == "<" + name + PrintAttributes(attrs) + "/>"
    ensures OpenTag(name, attrs) == "<" + name + PrintAttributes(attrs) + ">"
    ensures |EmptyTag(name, attrs)| == |name| + |PrintAttributes(attrs)| + 3
    ensures |OpenTag(name, attrs)| == |name| + |PrintAttributes(attrs)| + 2
  {
  }

  lemma TagOfIs(data: string, t: Tag, i: nat, name: string, attrs: Attributes)
    requires t.element == i + 1 && TagOk(data, i, t) && t.element + t.elementLen <= |data|
              && t.attr + t.attrLen <= |data|
    requires data[t.element..t.element + t.elementLen] == name
    requires data[t.attr..t.attr + t.attrLen] == AttributeField(attrs)
    ensures IsTagOf(data, t, i, name, attrs) && Name(data, t) == name
  {
  }

  /** A start tag with something behind it. */
  lemma OpenFound(data: string, i: nat, name: string, attrs: Attributes, c: nat)
    requires NameOk(name) && AttributesOk(attrs) && At(data, i, OpenTag(name, attrs))
    requires i + |OpenTag(name, attrs)| <= c < |data| && First(NextTag, data, i + |OpenTag(name, attrs)|) == c
    ensures c + 1 < |data|
    ensures var f := FindTag(data, i);
            && f.Found? && !f.tag.closed && f.tag.next == c
            && Name(data, f.tag) == name && IsTagOf(data, f.tag, i, name, attrs)
            && (if data[c + 1] == '/' then f.tag.content == i + |OpenTag(name, attrs)| && f.tag.content + f.tag.contentLen == c
                else f.tag.content == -1)
  {
    hide *;
    var s := PrintAttributes(attrs);
    PrintedTags(name, attrs);
    NextHits(data, i + |OpenTag(name, attrs)|, c);
    AttributesTextOk(attrs);
    NameFirst(name);
    TagParts(data, i, name, s, LeadOf(attrs), ">");
    AttributesRead(data, i, name, attrs, ">");
    FoundAt(data, i, name[0]);
    var p := i + 1 + |name|;
    TagFromParts(data, i, p, p + LeadOf(attrs), p + |s|, c);
    TagOfIs(data, FindTag(data, i).tag, i, name, attrs);
  }

  lemma NextHits(data: string, n: nat, c: nat)
    requires n <= c < |data| && First(NextTag, data, n) == c
    ensures c + 1 < |data| && data[c] == '<'
  {
    assert Hits(NextTag, data, c);
  }

  /** The tag's fields point at the printed name and attributes. */
  predicate IsTagOf(data: string, t: Tag, i: nat, name: string, attrs: Attributes)
    requires t.element > 0 && TagOk(data, t.element - 1, t)
  {
    && t.element == i + 1 && Name(data, t) == name
    && data[t.attr..t.attr + t.attrLen] == AttributeField(attrs)
  }

  /** The attributes as the walker reports them: without the white space in front, or nothing. */
  function AttributeField(attrs: Attributes): string {
    if attrs.list == [] then "" else PrintAttribute(attrs.list[0]) + PrintList(attrs.list[1..]) + attrs.behind
  }

  lemma FieldIs(attrs: Attributes)
    ensures LeadOf(attrs) <= |PrintAttributes(attrs)|
    ensures PrintAttributes(attrs)[LeadOf(attrs)..] == AttributeField(attrs)
  {
    hide PrintAttribute;
    if attrs.list != [] {
      var g, p, r := attrs.list[0].gap, PrintAttribute(attrs.list[0]), PrintList(attrs.list[1..]);
      assert PrintAttributes(attrs) == g + p + r + attrs.behind == g + (p + r + attrs.behind);
    } else {
      assert PrintAttributes(attrs) == attrs.behind;
    }
  }

  lemma AttributesRead(data: string, i: nat, name: string, attrs: Attributes, tail: string)
    requires At(data, i, "<" + name + PrintAttributes(attrs) + tail)
    ensures var p, s := i + 1 + |name|, PrintAttributes(attrs);
            && LeadOf(attrs) <= |s| && p + |s| <= |data| && data[p + LeadOf(attrs)..p + |s|] == AttributeField(attrs)
  {
    hide *;
    var s := PrintAttributes(attrs);
    AtSplit(data, i, "<" + name + s, tail);
    AtSplit(data, i, "<" + name, s);
    var p := i + 1 + |name|;
    AtSlice(data, p, s);
    FieldIs(attrs);
    assert data[p..p + |s|][LeadOf(attrs)..] == data[p + LeadOf(attrs)..p + |s|];
  }

  /** A closing tag. */
  lemma CloseFound(data: string, i: nat, name: string, behind: string)
    requires NameOk(name) && White(behind) && At(data, i, CloseTag(name, behind))
    ensures var f := FindTag(data, i);
            && f.Found? && !f.tag.closed && Name(data, f.tag) == "/" + name
            && f.tag.next == i + |CloseTag(name, behind)| && f.tag.element == i + 1
  {
    hide *;
    var p := i + 2 + |name|;
    var t := p + |behind|;
    CloseIs(name, behind);
    NameFirst(name);
    AtSplit(data, i, "</" + name + behind, ">");
    AtSplit(data, i, "</" + name, behind);
    AtSplit(data, i, "</", name);
    AtIndex(data, i, "</", 0);
    AtIndex(data, i, "</", 1);
    AtSlice(data, i + 2, name);
    AtIndex(data, t, ">", 0);
    forall k | 0 <= k < |name|
      ensures data[i + 2 + k] == name[k]
    {
      AtIndex(data, i + 2, name, k);
    }
    forall k | 0 <= k < |behind|
      ensures data[p + k] == behind[k]
    {
      AtIndex(data, p, behind, k);
    }
    CloseStops(data, i, p, t, name, behind);
    FoundAt(data, i, '/');
    TagFromParts(data, i, p, t, t, 0);
    assert data[i + 1..p] == "/" + name;
    CloseNamed(data, i, p, t, name);
  }

  lemma CloseIs(name: string, behind: string)
    ensures CloseTag(name, behind) == "</" + name + behind + ">"
    ensures |CloseTag(name, behind)| == |name| + |behind| + 3
  {
  }

  lemma CloseNamed(data: string, i: nat, p: nat, t: nat, name: string)
    requires i + 1 < p <= |data| && t < |data| && data[i + 1..p] == "/" + name
    requires FindTag(data, i) == Found(Tag(i + 1, p - (i + 1), false, t, 0, -1, 0, t + 1))
    ensures i <= |data| && Name(data, FindTag(data, i).tag) == "/" + name
  {
    hide FindTag;
  }

  /** Where the scans stop in a closing tag. */
  lemma CloseStops(data: string, i: nat, p: nat, t: nat, name: string, behind: string)
    requires TagName(name) && White(behind) && p == i + 2 + |name| && t == p + |behind| < |data|
    requires data[i + 1] == '/' && data[t] == '>'
    requires forall k :: 0 <= k < |name| ==> data[i + 2 + k] == name[k]
    requires forall k :: 0 <= k < |behind| ==> data[p + k] == behind[k]
    ensures First(NameStop, data, i + 1) == p && First(NonSpace, data, p) == t && First(TagStop, data, t) == t
  {
    hide First;
    WhiteIs(behind);
    assert data[i + 2 + 0] == name[0];
    forall k | i + 1 <= k < p
      ensures !Hits(NameStop, data, k)
    {
      assert k > i + 1 ==> data[i + 2 + (k - (i + 2))] == name[k - (i + 2)];
    }
    assert behind != "" ==> data[p + 0] == behind[0];
    FirstIs(NameStop, data, i + 1, p);
    forall k | p <= k < t
      ensures !Hits(NonSpace, data, k)
    {
      assert data[p + (k - p)] == behind[k - p];
    }
    FirstIs(NonSpace, data, p, t);
    FirstIs(TagStop, data, t, t);
  }

  /** Text is passed over. */
  lemma TextSkipped(data: string, i: nat, t: string)
    requires (forall k :: 0 <= k < |t| ==> t[k] != '<') && At(data, i, t)
    ensures FindTag(data, i) == FindTag(data, i + |t|)
  {
    hide *;
    AtBounds(data, i, t);
    NoOpening(data, i, t);
    FirstSkips(Opening, data, i, i + |t|);
    SkipSame(data, i, i + |t|);
  }

  lemma NoOpening(data: string, i: nat, t: string)
    requires (forall k :: 0 <= k < |t| ==> t[k] != '<') && At(data, i, t)
    ensures forall k :: i <= k < i + |t| ==> k < |data| && !Hits(Opening, data, k)
  {
    forall k | i <= k < i + |t|
      ensures k < |data| && !Hits(Opening, data, k)
    {
      AtIndex(data, i, t, k - i);
    }
  }

  lemma SkipSame(data: string, i: nat, j: nat)
    requires i <= j <= |data| && First(Opening, data, i) == First(Opening, data, j)
    ensures FindTag(data, i) == FindTag(data, j)
  {
    hide First, TagFrom;
  }

  /** A comment is passed over. */
  lemma CommentSkipped(data: string, i: nat, c: string)
    requires CommentOk(c) && At(data, i, "<!--" + c + "-->")
    ensures FindTag(data, i) == FindTag(data, i + |"<!--" + c + "-->"|)
  {
    hide *;
    var s := "<!--" + c + "-->";
    AtBounds(data, i, s);
    AtSplit(data, i, "<!--" + c, "-->");
    AtSplit(data, i, "<!--", c);
    AtIndex(data, i, "<!--", 0);
    CommentEnds(data, i, c);
    CommentPassed(data, i, i + |s| - 1);
  }

  lemma CommentPassed(data: string, i: nat, e: nat)
    requires i < e < |data| && data[i] == '<' && At(data, i, "<!--") && First(CommentEnd, data, i) == e
    ensures FindTag(data, i) == FindTag(data, e + 1)
  {
    hide *;
    AtOpening(data, i);
    SkipStep(data, i);
    FindTagIs(data, i);
    FindTagIs(data, e + 1);
  }

  lemma AtOpening(data: string, i: nat)
    requires i < |data| && data[i] == '<'
    ensures First(Opening, data, i) == i
  {
  }

  lemma FindTagIs(data: string, i: nat)
    requires i <= |data|
    ensures FindTag(data, i)
            == match Skip(data, i) case NoTag => NotFound case Unclosed => Malformed case TagAt(j) => TagFrom(data, j)
  {
    hide Skip, TagFrom;
  }

  /** The scan for a comment's end stops at its own. */
  lemma CommentEnds(data: string, i: nat, c: string)
    requires CommentOk(c) && At(data, i, "<!--" + c + "-->")
    ensures First(CommentEnd, data, i) == i + |"<!--" + c + "-->"| - 1
  {
    hide First;
    var s := "<!--" + c + "-->";
    var n := |s| - 1;
    forall k | 0 <= k <= n
      ensures i + k < |data| && data[i + k] == s[k]
    {
      AtIndex(data, i, s, k);
    }
    assert s[n] == '>' && s[n - 1] == '-' && s[n - 2] == '-' && s[1] == '!' && s[0] == '<' && s[2] == '-' && s[3] == '-';
    assert data[i + n] == s[n] && data[i + (n - 1)] == s[n - 1] && data[i + (n - 2)] == s[n - 2];
    forall k | i <= k < i + n
      ensures !Hits(CommentEnd, data, k)
    {
      EarlierMarks(data, i, s, k - i);
    }
    FirstIs(CommentEnd, data, i, i + n);
  }

  lemma EarlierMarks(data: string, i: nat, s: string, k: nat)
    requires 4 <= |s| && i + |s| <= |data| && k < |s| - 1 && forall j :: 0 <= j < |s| ==> data[i + j] == s[j]
    requires s[..4] == "<!--" && (k >= 4 ==> !Hits(CommentEnd, s, k))
    ensures !Hits(CommentEnd, data, i + k)
  {
    assert data[i + k] == s[k];
    if k >= 4 {
      assert data[i + (k - 1)] == s[k - 1] && data[i + (k - 2)] == s[k - 2];
    } else {
      assert s[k] == s[..4][k];
    }
  }

  // ---- Matching and locating printed elements ----

  lemma MatchSame(data: string, i: nat, j: nat, stack: seq<string>)
    requires i <= |data| && j <= |data| && stack != [] && FindTag(data, i) == FindTag(data, j)
    ensures Match(data, i, stack) == Match(data, j, stack)
  {
    hide FindTag;
  }

  lemma LocateSame(data: string, i: nat, j: nat)
    requires i <= |data| && j <= |data| && FindTag(data, i) == FindTag(data, j)
    ensures Locate(data, i) == Locate(data, j)
  {
    hide FindTag, Match;
  }

  /** Behind a start tag the walker goes on at the first '<': that of the content without its leading text. */
  lemma ContentStart(data: string, n: nat, body: Items, name: string, close: string)
    requires ItemsOk(body) && At(data, n, Print(body) + CloseTag(name, close))
    ensures var c := n + |LeadingText(body)|;
            && c + 1 < |data| && First(NextTag, data, n) == c && (data[c + 1] == '/' <==> Trimmed(body) == End)
            && FindTag(data, n) == FindTag(data, c)
            && At(data, n, LeadingText(body)) && At(data, c, Print(Trimmed(body)))
            && c + |Print(Trimmed(body))| == n + |Print(body)|
  {
    hide *;
    LeadingParts(body, name, close);
    var lead, kept, tag := LeadingText(body), Print(Trimmed(body)), CloseTag(name, close);
    var c, u := n + |lead|, kept + tag;
    AtSplit(data, n, lead, u);
    AtSplit(data, c, kept, tag);
    AtIndex(data, c, u, 0);
    AtIndex(data, c, u, 1);
    AtBounds(data, c, u);
    TextSkipped(data, n, lead);
    TextToTag(data, n, lead);
  }

  lemma LeadingParts(body: Items, name: string, close: string)
    requires ItemsOk(body)
    ensures var lead, u := LeadingText(body), Print(Trimmed(body)) + CloseTag(name, close);
            && Print(body) + CloseTag(name, close) == lead + u && (forall k :: 0 <= k < |lead| ==> lead[k] != '<')
            && |u| >= 2 && u[0] == '<' && (u[1] == '/' <==> Trimmed(body) == End)
            && |lead| + |Print(Trimmed(body))| == |Print(body)|
  {
    LeadingSplit(body);
    var lead, kept, tag := LeadingText(body), Print(Trimmed(body)), CloseTag(name, close);
    assert tag[0] == '<' && tag[1] == '/';
    assert Trimmed(body) == End ==> kept == "";
    hide *;
    Regroup(lead, kept, tag);
  }

  lemma TextToTag(data: string, n: nat, lead: string)
    requires (forall k :: 0 <= k < |lead| ==> lead[k] != '<') && At(data, n, lead)
    requires n + |lead| + 1 < |data| && data[n + |lead|] == '<'
    ensures First(NextTag, data, n) == n + |lead|
  {
    forall k | n <= k < n + |lead|
      ensures !Hits(NextTag, data, k)
    {
      AtIndex(data, n, lead, k - n);
    }
    FirstIs(NextTag, data, n, n + |lead|);
  }

  /** The walker matches printed content with the closing tag behind it. */
  lemma {:induction false} MatchItems(data: string, i: nat, items: Items, name: string, close: string)
    requires ItemsOk(items) && NameOk(name) && White(close) && At(data, i, Print(items) + CloseTag(name, close))
    ensures Match(data, i, [name]) == EndAt(i + |Print(items)|, i + |Print(items)| + |CloseTag(name, close)|)
    decreases items
  {
    hide *;
    PrintParts(items, CloseTag(name, close));
    AtBounds(data, i, Print(items) + CloseTag(name, close));
    match items
    case End =>
      CloseFound(data, i, name, close);
      NameFirst(name);
      CloseMatches(data, i, name, close);
    case Text(t, rest) =>
      AtSplit(data, i, t, Print(rest) + CloseTag(name, close));
      TextSkipped(data, i, t);
      MatchSame(data, i, i + |t|, [name]);
      MatchItems(data, i + |t|, rest, name, close);
    case Comment(c, rest) =>
      var s := "<!--" + c + "-->";
      AtSplit(data, i, s, Print(rest) + CloseTag(name, close));
      CommentSkipped(data, i, c);
      MatchSame(data, i, i + |s|, [name]);
      MatchItems(data, i + |s|, rest, name, close);
    case Element(child, attrs, empty, body, rest) =>
      var s := PrintElement(child, attrs, empty, body);
      AtSplit(data, i, s, Print(rest) + CloseTag(name, close));
      if empty {
        EmptyFound(data, i, child, attrs);
        ClosedPassed(data, i, name);
      } else {
        var n := i + |OpenTag(child, attrs)|;
        ElementParts(data, i, child, attrs, body);
        AttributesParts(attrs);
        MatchItems(data, n, body, child, attrs.close);
        OpenPassed(data, i, n, child, attrs, body, name);
      }
      MatchItems(data, i + |s|, rest, name, close);
  }

  lemma AttributesParts(attrs: Attributes)
    requires AttributesOk(attrs)
    ensures White(attrs.behind) && White(attrs.close) && forall a :: a in attrs.list ==> AttributeOk(a)
  {
  }

  /** Printed content, its first item in front. */
  lemma PrintParts(items: Items, tail: string)
    requires ItemsOk(items)
    ensures items.End? ==> Print(items) + tail == tail && Print(items) == ""
    ensures items.Text? ==>
              && Print(items) + tail == items.text + (Print(items.rest) + tail) && Print(items) == items.text + Print(items.rest)
              && (forall k :: 0 <= k < |items.text| ==> items.text[k] != '<') && ItemsOk(items.rest)
    ensures items.Comment? ==>
              var s := "<!--" + items.text + "-->";
              && Print(items) + tail == s + (Print(items.rest) + tail) && Print(items) == s + Print(items.rest)
              && CommentOk(items.text) && ItemsOk(items.rest)
    ensures items.Element? ==>
              var s := PrintElement(items.name, items.attrs, items.empty, items.body);
              && Print(items) + tail == s + (Print(items.rest) + tail) && Print(items) == s + Print(items.rest)
              && NameOk(items.name) && AttributesOk(items.attrs)
              && ItemsOk(items.body) && ItemsOk(items.rest) && (items.empty ==> items.body == End)
              && (items.empty ==> s == EmptyTag(items.name, items.attrs))
  {
    hide At, NameOk, AttributeOk, CommentOk;
    match items
    case End =>
    case Text(t, rest) => Regroup(t, Print(rest), tail);
    case Comment(c, rest) => Regroup("<!--" + c + "-->", Print(rest), tail);
    case Element(name, attrs, empty, body, rest) => Regroup(PrintElement(name, attrs, empty, body), Print(rest), tail);
  }

  lemma CloseMatches(data: string, i: nat, name: string, close: string)
    requires i <= |data| && name != ""
    requires var f := FindTag(data, i);
             && f.Found? && !f.tag.closed && Name(data, f.tag) == "/" + name
             && f.tag.next == i + |CloseTag(name, close)| && f.tag.element == i + 1
    ensures Match(data, i, [name]) == EndAt(i, i + |CloseTag(name, close)|)
  {
    hide FindTag, CloseTag;
    assert ("/" + name)[1..] == name;
  }

  lemma ClosedPassed(data: string, i: nat, name: string)
    requires i <= |data| && FindTag(data, i).Found? && FindTag(data, i).tag.closed
    ensures Match(data, i, [name]) == Match(data, FindTag(data, i).tag.next, [name])
  {
    hide FindTag;
  }

  lemma ElementParts(data: string, i: nat, name: string, attrs: Attributes, body: Items)
    requires At(data, i, PrintElement(name, attrs, false, body))
    ensures At(data, i, OpenTag(name, attrs)) && At(data, i + |OpenTag(name, attrs)|, Print(body) + CloseTag(name, attrs.close))
    ensures |PrintElement(name, attrs, false, body)| == |OpenTag(name, attrs)| + |Print(body)| + |CloseTag(name, attrs.close)|
  {
    var o, b, c := OpenTag(name, attrs), Print(body), CloseTag(name, attrs.close);
    assert PrintElement(name, attrs, false, body) == o + b + c;
    hide *;
    Regroup(o, b, c);
    AtSplit(data, i, o, b + c);
  }

  /** A whole inner element is passed over. */
  lemma OpenPassed(data: string, i: nat, n: nat, child: string, attrs: Attributes, body: Items, name: string)
    requires NameOk(child) && AttributesOk(attrs) && ItemsOk(body)
    requires At(data, i, OpenTag(child, attrs)) && n == i + |OpenTag(child, attrs)|
    requires At(data, n, Print(body) + CloseTag(child, attrs.close))
    requires Match(data, n, [child]) == EndAt(n + |Print(body)|, n + |Print(body)| + |CloseTag(child, attrs.close)|)
    ensures Match(data, i, [name]) == Match(data, n + |Print(body)| + |CloseTag(child, attrs.close)|, [name])
  {
    hide *;
    ContentStart(data, n, body, child, attrs.close);
    var c := n + |LeadingText(body)|;
    OpenFound(data, i, child, attrs, c);
    MatchSame(data, n, c, [child]);
    MatchNested(data, c, name, child);
    NameFirst(child);
    OpenMatches(data, i, c, child, name);
  }

  lemma OpenMatches(data: string, i: nat, c: nat, child: string, name: string)
    requires i <= |data| && c <= |data| && child != "" && child[0] != '/'
    requires var f := FindTag(data, i); f.Found? && !f.tag.closed && Name(data, f.tag) == child && f.tag.next == c
    ensures Match(data, i, [name]) == Match(data, c, [name] + [child])
  {
    hide FindTag;
  }

  /** What the walker reports for a printed element. */
  predicate Reported(data: string, l: Located, i: nat, name: string, attrs: Attributes, empty: bool, body: Items) {
    && l.Located? && l.tag.element > 0 && TagOk(data, l.tag.element - 1, l.tag)
    && IsTagOf(data, l.tag, i, name, attrs) && l.tag.closed == empty
    && l.next == i + |PrintElement(name, attrs, empty, body)| <= |data|
    && l.tag.next + l.dataLen <= |data|
    && data[l.tag.next..l.tag.next + l.dataLen] == (if empty then "" else Print(Trimmed(body)))
    && (if empty || Trimmed(body) != End then l.tag.content == -1
        else l.tag.content >= 0 && data[l.tag.content..l.tag.content + l.tag.contentLen] == LeadingText(body))
  }

  /** A printed element is located whole, wherever it stands. */
  lemma ElementLocated(data: string, i: nat, name: string, attrs: Attributes, empty: bool, body: Items)
    requires NameOk(name) && AttributesOk(attrs) && ItemsOk(body) && (empty ==> body == End)
    requires At(data, i, PrintElement(name, attrs, empty, body))
    ensures Reported(data, Locate(data, i), i, name, attrs, empty, body)
  {
    hide *;
    AtBounds(data, i, PrintElement(name, attrs, empty, body));
    NameFirst(name);
    NotProlog(name);
    if empty {
      EmptyPrinted(name, attrs, body);
      EmptyFound(data, i, name, attrs);
      EmptyReported(data, i, name, attrs, body);
    } else {
      ElementParts(data, i, name, attrs, body);
      var n := i + |OpenTag(name, attrs)|;
      ContentStart(data, n, body, name, attrs.close);
      var c := n + |LeadingText(body)|;
      OpenFound(data, i, name, attrs, c);
      AttributesParts(attrs);
      MatchItems(data, n, body, name, attrs.close);
      MatchSame(data, n, c, [name]);
      OpenReported(data, i, n, c, name, attrs, body);
    }
  }

  lemma NotProlog(name: string)
    requires NameOk(name)
    ensures !IsProlog(name)
  {
  }

  lemma EmptyPrinted(name: string, attrs: Attributes, body: Items)
    ensures PrintElement(name, attrs, true, body) == EmptyTag(name, attrs)
  {
  }

  lemma EmptyReported(data: string, i: nat, name: string, attrs: Attributes, body: Items)
    requires i + |EmptyTag(name, attrs)| <= |data| && !IsProlog(name)
    requires var f := FindTag(data, i);
             && f.Found? && f.tag.closed && f.tag.next == i + |EmptyTag(name, attrs)| && f.tag.content == -1
             && Name(data, f.tag) == name && IsTagOf(data, f.tag, i, name, attrs)
    ensures Reported(data, Locate(data, i), i, name, attrs, true, body)
  {
    hide FindTag, EmptyTag, IsTagOf, Match, IsProlog;
  }

  lemma OpenReported(data: string, i: nat, n: nat, c: nat, name: string, attrs: Attributes, body: Items)
    requires !IsProlog(name) && n == i + |OpenTag(name, attrs)| && c == n + |LeadingText(body)|
    requires c + 1 < |data| && (data[c + 1] == '/' <==> Trimmed(body) == End)
    requires At(data, n, LeadingText(body)) && At(data, c, Print(Trimmed(body)))
    requires c + |Print(Trimmed(body))| == n + |Print(body)|
    requires var f := FindTag(data, i);
             && f.Found? && !f.tag.closed && f.tag.next == c
             && Name(data, f.tag) == name && IsTagOf(data, f.tag, i, name, attrs)
             && (if data[c + 1] == '/' then f.tag.content == n && f.tag.content + f.tag.contentLen == c else f.tag.content == -1)
    requires Match(data, c, [name]) == EndAt(n + |Print(body)|, n + |Print(body)| + |CloseTag(name, attrs.close)|)
    requires n + |Print(body)| + |CloseTag(name, attrs.close)| <= |data|
    ensures Reported(data, Locate(data, i), i, name, attrs, false, body)
  {
    hide FindTag, OpenTag, CloseTag, IsTagOf, Match, Print, LeadingText, IsProlog;
  }

  // ---- What is refused ----

  /** A tag that never ends. */
  lemma NoTagEnd(data: string, j: nat)
    requires j < |data| && forall k :: j < k < |data| ==> data[k] != '>'
    ensures TagFrom(data, j) == Malformed
  {
    var f := First(NameStop, data, j + 1);
    if f < |data| && f != j + 1 {
      var a := First(NonSpace, data, f);
      assert First(TagStop, data, a) == |data| by {
        FirstIs(TagStop, data, a, |data|);
      }
    }
    hide First;
  }

  /** A comment that never ends. */
  lemma NoCommentEnd(data: string, i: nat)
    requires At(data, i, "<!--") && forall k :: i < k < |data| ==> data[k] != '>'
    ensures i <= |data| && FindTag(data, i) == Malformed
  {
    AtIndex(data, i, "<!--", 0);
    FirstIs(Opening, data, i, i);
    FirstIs(CommentEnd, data, i, |data|);
    SkipStep(data, i);
    hide First, TagFrom, Skip, At;
  }

  /** Content closed under another name, and content that is not closed at all. */
  lemma WrongClose(data: string, i: nat, items: Items, name: string, other: string, close: string)
    requires ItemsOk(items) && NameOk(name) && NameOk(other) && White(close) && other != name
    requires At(data, i, Print(items) + CloseTag(other, close))
    ensures i <= |data| && Match(data, i, [name]) == NoEnd
  {
    hide *;
    AtBounds(data, i, Print(items) + CloseTag(other, close));
    MatchItems(data, i, items, other, close);
    var e := Match(data, i, [other]);
    var ts, m := MatchedContent(data, i, other);
    EnclosesIs(data, i, ts, m, other, e);
    ContentMatched(data, i, ts, m, [name]);
    MatchStep(data, m, [name]);
  }

  lemma NeverClosed(data: string, i: nat, name: string)
    requires i <= |data| && forall k :: i <= k < |data| ==> data[k] != '<'
    ensures FindTag(data, i) == NotFound && Match(data, i, [name]) == NoEnd
  {
    FirstIs(Opening, data, i, |data|);
    hide First;
  }

  // ---- Siblings ----

  /** The elements of a content, each with the position of its '<' in the printed text from i. */
  datatype Child = Child(at: nat, name: string, attrs: Attributes, empty: bool, body: Items)

  function Children(items: Items, i: nat): seq<Child> {
    match items
    case End => []
    case Text(t, rest) => Children(rest, i + |t|)
    case Comment(c, rest) => Children(rest, i + |"<!--" + c + "-->"|)
    case Element(name, attrs, empty, body, rest) =>
      [Child(i, name, attrs, empty, body)] + Children(rest, i + |PrintElement(name, attrs, empty, body)|)
  }

  /** Calls repeated over a content yield exactly its elements, in order, and then report the end. */
  ghost predicate Yields(data: string, i: nat, children: seq<Child>)
    requires i <= |data|
    decreases |children|
  {
    var l := Locate(data, i);
    if children == [] then l == Nothing
    else
      var c := children[0];
      Reported(data, l, c.at, c.name, c.attrs, c.empty, c.body) && l.next <= |data| && Yields(data, l.next, children[1..])
  }

  lemma NothingLeft(data: string)
    ensures Locate(data, |data|) == Nothing
  {
    assert First(Opening, data, |data|) == |data|;
  }

  lemma {:induction false} Siblings(data: string, i: nat, items: Items)
    requires ItemsOk(items) && At(data, i, Print(items)) && i + |Print(items)| == |data|
    ensures Yields(data, i, Children(items, i))
    decreases items
  {
    hide *;
    PrintParts(items, "");
    Unpadded(items);
    ChildrenParts(items, i);
    AtBounds(data, i, Print(items));
    match items
    case End =>
      NothingLeft(data);
      YieldsNone(data, i);
    case Text(t, rest) =>
      AtSplit(data, i, t, Print(rest));
      TextSkipped(data, i, t);
      Siblings(data, i + |t|, rest);
      YieldsSame(data, i, i + |t|, Children(rest, i + |t|));
    case Comment(c, rest) =>
      var s := "<!--" + c + "-->";
      AtSplit(data, i, s, Print(rest));
      CommentSkipped(data, i, c);
      Siblings(data, i + |s|, rest);
      YieldsSame(data, i, i + |s|, Children(rest, i + |s|));
    case Element(name, attrs, empty, body, rest) =>
      var s := PrintElement(name, attrs, empty, body);
      AtSplit(data, i, s, Print(rest));
      ElementLocated(data, i, name, attrs, empty, body);
      Siblings(data, i + |s|, rest);
      YieldsMore(data, i, Child(i, name, attrs, empty, body), Children(rest, i + |s|));
  }

  lemma Unpadded(items: Items)
    ensures Print(items) + "" == Print(items)
  {
  }

  lemma ChildrenParts(items: Items, i: nat)
    ensures items.End? ==> Children(items, i) == []
    ensures items.Text? ==> Children(items, i) == Children(items.rest, i + |items.text|)
    ensures items.Comment? ==> Children(items, i) == Children(items.rest, i + |"<!--" + items.text + "-->"|)
    ensures items.Element? ==>
              Children(items, i) == [Child(i, items.name, items.attrs, items.empty, items.body)]
              + Children(items.rest, i + |PrintElement(items.name, items.attrs, items.empty, items.body)|)
  {
  }

  lemma YieldsNone(data: string, i: nat)
    requires i <= |data| && Locate(data, i) == Nothing
    ensures Yields(data, i, [])
  {
  }

  lemma YieldsSame(data: string, i: nat, j: nat, children: seq<Child>)
    requires i <= |data| && j <= |data| && FindTag(data, i) == FindTag(data, j)
    ensures Yields(data, i, children) <==> Yields(data, j, children)
  {
    LocateSame(data, i, j);
    hide FindTag, Locate, Reported;
  }

  lemma YieldsMore(data: string, i: nat, c: Child, rest: seq<Child>)
    requires i <= |data| && Reported(data, Locate(data, i), c.at, c.name, c.attrs, c.empty, c.body)
    requires var j := c.at + |PrintElement(c.name, c.attrs, c.empty, c.body)|; j <= |data| && Yields(data, j, rest)
    ensures Yields(data, i, [c] + rest)
  {
    hide Locate, Reported, PrintElement, FindTag, First;
    ReportedNext(data, Locate(data, i), c);
    assert ([c] + rest)[1..] == rest;
  }

  lemma ReportedNext(data: string, l: Located, c: Child)
    requires Reported(data, l, c.at, c.name, c.attrs, c.empty, c.body)
    ensures l.Located? && l.next == c.at + |PrintElement(c.name, c.attrs, c.empty, c.body)|
  {
  }

  // ---- Documents ----

  /** What may stand in front of the root element. */
  datatype Misc = Blank(text: string) | Remark(text: string) | Declaration(text: string) | Doctype(text: string)

  predicate MiscOk(m: Misc) {
    match m
    case Blank(t) => forall k :: 0 <= k < |t| ==> t[k] != '<'
    case Remark(c) => CommentOk(c)
    case Declaration(t) => AttributesText(t)
    case Doctype(t) => AttributesText(t)
  }

  function PrintMisc(m: Misc): string {
    match m
    case Blank(t) => t
    case Remark(c) => "<!--" + c + "-->"
    case Declaration(t) => "<?xml" + t + ">"
    case Doctype(t) => "<!DOCTYPE" + t + ">"
  }

  function PrintProlog(prolog: seq<Misc>): string {
    if prolog == [] then "" else PrintMisc(prolog[0]) + PrintProlog(prolog[1..])
  }

  lemma PrologName(name: string)
    requires name == "?xml" || name == "!DOCTYPE"
    ensures TagName(name) && IsProlog(name) && name[0] != '/' && (name[0] == '!' ==> name[1] == 'D')
  {
  }

  /** A declaration is passed over when a tag follows. */
  lemma DeclarationSkipped(data: string, i: nat, name: string, t: string, r: nat)
    requires (name == "?xml" || name == "!DOCTYPE") && AttributesText(t) && At(data, i, "<" + name + t + ">")
    requires i + |"<" + name + t + ">"| <= r && r + 1 < |data| && data[r] == '<'
    ensures i <= |data| && Locate(data, i) == Locate(data, i + |"<" + name + t + ">"|)
  {
    hide *;
    PrologName(name);
    var n := i + |"<" + name + t + ">"|;
    var lead := LeadIn(t);
    TagParts(data, i, name, t, lead, ">");
    var p := i + 1 + |name|;
    SecondLetter(data, i, p, name);
    NotDashes(data, i);
    SkipHere(data, i);
    var c := NextIsFirst(data, n, r);
    TagFromParts(data, i, p, p + lead, p + |t|, c);
    LocateSame(data, n, c);
    PrologPassed(data, i, name, c);
  }

  lemma LeadIn(t: string) returns (n: nat)
    ensures Leads(t, n)
  {
    n := First(NonSpace, t, 0);
    WhiteIs(t[..n]);
    forall k | 0 <= k < n
      ensures IsSpace(t[..n][k])
    {
      assert !Hits(NonSpace, t, k);
    }
    assert n < |t| ==> Hits(NonSpace, t, n);
    hide First;
  }

  lemma SecondLetter(data: string, i: nat, p: nat, name: string)
    requires i + 1 <= p < |data| && data[i + 1..p] == name && (name == "?xml" || name == "!DOCTYPE")
    ensures i + 2 < |data| && (data[i + 1] == '!' ==> data[i + 2] == 'D')
  {
    assert data[i + 1] == name[0] && data[i + 2] == name[1];
  }

  lemma NotDashes(data: string, i: nat)
    requires i + 2 < |data| && (data[i + 1] != '!' || data[i + 2] != '-')
    ensures !At(data, i, "<!--")
  {
    if At(data, i, "<!--") {
      AtIndex(data, i, "<!--", 1);
      AtIndex(data, i, "<!--", 2);
    }
  }

  lemma SkipHere(data: string, i: nat)
    requires i < |data| && data[i] == '<' && !At(data, i, "<!--")
    ensures FindTag(data, i) == TagFrom(data, i)
  {
    FirstIs(Opening, data, i, i);
    hide First, TagFrom;
  }

  /** The next tag is where the next '<' is. */
  lemma NextIsFirst(data: string, n: nat, r: nat) returns (c: nat)
    requires n <= r && r + 1 < |data| && data[r] == '<'
    ensures c == First(NextTag, data, n) && c + 1 < |data| && n <= c <= r && FindTag(data, n) == FindTag(data, c)
  {
    c := First(NextTag, data, n);
    assert Hits(NextTag, data, r);
    forall k | n <= k < c
      ensures !Hits(Opening, data, k)
    {
      assert !Hits(NextTag, data, k);
    }
    FirstSkips(Opening, data, n, c);
    SkipSame(data, n, c);
  }

  lemma PrologPassed(data: string, i: nat, name: string, c: nat)
    requires i <= |data| && IsProlog(name) && c <= |data|
    requires var f := FindTag(data, i);
             f.Found? && f.tag.next == c && data[f.tag.element..f.tag.element + f.tag.elementLen] == name
    ensures Locate(data, i) == Locate(data, c)
  {
    hide FindTag, Match, IsProlog;
  }

  lemma MiscSkipped(data: string, i: nat, m: Misc, r: nat)
    requires MiscOk(m) && At(data, i, PrintMisc(m))
    requires i + |PrintMisc(m)| <= r && r + 1 < |data| && data[r] == '<'
    ensures i <= |data| && Locate(data, i) == Locate(data, i + |PrintMisc(m)|)
  {
    hide Locate, FindTag, At, CommentOk, AttributesText;
    match m
    case Blank(t) =>
      TextSkipped(data, i, t);
      LocateSame(data, i, i + |t|);
    case Remark(c) =>
      CommentSkipped(data, i, c);
      LocateSame(data, i, i + |"<!--" + c + "-->"|);
    case Declaration(t) =>
      assert "<" + "?xml" + t + ">" == "<?xml" + t + ">";
      DeclarationSkipped(data, i, "?xml", t, r);
    case Doctype(t) =>
      assert "<" + "!DOCTYPE" + t + ">" == "<!DOCTYPE" + t + ">";
      DeclarationSkipped(data, i, "!DOCTYPE", t, r);
  }

  lemma {:induction false} PrologSkipped(data: string, i: nat, prolog: seq<Misc>, r: nat)
    requires (forall m :: m in prolog ==> MiscOk(m)) && At(data, i, PrintProlog(prolog))
    requires i + |PrintProlog(prolog)| == r && r + 1 < |data| && data[r] == '<'
    ensures i <= |data| && Locate(data, i) == Locate(data, r)
    decreases |prolog|
  {
    hide Locate, At, MiscOk, PrintMisc;
    if prolog != [] {
      AtSplit(data, i, PrintMisc(prolog[0]), PrintProlog(prolog[1..]));
      MiscSkipped(data, i, prolog[0], r);
      PrologSkipped(data, i + |PrintMisc(prolog[0])|, prolog[1..], r);
    }
  }

  /** The root element of a printed document is found, whatever follows it. */
  lemma RootLocated(prolog: seq<Misc>, name: string, attrs: Attributes, empty: bool, body: Items, after: string)
    requires forall m :: m in prolog ==> MiscOk(m)
    requires NameOk(name) && AttributesOk(attrs) && ItemsOk(body) && (empty ==> body == End)
    ensures var data := PrintProlog(prolog) + PrintElement(name, attrs, empty, body) + after;
            Reported(data, Locate(data, 0), |PrintProlog(prolog)|, name, attrs, empty, body)
  {
    var p, e := PrintProlog(prolog), PrintElement(name, attrs, empty, body);
    var data, r := p + e + after, |p|;
    ElementBegins(name, attrs, empty, body);
    hide *;
    Concatenated(p, e, after);
    PrologSkipped(data, 0, prolog, r);
    ElementLocated(data, r, name, attrs, empty, body);
  }

  lemma Concatenated(p: string, e: string, after: string)
    ensures var data := p + e + after;
            At(data, 0, p) && At(data, |p|, e) && (e != "" ==> data[|p|] == e[0]) && |data| == |p| + |e| + |after|
  {
    var data := p + e + after;
    assert data[0..0 + |p|] == p && data[|p|..|p| + |e|] == e;
  }

  lemma {:induction false} TrimmedChildren(items: Items, i: nat)
    ensures Children(items, i) == Children(Trimmed(items), i + |LeadingText(items)|)
  {
    if items.Text? {
      TrimmedChildren(items.rest, i + |items.text|);
    }
  }

  /**
   The walker on a printed document: the root, then over the data it reports exactly the root's child elements in
   order, and then the end.
   */
  lemma DocumentWalk(prolog: seq<Misc>, name: string, attrs: Attributes, body: Items, after: string)
    requires forall m :: m in prolog ==> MiscOk(m)
    requires NameOk(name) && AttributesOk(attrs) && ItemsOk(body)
    ensures var data := PrintProlog(prolog) + PrintElement(name, attrs, false, body) + after;
            var root := Locate(data, 0);
            && Reported(data, root, |PrintProlog(prolog)|, name, attrs, false, body)
            && Yields(data[root.tag.next..root.tag.next + root.dataLen], 0, Children(Trimmed(body), 0))
            && Children(body, 0) == Children(Trimmed(body), |LeadingText(body)|)
  {
    hide *;
    var data := PrintProlog(prolog) + PrintElement(name, attrs, false, body) + after;
    RootLocated(prolog, name, attrs, false, body, after);
    ReportedData(data, Locate(data, 0), |PrintProlog(prolog)|, name, attrs, body);
    LeadingSplit(body);
    TrimmedChildren(body, 0);
    AtWhole(Print(Trimmed(body)));
    Siblings(Print(Trimmed(body)), 0, Trimmed(body));
  }

  lemma ReportedData(data: string, l: Located, i: nat, name: string, attrs: Attributes, body: Items)
    requires Reported(data, l, i, name, attrs, false, body)
    ensures l.Located? && l.tag.next + l.dataLen <= |data|
    ensures data[l.tag.next..l.tag.next + l.dataLen] == Print(Trimmed(body))
  {
  }
}
