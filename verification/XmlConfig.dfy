/** Looking up elements and attributes of a configuration (sdfconfig.c) by walking its text. */
module XmlConfig {
  import opened Bytes
  import opened Xml
  import opened XmlTree
  import XmlEntities

  // ---- Attributes ----

  /** One attribute: its name and value as positions, and where the scan goes on. */
  datatype Attr = NoAttribute | Invalid | Attr(name: nat, nlen: nat, value: nat, vlen: nat, next: nat)

  /** SDF_xml_find_attribute */
  function NextAttribute(data: string, i: nat): (r: Attr)
    requires i <= |data|
    ensures r.Attr? ==> i <= r.name && r.name + r.nlen < r.value && r.value + r.vlen < r.next <= |data|
    ensures r.Attr? ==> data[r.value + r.vlen] == '"' || data[r.value + r.vlen] == '\''
  {
    var a := First(NonSpace, data, i);
    if a == |data| then NoAttribute
    else
      var b := First(AttributeStop, data, a);
      var c := First(NonSpace, data, b);
      if c == |data| || b == a || data[c] != '=' then Invalid
      else
        var d := First(NonSpace, data, c + 1);
        if d == |data| || !(data[d] == '\'' || data[d] == '"') then Invalid
        else
          var e := First(Quote(data[d]), data, d + 1);
          if e == |data| || (e + 1 < |data| && !IsSpace(data[e + 1])) then Invalid
          else Attr(a, b - a, d + 1, e - (d + 1), e + 1)
  }

  function AttributeCode(r: Attr): Ret {
    match r
    case NoAttribute => RetEof
    case Invalid => RetError
    case Attr(_, _, _, _, _) => RetOk
  }

  const NO_ATTRIBUTE := Attr.Attr(0, 0, 0, 0, 0)

  method FindAttribute(data: string, curr: nat) returns (r: Ret, next: nat, attr: Attr)
    requires curr <= |data|
    ensures r == AttributeCode(NextAttribute(data, curr))
    ensures r == RetOk ==> attr == NextAttribute(data, curr) && next == attr.next && curr < next <= |data|
    ensures r != RetOk ==> next == curr
  {
    hide First, IsSpace;
    next, attr := curr, NO_ATTRIBUTE;
    var i := Scan(NonSpace, data, curr);
    if i >= |data| {
      return RetEof, next, attr;
    }
    var name := i;
    i := Scan(AttributeStop, data, i);
    var nlen := i - name;
    i := Scan(NonSpace, data, i);
    if i >= |data| || nlen <= 0 || data[i] != '=' {
      return RetError, next, attr;
    }
    i := i + 1;
    i := Scan(NonSpace, data, i);
    if i >= |data| || !(data[i] == '\'' || data[i] == '"') {
      return RetError, next, attr;
    }
    var q := data[i];
    i := i + 1;
    var value := i;
    i := Scan(Quote(q), data, i);
    if i >= |data| {
      return RetError, next, attr;
    }
    var vlen := i - value;
    i := i + 1;
    if i < |data| && !IsSpace(data[i]) {
      return RetError, next, attr;
    }
    attr := Attr.Attr(name, nlen, value, vlen, i);
    next := i;
    r := RetOk;
  }

  /** Calls repeated over printed attributes yield exactly their names and values, in order, and then the end. */
  ghost predicate YieldsAttributes(data: string, i: nat, attrs: seq<Attribute>)
    requires i <= |data|
    decreases |attrs|
  {
    var r := NextAttribute(data, i);
    if attrs == [] then r == NoAttribute
    else
      && r.Attr? && data[r.name..r.name + r.nlen] == attrs[0].name && data[r.value..r.value + r.vlen] == attrs[0].value
      && YieldsAttributes(data, r.next, attrs[1..])
  }

  /** Where the parts of a printed attribute lie. */
  lemma AttributeFound(data: string, i: nat, a: Attribute, rest: string)
    requires AttributeOk(a) && At(data, i, PrintAttribute(a) + rest) && i + |PrintAttribute(a) + rest| == |data|
    requires rest == "" || White([rest[0]])
    ensures var r := NextAttribute(data, i);
            && r.Attr? && data[r.name..r.name + r.nlen] == a.name && data[r.value..r.value + r.vlen] == a.value
            && r.next == i + |PrintAttribute(a)|
  {
    hide *;
    AttributeParts(a);
    var b := i + |a.name|;
    var c := b + |a.left|;
    var d := c + 1 + |a.right|;
    var e := d + 1 + |a.value|;
    AtSplit(data, i, PrintAttribute(a), rest);
    AtSplit(data, i, a.name + a.left + "=", a.right + [a.quote] + a.value + [a.quote]);
    FrontParts(data, i, a);
    BackParts(data, c + 1, a);
    AtBounds(data, e + 1, rest);
    if rest != "" {
      AtIndex(data, e + 1, rest, 0);
      WhiteIs([rest[0]]);
      assert IsSpace([rest[0]][0]);
    }
    AttributeScan(data, i, b, c, d, e, a);
  }

  lemma FrontParts(data: string, i: nat, a: Attribute)
    requires At(data, i, a.name + a.left + "=")
    ensures var b := i + |a.name|;
            var c := b + |a.left|;
            c < |data| && data[i..b] == a.name && data[b..c] == a.left && data[c] == '='
  {
    hide *;
    AtSplit(data, i, a.name + a.left, "=");
    AtSplit(data, i, a.name, a.left);
    AtIndex(data, i + |a.name| + |a.left|, "=", 0);
    AtBounds(data, i + |a.name| + |a.left|, "=");
    AtSlice(data, i, a.name);
    AtSlice(data, i + |a.name|, a.left);
  }

  lemma BackParts(data: string, i: nat, a: Attribute)
    requires At(data, i, a.right + [a.quote] + a.value + [a.quote])
    ensures var d := i + |a.right|;
            var e := d + 1 + |a.value|;
            && e < |data| && data[i..d] == a.right && data[d] == a.quote
            && data[d + 1..e] == a.value && data[e] == a.quote
  {
    hide *;
    var d := i + |a.right|;
    AtSplit(data, i, a.right + [a.quote] + a.value, [a.quote]);
    AtSplit(data, i, a.right + [a.quote], a.value);
    AtSplit(data, i, a.right, [a.quote]);
    AtIndex(data, d, [a.quote], 0);
    AtIndex(data, d + 1 + |a.value|, [a.quote], 0);
    AtBounds(data, d + 1 + |a.value|, [a.quote]);
    AtSlice(data, i, a.right);
    AtSlice(data, d + 1, a.value);
  }

  lemma AttributeParts(a: Attribute)
    requires AttributeOk(a)
    ensures PrintAttribute(a) == (a.name + a.left + "=") + (a.right + [a.quote] + a.value + [a.quote])
    ensures |PrintAttribute(a)| == |a.name| + |a.left| + |a.right| + |a.value| + 3
    ensures a.name != "" && (a.quote == '"' || a.quote == '\'')
  {
  }

  lemma AttributeScan(data: string, i: nat, b: nat, c: nat, d: nat, e: nat, a: Attribute)
    requires AttributeOk(a) && i <= b <= c < d < e < |data|
    requires data[i..b] == a.name && data[b..c] == a.left && data[c] == '=' && data[c + 1..d] == a.right
    requires data[d] == a.quote && data[d + 1..e] == a.value && data[e] == a.quote
    requires e + 1 < |data| ==> IsSpace(data[e + 1])
    ensures NextAttribute(data, i) == Attr.Attr(i, b - i, d + 1, e - (d + 1), e + 1)
  {
    AttributeMarks(data, i, b, c, d, e, a);
    hide First, Hits, AttributeOk;
  }

  /** Each scan of the attribute stops where its next part begins. */
  lemma AttributeMarks(data: string, i: nat, b: nat, c: nat, d: nat, e: nat, a: Attribute)
    requires AttributeOk(a) && i <= b <= c < d < e < |data|
    requires data[i..b] == a.name && data[b..c] == a.left && data[c] == '=' && data[c + 1..d] == a.right
    requires data[d] == a.quote && data[d + 1..e] == a.value && data[e] == a.quote
    ensures First(NonSpace, data, i) == i && First(AttributeStop, data, i) == b && First(NonSpace, data, b) == c
    ensures First(NonSpace, data, c + 1) == d && First(Quote(a.quote), data, d + 1) == e
    ensures b > i && (a.quote == '"' || a.quote == '\'')
  {
    hide *;
    AttributeIs(a);
    NameMarks(data, i, b, c, a.name, a.left);
    WhitePassed(data, b, c, a.left);
    WhitePassed(data, c + 1, d, a.right);
    QuoteMarks(data, d + 1, e, a.quote, a.value);
  }

  lemma AttributeIs(a: Attribute)
    requires AttributeOk(a)
    ensures a.gap != "" && White(a.gap) && White(a.left) && White(a.right)
    ensures a.name != "" && (a.quote == '"' || a.quote == '\'')
    ensures forall k :: 0 <= k < |a.name| ==> !IsSpace(a.name[k]) && a.name[k] != '='
    ensures forall k :: 0 <= k < |a.value| ==> a.value[k] != a.quote
    ensures !IsSpace('=') && !IsSpace(a.quote)
  {
  }

  lemma NameMarks(data: string, i: nat, b: nat, c: nat, name: string, left: string)
    requires i <= b <= c < |data| && data[i..b] == name && data[b..c] == left && data[c] == '=' && White(left)
    requires name != "" && forall k :: 0 <= k < |name| ==> !IsSpace(name[k]) && name[k] != '='
    ensures First(NonSpace, data, i) == i && First(AttributeStop, data, i) == b && b > i
  {
    hide First;
    forall k | i <= k < b
      ensures data[k] == name[k - i]
    {
      assert data[i..b][k - i] == data[k];
    }
    if left != "" {
      WhiteIs(left);
      assert data[b..c][0] == data[b];
    }
    FirstIs(NonSpace, data, i, i);
    FirstIs(AttributeStop, data, i, b);
  }

  lemma WhitePassed(data: string, i: nat, j: nat, w: string)
    requires i <= j < |data| && data[i..j] == w && White(w) && !IsSpace(data[j])
    ensures First(NonSpace, data, i) == j
  {
    hide First;
    WhiteIs(w);
    forall k | i <= k < j
      ensures !Hits(NonSpace, data, k)
    {
      assert data[i..j][k - i] == data[k];
    }
    FirstIs(NonSpace, data, i, j);
  }

  lemma QuoteMarks(data: string, i: nat, e: nat, q: char, value: string)
    requires i <= e < |data| && data[i..e] == value && data[e] == q
    requires forall k :: 0 <= k < |value| ==> value[k] != q
    ensures First(Quote(q), data, i) == e
  {
    hide First;
    forall k | i <= k < e
      ensures !Hits(Quote(q), data, k)
    {
      assert data[i..e][k - i] == data[k];
    }
    FirstIs(Quote(q), data, i, e);
  }

  /** White space in front of an attribute is passed over. */
  lemma WhiteSkipped(data: string, i: nat, w: string)
    requires White(w) && At(data, i, w)
    ensures i + |w| <= |data| && NextAttribute(data, i) == NextAttribute(data, i + |w|)
  {
    hide *;
    AtBounds(data, i, w);
    WhiteIs(w);
    forall k | i <= k < i + |w|
      ensures !Hits(NonSpace, data, k)
    {
      AtIndex(data, i, w, k - i);
      assert IsSpace(w[k - i]);
      NotHit(data, k);
    }
    FirstSkips(NonSpace, data, i, i + |w|);
    SameFirst(data, i, i + |w|);
  }

  lemma NotHit(data: string, k: nat)
    requires k < |data| && IsSpace(data[k])
    ensures !Hits(NonSpace, data, k)
  {
  }

  lemma SameFirst(data: string, i: nat, j: nat)
    requires i <= |data| && j <= |data| && First(NonSpace, data, i) == First(NonSpace, data, j)
    ensures NextAttribute(data, i) == NextAttribute(data, j)
  {
    hide First, IsSpace;
  }

  /** Over the attributes printed for a tag, with white space behind them. */
  lemma {:induction false} AttributesYielded(data: string, i: nat, list: seq<Attribute>, behind: string)
    requires (forall a :: a in list ==> AttributeOk(a)) && White(behind)
    requires At(data, i, PrintList(list) + behind) && i + |PrintList(list) + behind| == |data|
    ensures YieldsAttributes(data, i, list)
    decreases |list|
  {
    hide *;
    AtBounds(data, i, PrintList(list) + behind);
    FirstPrinted(list, behind);
    if list == [] {
      WhiteSkipped(data, i, behind);
      NothingToYield(data);
      YieldsNone(data, i);
    } else {
      var g, p, rest := list[0].gap, PrintAttribute(list[0]), PrintList(list[1..]) + behind;
      AtSplit(data, i, g, p + rest);
      AtSplit(data, i + |g|, p, rest);
      AttributesYielded(data, i + |g| + |p|, list[1..], behind);
      AttributeIs(list[0]);
      WhiteSkipped(data, i, g);
      AttributeFound(data, i + |g|, list[0], rest);
      YieldsOne(data, i, list);
    }
  }

  /** Printed attributes, the first in front. */
  lemma FirstPrinted(list: seq<Attribute>, behind: string)
    requires (forall a :: a in list ==> AttributeOk(a)) && White(behind)
    ensures list == [] ==> PrintList(list) + behind == behind
    ensures list != [] ==>
              var g, p, rest := list[0].gap, PrintAttribute(list[0]), PrintList(list[1..]) + behind;
              && PrintList(list) + behind == g + (p + rest)
              && AttributeOk(list[0]) && (forall a :: a in list[1..] ==> AttributeOk(a))
              && (rest == "" || White([rest[0]]))
  {
    hide *;
    if list != [] {
      PrintedFirst(list);
      var g, p, r := list[0].gap, PrintAttribute(list[0]), PrintList(list[1..]);
      assert list[0] in list && list == [list[0]] + list[1..];
      RestBegins(list[1..], behind);
      Regroup4(g, p, r, behind);
      Regroup(p, r, behind);
    } else {
      NothingPrinted();
      assert "" + behind == behind;
    }
  }

  lemma NothingPrinted()
    ensures PrintList([]) == ""
  {
  }

  lemma PrintedFirst(list: seq<Attribute>)
    requires list != []
    ensures PrintList(list) == list[0].gap + PrintAttribute(list[0]) + PrintList(list[1..])
  {
    hide PrintAttribute;
  }

  lemma RestBegins(list: seq<Attribute>, behind: string)
    requires (forall a :: a in list ==> AttributeOk(a)) && White(behind)
    ensures var rest := PrintList(list) + behind; rest == "" || White([rest[0]])
  {
    var rest := PrintList(list) + behind;
    if list != [] {
      PrintedFirst(list);
      AttributeIs(list[0]);
      assert rest[0] == list[0].gap[0];
    } else {
      assert rest == behind;
    }
    hide PrintList, PrintAttribute, AttributeOk;
  }

  lemma NothingToYield(data: string)
    ensures NextAttribute(data, |data|) == NoAttribute
  {
    assert First(NonSpace, data, |data|) == |data|;
  }

  lemma YieldsNone(data: string, i: nat)
    requires i <= |data| && NextAttribute(data, i) == NoAttribute
    ensures YieldsAttributes(data, i, [])
  {
  }

  lemma YieldsOne(data: string, i: nat, attrs: seq<Attribute>)
    requires i <= |data| && attrs != []
    requires var r := NextAttribute(data, i);
             && r.Attr? && data[r.name..r.name + r.nlen] == attrs[0].name && data[r.value..r.value + r.vlen] == attrs[0].value
             && YieldsAttributes(data, r.next, attrs[1..])
    ensures YieldsAttributes(data, i, attrs)
  {
  }

  /** Over the attribute field the walker reports for a tag. */
  lemma FieldYielded(attrs: Attributes)
    requires AttributesOk(attrs)
    ensures YieldsAttributes(AttributeField(attrs), 0, attrs.list)
  {
    hide *;
    AttributesParts(attrs);
    FieldShape(attrs);
    FirstPrinted(attrs.list, attrs.behind);
    if attrs.list == [] {
      NothingToYield("");
      YieldsNone("", 0);
    } else {
      var p, rest := PrintAttribute(attrs.list[0]), PrintList(attrs.list[1..]) + attrs.behind;
      AtWhole(p + rest);
      AtSplit(p + rest, 0, p, rest);
      AttributesYielded(p + rest, |p|, attrs.list[1..], attrs.behind);
      AttributeFound(p + rest, 0, attrs.list[0], rest);
      YieldsOne(p + rest, 0, attrs.list);
    }
  }

  lemma FieldShape(attrs: Attributes)
    ensures attrs.list == [] ==> AttributeField(attrs) == ""
    ensures attrs.list != [] ==>
              AttributeField(attrs) == PrintAttribute(attrs.list[0]) + (PrintList(attrs.list[1..]) + attrs.behind)
  {
    hide PrintAttribute, PrintList;
  }

  /** The first attribute with a name, as the loop of SDF_config_find_attr finds it. */
  function NamedAttribute(data: string, i: nat, name: string): Attr
    requires i <= |data|
    decreases |data| - i
  {
    var r := NextAttribute(data, i);
    if r.Attr? && data[r.name..r.name + r.nlen] != name then NamedAttribute(data, r.next, name) else r
  }

  /** It has the name, and its value stands between quotes. */
  lemma {:induction false} NamedAttributeIs(data: string, i: nat, name: string)
    requires i <= |data| && NamedAttribute(data, i, name).Attr?
    ensures var r := NamedAttribute(data, i, name);
            && r.name + r.nlen < r.value && r.value + r.vlen < |data| && data[r.name..r.name + r.nlen] == name
            && (data[r.value + r.vlen] == '"' || data[r.value + r.vlen] == '\'')
    decreases |data| - i
  {
    hide *;
    NextAttributeIs(data, i);
    NamedStep(data, i, name);
    var r := NextAttribute(data, i);
    if r.Attr? && data[r.name..r.name + r.nlen] != name {
      NamedAttributeIs(data, r.next, name);
    }
  }

  lemma NextAttributeIs(data: string, i: nat)
    requires i <= |data|
    ensures var r := NextAttribute(data, i);
            r.Attr? ==>
              && i < r.next && r.name + r.nlen < r.value && r.value + r.vlen < r.next <= |data|
              && (data[r.value + r.vlen] == '"' || data[r.value + r.vlen] == '\'')
  {
    hide First;
  }

  /** The first attribute of a list with a name, or none. */
  function FirstNamed(attrs: seq<Attribute>, name: string): (k: nat)
    ensures k <= |attrs| && (k < |attrs| ==> attrs[k].name == name)
    ensures forall j :: 0 <= j < k ==> attrs[j].name != name
  {
    if attrs == [] || attrs[0].name == name then 0 else 1 + FirstNamed(attrs[1..], name)
  }

  lemma {:induction false} NamedAmong(data: string, i: nat, attrs: seq<Attribute>, name: string)
    requires i <= |data| && YieldsAttributes(data, i, attrs)
    ensures var r, k := NamedAttribute(data, i, name), FirstNamed(attrs, name);
            if k < |attrs| then r.Attr? && r.value + r.vlen <= |data| && data[r.value..r.value + r.vlen] == attrs[k].value else r == NoAttribute
    decreases |attrs|
  {
    hide NextAttribute;
    if attrs != [] && attrs[0].name != name {
      NamedAmong(data, NextAttribute(data, i).next, attrs[1..], name);
    }
  }

  /**
   SDF_config_find_attr: the value is decoded into the buffer exactly when the attribute is there and the buffer is
   longer than its text, and then it fits with its terminator.
   */
  method ConfigFindAttr(data: string, name: string, value: array<char>, mandatory: bool) returns (r: Ret, written: nat)
    modifies value
    ensures var a := NamedAttribute(data, 0, name);
            && (r == RetOk <==> a.Attr? && a.vlen < value.Length)
            && (r == RetOk ==>
                  && a.value + a.vlen < |data| && written < value.Length && value[written] == '\0'
                  && value[..written] == XmlEntities.Decode(data[a.value..a.value + a.vlen]))
            && (r == RetEof <==> a == NoAttribute && !mandatory)
  {
    hide *;
    var i := 0;
    var a;
    written := 0;
    while true
      invariant i <= |data| && NamedAttribute(data, i, name) == NamedAttribute(data, 0, name)
      decreases |data| - i
    {
      NamedStep(data, i, name);
      r, i, a := FindAttribute(data, i);
      if r == RetError {
        return RetError, 0;
      }
      if r == RetEof {
        return if mandatory then RetError else RetEof, 0;
      }
      if a.nlen == |name| && data[a.name..a.name + a.nlen] == name {
        break;
      }
    }
    if value.Length <= a.vlen {
      return RetError, 0;
    }
    NamedAttributeIs(data, 0, name);
    written := Decoded(data, a, value);
    r := RetOk;
  }

  lemma NamedStep(data: string, i: nat, name: string)
    requires i <= |data|
    ensures var r := NextAttribute(data, i);
            && (r.Attr? ==> r.name + r.nlen < r.value && r.value + r.vlen < r.next <= |data| && i < r.next)
            && AttributeCode(r) == (if r == NoAttribute then RetEof else if r == Invalid then RetError else RetOk)
            && NamedAttribute(data, i, name)
               == if r.Attr? && data[r.name..r.name + r.nlen] != name then NamedAttribute(data, r.next, name) else r
  {
    hide First;
  }

  /** The value between its quotes, decoded. */
  method Decoded(data: string, a: Attr, value: array<char>) returns (written: nat)
    requires a.Attr? && a.value + a.vlen < |data| && (data[a.value + a.vlen] == '"' || data[a.value + a.vlen] == '\'')
    requires a.vlen < value.Length
    modifies value
    ensures written < value.Length && value[written] == '\0'
    ensures value[..written] == XmlEntities.Decode(data[a.value..a.value + a.vlen])
  {
    NotInEntity();
    hide *;
    XmlEntities.Delimited(data, a.value, a.value + a.vlen);
    written := XmlEntities.DecodeData(data, a.value, a.vlen, value);
  }

  lemma NotInEntity()
    ensures !XmlEntities.InEntity('"') && !XmlEntities.InEntity('\'')
  {
  }

  /** A printed attribute is looked up and decoded: the first of its name. */
  lemma LookupAttribute(attrs: Attributes, name: string)
    requires AttributesOk(attrs)
    ensures var data := AttributeField(attrs);
            var r, k := NamedAttribute(data, 0, name), FirstNamed(attrs.list, name);
            if k < |attrs.list| then
              r.Attr? && r.value + r.vlen <= |data| && data[r.value..r.value + r.vlen] == attrs.list[k].value
            else r == NoAttribute
  {
    hide *;
    FieldYielded(attrs);
    NamedAmong(AttributeField(attrs), 0, attrs.list, name);
  }

  /** No name, no '=', no quote, no second quote, and something right behind it. */
  lemma AttributesRefused()
    ensures NextAttribute("", 0) == NoAttribute && NextAttribute("=", 0) == Invalid && NextAttribute("x", 0) == Invalid
    ensures NextAttribute("x=", 0) == Invalid && NextAttribute("x=1", 0) == Invalid
    ensures NextAttribute("x='", 0) == Invalid && NextAttribute("x=''y", 0) == Invalid
  {
    var a, b, c, d, e := "x", "x=", "x=1", "x='", "x=''y";
    FirstIs(AttributeStop, a, 0, 1);
    FirstIs(AttributeStop, b, 0, 1);
    FirstIs(AttributeStop, c, 0, 1);
    FirstIs(AttributeStop, d, 0, 1);
    FirstIs(AttributeStop, e, 0, 1);
    FirstIs(Quote('\''), d, 3, 3);
    FirstIs(Quote('\''), e, 3, 3);
  }

  // ---- Elements ----

  /** The first element with a name, as the loop of SDF_config_find_element finds it. */
  function NamedElement(data: string, i: nat, name: string): (l: Located)
    requires i <= |data|
    ensures l.Located? ==> i < l.tag.element && TagOk(data, l.tag.element - 1, l.tag) && l.tag.next <= l.next <= |data|
    ensures l.Located? ==> l.tag.next + l.dataLen <= l.next && Name(data, l.tag) == name
    decreases |data| - i
  {
    var l := Locate(data, i);
    if l.Located? && Name(data, l.tag) != name then NamedElement(data, l.next, name) else l
  }

  /** SDF_config_find_element: `curr` is behind the element found, or at the end. */
  method ConfigFindElement(data: string, curr: nat, element: string, mandatory: bool)
    returns (r: Ret, next: nat, xml: Tag, dataLen: nat)
    requires curr <= |data|
    ensures var l := NamedElement(data, curr, element);
            && (r == RetOk <==> l.Located?) && (r == RetEof <==> l == Nothing && !mandatory)
            && (r == RetOk ==> l == Located(xml, dataLen, next))
    ensures curr <= next <= |data|
  {
    hide Locate, First;
    next := curr;
    while true
      invariant curr <= next <= |data| && NamedElement(data, next, element) == NamedElement(data, curr, element)
      decreases |data| - next
    {
      r, next, xml, dataLen := FindElement(data, next);
      if r == RetError {
        return;
      }
      if r == RetEof {
        r := if mandatory then RetError else RetEof;
        return;
      }
      if |element| == xml.elementLen && Name(data, xml) == element {
        return;
      }
    }
  }

  function FirstChild(children: seq<Child>, name: string): (k: nat)
    ensures k <= |children| && (k < |children| ==> children[k].name == name)
    ensures forall j :: 0 <= j < k ==> children[j].name != name
  {
    if children == [] || children[0].name == name then 0 else 1 + FirstChild(children[1..], name)
  }

  /** Among siblings the first remaining one with the name is found, and the search can go on behind it. */
  lemma {:induction false} NamedSibling(data: string, i: nat, children: seq<Child>, name: string)
    requires i <= |data| && Yields(data, i, children)
    ensures var l, k := NamedElement(data, i, name), FirstChild(children, name);
            if k < |children| then
              var c := children[k];
              && Reported(data, l, c.at, c.name, c.attrs, c.empty, c.body) && l.next <= |data|
              && Yields(data, l.next, children[k + 1..])
            else l == Nothing
    decreases |children|
  {
    hide Locate, First, PrintElement, FindTag, Match, Reported, TagOk, IsTagOf;
    if children != [] {
      var c, l := children[0], Locate(data, i);
      ReportedName(data, l, c);
      if c.name != name {
        var k := FirstChild(children[1..], name);
        NamedSibling(data, l.next, children[1..], name);
        assert k < |children| - 1 ==> children[1..][k + 1..] == children[k + 2..];
      }
    }
  }

  lemma ReportedName(data: string, l: Located, c: Child)
    requires Reported(data, l, c.at, c.name, c.attrs, c.empty, c.body)
    ensures l.Located? && l.tag.element + l.tag.elementLen <= |data| && Name(data, l.tag) == c.name
  {
  }
}
