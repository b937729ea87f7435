/** The XML walker of sdfxml.c: tags found in a buffer, and elements matched with their ends. */
module Xml {
  import opened Bytes

  predicate IsSpace(c: char) {
    c == ' ' || c == '\n' || c == '\t' || c == '\r'
  }

  /** Blanks, line breaks, tabs and carriage returns separate, and nothing else. */
  lemma Separators(c: char)
    ensures IsSpace(c) <==> c == ' ' || c == '\n' || c == '\t' || c == '\r'
  {
  }

  // ---- What the scanning loops stop at ----

  datatype Mark =
    | Opening                 // '<'
    | CommentEnd              // the '>' of "-->"
    | NameStop                // a space, '>' or "/>"
    | NonSpace
    | TagStop                 // '>' or "/>"
    | NextTag                 // '<' with something after it
    | AttributeStop           // a space or '='
    | Quote(q: char)

  predicate Hits(m: Mark, data: string, k: nat)
    requires k < |data|
  {
    match m
    case Opening => data[k] == '<'
    case CommentEnd => k >= 2 && data[k] == '>' && data[k - 1] == '-' && data[k - 2] == '-'
    case NameStop => IsSpace(data[k]) || data[k] == '>' || (k + 1 < |data| && data[k] == '/' && data[k + 1] == '>')
    case NonSpace => !IsSpace(data[k])
    case TagStop => data[k] == '>' || (k + 1 < |data| && data[k] == '/' && data[k + 1] == '>')
    case NextTag => k + 1 < |data| && data[k] == '<'
    case AttributeStop => IsSpace(data[k]) || data[k] == '='
    case Quote(q) => data[k] == q
  }

  /** The first position from i on that a scan stops at, or the end. */
  function First(m: Mark, data: string, i: nat): (j: nat)
    requires i <= |data|
    ensures i <= j <= |data|
    ensures j < |data| ==> Hits(m, data, j)
    ensures forall k :: i <= k < j ==> !Hits(m, data, k)
    decreases |data| - i
  {
    if i == |data| || Hits(m, data, i) then i else First(m, data, i + 1)
  }

  lemma FirstIs(m: Mark, data: string, i: nat, j: nat)
    requires i <= j <= |data| && (j < |data| ==> Hits(m, data, j)) && forall k :: i <= k < j ==> !Hits(m, data, k)
    ensures First(m, data, i) == j
  {
  }

  /** The scanning loops. */
  method Scan(m: Mark, data: string, i: nat) returns (j: nat)
    requires i <= |data|
    ensures j == First(m, data, i)
  {
    j := i;
    while j < |data| && !Hits(m, data, j)
      invariant i <= j <= |data|
      invariant forall k :: i <= k < j ==> !Hits(m, data, k)
    {
      j := j + 1;
    }
    FirstIs(m, data, i, j);
  }

  // ---- One tag ----

  /** SDF_XML, with positions for pointers; `content` is -1 for a null pointer. */
  datatype Tag = Tag(element: nat, elementLen: nat, closed: bool, attr: nat, attrLen: nat, content: int, contentLen: nat,
                     next: nat)

  datatype Found = NotFound | Malformed | Found(tag: Tag)

  function Name(data: string, t: Tag): string
    requires t.element + t.elementLen <= |data|
  {
    data[t.element..t.element + t.elementLen]
  }

  /** A comment or a tag begins where '<' is; comments are passed over. */
  datatype Where = NoTag | Unclosed | TagAt(pos: nat)

  function Skip(data: string, i: nat): (w: Where)
    requires i <= |data|
    ensures w.TagAt? ==> i <= w.pos < |data| && data[w.pos] == '<' && !At(data, w.pos, "<!--")
    decreases |data| - i
  {
    var j := First(Opening, data, i);
    if j == |data| then NoTag
    else if !At(data, j, "<!--") then TagAt(j)
    else
      var k := First(CommentEnd, data, j);
      if k == |data| then Unclosed else Skip(data, k + 1)
  }

  /** The tag whose '<' is at j. */
  function TagFrom(data: string, j: nat): (f: Found)
    requires j < |data|
    ensures f.Found? ==> TagOk(data, j, f.tag)
  {
    var f := First(NameStop, data, j + 1);
    if f == |data| || f == j + 1 then Malformed
    else
      var a := First(NonSpace, data, f);
      var t := First(TagStop, data, a);
      if t == |data| then Malformed
      else
        var closed := data[t] != '>';
        var n := if closed then t + 2 else t + 1;
        if closed || data[j + 1] == '/' then Found(Tag(j + 1, f - (j + 1), closed, a, t - a, -1, 0, n))
        else
          var c := First(NextTag, data, n);
          if c == |data| then Malformed
          else if data[c + 1] == '/' then Found(Tag(j + 1, f - (j + 1), false, a, t - a, n, c - n, c))
          else Found(Tag(j + 1, f - (j + 1), false, a, t - a, -1, 0, c))
  }

  /** A tag found at j is not empty and lies inside the buffer, and the scan goes on behind it. */
  predicate TagOk(data: string, j: nat, t: Tag) {
    && t.element == j + 1 && t.elementLen > 0 && t.element + t.elementLen <= t.attr
    && t.attr + t.attrLen < t.next <= |data|
    && (t.content >= 0 ==> t.attr + t.attrLen < t.content && t.content + t.contentLen == t.next)
  }

  /** sdf_xml_find_start_element */
  function FindTag(data: string, i: nat): (f: Found)
    requires i <= |data|
    ensures f.Found? ==> f.tag.element > i && TagOk(data, f.tag.element - 1, f.tag)
  {
    match Skip(data, i)
    case NoTag => NotFound
    case Unclosed => Malformed
    case TagAt(j) => TagFrom(data, j)
  }

  datatype Ret = RetOk | RetEof | RetError

  /** How a scan's result is returned. */
  function Code(f: Found): Ret {
    match f
    case NotFound => RetEof
    case Malformed => RetError
    case Found(_) => RetOk
  }

  const NO_TAG := Tag(0, 0, false, 0, 0, -1, 0, 0)

  /** One round of the search for a '<'. */
  lemma SkipStep(data: string, i: nat)
    requires i <= |data|
    ensures var j := First(Opening, data, i);
            && i <= j <= |data|
            && (j == |data| ==> Skip(data, i) == NoTag)
            && (j < |data| && !At(data, j, "<!--") ==> Skip(data, i) == TagAt(j))
            && (j < |data| && At(data, j, "<!--") ==>
                  var k := First(CommentEnd, data, j);
                  j <= k <= |data| && Skip(data, i) == if k == |data| then Unclosed else Skip(data, k + 1))
  {
    hide First, At, Hits;
  }

  /** The loop that finds the first '<' that does not begin a comment; -1 for none, -2 for an unclosed comment. */
  method FindOpening(data: string, curr: nat) returns (pos: int)
    requires curr <= |data|
    ensures pos == match Skip(data, curr) case NoTag => -1 case Unclosed => -2 case TagAt(j) => j
  {
    hide *;
    var i := curr;
    while true
      invariant i <= |data| && Skip(data, i) == Skip(data, curr)
      decreases |data| - i
    {
      SkipStep(data, i);
      i := Scan(Opening, data, i);
      if i == |data| {
        return -1;
      }
      CommentStarts(data, i);
      if i + 4 > |data| || data[i..i + 4] != "<!--" {
        return i;
      }
      var k := Scan(CommentEnd, data, i);
      if k == |data| {
        return -2;
      }
      i := k + 1;
    }
  }

  lemma CommentStarts(data: string, i: nat)
    ensures At(data, i, "<!--") <==> i + 4 <= |data| && data[i..i + 4] == "<!--"
  {
  }

  /** The fields of the tag whose '<' is at pos. */
  method ReadTag(data: string, pos: nat) returns (r: Ret, xml: Tag)
    requires pos < |data|
    ensures r == Code(TagFrom(data, pos)) && (r == RetOk ==> Found(xml) == TagFrom(data, pos))
  {
    hide First, IsSpace;
    xml := NO_TAG;
    var i := pos;
    var tagClose := i + 1 < |data| && data[i + 1] == '/';
    i := i + 1;
    var element := i;
    i := Scan(NameStop, data, i);
    if i >= |data| {
      return RetError, xml;
    }
    var elementLen := i - element;
    if elementLen <= 0 {
      return RetError, xml;
    }
    i := Scan(NonSpace, data, i);
    var attr := i;
    i := Scan(TagStop, data, i);
    if i >= |data| {
      return RetError, xml;
    }
    var attrLen := i - attr;
    var closed := data[i] != '>';
    i := if closed then i + 2 else i + 1;
    var content, contentLen := -1, 0;
    if !tagClose && !closed {
      var start := i;
      i := Scan(NextTag, data, i);
      if i >= |data| {
        return RetError, xml;
      }
      if data[i + 1] == '/' {
        content, contentLen := start, i - start;
      }
    }
    xml := Tag(element, elementLen, closed, attr, attrLen, content, contentLen, i);
    r := RetOk;
  }

  /** sdf_xml_find_start_element: the next tag behind `curr`, which stays where it is on failure. */
  method FindStart(data: string, curr: nat) returns (r: Ret, next: nat, xml: Tag)
    requires curr <= |data|
    ensures r == Code(FindTag(data, curr))
    ensures r == RetOk ==> Found(xml) == FindTag(data, curr) && next == xml.next
    ensures r != RetOk ==> next == curr
  {
    hide First, Hits, TagFrom, TagOk;
    next, xml := curr, NO_TAG;
    var pos := FindOpening(data, curr);
    if pos == -1 {
      return RetEof, next, xml;
    }
    if pos == -2 {
      return RetError, next, xml;
    }
    r, xml := ReadTag(data, pos);
    if r == RetOk {
      next := xml.next;
    }
  }

  // ---- Matching ends ----

  /** The closing tag that ends an element: where its '<' is, and the position behind it. */
  datatype End = NoEnd | EndAt(close: nat, next: nat)

  /** Against a stack of open elements, innermost last: the closing tag that empties it. */
  function Match(data: string, i: nat, stack: seq<string>): (e: End)
    requires i <= |data| && stack != []
    ensures e.EndAt? ==> i <= e.close < e.next <= |data|
    decreases |data| - i
  {
    match FindTag(data, i)
    case NotFound => NoEnd
    case Malformed => NoEnd
    case Found(t) =>
      var name := Name(data, t);
      var top := stack[|stack| - 1];
      if t.closed then Match(data, t.next, stack)
      else if name[0] != '/' then Match(data, t.next, stack + [name])
      else if name[1..] != top then NoEnd
      else if |stack| == 1 then EndAt(t.element - 1, t.next)
      else Match(data, t.next, stack[..|stack| - 1])
  }

  /** Matching against a deeper stack closes the elements above first. */
  lemma {:induction false} MatchAbove(data: string, i: nat, below: seq<string>, above: seq<string>)
    requires i <= |data| && below != [] && above != []
    ensures Match(data, i, below + above)
            == match Match(data, i, above) case NoEnd => NoEnd case EndAt(_, j) => Match(data, j, below)
    decreases |data| - i
  {
    hide First, Skip, TagFrom, FindTag;
    var f := FindTag(data, i);
    if f.Found? {
      var t, n := f.tag, |above| - 1;
      var name := Name(data, t);
      var stack := below + above;
      assert stack[|stack| - 1] == above[n];
      assert stack[..|stack| - 1] == below + above[..n];
      if t.closed {
        MatchAbove(data, t.next, below, above);
      } else if name[0] != '/' {
        assert stack + [name] == below + (above + [name]);
        MatchAbove(data, t.next, below, above + [name]);
      } else if name[1..] == above[n] && n > 0 {
        MatchAbove(data, t.next, below, above[..n]);
      } else {
        assert n == 0 ==> stack[..|stack| - 1] == below;
      }
    }
  }

  /** An element opened inside another is closed before it. */
  lemma MatchNested(data: string, i: nat, outer: string, inner: string)
    requires i <= |data|
    ensures Match(data, i, [outer] + [inner])
            == match Match(data, i, [inner]) case NoEnd => NoEnd case EndAt(_, j) => Match(data, j, [outer])
  {
    MatchAbove(data, i, [outer], [inner]);
  }

  // ---- What proper nesting is ----

  /** A tag, as far as nesting goes. */
  datatype Token = Empty | Opens(name: string) | Closes(name: string)

  function TokenOf(data: string, t: Tag): Token
    requires t.element + t.elementLen <= |data| && t.elementLen > 0
  {
    var name := Name(data, t);
    if t.closed then Empty else if name[0] == '/' then Closes(name[1..]) else Opens(name)
  }

  /** The tags read one after the other from i on are `ts`, and the reading stands at m behind them. */
  ghost predicate Scans(data: string, i: nat, ts: seq<Token>, m: nat)
    requires i <= |data|
    decreases |ts|
  {
    if ts == [] then i == m
    else
      var f := FindTag(data, i);
      f.Found? && TokenOf(data, f.tag) == ts[0] && Scans(data, f.tag.next, ts[1..], m)
  }

  /** Self-closing tags, and elements whose content lies between an opening and a closing tag of one name. */
  ghost predicate Content(ts: seq<Token>)
    decreases |ts|
  {
    || ts == []
    || (ts[0].Empty? && Content(ts[1..]))
    || (ts[0].Opens?
        && exists k :: 0 < k < |ts| && ts[k] == Closes(ts[0].name) && Content(ts[1..k]) && Content(ts[k + 1..]))
  }

  /** From i on there is content, up to m, and the tag behind it closes `name`. */
  ghost predicate Encloses(data: string, i: nat, ts: seq<Token>, m: nat, name: string, e: End)
    requires i <= |data|
  {
    && Content(ts) && Scans(data, i, ts, m) && m <= |data|
    && var f := FindTag(data, m);
       f.Found? && TokenOf(data, f.tag) == Closes(name) && e == EndAt(f.tag.element - 1, f.tag.next)
  }

  ghost predicate Nested(data: string, i: nat, name: string, e: End)
    requires i <= |data|
  {
    exists ts, m :: Encloses(data, i, ts, m, name, e)
  }

  lemma {:induction false} ScansAppend(data: string, i: nat, ts: seq<Token>, m: nat, us: seq<Token>, n: nat)
    requires i <= |data| && m <= |data| && Scans(data, i, ts, m) && Scans(data, m, us, n)
    ensures Scans(data, i, ts + us, n)
    decreases |ts|
  {
    hide FindTag, TokenOf;
    if ts == [] {
      assert ts + us == us;
    } else {
      assert (ts + us)[1..] == ts[1..] + us;
      ScansAppend(data, FindTag(data, i).tag.next, ts[1..], m, us, n);
    }
  }

  lemma {:induction false} ScansSplit(data: string, i: nat, ts: seq<Token>, m: nat, k: nat) returns (j: nat)
    requires i <= |data| && k <= |ts| && Scans(data, i, ts, m)
    ensures j <= |data| && Scans(data, i, ts[..k], j) && Scans(data, j, ts[k..], m)
    decreases |ts|
  {
    hide FindTag, TokenOf;
    if k == 0 {
      j := i;
      assert ts[0..] == ts;
    } else {
      FoundInside(data, i);
      j := ScansSplit(data, FindTag(data, i).tag.next, ts[1..], m, k - 1);
      assert ts[1..][..k - 1] == ts[..k][1..] && ts[1..][k - 1..] == ts[k..];
    }
  }

  lemma FoundInside(data: string, i: nat)
    requires i <= |data|
    ensures var f := FindTag(data, i);
            f.Found? ==> i < f.tag.next <= |data| && f.tag.element + f.tag.elementLen <= |data| && f.tag.elementLen > 0
  {
  }

  lemma ScansOne(data: string, i: nat)
    requires i <= |data| && FindTag(data, i).Found?
    ensures var t := FindTag(data, i).tag;
            t.next <= |data| && t.element + t.elementLen <= |data| && t.elementLen > 0
            && Scans(data, i, [TokenOf(data, t)], t.next)
  {
    hide FindTag, TokenOf;
    FoundInside(data, i);
    var t := FindTag(data, i).tag;
    assert Scans(data, t.next, [], t.next);
  }

  lemma ScansFirst(data: string, i: nat, ts: seq<Token>, m: nat)
    requires i <= |data| && Scans(data, i, ts, m) && ts != []
    ensures var f := FindTag(data, i);
            && f.Found? && i < f.tag.next <= |data|
            && f.tag.element + f.tag.elementLen <= |data| && f.tag.elementLen > 0
            && TokenOf(data, f.tag) == ts[0] && Scans(data, f.tag.next, ts[1..], m)
  {
    hide FindTag, TokenOf;
    FoundInside(data, i);
  }

  /** One step of the matcher on the next tag. */
  lemma MatchStep(data: string, i: nat, stack: seq<string>)
    requires i <= |data| && stack != []
    ensures var f := FindTag(data, i);
            if !f.Found? then Match(data, i, stack) == NoEnd
            else
              && i < f.tag.next <= |data| && f.tag.element + f.tag.elementLen <= |data| && f.tag.elementLen > 0
              && var token := TokenOf(data, f.tag);
                 if token.Empty? then Match(data, i, stack) == Match(data, f.tag.next, stack)
                 else if token.Opens? then
                   && token.name == Name(data, f.tag)
                   && Match(data, i, stack) == Match(data, f.tag.next, stack + [token.name])
                 else
                   Match(data, i, stack)
                   == if token.name != stack[|stack| - 1] then NoEnd
                      else if |stack| == 1 then EndAt(f.tag.element - 1, f.tag.next)
                      else Match(data, f.tag.next, stack[..|stack| - 1])
  {
    FoundInside(data, i);
    hide FindTag;
  }

  /** Content leaves the stack as it was. */
  lemma {:induction false} ContentMatched(data: string, i: nat, ts: seq<Token>, m: nat, stack: seq<string>)
    requires i <= |data| && m <= |data| && stack != [] && Content(ts) && Scans(data, i, ts, m)
    ensures Match(data, i, stack) == Match(data, m, stack)
    decreases |ts|
  {
    hide *;
    if ts == [] {
      ScansNone(data, i, m);
    } else {
      MatchStep(data, i, stack);
      ScansFirst(data, i, ts, m);
      var t := FindTag(data, i).tag;
      if ts[0].Empty? {
        ContentEmpty(ts);
        ContentMatched(data, t.next, ts[1..], m, stack);
      } else {
        var k := ContentOpen(ts);
        var name := ts[0].name;
        assert (stack + [name])[..|stack|] == stack;
        var j := ScansSplit(data, t.next, ts[1..], m, k - 1);
        assert ts[1..][..k - 1] == ts[1..k] && ts[1..][k - 1..] == ts[k..] && ts[k..][1..] == ts[k + 1..];
        ContentMatched(data, t.next, ts[1..k], j, stack + [name]);
        MatchStep(data, j, stack + [name]);
        ScansFirst(data, j, ts[k..], m);
        ContentMatched(data, FindTag(data, j).tag.next, ts[k + 1..], m, stack);
      }
    }
  }

  lemma ScansNone(data: string, i: nat, m: nat)
    requires i <= |data|
    ensures Scans(data, i, [], m) <==> i == m
  {
  }

  lemma ContentPrefixed(token: Token, ts: seq<Token>)
    requires token.Empty? && Content(ts)
    ensures Content([token] + ts)
  {
    assert ([token] + ts)[1..] == ts;
  }

  lemma ContentEmpty(ts: seq<Token>)
    requires ts != [] && ts[0].Empty?
    ensures Content(ts) <==> Content(ts[1..])
  {
  }

  lemma ContentOpen(ts: seq<Token>) returns (k: nat)
    requires ts != [] && !ts[0].Empty? && Content(ts)
    ensures ts[0].Opens? && 0 < k < |ts| && ts[k] == Closes(ts[0].name) && Content(ts[1..k]) && Content(ts[k + 1..])
  {
    k :| 0 < k < |ts| && ts[k] == Closes(ts[0].name) && Content(ts[1..k]) && Content(ts[k + 1..]);
  }

  lemma ContentElement(name: string, inside: seq<Token>, behind: seq<Token>)
    requires Content(inside) && Content(behind)
    ensures Content([Opens(name)] + inside + [Closes(name)] + behind)
  {
    var ts, k := [Opens(name)] + inside + [Closes(name)] + behind, 1 + |inside|;
    assert ts[k] == Closes(name) && ts[1..k] == inside && ts[k + 1..] == behind;
  }

  /** The tags up to a closing tag that the matcher finds are content. */
  lemma {:induction false} MatchedContent(data: string, i: nat, name: string) returns (ts: seq<Token>, m: nat)
    requires i <= |data| && Match(data, i, [name]).EndAt?
    ensures Encloses(data, i, ts, m, name, Match(data, i, [name]))
    decreases |data| - i
  {
    hide *;
    MatchStep(data, i, [name]);
    var t := FindTag(data, i).tag;
    var token := TokenOf(data, t);
    ScansOne(data, i);
    match token
    case Empty =>
      ts, m := MatchedContent(data, t.next, name);
      EnclosesIs(data, t.next, ts, m, name, Match(data, i, [name]));
      ScansAppend(data, i, [token], t.next, ts, m);
      ContentPrefixed(token, ts);
      ts := [token] + ts;
      EnclosesIs(data, i, ts, m, name, Match(data, i, [name]));
    case Opens(inner) =>
      MatchNested(data, t.next, name, inner);
      assert [name] + [inner] == [name, inner];
      var inside, close := MatchedContent(data, t.next, inner);
      EnclosesIs(data, t.next, inside, close, inner, Match(data, t.next, [inner]));
      var c := FindTag(data, close).tag;
      var behind;
      behind, m := MatchedContent(data, c.next, name);
      EnclosesIs(data, c.next, behind, m, name, Match(data, i, [name]));
      ScansOne(data, close);
      ScansAppend(data, i, [token], t.next, inside, close);
      ScansAppend(data, i, [token] + inside, close, [Closes(inner)], c.next);
      ScansAppend(data, i, [token] + inside + [Closes(inner)], c.next, behind, m);
      ContentElement(inner, inside, behind);
      ts := [token] + inside + [Closes(inner)] + behind;
      EnclosesIs(data, i, ts, m, name, Match(data, i, [name]));
    case Closes(_) =>
      ts, m := [], i;
      ScansNone(data, i, i);
      NoContent();
      EnclosesIs(data, i, ts, m, name, Match(data, i, [name]));
  }

  lemma NoContent()
    ensures Content([])
  {
  }

  lemma EnclosesIs(data: string, i: nat, ts: seq<Token>, m: nat, name: string, e: End)
    requires i <= |data|
    ensures Encloses(data, i, ts, m, name, e) <==>
            && Content(ts) && Scans(data, i, ts, m) && m <= |data|
            && FindTag(data, m).Found?
            && var t := FindTag(data, m).tag;
               && t.element + t.elementLen <= |data| && t.elementLen > 0 && t.next <= |data|
               && TokenOf(data, t) == Closes(name) && e == EndAt(t.element - 1, t.next)
  {
    if m <= |data| {
      FoundInside(data, m);
    }
    hide FindTag, TokenOf, Content, Scans;
  }

  /** The matcher finds exactly the closing tag of properly nested content. */
  lemma MatchIsNesting(data: string, i: nat, name: string, e: End)
    requires i <= |data| && e.EndAt?
    ensures Match(data, i, [name]) == e <==> Nested(data, i, name, e)
  {
    hide *;
    if Match(data, i, [name]) == e {
      var ts, m := MatchedContent(data, i, name);
      NestedBy(data, i, ts, m, name, e);
    }
    if Nested(data, i, name, e) {
      var ts, m := NestedTags(data, i, name, e);
      EnclosesIs(data, i, ts, m, name, e);
      ContentMatched(data, i, ts, m, [name]);
      MatchStep(data, m, [name]);
    }
  }

  lemma NestedBy(data: string, i: nat, ts: seq<Token>, m: nat, name: string, e: End)
    requires i <= |data| && Encloses(data, i, ts, m, name, e)
    ensures Nested(data, i, name, e)
  {
  }

  lemma NestedTags(data: string, i: nat, name: string, e: End) returns (ts: seq<Token>, m: nat)
    requires i <= |data| && Nested(data, i, name, e)
    ensures Encloses(data, i, ts, m, name, e)
  {
    ts, m :| Encloses(data, i, ts, m, name, e);
  }

  /**
   sdf_xml_find_end_element: succeeds exactly when the tags behind `curr` are properly nested up to a closing tag with
   the element's name, and returns that tag.
   */
  method FindEnd(data: string, curr: nat, name: string) returns (r: Ret, next: nat, close: nat)
    requires curr <= |data|
    ensures r == RetOk <==> Match(data, curr, [name]).EndAt?
    ensures r == RetOk ==> Match(data, curr, [name]) == EndAt(close, next) && curr < next <= |data|
    ensures r != RetOk ==> r == RetError && next == curr
    decreases |data| - curr
  {
    var i := curr;
    close := 0;
    while true
      invariant curr <= i <= |data| && Match(data, i, [name]) == Match(data, curr, [name])
      decreases |data| - i
    {
      var x;
      r, next, x := FindStart(data, i);
      if r == RetError {
        return r, curr, 0;
      }
      if r == RetEof {
        return RetError, curr, 0;
      }
      i := next;
      if x.closed {
        continue;
      }
      if data[x.element] == '/' {
        if x.elementLen - 1 == |name| && data[x.element + 1..x.element + x.elementLen] == name {
          close := x.element - 1;
          return RetOk, i, close;
        }
        return RetError, curr, 0;
      }
      var inner;
      MatchNested(data, i, name, Name(data, x));
      r, next, inner := FindEnd(data, i, Name(data, x));
      if r != RetOk {
        return r, curr, 0;
      }
      i := next;
    }
  }

  // ---- Whole elements ----

  /** An element: its tag, and how long the data behind the tag is. */
  datatype Located = Nothing | Broken | Located(tag: Tag, dataLen: nat, next: nat)

  predicate IsProlog(name: string) {
    name == "?xml" || name == "!DOCTYPE"
  }

  /** The next element behind i, after a prolog. */
  function Locate(data: string, i: nat): (l: Located)
    requires i <= |data|
    ensures l.Located? ==> i < l.tag.element && TagOk(data, l.tag.element - 1, l.tag) && l.tag.next <= l.next <= |data|
    ensures l.Located? ==> l.tag.next + l.dataLen <= l.next
    decreases |data| - i
  {
    match FindTag(data, i)
    case NotFound => Nothing
    case Malformed => Broken
    case Found(t) =>
      if IsProlog(Name(data, t)) then Locate(data, t.next)
      else if t.closed then Located(t, 0, t.next)
      else
        match Match(data, t.next, [Name(data, t)])
        case NoEnd => Broken
        case EndAt(close, j) => Located(t, close - t.next, j)
  }

  function LocatedCode(l: Located): Ret {
    match l
    case Nothing => RetEof
    case Broken => RetError
    case Located(_, _, _) => RetOk
  }

  /** SDF_xml_find_element: the position comes closer to the end with every success. */
  method FindElement(data: string, curr: nat) returns (r: Ret, next: nat, xml: Tag, dataLen: nat)
    requires curr <= |data|
    ensures r == LocatedCode(Locate(data, curr))
    ensures r == RetOk ==> Locate(data, curr) == Located(xml, dataLen, next) && curr < next <= |data|
    ensures curr <= next <= |data|
  {
    hide First, Hits, Skip, TagFrom, FindTag, Match;
    next, dataLen := curr, 0;
    while true
      invariant curr <= next <= |data| && Locate(data, next) == Locate(data, curr)
      decreases |data| - next
    {
      r, next, xml := FindStart(data, next);
      if r != RetOk {
        return;
      }
      var name := Name(data, xml);
      if name == "?xml" || name == "!DOCTYPE" {
        continue;
      }
      if xml.closed {
        return;
      }
      break;
    }
    var close;
    r, next, close := FindEnd(data, next, Name(data, xml));
    if r == RetOk {
      dataLen := close - xml.next;
    }
  }

  /** Behind the tag of an element that is not self-closing lies nested content and its own closing tag. */
  lemma LocatedNested(data: string, i: nat)
    requires i <= |data| && Locate(data, i).Located? && !Locate(data, i).tag.closed
    ensures var l := Locate(data, i);
            Nested(data, l.tag.next, Name(data, l.tag), EndAt(l.tag.next + l.dataLen, l.next))
    decreases |data| - i
  {
    hide First, Skip, TagFrom, FindTag, Match, Nested;
    var t := FindTag(data, i).tag;
    if IsProlog(Name(data, t)) {
      LocatedNested(data, t.next);
    } else {
      var l := Locate(data, i);
      MatchIsNesting(data, t.next, Name(data, t), EndAt(t.next + l.dataLen, l.next));
    }
  }
}
