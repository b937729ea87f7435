/** One document spelled out, and what the walker and the lookups report for it. */
module XmlExample {
  import opened Bytes
  import opened Xml
  import opened XmlTree
  import opened XmlConfig
  import XmlEntities

  /** A prolog, a comment, attributes on several lines, a self-closing child and a child of the root's own name. */
  function Document(): string {
    "<?xml version='1.0'?>\n<!-- > -->\r\n" + "<a\n\tx = \"1&lt;2\"\r\ny='3' >t<b/>\n<a>u</a\t></a>" + "\n"
  }

  function Declared(): seq<Misc> {
    [Declaration(" version='1.0'?"), Blank("\n"), Remark(" > "), Blank("\r\n")]
  }

  function RootAttributes(): Attributes {
    Attributes([Attribute("\n\t", "x", " ", " ", "1&lt;2", '"'), Attribute("\r\n", "y", "", "", "3", '\'')], " ", "")
  }

  function Inner(): Items {
    Element("a", Attributes([], "", "\t"), false, Text("u", End), End)
  }

  function RootBody(): Items {
    Text("t", Element("b", Attributes([], "", ""), true, End, Text("\n", Inner())))
  }

  lemma DeclaredOk()
    ensures forall m :: m in Declared() ==> MiscOk(m)
  {
    var s := "<!--" + " > " + "-->";
    assert s[3] == '-' && s[4] == ' ' && s[5] == '>' && s[6] == ' ' && s[7] == '-' && s[8] == '-';
  }

  lemma RootOk()
    ensures NameOk("a") && AttributesOk(RootAttributes()) && ItemsOk(RootBody())
  {
  }

  lemma PrologPrinted()
    ensures PrintProlog(Declared()) == "<?xml version='1.0'?>\n<!-- > -->\r\n"
  {
    hide *;
    var a, b, c, d := Declaration(" version='1.0'?"), Blank("\n"), Remark(" > "), Blank("\r\n");
    MiscsPrinted();
    PrologStep(a, [b, c, d]);
    PrologStep(b, [c, d]);
    PrologStep(c, [d]);
    PrologStep(d, []);
    assert [a] + [b, c, d] == [a, b, c, d] && [b] + [c, d] == [b, c, d] && [c] + [d] == [c, d] && [d] + [] == [d];
    assert "\r\n" + "" == "\r\n" && "<!-- > -->" + "\r\n" == "<!-- > -->\r\n";
    assert "\n" + "<!-- > -->\r\n" == "\n<!-- > -->\r\n";
    assert "<?xml version='1.0'?>" + "\n<!-- > -->\r\n" == "<?xml version='1.0'?>\n<!-- > -->\r\n";
  }

  lemma MiscsPrinted()
    ensures Declared() == [Declaration(" version='1.0'?"), Blank("\n"), Remark(" > "), Blank("\r\n")]
    ensures PrintMisc(Declaration(" version='1.0'?")) == "<?xml version='1.0'?>"
    ensures PrintMisc(Blank("\n")) == "\n" && PrintMisc(Remark(" > ")) == "<!-- > -->"
    ensures PrintMisc(Blank("\r\n")) == "\r\n"
  {
    hide *;
    DeclaredIs();
    DeclarationPrinted();
    RemarkPrinted();
  }

  lemma DeclaredIs()
    ensures Declared() == [Declaration(" version='1.0'?"), Blank("\n"), Remark(" > "), Blank("\r\n")]
    ensures PrintMisc(Blank("\n")) == "\n" && PrintMisc(Blank("\r\n")) == "\r\n"
  {
  }

  lemma DeclarationPrinted()
    ensures PrintMisc(Declaration(" version='1.0'?")) == "<?xml version='1.0'?>"
  {
    assert PrintMisc(Declaration(" version='1.0'?")) == "<?xml" + " version='1.0'?" + ">";
    assert "<?xml" + " version='1.0'?" == "<?xml version='1.0'?";
  }

  lemma RemarkPrinted()
    ensures PrintMisc(Remark(" > ")) == "<!-- > -->"
  {
  }

  lemma PrologStep(m: Misc, rest: seq<Misc>)
    ensures PrintProlog([m] + rest) == PrintMisc(m) + PrintProlog(rest)
    ensures PrintProlog([]) == ""
  {
    assert ([m] + rest)[1..] == rest;
  }

  lemma AttributesPrinted()
    ensures PrintAttributes(RootAttributes()) == "\n\tx = \"1&lt;2\"\r\ny='3' "
    ensures AttributeField(RootAttributes()) == "x = \"1&lt;2\"\r\ny='3' "
  {
    var x, y := Attribute("\n\t", "x", " ", " ", "1&lt;2", '"'), Attribute("\r\n", "y", "", "", "3", '\'');
    assert PrintAttribute(x) == "x = \"1&lt;2\"" && PrintAttribute(y) == "y='3'";
    hide PrintAttribute;
    assert PrintList([]) == "" && [y][1..] == [] && [x, y][1..] == [y];
    assert PrintList([y]) == "\r\n" + PrintAttribute(y) + "" == "\r\ny='3'";
    assert PrintList([x, y]) == "\n\t" + PrintAttribute(x) + PrintList([y]);
  }

  lemma InnerPrinted()
    ensures Print(Inner()) == "<a>u</a\t>"
  {
    var attrs := Attributes([], "", "\t");
    assert PrintAttributes(attrs) == "";
    assert OpenTag("a", attrs) == "<a>" && CloseTag("a", "\t") == "</a\t>";
    assert Print(Text("u", End)) == "u" + Print(End) == "u";
    hide OpenTag, CloseTag;
    assert PrintElement("a", attrs, false, Text("u", End)) == "<a>" + "u" + "</a\t>" == "<a>u</a\t>";
    assert Print(Inner()) == PrintElement("a", attrs, false, Text("u", End)) + "";
  }

  lemma BodyPrinted()
    ensures Trimmed(RootBody()) == Element("b", Attributes([], "", ""), true, End, Text("\n", Inner()))
    ensures Print(RootBody()) == "t<b/>\n<a>u</a\t>" && Print(Trimmed(RootBody())) == "<b/>\n<a>u</a\t>"
  {
    InnerPrinted();
    var attrs := Attributes([], "", "");
    assert PrintAttributes(attrs) == "";
    assert EmptyTag("b", attrs) == "<b/>" && PrintElement("b", attrs, true, End) == "<b/>";
    hide EmptyTag, Inner;
    assert Print(Text("\n", Inner())) == "\n" + "<a>u</a\t>" == "\n<a>u</a\t>";
    assert Print(Trimmed(RootBody())) == "<b/>" + "\n<a>u</a\t>";
    assert Print(RootBody()) == "t" + Print(Trimmed(RootBody()));
  }

  lemma RootPrinted()
    ensures PrintElement("a", RootAttributes(), false, RootBody())
            == "<a\n\tx = \"1&lt;2\"\r\ny='3' >t<b/>\n<a>u</a\t></a>"
  {
    hide *;
    AttributesPrinted();
    BodyPrinted();
    Opened("\n\tx = \"1&lt;2\"\r\ny='3' ");
    Enclosed("<a\n\tx = \"1&lt;2\"\r\ny='3' >");
    ElementIs(RootAttributes(), RootBody());
    NoCloseSpace();
  }

  lemma ElementIs(attrs: Attributes, body: Items)
    ensures PrintElement("a", attrs, false, body)
            == ("<a" + PrintAttributes(attrs) + ">") + Print(body) + ("</a" + attrs.close + ">")
  {
    hide PrintAttributes;
  }

  lemma NoCloseSpace()
    ensures "</a" + RootAttributes().close + ">" == "</a>"
  {
  }

  lemma Opened(a: string)
    requires a == "\n\tx = \"1&lt;2\"\r\ny='3' "
    ensures "<a" + a + ">" == "<a\n\tx = \"1&lt;2\"\r\ny='3' >"
  {
  }

  lemma Enclosed(a: string)
    requires a == "<a\n\tx = \"1&lt;2\"\r\ny='3' >"
    ensures a + "t<b/>\n<a>u</a\t>" + "</a>" == "<a\n\tx = \"1&lt;2\"\r\ny='3' >t<b/>\n<a>u</a\t></a>"
  {
  }

  lemma DocumentPrinted()
    ensures PrintProlog(Declared()) + PrintElement("a", RootAttributes(), false, RootBody()) + "\n" == Document()
  {
    hide *;
    PrologPrinted();
    RootPrinted();
    DocumentIs();
  }

  lemma DocumentIs()
    ensures Document()
            == "<?xml version='1.0'?>\n<!-- > -->\r\n" + "<a\n\tx = \"1&lt;2\"\r\ny='3' >t<b/>\n<a>u</a\t></a>" + "\n"
  {
  }

  /** The root: its name, its attributes and its data behind the leading text. */
  lemma RootFound()
    ensures var d := Document();
            var root := Locate(d, 0);
            && root.Located? && Name(d, root.tag) == "a" && !root.tag.closed && root.tag.content == -1
            && root.tag.attr + root.tag.attrLen <= |d| && root.tag.next + root.dataLen <= |d|
            && d[root.tag.attr..root.tag.attr + root.tag.attrLen] == "x = \"1&lt;2\"\r\ny='3' "
            && d[root.tag.next..root.tag.next + root.dataLen] == "<b/>\n<a>u</a\t>"
  {
    hide *;
    DeclaredOk();
    RootOk();
    DocumentPrinted();
    AttributesPrinted();
    BodyPrinted();
    DocumentWalk(Declared(), "a", RootAttributes(), RootBody(), "\n");
    ReportedParts(Document(), Locate(Document(), 0), |PrintProlog(Declared())|, "a", RootAttributes(), RootBody());
    Kept();
  }

  lemma Kept()
    ensures Trimmed(RootBody()) != End
  {
  }

  lemma ReportedParts(data: string, l: Located, i: nat, name: string, attrs: Attributes, body: Items)
    requires Reported(data, l, i, name, attrs, false, body)
    ensures l.Located? && l.tag.element + l.tag.elementLen <= |data| && Name(data, l.tag) == name && !l.tag.closed
    ensures l.tag.attr + l.tag.attrLen <= |data| && l.tag.next + l.dataLen <= |data| && l.next <= |data|
    ensures data[l.tag.attr..l.tag.attr + l.tag.attrLen] == AttributeField(attrs)
    ensures data[l.tag.next..l.tag.next + l.dataLen] == Print(Trimmed(body))
    ensures if Trimmed(body) != End then l.tag.content == -1
            else l.tag.content >= 0 && l.tag.content + l.tag.contentLen <= |data|
                 && data[l.tag.content..l.tag.content + l.tag.contentLen] == LeadingText(body)
  {
    hide Print, LeadingText, Trimmed, AttributeField;
  }

  /** Its attributes, looked up by name, and the entity in one of them. */
  lemma AttributesFound()
    ensures var field := "x = \"1&lt;2\"\r\ny='3' ";
            var x, y := NamedAttribute(field, 0, "x"), NamedAttribute(field, 0, "y");
            && x.Attr? && x.value + x.vlen <= |field| && field[x.value..x.value + x.vlen] == "1&lt;2"
            && y.Attr? && y.value + y.vlen <= |field| && field[y.value..y.value + y.vlen] == "3"
            && NamedAttribute(field, 0, "z") == NoAttribute
    ensures XmlEntities.Decode("1&lt;2") == "1<2"
  {
    hide *;
    RootOk();
    AttributesPrinted();
    LookupAttribute(RootAttributes(), "x");
    LookupAttribute(RootAttributes(), "y");
    LookupAttribute(RootAttributes(), "z");
    Positions();
    ValueDecoded();
  }

  lemma Positions()
    ensures var list := RootAttributes().list;
            && |list| == 2 && list[0].value == "1&lt;2" && list[1].value == "3"
            && FirstNamed(list, "x") == 0 && FirstNamed(list, "y") == 1 && FirstNamed(list, "z") == 2
  {
    var list := RootAttributes().list;
    assert list[0].name == "x" && list[1].name == "y" && "x" != "y" && "x" != "z" && "y" != "z";
  }

  lemma ValueDecoded()
    ensures XmlEntities.Decode("1&lt;2") == "1<2"
  {
    hide *;
    XmlEntities.EntitiesDecoded("2");
    Plain();
    XmlEntities.PlainIs("1&lt;2");
    XmlEntities.PlainIs("2");
    XmlEntities.NothingDecoded();
    XmlEntities.SplitFirst("2");
    XmlEntities.SplitFirst("1&lt;2");
    assert "&lt;" + "2" == "&lt;2" && "1&lt;2"[1..] == "&lt;2" && "2"[1..] == "";
  }

  lemma Plain()
    ensures !XmlEntities.IsSpecial("1&lt;2"[0]) && !XmlEntities.IsSpecial("2"[0])
  {
  }

  /** Over the root's data: the one child of that name, its text, and then no other. */
  lemma ChildFound()
    ensures var d := "<b/>\n<a>u</a\t>";
            var l := NamedElement(d, 0, "a");
            && l.Located? && Name(d, l.tag) == "a" && l.next == |d|
            && l.tag.content >= 0 && l.tag.content + l.tag.contentLen <= |d|
            && d[l.tag.content..l.tag.content + l.tag.contentLen] == "u"
            && NamedElement(d, l.next, "a") == Nothing
  {
    hide *;
    var d := "<b/>\n<a>u</a\t>";
    RootOk();
    BodyPrinted();
    LeadingSplit(RootBody());
    AtWhole(d);
    Siblings(d, 0, Trimmed(RootBody()));
    ChildrenAre();
    NamedSibling(d, 0, Children(Trimmed(RootBody()), 0), "a");
    var l := NamedElement(d, 0, "a");
    var attrs := Attributes([], "", "\t");
    ReportedParts(d, l, 5, "a", attrs, Text("u", End));
    NamedSibling(d, l.next, [], "a");
    ReportedNext(d, l, Child(5, "a", attrs, false, Text("u", End)));
    InnerPrinted();
    TextOnly();
  }

  lemma TextOnly()
    ensures Trimmed(Text("u", End)) == End && LeadingText(Text("u", End)) == "u"
    ensures PrintElement("a", Attributes([], "", "\t"), false, Text("u", End)) + "" == Print(Inner())
  {
    assert LeadingText(End) == "" && "u" + "" == "u";
  }

  lemma ChildrenAre()
    ensures var c := Children(Trimmed(RootBody()), 0);
            && c == [Child(0, "b", Attributes([], "", ""), true, End),
                     Child(5, "a", Attributes([], "", "\t"), false, Text("u", End))]
            && FirstChild(c, "a") == 1 && c[2..] == [] && FirstChild([], "a") == 0
  {
    BodyPrinted();
    var attrs := Attributes([], "", "");
    assert PrintElement("b", attrs, true, End) == "<b/>" by {
      assert PrintAttributes(attrs) == "";
    }
    assert Children(Inner(), 5) == [Child(5, "a", Attributes([], "", "\t"), false, Text("u", End))];
    assert Children(Text("\n", Inner()), 4) == Children(Inner(), 5);
    assert "b" != "a";
  }
}
