/** Entity encoding and decoding of XML text (SDF_xml_encode_data, SDF_xml_decode_data). */
module XmlEntities {
  import opened Bytes

  /** An entity at the start of a text: how many characters it takes and what it stands for. */
  datatype Entity = Plain | Entity(text: string, means: char)

  function EntityOf(s: string): (e: Entity)
    ensures e.Entity? ==> e.text <= s && |e.text| >= 4 && e.text[0] == '&'
  {
    if "&lt;" <= s then Entity("&lt;", '<')
    else if "&gt;" <= s then Entity("&gt;", '>')
    else if "&amp;" <= s then Entity("&amp;", '&')
    else if "&apos;" <= s then Entity("&apos;", '\'')
    else if "&quot;" <= s then Entity("&quot;", '"')
    else Plain
  }

  /** The text with its entities replaced. */
  function Decode(s: string): (t: string)
    ensures |t| <= |s|
  {
    if s == "" then ""
    else
      var e := EntityOf(s);
      if e.Entity? then [e.means] + Decode(s[|e.text|..]) else [s[0]] + Decode(s[1..])
  }

  /** What the first character of a text is written as. */
  function EncodeFirst(s: string): string
    requires s != ""
  {
    if s[0] == '<' then "&lt;"
    else if s[0] == '>' then "&gt;"
    else if s[0] == '&' then if EntityOf(s).Entity? then "&" else "&amp;"
    else if s[0] == '\'' then "&apos;"
    else if s[0] == '"' then "&quot;"
    else [s[0]]
  }

  /** The text with its special characters replaced, except where an entity stands already. */
  function Encode(s: string): string {
    if s == "" then "" else EncodeFirst(s) + Encode(s[1..])
  }

  predicate IsSpecial(c: char) {
    c == '<' || c == '>' || c == '&' || c == '\'' || c == '"'
  }

  lemma {:induction false} EncodePlain(t: string, u: string)
    requires forall k :: 0 <= k < |t| ==> !IsSpecial(t[k])
    ensures Encode(t + u) == t + Encode(u)
  {
    hide *;
    if t == "" {
      assert t + u == u && t + Encode(u) == Encode(u);
    } else {
      PlainHead(t, u);
      EncodePlain(t[1..], u);
      Regroup([t[0]], t[1..], Encode(u));
      assert [t[0]] + t[1..] == t;
    }
  }

  lemma PlainHead(t: string, u: string)
    requires t != "" && !IsSpecial(t[0])
    ensures Encode(t + u) == [t[0]] + Encode(t[1..] + u)
  {
    assert (t + u)[1..] == t[1..] + u && (t + u)[0] == t[0];
    hide EntityOf;
  }

  /** An entity is encoded as it stands, and decoded as its character. */
  lemma EntityKept(e: Entity, s: string, u: string)
    requires EntityOf(s) == e && e.Entity? && s == e.text + u
    ensures Encode(s) == e.text + Encode(u) && Decode(s) == [e.means] + Decode(u)
  {
    hide *;
    EntityText(e, s);
    EncodeHead(s);
    DecodeHead(s);
    Behind(e.text, u);
    EncodePlain(e.text[1..], u);
    Behind(e.text, Encode(u));
  }

  lemma Behind(t: string, u: string)
    requires t != "" && t[0] == '&'
    ensures (t + u)[1..] == t[1..] + u && (t + u)[|t|..] == u && t + u == "&" + (t[1..] + u)
  {
  }

  lemma EntityText(e: Entity, s: string)
    requires EntityOf(s) == e && e.Entity?
    ensures s != "" && |e.text| > 0 && e.text[0] == '&' && EncodeFirst(s) == "&"
    ensures forall k :: 0 <= k < |e.text[1..]| ==> !IsSpecial(e.text[1..][k])
  {
    assert s[..|e.text|] == e.text;
  }

  lemma DecodeHead(s: string)
    requires s != "" && EntityOf(s).Entity?
    ensures |EntityOf(s).text| <= |s| && Decode(s) == [EntityOf(s).means] + Decode(s[|EntityOf(s).text|..])
  {
  }

  lemma EncodeHead(s: string)
    requires s != ""
    ensures Encode(s) == EncodeFirst(s) + Encode(s[1..])
  {
  }

  /** An entity in front of any text is that entity. */
  lemma EntityInFront(e: Entity, s: string, u: string)
    requires EntityOf(s) == e && e.Entity?
    ensures EntityOf(e.text + u) == e
  {
    var t := e.text + u;
    assert t[..|e.text|] == e.text;
    assert t[1] == e.text[1] && t[2] == e.text[2];
  }

  lemma SplitFirst(s: string)
    requires s != "" && EntityOf(s) == Plain
    ensures Decode(s) == [s[0]] + Decode(s[1..])
  {
  }

  /** Each special character is written as the entity that stands for it. */
  lemma EscapeIs(s: string)
    requires s != "" && IsSpecial(s[0]) && EntityOf(s) == Plain
    ensures EntityOf(EncodeFirst(s)) == Entity(EncodeFirst(s), s[0])
  {
    var f := EncodeFirst(s);
    assert f[1] == 'l' || f[1] == 'g' || f[1] == 'a' || f[1] == 'q';
    assert f[1] == 'a' ==> f[2] == 'm' || f[2] == 'p';
  }

  lemma PlainIs(s: string)
    requires s != "" && !IsSpecial(s[0])
    ensures EncodeFirst(s) == [s[0]] && EntityOf(s) == Plain
    ensures forall u :: EntityOf([s[0]] + u) == Plain
  {
    forall u
      ensures EntityOf([s[0]] + u) == Plain
    {
      assert ([s[0]] + u)[0] == s[0];
    }
  }

  /** Decoding an encoded text gives what decoding the text itself gives. */
  lemma {:induction false} DecodeEncode(s: string)
    ensures Decode(Encode(s)) == Decode(s)
    decreases |s|
  {
    if s != "" {
      var e := EntityOf(s);
      if e.Entity? {
        var u := s[|e.text|..];
        assert s == e.text + u;
        EntityKept(e, s, u);
        EntityInFront(e, s, Encode(u));
        EntityKept(e, e.text + Encode(u), Encode(u));
        DecodeEncode(u);
      } else {
        DecodeEncode(s[1..]);
        var f, u := EncodeFirst(s), Encode(s[1..]);
        if IsSpecial(s[0]) {
          EscapeIs(s);
          EntityInFront(Entity(f, s[0]), f, u);
          EntityKept(Entity(f, s[0]), f + u, u);
        } else {
          PlainIs(s);
          SplitFirst([s[0]] + u);
          assert ([s[0]] + u)[1..] == u;
        }
      }
    }
  }

  /** Encoding an encoded text changes nothing. */
  lemma {:induction false} EncodeEncode(s: string)
    ensures Encode(Encode(s)) == Encode(s)
    decreases |s|
  {
    if s != "" {
      var e := EntityOf(s);
      if e.Entity? {
        var u := s[|e.text|..];
        assert s == e.text + u;
        EntityKept(e, s, u);
        EntityInFront(e, s, Encode(u));
        EntityKept(e, e.text + Encode(u), Encode(u));
        EncodeEncode(u);
      } else {
        EncodeEncode(s[1..]);
        var f, u := EncodeFirst(s), Encode(s[1..]);
        if IsSpecial(s[0]) {
          EscapeIs(s);
          EntityInFront(Entity(f, s[0]), f, u);
          EntityKept(Entity(f, s[0]), f + u, u);
        } else {
          PlainIs(s);
          EncodePlain([s[0]], u);
        }
      }
    }
  }

  /** A text without entities. */
  predicate EntityFree(s: string) {
    forall k :: 0 <= k < |s| ==> EntityOf(s[k..]) == Plain
  }

  lemma FreeStep(s: string)
    requires s != ""
    ensures EntityFree(s) <==> EntityOf(s) == Plain && EntityFree(s[1..])
  {
    hide EntityOf;
    var t := s[1..];
    assert s[0..] == s;
    forall k | 0 <= k < |t|
      ensures t[k..] == s[k + 1..]
    {
    }
    if EntityFree(s) {
      forall k | 0 <= k < |t|
        ensures EntityOf(t[k..]) == Plain
      {
        assert EntityOf(s[k + 1..]) == Plain;
      }
    }
    if EntityOf(s) == Plain && EntityFree(t) {
      forall k | 0 <= k < |s|
        ensures EntityOf(s[k..]) == Plain
      {
        assert k > 0 ==> EntityOf(t[k - 1..]) == Plain;
      }
    }
  }

  /** Exactly a text without entities decodes to itself. */
  lemma {:induction false} DecodeFree(s: string)
    ensures Decode(s) == s <==> EntityFree(s)
  {
    hide EntityFree, EntityOf;
    if s == "" {
      NoEntities();
    } else {
      FreeStep(s);
      DecodeShorter(s);
      if EntityOf(s) == Plain {
        SplitFirst(s);
        DecodeFree(s[1..]);
        assert [s[0]] + s[1..] == s;
        assert ([s[0]] + Decode(s[1..]))[1..] == Decode(s[1..]);
      }
    }
  }

  lemma NoEntities()
    ensures EntityFree("")
  {
  }

  lemma DecodeShorter(s: string)
    ensures s != "" && EntityOf(s).Entity? ==> |Decode(s)| < |s|
  {
    if s != "" && EntityOf(s).Entity? {
      DecodeHead(s);
      EntityText(EntityOf(s), s);
      assert |EntityOf(s).text| >= 4;
    }
  }

  /** Encoding is undone by decoding exactly on texts that hold no entity already. */
  lemma RoundTrip(s: string)
    ensures Decode(Encode(s)) == s <==> EntityFree(s)
  {
    DecodeEncode(s);
    DecodeFree(s);
  }

  // ---- The five entities ----

  /** Each is decoded as its character. */
  lemma EntitiesDecoded(u: string)
    ensures Decode("&lt;" + u) == "<" + Decode(u) && Decode("&gt;" + u) == ">" + Decode(u)
    ensures Decode("&amp;" + u) == "&" + Decode(u) && Decode("&apos;" + u) == "'" + Decode(u)
    ensures Decode("&quot;" + u) == "\"" + Decode(u)
  {
    hide *;
    TheEntities();
    EntityInFront(Entity("&lt;", '<'), "&lt;", u);
    EntityInFront(Entity("&gt;", '>'), "&gt;", u);
    EntityInFront(Entity("&amp;", '&'), "&amp;", u);
    EntityInFront(Entity("&apos;", '\''), "&apos;", u);
    EntityInFront(Entity("&quot;", '"'), "&quot;", u);
    EntityKept(Entity("&lt;", '<'), "&lt;" + u, u);
    EntityKept(Entity("&gt;", '>'), "&gt;" + u, u);
    EntityKept(Entity("&amp;", '&'), "&amp;" + u, u);
    EntityKept(Entity("&apos;", '\''), "&apos;" + u, u);
    EntityKept(Entity("&quot;", '"'), "&quot;" + u, u);
  }

  lemma TheEntities()
    ensures EntityOf("&lt;") == Entity("&lt;", '<') && EntityOf("&gt;") == Entity("&gt;", '>')
    ensures EntityOf("&amp;") == Entity("&amp;", '&') && EntityOf("&apos;") == Entity("&apos;", '\'')
    ensures EntityOf("&quot;") == Entity("&quot;", '"')
  {
    var g, a, p, q := "&gt;", "&amp;", "&apos;", "&quot;";
    assert g[1] == 'g' && a[1] == 'a' && a[2] == 'm' && p[1] == 'a' && p[2] == 'p' && q[1] == 'q';
  }

  /** Each character is encoded as its entity, an '&' unless an entity begins there already. */
  lemma SpecialsEncoded(u: string)
    ensures Encode("<" + u) == "&lt;" + Encode(u) && Encode(">" + u) == "&gt;" + Encode(u)
    ensures Encode("'" + u) == "&apos;" + Encode(u) && Encode("\"" + u) == "&quot;" + Encode(u)
    ensures Encode("&" + u)
            == if "lt;" <= u || "gt;" <= u || "amp;" <= u || "apos;" <= u || "quot;" <= u then "&" + Encode(u)
               else "&amp;" + Encode(u)
  {
    hide *;
    EncodedHead('<', u);
    EncodedHead('>', u);
    EncodedHead('\'', u);
    EncodedHead('"', u);
    EncodedHead('&', u);
    BehindAmp("lt;", u);
    BehindAmp("gt;", u);
    BehindAmp("amp;", u);
    BehindAmp("apos;", u);
    BehindAmp("quot;", u);
  }

  lemma EncodedHead(c: char, u: string)
    ensures c == '<' ==> Encode([c] + u) == "&lt;" + Encode(u)
    ensures c == '>' ==> Encode([c] + u) == "&gt;" + Encode(u)
    ensures c == '\'' ==> Encode([c] + u) == "&apos;" + Encode(u)
    ensures c == '"' ==> Encode([c] + u) == "&quot;" + Encode(u)
    ensures c == '&' ==>
              Encode([c] + u)
              == if "&lt;" <= [c] + u || "&gt;" <= [c] + u || "&amp;" <= [c] + u || "&apos;" <= [c] + u
                    || "&quot;" <= [c] + u then "&" + Encode(u)
                 else "&amp;" + Encode(u)
  {
    assert ([c] + u)[1..] == u && ([c] + u)[0] == c;
  }

  lemma BehindAmp(t: string, u: string)
    ensures "&" + t <= "&" + u <==> t <= u
  {
    if t <= u {
      assert u[..|t|] == t;
    }
    if "&" + t <= "&" + u {
      assert ("&" + u)[..1 + |t|] == "&" + t;
      assert ("&" + u)[..1 + |t|][1..] == u[..|t|];
    }
  }

  // ---- In memory ----

  /** What the decoding loop writes: its comparisons do not look where the text ends. */
  function DecodeMem(mem: string, s: nat, end: nat): (t: string)
    requires end <= |mem|
    ensures |t| <= if s < end then end - s else 0
    decreases |mem| - s
  {
    if s >= end then ""
    else
      var e := EntityOf(mem[s..]);
      if e.Entity? then [e.means] + DecodeMem(mem, s + |e.text|, end) else [mem[s]] + DecodeMem(mem, s + 1, end)
  }

  /** What is written for the character at s. */
  function Piece(mem: string, s: nat): string
    requires s < |mem|
  {
    EncodeFirst(mem[s..])
  }

  /** What the encoding loop writes. */
  function EncodeMem(mem: string, s: nat, end: nat): string
    requires s <= end <= |mem|
    decreases end - s
  {
    if s == end then "" else Piece(mem, s) + EncodeMem(mem, s + 1, end)
  }

  /** An entity begins at p and is not over at the end of the text. */
  predicate CrossesAt(mem: string, p: nat, end: nat)
    requires p < end <= |mem|
  {
    EntityOf(mem[p..]).Entity? && p + |EntityOf(mem[p..]).text| > end
  }

  /** The last character is the first of "&amp;", which stands for itself. */
  predicate LoneAmp(mem: string, p: nat, end: nat) {
    p + 1 == end && At(mem, p, "&amp;")
  }

  /** A text holds the entity that stands in front of it when it is long enough, and no other. */
  lemma EntityOfPrefix(a: string, n: nat)
    requires n <= |a|
    ensures EntityOf(a[..n]) == if EntityOf(a).Entity? && |EntityOf(a).text| <= n then EntityOf(a) else Plain
  {
    hide *;
    var b, e, f := a[..n], EntityOf(a), EntityOf(a[..n]);
    if f.Entity? {
      EntityHead(f, b);
      assert a == f.text + a[|f.text|..];
      EntityInFront(f, b, a[|f.text|..]);
    } else if e.Entity? && |e.text| <= n {
      EntityHead(e, a);
      assert b == e.text + b[|e.text|..];
      EntityInFront(e, a, b[|e.text|..]);
    }
  }

  lemma EntityHead(e: Entity, s: string)
    requires EntityOf(s) == e && e.Entity?
    ensures |e.text| <= |s| && s[..|e.text|] == e.text && |e.text| > 0
  {
  }

  lemma SliceEntity(mem: string, p: nat, end: nat)
    requires p < end <= |mem|
    ensures EntityOf(mem[p..end]) == if CrossesAt(mem, p, end) then Plain else EntityOf(mem[p..])
    ensures EntityOf(mem[p..]).Entity? && !CrossesAt(mem, p, end) ==> p + |EntityOf(mem[p..]).text| <= end
  {
    hide EntityOf;
    assert mem[p..][..end - p] == mem[p..end];
    EntityOfPrefix(mem[p..], end - p);
  }

  /** Inside an entity no other begins. */
  lemma InsideEntity(mem: string, s: nat, p: nat)
    requires s < p < |mem| && EntityOf(mem[s..]).Entity? && p < s + |EntityOf(mem[s..]).text|
    ensures EntityOf(mem[p..]) == Plain
  {
    var e := EntityOf(mem[s..]);
    EntityText(e, mem[s..]);
    EntityHead(e, mem[s..]);
    assert mem[p..][0] == mem[s..][p - s] == e.text[p - s] == e.text[1..][p - s - 1];
    PlainIs(mem[p..]);
  }

  /** A cut entity decodes to itself. */
  lemma CutEntity(mem: string, s: nat, end: nat)
    requires s < end <= |mem| && CrossesAt(mem, s, end)
    ensures Decode(mem[s..end]) == mem[s..end]
    ensures forall p :: s < p < end ==> !CrossesAt(mem, p, end)
  {
    hide Decode, EntityOf;
    var t := mem[s..end];
    forall k | 0 <= k < |t|
      ensures EntityOf(t[k..]) == Plain
    {
      assert t[k..] == mem[s + k..end];
      SliceEntity(mem, s + k, end);
      if k > 0 {
        InsideEntity(mem, s, s + k);
      }
    }
    DecodeFree(t);
    forall p | s < p < end
      ensures !CrossesAt(mem, p, end)
    {
      InsideEntity(mem, s, p);
    }
  }

  lemma IsAmp(s: string)
    ensures |s| >= 5 && s[..5] == "&amp;" ==> EntityOf(s) == Entity("&amp;", '&')
  {
    if |s| >= 5 && s[..5] == "&amp;" {
      assert s[1] == s[..5][1] == 'a' && s[2] == s[..5][2] == 'm';
      assert "&amp;" <= s;
    }
  }

  /** The character an entity stands for is the cut entity only for "&amp;". */
  lemma CutIsMeaning(mem: string, s: nat, end: nat)
    requires s < end <= |mem| && CrossesAt(mem, s, end)
    ensures mem[s..end] == [EntityOf(mem[s..]).means] <==> LoneAmp(mem, s, end)
  {
    var e := EntityOf(mem[s..]);
    EntityHead(e, mem[s..]);
    assert mem[s] == mem[s..][0] == '&';
    if LoneAmp(mem, s, end) {
      IsAmp(mem[s..]);
      assert mem[s..][..5] == mem[s..s + 5];
      assert mem[s..end] == [mem[s]];
    }
    if mem[s..end] == [e.means] {
      assert mem[s..end][0] == mem[s] && |mem[s..end]| == 1;
      assert e.text == "&amp;";
      assert mem[s..s + 5] == mem[s..][..5];
    }
  }

  /**
   The decoding loop decodes the text exactly when no entity begun in it crosses its end, other than an '&' that is the
   last character and would have stood for itself anyway.
   */
  lemma {:induction false} DecodeExact(mem: string, s: nat, end: nat)
    requires s <= end <= |mem|
    ensures DecodeMem(mem, s, end) == Decode(mem[s..end]) <==>
            forall p :: s <= p < end && CrossesAt(mem, p, end) ==> LoneAmp(mem, p, end)
    decreases end - s
  {
    hide *;
    MemHead(mem, s, end);
    if s < end {
      SliceEntity(mem, s, end);
      var e := EntityOf(mem[s..]);
      if CrossesAt(mem, s, end) {
        CutEntity(mem, s, end);
        CutIsMeaning(mem, s, end);
      } else if e.Entity? {
        var n := s + |e.text|;
        DecodeExact(mem, n, end);
        SameTail([e.means], DecodeMem(mem, n, end), Decode(mem[n..end]));
        forall p | s <= p < n
          ensures !CrossesAt(mem, p, end)
        {
          if p > s {
            InsideEntity(mem, s, p);
            NoCross(mem, p, end);
          }
        }
      } else {
        DecodeExact(mem, s + 1, end);
        SameTail([mem[s]], DecodeMem(mem, s + 1, end), Decode(mem[s + 1..end]));
      }
    }
  }

  lemma NoCross(mem: string, p: nat, end: nat)
    requires p < end <= |mem| && EntityOf(mem[p..]) == Plain
    ensures !CrossesAt(mem, p, end)
  {
  }

  /** One step of both readings. */
  lemma MemHead(mem: string, s: nat, end: nat)
    requires s <= end <= |mem|
    ensures s == end ==> DecodeMem(mem, s, end) == Decode(mem[s..end])
    ensures s < end && CrossesAt(mem, s, end) ==> DecodeMem(mem, s, end) == [EntityOf(mem[s..]).means]
    ensures s < end && EntityOf(mem[s..]).Entity? && !CrossesAt(mem, s, end) ==>
              var e := EntityOf(mem[s..]);
              && |e.text| > 0 && s + |e.text| <= end
              && DecodeMem(mem, s, end) == [e.means] + DecodeMem(mem, s + |e.text|, end)
              && Decode(mem[s..end]) == [e.means] + Decode(mem[s + |e.text|..end])
    ensures s < end && EntityOf(mem[s..]) == Plain ==>
              && DecodeMem(mem, s, end) == [mem[s]] + DecodeMem(mem, s + 1, end)
              && Decode(mem[s..end]) == [mem[s]] + Decode(mem[s + 1..end])
  {
    hide *;
    if s == end {
      NothingMore(mem, s, end);
      assert mem[s..end] == "";
      NothingDecoded();
    } else {
      DecodeMemHead(mem, s, end);
      SliceEntity(mem, s, end);
      var t, e := mem[s..end], EntityOf(mem[s..]);
      if CrossesAt(mem, s, end) {
        CrossIs(mem, s, end);
        NothingMore(mem, s + |e.text|, end);
        assert [e.means] + "" == [e.means];
      } else if e.Entity? {
        DecodeHead(t);
        assert t[|e.text|..] == mem[s + |e.text|..end];
      } else {
        SplitFirst(t);
        assert t[1..] == mem[s + 1..end];
      }
    }
  }

  lemma NothingDecoded()
    ensures Decode("") == "" && Encode("") == ""
  {
  }

  lemma CrossIs(mem: string, p: nat, end: nat)
    requires p < end <= |mem|
    ensures CrossesAt(mem, p, end) <==> EntityOf(mem[p..]).Entity? && p + |EntityOf(mem[p..]).text| > end
  {
  }

  /** The encoding loop encodes the text exactly when no entity begun in it crosses its end. */
  lemma {:induction false} EncodeExact(mem: string, s: nat, end: nat)
    requires s <= end <= |mem|
    ensures |EncodeMem(mem, s, end)| <= |Encode(mem[s..end])|
    ensures EncodeMem(mem, s, end) == Encode(mem[s..end]) <==> forall p :: s <= p < end ==> !CrossesAt(mem, p, end)
    decreases end - s
  {
    hide *;
    EncodeMemHead(mem, s, end);
    if s < end {
      EncodeExact(mem, s + 1, end);
      SameTail(Piece(mem, s), EncodeMem(mem, s + 1, end), Encode(mem[s + 1..end]));
    }
  }

  lemma EncodeMemHead(mem: string, s: nat, end: nat)
    requires s <= end <= |mem|
    ensures s == end ==> EncodeMem(mem, s, end) == Encode(mem[s..end])
    ensures s < end ==>
              && EncodeMem(mem, s, end) == Piece(mem, s) + EncodeMem(mem, s + 1, end)
              && Encode(mem[s..end]) == EncodeFirst(mem[s..end]) + Encode(mem[s + 1..end])
              && (if CrossesAt(mem, s, end) then |Piece(mem, s)| < |EncodeFirst(mem[s..end])|
                  else Piece(mem, s) == EncodeFirst(mem[s..end]))
  {
    if s < end {
      SliceEntity(mem, s, end);
      assert mem[s..end][1..] == mem[s + 1..end];
      if CrossesAt(mem, s, end) {
        EntityText(EntityOf(mem[s..]), mem[s..]);
        EntityHead(EntityOf(mem[s..]), mem[s..]);
        assert mem[s..][0] == '&' == mem[s..end][0];
      }
      hide EntityOf;
    }
  }

  /** A text cut inside an entity whose rest stands behind it. */
  lemma CutDecoded()
    ensures DecodeMem("&lt;", 0, 3) == "<" && Decode("&lt") == "&lt"
    ensures EncodeMem("&lt;", 0, 3) == "&lt" && Encode("&lt") == "&amp;lt"
  {
    var a := "&lt;";
    assert a[0..] == a && a[0..3] == "&lt";
    assert EntityOf(a) == Entity("&lt;", '<');
    assert CrossesAt(a, 0, 3);
    hide *;
    MemHead(a, 0, 3);
    CutEntity(a, 0, 3);
    EncodeMemHead(a, 0, 3);
    Tail(a);
  }

  /** The harmless cut. */
  lemma CutAmp()
    ensures DecodeMem("&amp;", 0, 1) == "&" == Decode("&")
  {
    var b := "&amp;";
    assert b[0..] == b && b[0..1] == "&";
    IsAmp(b);
    assert CrossesAt(b, 0, 1);
    hide *;
    MemHead(b, 0, 1);
    CutEntity(b, 0, 1);
  }

  lemma Tail(a: string)
    requires a == "&lt;"
    ensures Piece(a, 0) == "&" && EncodeMem(a, 1, 3) == "lt" == Encode(a[1..3])
    ensures EncodeFirst(a[0..3]) == "&amp;"
  {
    assert a[0..3] == "&lt" && a[0..] == a;
    assert EncodeMem(a, 3, 3) == "";
    assert a[2..][0] == 't' && a[1..][0] == 'l';
    assert EncodeMem(a, 2, 3) == "t";
    assert EncodeMem(a, 1, 3) == "l" + "t";
    assert a[1..3] == "lt" && a[1..3] + "" == "lt";
    EncodePlain("lt", "");
  }

  /** A character that may stand inside an entity behind its first. */
  predicate InEntity(c: char) {
    c in "ltgamposqu;"
  }

  lemma PrefixWithin(t: string, b: string, rest: string)
    requires b != "" && rest != "" && !InEntity(rest[0])
    requires forall k :: 1 <= k < |t| ==> InEntity(t[k])
    ensures t <= b + rest <==> t <= b
  {
    var a := b + rest;
    assert a[|b|] == rest[0];
    if |t| > |b| {
      assert InEntity(t[|b|]);
    } else {
      assert a[..|t|] == b[..|t|];
    }
  }

  /** Reading past the end of a text finds no entity there when the character behind it belongs to none. */
  lemma EntityWithin(mem: string, i: nat, end: nat)
    requires i < end < |mem| && !InEntity(mem[end])
    ensures EntityOf(mem[i..]) == EntityOf(mem[i..end])
  {
    var b, rest := mem[i..end], mem[end..];
    assert mem[i..] == b + rest;
    PrefixWithin("&lt;", b, rest);
    PrefixWithin("&gt;", b, rest);
    PrefixWithin("&amp;", b, rest);
    PrefixWithin("&apos;", b, rest);
    PrefixWithin("&quot;", b, rest);
  }

  /** A text with such a character behind it is decoded and encoded as it stands. */
  lemma Delimited(mem: string, start: nat, end: nat)
    requires start <= end < |mem| && !InEntity(mem[end])
    ensures DecodeMem(mem, start, end) == Decode(mem[start..end])
    ensures EncodeMem(mem, start, end) == Encode(mem[start..end])
  {
    hide *;
    forall p | start <= p < end
      ensures !CrossesAt(mem, p, end)
    {
      EntityWithin(mem, p, end);
      SliceEntity(mem, p, end);
      Whole(mem, p, end);
    }
    DecodeExact(mem, start, end);
    EncodeExact(mem, start, end);
  }

  lemma Whole(mem: string, p: nat, end: nat)
    requires p < end <= |mem| && EntityOf(mem[p..]) == EntityOf(mem[p..end])
    ensures !CrossesAt(mem, p, end)
  {
  }

  /** One character of the decoded text. */
  lemma DecodeNext(mem: string, s: nat, end: nat, done: string, all: string)
    requires s < end <= |mem| && done + DecodeMem(mem, s, end) == all
    ensures |done| < |all|
    ensures var e := EntityOf(mem[s..]);
            if e.Entity? then |e.text| > 0 && done + [e.means] + DecodeMem(mem, s + |e.text|, end) == all
            else done + [mem[s]] + DecodeMem(mem, s + 1, end) == all
  {
    hide *;
    var e := EntityOf(mem[s..]);
    DecodeMemHead(mem, s, end);
    if e.Entity? {
      Regroup(done, [e.means], DecodeMem(mem, s + |e.text|, end));
    } else {
      Regroup(done, [mem[s]], DecodeMem(mem, s + 1, end));
    }
  }

  lemma DecodeMemHead(mem: string, s: nat, end: nat)
    requires s < end <= |mem|
    ensures var e := EntityOf(mem[s..]);
            if e.Entity? then |e.text| > 0 && DecodeMem(mem, s, end) == [e.means] + DecodeMem(mem, s + |e.text|, end)
            else DecodeMem(mem, s, end) == [mem[s]] + DecodeMem(mem, s + 1, end)
  {
    hide EntityOf;
  }

  lemma NothingMore(mem: string, s: nat, end: nat)
    requires end <= |mem|
    ensures s >= end ==> DecodeMem(mem, s, end) == ""
    ensures s == end ==> EncodeMem(mem, s, end) == ""
  {
  }

  /** SDF_xml_decode_data: the decoded text and a terminator, which need no more room than the text and one. */
  method DecodeData(mem: string, start: nat, length: nat, out: array<char>) returns (written: nat)
    requires start + length <= |mem| && |DecodeMem(mem, start, start + length)| < out.Length
    modifies out
    ensures written == |DecodeMem(mem, start, start + length)| < out.Length
    ensures out[..written] == DecodeMem(mem, start, start + length) && out[written] == '\0'
  {
    hide *;
    var s: nat, len: int := start, length;
    ghost var end, all := start + length, DecodeMem(mem, start, start + length);
    written := 0;
    assert out[..0] + DecodeMem(mem, s, end) == all;
    while len > 0
      invariant start <= s && s + len == end && written <= |all| < out.Length
      invariant out[..written] + DecodeMem(mem, s, end) == all
      decreases len
    {
      ghost var before := out[..written];
      DecodeNext(mem, s, end, before, all);
      var e := EntityOf(mem[s..]);
      if e.Entity? {
        out[written] := e.means;
        s := s + |e.text|;
        len := len - |e.text|;
      } else {
        out[written] := mem[s];
        s := s + 1;
        len := len - 1;
      }
      written := written + 1;
      assert out[..written] == before + [out[written - 1]];
    }
    NothingMore(mem, s, end);
    assert out[..written] + "" == out[..written];
    out[written] := '\0';
  }

  /** One character of the text encoded. */
  lemma EncodeNext(mem: string, s: nat, end: nat, done: string, all: string)
    requires s < end <= |mem| && done + EncodeMem(mem, s, end) == all
    ensures done + Piece(mem, s) + EncodeMem(mem, s + 1, end) == all && |done| + |Piece(mem, s)| <= |all|
  {
    hide *;
    EncodeMemHead(mem, s, end);
    Regroup(done, Piece(mem, s), EncodeMem(mem, s + 1, end));
  }

  /** SDF_xml_encode_data: the encoded text and a terminator; returns the length. */
  method EncodeData(mem: string, start: nat, length: nat, out: array<char>) returns (written: nat)
    requires start + length <= |mem| && |EncodeMem(mem, start, start + length)| < out.Length
    modifies out
    ensures written == |EncodeMem(mem, start, start + length)| < out.Length
    ensures out[..written] == EncodeMem(mem, start, start + length) && out[written] == '\0'
  {
    hide *;
    var s: nat, len: int := start, length;
    ghost var end, all := start + length, EncodeMem(mem, start, start + length);
    written := 0;
    assert out[..0] + EncodeMem(mem, s, end) == all;
    while len > 0
      invariant start <= s <= end && s + len == end && written <= |all| < out.Length
      invariant out[..written] + EncodeMem(mem, s, end) == all
      decreases len
    {
      EncodeNext(mem, s, end, out[..written], all);
      written := Store(mem, s, out, written);
      s := s + 1;
      len := len - 1;
    }
    NothingMore(mem, s, end);
    assert out[..written] + "" == out[..written];
    out[written] := '\0';
  }

  /** The switch on one character. */
  method Store(mem: string, s: nat, out: array<char>, written: nat) returns (next: nat)
    requires s < |mem| && written + |Piece(mem, s)| <= out.Length
    modifies out
    ensures next == written + |Piece(mem, s)| && out[..next] == old(out[..written]) + Piece(mem, s)
  {
    hide EntityOf;
    var piece;
    match mem[s] {
      case '<' => piece := "&lt;";
      case '>' => piece := "&gt;";
      case '&' => piece := if EntityOf(mem[s..]).Entity? then [mem[s]] else "&amp;";
      case '\'' => piece := "&apos;";
      case '"' => piece := "&quot;";
      case _ => piece := [mem[s]];
    }
    forall k | 0 <= k < |piece| {
      out[written + k] := piece[k];
    }
    next := written + |piece|;
  }
}
