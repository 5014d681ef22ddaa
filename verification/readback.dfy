/** Tags, text, and the text of raw and escapable raw text elements are read back as they were written. */
module ReadBack {
  import opened Options
  import opened Charsets
  import opened Encoder
  import opened HtmlParser
  import opened Survival

  // ----- Tags -----

  lemma LowerNext(name: string, t: string)
    requires name != []
    ensures (name + t)[0] == name[0] && (name + t)[1..] == name[1..] + t
    ensures LowerName(name) == [Lower(name[0])] + LowerName(name[1..])
  {
  }

  lemma {:induction false} TagNameBack(name: string, t: string)
    requires forall i :: 0 <= i < |name| ==> ValidInTagName(name[i])
    requires t != [] && (IsWhitespace(t[0]) || t[0] == '/' || t[0] == '>')
    ensures ReadTagName(name + t) == (LowerName(name), t)
  {
    if name == [] {
      assert name + t == t;
    } else {
      LowerNext(name, t);
      TagNameBack(name[1..], t);
    }
  }

  lemma {:induction false} AttrNameBack(name: string, t: string)
    requires forall i :: 0 <= i < |name| ==> ValidInAttributeName(name[i])
    requires t != [] && (IsWhitespace(t[0]) || t[0] == '/' || t[0] == '>' || t[0] == '=')
    ensures ReadAttrName(name + t) == (LowerName(name), t)
  {
    if name == [] {
      assert name + t == t;
    } else {
      LowerNext(name, t);
      AttrNameBack(name[1..], t);
    }
  }

  lemma {:induction false} ValueBack(v: string, t: string)
    requires EncodeValue(v).Some?
    ensures ReadValue(EncodeValue(v).value + "\"" + t) == Some((v, t))
  {
    if v == [] {
      assert [] + "\"" + t == "\"" + t;
      assert ("\"" + t)[1..] == t;
    } else {
      var s, rest := EncodeValueChar(v[0]).value, EncodeValue(v[1..]).value;
      var u := rest + "\"" + t;
      assert EncodeValue(v).value + "\"" + t == s + u;
      ValueBack(v[1..], t);
      if ValidInAttributeValue(v[0]) {
        assert (s + u)[1..] == u;
      } else {
        EscapeReadsBack(v[0], u);
        assert (s + u)[0] == s[0];
      }
      assert [v[0]] + v[1..] == v;
    }
  }

  /** An attribute in front of what is read next. */
  function FirstAttr(a: Attr, r: Option<(seq<Attr>, bool, string)>): Option<(seq<Attr>, bool, string)> {
    match r
    case None => None
    case Some((attrs, selfClosing, rest)) => Some(([a] + attrs, selfClosing, rest))
  }

  /** The name of an attribute after a space. */
  lemma NameBack(name: string, t: string)
    requires AttrNameOk(name) && t != [] && (t[0] == ' ' || t[0] == '/' || t[0] == '>' || t[0] == '=')
    ensures SkipSpace(" " + name + t) == name + t
    ensures (name + t)[0] != '>' && (name + t)[0] != '/' && ReadAttrName(name + t) == (LowerName(name), t)
  {
    var s := " " + name + t;
    assert s[1..] == name + t;
    assert name[0] in name && (name + t)[0] == name[0];
    AttrNameBack(name, t);
  }

  lemma ShortAttrBack(name: string, t: string)
    requires AttrNameOk(name) && t != [] && (t[0] == ' ' || t[0] == '/' || t[0] == '>')
    requires t[0] == ' ' ==> SkipSpace(t) != [] && SkipSpace(t)[0] != '='
    ensures ReadAttrs(" " + name + t) == FirstAttr(Attr(LowerName(name), ""), ReadAttrs(t))
  {
    NameBack(name, t);
  }

  lemma LongAttrBack(name: string, value: string, t: string)
    requires AttrNameOk(name) && EncodeValue(value).Some?
    ensures ReadAttrs(" " + name + ("=\"" + (EncodeValue(value).value + "\"" + t)))
         == FirstAttr(Attr(LowerName(name), value), ReadAttrs(t))
  {
    var u := EncodeValue(value).value + "\"" + t;
    var w := "=\"" + u;
    NameBack(name, w);
    assert SkipSpace(w) == w;
    var v := w[1..];
    assert v == "\"" + u && v[0] == '"' && SkipSpace(v) == v && v[1..] == u;
    ValueBack(value, t);
  }

  /** One written attribute is read back, whatever attributes follow. */
  lemma AttrBack(a: Attr, t: string)
    requires AttrNameOk(a.name) && EncodeAttr(a).Some?
    requires t != [] && (t[0] == ' ' || t[0] == '/' || t[0] == '>')
    requires t[0] == ' ' ==> SkipSpace(t) != [] && SkipSpace(t)[0] != '='
    ensures ReadAttrs(EncodeAttr(a).value + t) == FirstAttr(LowerAttr(a), ReadAttrs(t))
  {
    if a.value == [] {
      ShortAttrBack(a.name, t);
    } else {
      var v := EncodeValue(a.value).value;
      assert EncodeAttr(a).value + t == " " + a.name + ("=\"" + (v + "\"" + t));
      LongAttrBack(a.name, a.value, t);
    }
  }

  /** What can follow the attributes of a tag. */
  predicate TagRest(t: string) {
    (t != [] && t[0] == '>') || (|t| > 1 && t[0] == '/' && t[1] == '>')
  }

  lemma {:induction false} AttrsBack(attrs: seq<Attr>, t: string)
    requires forall a <- attrs :: AttrNameOk(a.name)
    requires EncodeAttrs(attrs).Some? && TagRest(t)
    ensures ReadAttrs(EncodeAttrs(attrs).value + t)
         == Some((LowerAttrs(attrs), t[0] == '/', if t[0] == '/' then t[2..] else t[1..]))
  {
    if attrs == [] {
      assert [] + t == t && SkipSpace(t) == t;
    } else {
      assert attrs[0] in attrs && forall b <- attrs[1..] :: b in attrs;
      var first, more := EncodeAttr(attrs[0]).value, EncodeAttrs(attrs[1..]).value + t;
      assert EncodeAttrs(attrs).value + t == first + more;
      AttrsBack(attrs[1..], t);
      AttrsStart(attrs[1..], t);
      AttrBack(attrs[0], more);
      assert LowerAttrs(attrs) == [LowerAttr(attrs[0])] + LowerAttrs(attrs[1..]);
    }
  }

  /** Written attributes start with a space and a name. */
  lemma AttrsStart(attrs: seq<Attr>, t: string)
    requires forall a <- attrs :: AttrNameOk(a.name)
    requires EncodeAttrs(attrs).Some? && TagRest(t)
    ensures var s := EncodeAttrs(attrs).value + t;
            && s != [] && (s[0] == ' ' || s[0] == '/' || s[0] == '>')
            && (s[0] == ' ' ==> SkipSpace(s) != [] && SkipSpace(s)[0] != '=')
  {
    var s := EncodeAttrs(attrs).value + t;
    if attrs == [] {
      assert s == t;
    } else {
      var name := attrs[0].name;
      assert attrs[0] in attrs && name[0] in name;
      assert s[0] == ' ' && s[1] == name[0] && s[1..][0] == name[0];
      assert SkipSpace(s) == SkipSpace(s[1..]) == s[1..];
    }
  }

  lemma StartBack(tag: string, attrs: seq<Attr>, t: string)
    requires NamesOk(tag, attrs) && StartTag(tag, attrs).Some?
    ensures var s := StartTag(tag, attrs).value + t;
            && |s| > 1 && s[0] == '<' && s[1] == tag[0]
            && ReadTagName(s[1..]).0 == LowerName(tag)
            && ReadAttrs(ReadTagName(s[1..]).1) == Some((LowerAttrs(attrs), IsSelfClosing(tag), t))
  {
    if IsSelfClosing(tag) {
      StartReads(tag, attrs, "/>", t);
    } else {
      StartReads(tag, attrs, ">", t);
    }
  }

  lemma StartReads(tag: string, attrs: seq<Attr>, close: string, t: string)
    requires NamesOk(tag, attrs) && StartTag(tag, attrs).Some?
    requires close == (if IsSelfClosing(tag) then "/>" else ">")
    ensures var s := StartTag(tag, attrs).value + t;
            && |s| > 1 && s[0] == '<' && s[1] == tag[0]
            && ReadTagName(s[1..]).0 == LowerName(tag)
            && ReadAttrs(ReadTagName(s[1..]).1) == Some((LowerAttrs(attrs), IsSelfClosing(tag), t))
  {
    var s := StartTag(tag, attrs).value + t;
    var u := EncodeAttrs(attrs).value + (close + t);
    assert s == "<" + (tag + u);
    assert s[1..] == tag + u && s[1] == tag[0];
    AttrsBack(attrs, close + t);
    AttrsStart(attrs, close + t);
    TagNameBack(tag, u);
    assert (close + t)[|close|..] == t;
  }

  /** An end tag is what reads as one: a name in any case, up to something that can follow it. */
  lemma ClosesIffReads(text: string, tag: string)
    requires forall c <- tag :: ValidInTagName(c)
    ensures ClosesAt(text, tag) <==>
      && |text| > 2 && text[0] == '<' && text[1] == '/'
      && ReadTagName(text[2..]).0 == LowerName(tag) && ReadTagName(text[2..]).1 != []
  {
    if |text| > 2 {
      NameReadIs(text[2..], tag);
      assert |text| > 2 + |tag| ==> text[2..][..|tag|] == text[2..2 + |tag|];
    }
  }

  predicate NameAt(s: string, tag: string) {
    |s| > |tag| && EqualsIgnoringCase(s[..|tag|], tag) && EndsTagName(s[|tag|])
  }

  lemma {:induction false} NameReadIs(s: string, tag: string)
    requires forall c <- tag :: ValidInTagName(c)
    ensures ReadTagName(s).0 == LowerName(tag) && ReadTagName(s).1 != [] <==> NameAt(s, tag)
  {
    if tag != [] && s != [] {
      assert tag[0] in tag && forall c <- tag[1..] :: c in tag;
      NameReadIs(s[1..], tag[1..]);
      NameAtNext(s, tag);
      NameReadNext(s, tag);
    }
  }

  lemma NameReadNext(s: string, tag: string)
    requires s != [] && tag != [] && ValidInTagName(tag[0])
    ensures ReadTagName(s).0 == LowerName(tag) && ReadTagName(s).1 != [] <==>
      && Lower(s[0]) == Lower(tag[0])
      && ReadTagName(s[1..]).0 == LowerName(tag[1..]) && ReadTagName(s[1..]).1 != []
  {
    LowerNext(tag, []);
    var (name, rest) := ReadTagName(s[1..]);
    assert ([Lower(s[0])] + name)[1..] == name && ([Lower(tag[0])] + LowerName(tag[1..]))[1..] == LowerName(tag[1..]);
  }

  lemma NameAtNext(s: string, tag: string)
    requires s != [] && tag != []
    ensures NameAt(s, tag) <==> Lower(s[0]) == Lower(tag[0]) && NameAt(s[1..], tag[1..])
  {
    if |s| > |tag| {
      var a, b := s[..|tag|], s[1..][..|tag| - 1];
      assert a[0] == s[0] && a[1..] == b;
      assert forall i :: 1 <= i < |tag| ==> a[i] == b[i - 1] && tag[i] == tag[1..][i - 1];
    }
  }

  // ----- Text -----

  function Prepend(ds: seq<Dom>, r: Option<(seq<Dom>, string)>): Option<(seq<Dom>, string)> {
    match r
    case None => None
    case Some((more, rest)) => Some((ds + more, rest))
  }

  lemma PrependNothing(r: Option<(seq<Dom>, string)>)
    ensures Prepend([], r) == r
  {
    if r.Some? {
      assert [] + r.value.0 == r.value.0;
    }
  }

  lemma CharBack(c: char, escape: bool, t: string)
    requires EncodeChar(c, escape).Some?
    ensures ParseAll(EncodeChar(c, escape).value + t) == Prepend([DChar(c)], ParseAll(t))
  {
    var s := EncodeChar(c, escape).value;
    if escape || !ValidInText(c) {
      EscapeReadsBack(c, t);
      assert (s + t)[0] == s[0];
    } else {
      assert (s + t)[1..] == t;
    }
  }

  lemma {:induction false} TextBack(text: string, escape: bool, t: string)
    requires EncodeText(text, escape).Some?
    ensures ParseAll(EncodeText(text, escape).value + t) == Prepend(DChars(text), ParseAll(t))
  {
    if text == [] {
      assert [] + t == t;
      PrependNothing(ParseAll(t));
    } else {
      var s, rest := EncodeChar(text[0], escape).value, EncodeText(text[1..], escape).value;
      assert s + rest + t == s + (rest + t);
      CharBack(text[0], escape, rest + t);
      TextBack(text[1..], escape, t);
      if ParseAll(t).Some? {
        assert [DChar(text[0])] + (DChars(text[1..]) + ParseAll(t).value.0) == DChars(text) + ParseAll(t).value.0;
      }
    }
  }

  lemma EndTagCloses(tag: string, t: string)
    ensures var e := EndTag(tag) + t;
      ClosesAt(e, tag) && |e| > 1 && e[0] == '<' && e[1] == '/' && Close(e, tag) == Some(t)
  {
    var e := EndTag(tag) + t;
    assert e[2..2 + |tag|] == tag;
    assert e[3 + |tag|..] == t;
  }

  lemma {:induction false} EscapableBack(text: string, tag: string, t: string)
    requires EncodeText(text, false).Some?
    ensures ReadEscapable(EncodeText(text, false).value + (EndTag(tag) + t), tag) == Some((text, EndTag(tag) + t))
  {
    var e := EndTag(tag) + t;
    if text == [] {
      assert [] + e == e;
      EndTagCloses(tag, t);
    } else {
      var s, rest := EncodeChar(text[0], false).value, EncodeText(text[1..], false).value;
      assert s + rest + e == s + (rest + e);
      EscapableBack(text[1..], tag, t);
      if ValidInText(text[0]) {
        assert (s + (rest + e))[1..] == rest + e;
      } else {
        EscapeReadsBack(text[0], rest + e);
        assert (s + (rest + e))[0] == s[0];
      }
      assert [text[0]] + text[1..] == text;
    }
  }

  /** Raw text without a closing tag ends exactly at the end tag that follows it. */
  lemma {:induction false} RawBack(text: string, tag: string, t: string)
    requires !ContainsClosing(text, tag) && (forall c <- tag :: ValidInTagName(c))
    ensures ReadRaw(text + (EndTag(tag) + t), tag) == (text, EndTag(tag) + t)
  {
    var e := EndTag(tag) + t;
    if text == [] {
      assert [] + e == e;
      EndTagCloses(tag, t);
    } else {
      var s := text + e;
      if ClosesAt(s, tag) {
        NoStraddling(text, e, tag);
        assert false;
      }
      assert s[1..] == text[1..] + e;
      RawBack(text[1..], tag, t);
      assert [text[0]] + text[1..] == text;
    }
  }

  /** A closing tag cannot begin in the text and end in what follows it. */
  lemma NoStraddling(text: string, e: string, tag: string)
    requires text != [] && e != [] && e[0] == '<' && (forall c <- tag :: ValidInTagName(c))
    requires ClosesAt(text + e, tag)
    ensures ClosesAt(text, tag)
  {
    var s := text + e;
    var k := |text|;
    forall i | 0 <= i < |tag| ensures Lower(tag[i]) != '<' {
      assert tag[i] in tag;
    }
    assert forall i :: 2 <= i < 2 + |tag| ==> s[i] == s[2..2 + |tag|][i - 2];
    assert s[k] == '<' && k > 2 + |tag|;
    assert text[2..2 + |tag|] == s[2..2 + |tag|];
  }

  // ----- Script data -----

  /** What the writer adds after the text has no influence on the states in it. */
  lemma NextModeInText(m: Mode, text: string, e: string)
    requires text != [] && e != [] && e[0] == '<' && !ClosesAt(text, "script")
    ensures NextMode(m, text + e) == NextMode(m, text) && !ClosesAt(text + e, "script")
  {
    var s := text + e;
    if ClosesAt(s, "script") {
      NoStraddling(text, e, "script");
    }
    assert forall i :: 0 <= i < |text| ==> s[i] == text[i];
    if "<!--" <= s {
      assert |text| >= 4 by {
        assert s[|text|] == '<';
      }
    }
    if OpensScript(s) {
      ScriptInText(text, e);
    }
    if OpensScript(text) {
      assert s[1..7] == text[1..7];
    }
  }

  lemma ScriptInText(text: string, e: string)
    requires text != [] && e != [] && e[0] == '<' && OpensScript(text + e)
    ensures OpensScript(text)
  {
    var s := text + e;
    assert forall i :: 1 <= i < 7 ==> s[i] == s[1..7][i - 1];
    assert s[|text|] == '<' && |text| > 7;
    assert text[1..7] == s[1..7];
  }

  /** Script data ends at the end tag, unless a script was left open in a comment. */
  lemma {:induction false} ScriptBack(text: string, m: Mode, t: string)
    requires !ContainsClosing(text, "script")
    ensures var e, r := EndTag("script") + t, ReadScript(text + (EndTag("script") + t), m);
      if ModeAfter(m, text).Double? then |r.0| > |text| else r == (text, e)
    decreases |text|
  {
    var e := EndTag("script") + t;
    EndTagCloses("script", t);
    if text == [] {
      assert [] + e == e;
    } else {
      NextModeInText(m, text, e);
      assert (text + e)[1..] == text[1..] + e;
      ScriptBack(text[1..], NextMode(m, text), t);
      assert [text[0]] + text[1..] == text;
    }
  }

  // ----- Leading newlines -----

  lemma {:induction false} RawIsFlat(ns: seq<Html>)
    requires RawText(ns).Some?
    ensures Flat(ns) == DChars(RawText(ns).value)
  {
    if ns != [] {
      RawIsFlat(ns[1..]);
      if ns[0].Text? {
        DCharsAppend(ns[0].text, RawText(ns[1..]).value);
      }
    }
  }

  lemma {:induction false} DCharsAppend(s: string, t: string)
    ensures DChars(s + t) == DChars(s) + DChars(t)
  {
    if s == [] {
      assert s + t == t;
    } else {
      assert (s + t)[1..] == s[1..] + t;
      DCharsAppend(s[1..], t);
    }
  }

  /** A written newline stands for a newline. */
  lemma {:induction false} LeadingText(t: string, escape: bool)
    requires EncodeText(t, escape).Some?
    ensures t == [] <==> EncodeText(t, escape).value == []
    ensures t != [] && EncodeText(t, escape).value[0] == '\n' ==> t[0] == '\n' && !escape
  {
    if t != [] && (escape || !ValidInText(t[0])) {
      EscapeReadsBack(t[0], []);
    }
  }

  lemma {:induction false} LeadingNewline(ns: seq<Html>, escape: bool)
    requires EncodeAll(ns, escape).Some?
    ensures var s := EncodeAll(ns, escape).value;
            s != [] && s[0] == '\n' ==> !escape && Flat(ns) != [] && Flat(ns)[0] == DChar('\n')
  {
    if ns != [] {
      LeadingNewline(ns[1..], escape);
      match ns[0]
      case Tag =>
      case Text(t) => LeadingText(t, escape);
      case Element(tag, attrs, _, _) => assert StartTag(tag, attrs).value[0] == '<';
    }
  }
}
