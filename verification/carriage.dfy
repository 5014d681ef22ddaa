/** Carriage returns: a document without them is read as it is, and no parser gives one back. */
module CarriageReturns {
  import opened Charsets
  import opened Encoder
  import opened HtmlParser
  import opened Survival

  lemma {:induction false} NormalizeKeeps(s: string)
    requires NoCR(s)
    ensures Normalize(s) == s
  {
    if s != [] {
      NormalizeKeeps(s[1..]);
    }
  }

  lemma {:induction false} HexHasNoCR(n: nat)
    ensures NoCR(Hex(n))
  {
    if n >= 16 {
      HexHasNoCR(n / 16);
    }
  }

  lemma EscapeHasNoCR(c: char)
    requires Escape(c).Some?
    ensures NoCR(Escape(c).value)
  {
    HexHasNoCR(c as int);
  }

  lemma {:induction false} TextHasNoCR(t: string, escape: bool)
    requires NoCR(t) && EncodeText(t, escape).Some?
    ensures NoCR(EncodeText(t, escape).value)
  {
    if t != [] {
      TextHasNoCR(t[1..], escape);
      if escape || !ValidInText(t[0]) {
        EscapeHasNoCR(t[0]);
      }
    }
  }

  lemma {:induction false} ValueHasNoCR(v: string)
    requires NoCR(v) && EncodeValue(v).Some?
    ensures NoCR(EncodeValue(v).value)
  {
    if v != [] {
      ValueHasNoCR(v[1..]);
      if !ValidInAttributeValue(v[0]) {
        EscapeHasNoCR(v[0]);
      }
    }
  }

  lemma {:induction false} AttrsHaveNoCR(attrs: seq<Attr>)
    requires EncodeAttrs(attrs).Some? && forall a <- attrs :: AttrNameOk(a.name) && NoCR(a.value)
    ensures NoCR(EncodeAttrs(attrs).value)
  {
    if attrs != [] {
      var a := attrs[0];
      assert a in attrs && forall b <- attrs[1..] :: b in attrs;
      AttrsHaveNoCR(attrs[1..]);
      forall i | 0 <= i < |a.name| ensures a.name[i] != '\r' {
        assert a.name[i] in a.name;
      }
      if a.value != [] {
        ValueHasNoCR(a.value);
      }
    }
  }

  lemma {:induction false} RawHasNoCR(ns: seq<Html>)
    requires CleanAll(ns) && RawText(ns).Some?
    ensures NoCR(RawText(ns).value)
  {
    if ns != [] {
      RawHasNoCR(ns[1..]);
    }
  }

  lemma StartHasNoCR(tag: string, attrs: seq<Attr>)
    requires NamesOk(tag, attrs) && StartTag(tag, attrs).Some? && forall a <- attrs :: NoCR(a.value)
    ensures NoCR(StartTag(tag, attrs).value) && NoCR(EndTag(tag))
  {
    AttrsHaveNoCR(attrs);
    forall i | 0 <= i < |tag| ensures tag[i] != '\r' {
      assert tag[i] in tag;
    }
  }

  lemma {:induction false} EncodeHasNoCR(n: Html, escape: bool)
    requires Ok(n) && Clean(n) && Encode(n, escape).Some?
    ensures NoCR(Encode(n, escape).value)
    decreases n, 1
  {
    match n
    case Tag =>
    case Text(t) => TextHasNoCR(t, escape);
    case Element(tag, attrs, children, preSpan) =>
      StartHasNoCR(tag, attrs);
      if !IsVoid(tag) && !IsSelfClosing(tag) {
        if IsRaw(tag) || IsEscapableRaw(tag) {
          RawHasNoCR(children);
          if IsEscapableRaw(tag) {
            TextHasNoCR(RawText(children).value, false);
          }
        } else {
          AllHaveNoCR(children, preSpan);
        }
      }
  }

  lemma {:induction false} AllHaveNoCR(ns: seq<Html>, escape: bool)
    requires OkAll(ns) && CleanAll(ns) && EncodeAll(ns, escape).Some?
    ensures NoCR(EncodeAll(ns, escape).value)
    decreases ns, 0
  {
    if ns != [] {
      EncodeHasNoCR(ns[0], escape);
      AllHaveNoCR(ns[1..], escape);
    }
  }

  // ----- Carriage returns cannot survive -----

  /** No carriage return in the characters and attribute values of parsed content. */
  predicate Plain(d: Dom)
    decreases d, 1
  {
    match d
    case DChar(c) => c != '\r'
    case DElement(_, attrs, children) => (forall a <- attrs :: NoCR(a.value)) && PlainAll(children)
  }

  predicate PlainAll(ds: seq<Dom>)
    decreases ds, 0
  {
    ds != [] ==> Plain(ds[0]) && PlainAll(ds[1..])
  }

  lemma {:induction false} PlainAppend(a: seq<Dom>, b: seq<Dom>)
    ensures PlainAll(a + b) <==> PlainAll(a) && PlainAll(b)
  {
    if a == [] {
      assert a + b == b;
    } else {
      assert (a + b)[1..] == a[1..] + b;
      PlainAppend(a[1..], b);
    }
  }

  lemma {:induction false} PlainChars(s: string)
    ensures PlainAll(DChars(s)) <==> NoCR(s)
  {
    if s != [] {
      PlainChars(s[1..]);
    }
  }

  /** A tree is clean exactly when what it stands for is. */
  lemma {:induction false} CleanIsPlain(n: Html)
    ensures Clean(n) <==> PlainAll(FlatNode(n))
    decreases n, 1
  {
    match n
    case Tag =>
    case Text(t) => PlainChars(t);
    case Element(tag, attrs, children, _) =>
      CleanAllIsPlain(children);
      var d := DElement(tag, attrs, Flat(children));
      assert FlatNode(n) == [d] && [d][1..] == [];
  }

  lemma {:induction false} CleanAllIsPlain(ns: seq<Html>)
    ensures CleanAll(ns) <==> PlainAll(Flat(ns))
    decreases ns, 0
  {
    if ns != [] {
      CleanIsPlain(ns[0]);
      CleanAllIsPlain(ns[1..]);
      PlainAppend(FlatNode(ns[0]), Flat(ns[1..]));
    }
  }

  lemma {:induction false} NormalizedHasNoCR(s: string)
    ensures NoCR(Normalize(s))
    decreases |s|
  {
    if s != [] {
      NormalizedHasNoCR(if s[0] == '\r' && |s| > 1 && s[1] == '\n' then s[2..] else s[1..]);
    }
  }

  lemma {:induction false} SpaceSkips(s: string)
    requires NoCR(s)
    ensures NoCR(SkipSpace(s))
  {
    if s != [] && IsWhitespace(s[0]) {
      SpaceSkips(s[1..]);
    }
  }

  lemma {:induction false} NamesKeep(s: string)
    requires NoCR(s)
    ensures NoCR(ReadTagName(s).1) && NoCR(ReadAttrName(s).1)
  {
    if s != [] {
      NamesKeep(s[1..]);
    }
  }

  lemma {:induction false} HexKeeps(s: string, acc: nat)
    requires NoCR(s)
    ensures NoCR(ReadHex(s, acc).1)
  {
    if s != [] && IsHex(s[0]) {
      HexKeeps(s[1..], 16 * acc + HexValue(s[0]));
    }
  }

  lemma ReferenceKeeps(s: string)
    requires NoCR(s) && ReadReference(s).Some?
    ensures ReadReference(s).value.0 != '\r' && NoCR(ReadReference(s).value.1)
  {
    if "&#x" <= s && |s| > 3 {
      HexKeeps(s[3..], 0);
    }
  }

  lemma {:induction false} ValueKeeps(s: string)
    requires NoCR(s) && ReadValue(s).Some?
    ensures NoCR(ReadValue(s).value.0) && NoCR(ReadValue(s).value.1)
    decreases |s|
  {
    if s[0] == '&' {
      ReferenceKeeps(s);
      ValueKeeps(ReadReference(s).value.1);
    } else if s[0] != '"' {
      ValueKeeps(s[1..]);
    }
  }

  lemma {:induction false} AttrsKeep(s: string)
    requires NoCR(s) && ReadAttrs(s).Some?
    ensures (forall a <- ReadAttrs(s).value.0 :: NoCR(a.value)) && NoCR(ReadAttrs(s).value.2)
    decreases |s|
  {
    SpaceSkips(s);
    var t := SkipSpace(s);
    if t[0] == '/' {
      if !(|t| > 1 && t[1] == '>') {
        AttrsKeep(t[1..]);
      }
    } else if t[0] != '>' {
      NamesKeep(t);
      var u := ReadAttrName(t).1;
      SpaceSkips(u);
      var w := SkipSpace(u);
      if w != [] && w[0] == '=' {
        SpaceSkips(w[1..]);
        var v := SkipSpace(w[1..]);
        ValueKeeps(v[1..]);
        AttrsKeep(ReadValue(v[1..]).value.1);
      } else {
        AttrsKeep(u);
      }
    }
  }

  lemma {:induction false} RawKeeps(s: string, tag: string)
    requires NoCR(s)
    ensures NoCR(ReadRaw(s, tag).0) && NoCR(ReadRaw(s, tag).1)
  {
    if s != [] && !ClosesAt(s, tag) {
      RawKeeps(s[1..], tag);
    }
  }

  lemma {:induction false} ScriptKeeps(s: string, m: Mode)
    requires NoCR(s)
    ensures NoCR(ReadScript(s, m).0) && NoCR(ReadScript(s, m).1)
    decreases |s|
  {
    if s != [] && !(ClosesAt(s, "script") && !m.Double?) {
      ScriptKeeps(s[1..], NextMode(m, s));
    }
  }

  lemma {:induction false} FirstOnesAreSome(attrs: seq<Attr>)
    ensures forall a <- FirstOnes(attrs) :: a in attrs
  {
    if attrs != [] {
      FirstOnesAreSome(attrs[..|attrs| - 1]);
    }
  }

  lemma {:induction false} EscapableKeeps(s: string, tag: string)
    requires NoCR(s) && ReadEscapable(s, tag).Some?
    ensures NoCR(ReadEscapable(s, tag).value.0) && NoCR(ReadEscapable(s, tag).value.1)
    decreases |s|
  {
    if s != [] && !ClosesAt(s, tag) {
      if s[0] == '&' {
        ReferenceKeeps(s);
        EscapableKeeps(ReadReference(s).value.1, tag);
      } else {
        EscapableKeeps(s[1..], tag);
      }
    }
  }

  lemma {:induction false} ElementKeeps(s: string)
    requires s != [] && s[0] == '<' && NoCR(s) && ParseElement(s).Some?
    ensures Plain(ParseElement(s).value.0) && NoCR(ParseElement(s).value.1)
    decreases |s|, 0
  {
    NamesKeep(s[1..]);
    var (tag, t) := ReadTagName(s[1..]);
    AttrsKeep(t);
    var (attrs, selfClosing, after) := ReadAttrs(t).value;
    FirstOnesAreSome(attrs);
    if !(IsVoid(tag) || (IsSelfClosing(tag) && selfClosing)) {
      BodyKeeps(tag, after);
    }
  }

  lemma {:induction false} BodyKeeps(tag: string, s: string)
    requires NoCR(s) && ParseBody(tag, s).Some?
    ensures PlainAll(ParseBody(tag, s).value.0) && NoCR(ParseBody(tag, s).value.1)
    decreases |s|, 2
  {
    if ReadsRaw(tag) {
      RawKeeps(s, tag);
      PlainChars(ReadRaw(s, tag).0);
    } else if tag == "script" {
      ScriptKeeps(s, Data);
      PlainChars(ReadScript(s, Data).0);
    } else if IsEscapableRaw(tag) {
      EscapableKeeps(DropNewline(s, tag), tag);
      PlainChars(ReadEscapable(DropNewline(s, tag), tag).value.0);
    } else {
      AllKeep(DropNewline(s, tag));
    }
  }

  lemma {:induction false} AllKeep(s: string)
    requires NoCR(s) && ParseAll(s).Some?
    ensures PlainAll(ParseAll(s).value.0) && NoCR(ParseAll(s).value.1)
    decreases |s|, 1
  {
    if s == [] || (s[0] == '<' && |s| > 1 && s[1] == '/') {
    } else {
      var d, t;
      if s[0] == '<' {
        ElementKeeps(s);
        d, t := ParseElement(s).value.0, ParseElement(s).value.1;
      } else if s[0] == '&' {
        ReferenceKeeps(s);
        d, t := DChar(ReadReference(s).value.0), ReadReference(s).value.1;
      } else {
        d, t := DChar(s[0]), s[1..];
      }
      AllKeep(t);
      assert ParseAll(s).value.0 == [d] + ParseAll(t).value.0;
      assert [d][1..] == [];
      PlainAppend([d], ParseAll(t).value.0);
    }
  }
}
