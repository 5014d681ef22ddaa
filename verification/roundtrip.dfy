/**
 A parser recovers a written document exactly when the document has no carriage return and each of its
 elements survives. Where one does not, the parsed document differs at that element.
 */
module RoundTrip {
  import opened Options
  import opened Charsets
  import opened Encoder
  import opened HtmlParser
  import opened Survival
  import opened ReadBack
  import opened CarriageReturns

  type Content = Option<(seq<Dom>, string)>

  // ----- Where the parsed content goes wrong -----

  /** Up to `i` the content is as expected; at `i` is an element, but not the expected one. */
  predicate DiffersAt(ds: seq<Dom>, expected: seq<Dom>, i: nat) {
    && i < |expected| && i < |ds| && ds[..i] == expected[..i]
    && ds[i].DElement? && expected[i].DElement? && ds[i] != expected[i]
  }

  ghost predicate Differs(r: Content, expected: seq<Dom>) {
    r.Some? ==> exists i: nat :: DiffersAt(r.value.0, expected, i)
  }

  lemma DiffersLonger(r: Content, expected: seq<Dom>, more: seq<Dom>)
    requires Differs(r, expected)
    ensures Differs(r, expected + more)
  {
    if r.Some? {
      var i: nat :| DiffersAt(r.value.0, expected, i);
      assert (expected + more)[..i] == expected[..i];
      assert DiffersAt(r.value.0, expected + more, i);
    }
  }

  lemma DiffersLater(ds: seq<Dom>, r: Content, expected: seq<Dom>)
    requires Differs(r, expected)
    ensures Differs(Prepend(ds, r), ds + expected)
  {
    if r.Some? {
      var i: nat :| DiffersAt(r.value.0, expected, i);
      var got, want := ds + r.value.0, ds + expected;
      assert got[..|ds| + i] == ds + r.value.0[..i] == ds + expected[..i] == want[..|ds| + i];
      assert DiffersAt(got, want, |ds| + i);
    }
  }

  // ----- Content -----

  /** Either the content is read back, or it goes wrong at an element that does not survive. */
  ghost predicate Back(r: Content, expected: seq<Dom>, rest: Content, good: bool) {
    if good then r == Prepend(expected, rest) else Differs(r, expected)
  }

  lemma {:induction false} NodeBack(n: Html, escape: bool, t: string)
    requires Ok(n) && Encode(n, escape).Some?
    ensures Back(ParseAll(Encode(n, escape).value + t), FlatNode(n), ParseAll(t), Survives(n))
    decreases n, 4
  {
    match n
    case Tag =>
      assert [] + t == t;
      PrependNothing(ParseAll(t));
    case Text(text) => TextBack(text, escape, t);
    case Element(tag, attrs, _, _) =>
      ElementBack(n, escape, t);
      ElementIsContent(n, escape, t);
  }

  /** A written element is content that starts with what it is read as. */
  lemma ElementIsContent(n: Html, escape: bool, t: string)
    requires n.Element? && Ok(n) && Encode(n, escape).Some?
    requires var s := Encode(n, escape).value + t;
      s != [] && s[0] == '<' && if Survives(n) then ParseElement(s) == Some((FlatNode(n)[0], t))
                                else ParseElement(s).Some? ==> ParseElement(s).value.0 != FlatNode(n)[0]
    ensures Back(ParseAll(Encode(n, escape).value + t), FlatNode(n), ParseAll(t), Survives(n))
  {
    var s := Encode(n, escape).value + t;
    StartsLikeTag(n, escape, t);
    var r := ParseAll(s);
    if !Survives(n) && r.Some? {
      assert r.value.0[0] == ParseElement(s).value.0;
      assert DiffersAt(r.value.0, FlatNode(n), 0);
    }
  }

  lemma StartsLikeTag(n: Html, escape: bool, t: string)
    requires n.Element? && Ok(n) && Encode(n, escape).Some?
    ensures var s := Encode(n, escape).value + t; |s| > 1 && s[0] == '<' && s[1] == n.tag[0] && s[1] != '/'
  {
    StartBack(n.tag, n.attrs, []);
    var start := StartTag(n.tag, n.attrs).value;
    assert start + [] == start && start <= Encode(n, escape).value;
    assert n.tag[0] in n.tag;
  }

  lemma {:induction false} AllBack(ns: seq<Html>, escape: bool, t: string)
    requires OkAll(ns) && EncodeAll(ns, escape).Some?
    ensures Back(ParseAll(EncodeAll(ns, escape).value + t), Flat(ns), ParseAll(t), AllSurvive(ns))
    decreases ns, 0
  {
    if ns == [] {
      assert [] + t == t;
      PrependNothing(ParseAll(t));
    } else {
      var s, rest := Encode(ns[0], escape).value, EncodeAll(ns[1..], escape).value;
      assert s + rest + t == s + (rest + t);
      NodeBack(ns[0], escape, rest + t);
      AllBack(ns[1..], escape, t);
      OneAfterAnother(ParseAll(s + (rest + t)), FlatNode(ns[0]), ParseAll(rest + t), Survives(ns[0]),
                      Flat(ns[1..]), ParseAll(t), AllSurvive(ns[1..]));
    }
  }

  lemma OneAfterAnother(r: Content, first: seq<Dom>, r': Content, good: bool, more: seq<Dom>, rest: Content, good': bool)
    requires Back(r, first, r', good) && Back(r', more, rest, good')
    ensures Back(r, first + more, rest, good && good')
  {
    if !good {
      DiffersLonger(r, first, more);
    } else if !good' {
      DiffersLater(first, r', more);
    } else if rest.Some? {
      assert first + (more + rest.value.0) == first + more + rest.value.0;
    }
  }

  // ----- Elements -----

  lemma {:induction false} ElementBack(n: Html, escape: bool, t: string)
    requires n.Element? && Ok(n) && Encode(n, escape).Some?
    ensures var s := Encode(n, escape).value + t;
      s != [] && s[0] == '<' && if Survives(n) then ParseElement(s) == Some((FlatNode(n)[0], t))
                                else ParseElement(s).Some? ==> ParseElement(s).value.0 != FlatNode(n)[0]
    decreases n, 3
  {
    StartsLikeTag(n, escape, t);
    if !NamesKept(n.tag, n.attrs) {
      NamesAreLost(n, escape, t);
    } else if IsVoid(n.tag) || IsSelfClosing(n.tag) {
      VoidReads(n.tag, n.attrs, t);
    } else {
      ElementParts(n, escape, t);
      BodyBack(n, t);
      ElementReads(n, AfterStart(n, t), t);
    }
  }

  lemma ElementParts(n: Html, escape: bool, t: string)
    requires n.Element? && Encode(n, escape).Some? && !IsVoid(n.tag) && !IsSelfClosing(n.tag)
    ensures Encode(n, escape).value + t == StartTag(n.tag, n.attrs).value + AfterStart(n, t)
  {
  }

  /** Whatever follows, the names are read in lower case and without repetitions. */
  lemma NamesAreLost(n: Html, escape: bool, t: string)
    requires n.Element? && Ok(n) && Encode(n, escape).Some? && !NamesKept(n.tag, n.attrs)
    requires var s := Encode(n, escape).value + t; s != [] && s[0] == '<'
    ensures var r := ParseElement(Encode(n, escape).value + t); r.Some? ==> r.value.0 != FlatNode(n)[0]
  {
    var s, start := Encode(n, escape).value + t, StartTag(n.tag, n.attrs).value;
    var after := Encode(n, escape).value[|start|..] + t;
    assert s == start + after;
    StartBack(n.tag, n.attrs, after);
    if LowerName(n.tag) == n.tag && FirstOnes(LowerAttrs(n.attrs)) == n.attrs {
      FirstOnesKeep(n.attrs);
    }
  }

  lemma {:induction false} FirstOnesShrink(attrs: seq<Attr>)
    ensures |FirstOnes(attrs)| <= |attrs|
  {
    if attrs != [] {
      FirstOnesShrink(attrs[..|attrs| - 1]);
    }
  }

  lemma {:induction false} AllAreFirst(attrs: seq<Attr>)
    ensures |FirstOnes(attrs)| == |attrs| <==> forall i, j :: 0 <= i < j < |attrs| ==> attrs[i].name != attrs[j].name
    ensures |FirstOnes(attrs)| == |attrs| ==> FirstOnes(attrs) == attrs
  {
    if attrs != [] {
      var n := |attrs| - 1;
      AllAreFirst(attrs[..n]);
      FirstOnesShrink(attrs[..n]);
      assert attrs == attrs[..n] + [attrs[n]];
      if HasName(attrs[..n], attrs[n].name) {
        var i :| 0 <= i < n && attrs[..n][i].name == attrs[n].name;
        assert attrs[i].name == attrs[n].name;
      }
    }
  }

  /** Attributes are kept exactly when their names are in lower case and distinct. */
  lemma FirstOnesKeep(attrs: seq<Attr>)
    ensures FirstOnes(LowerAttrs(attrs)) == attrs
       <==> (forall i :: 0 <= i < |attrs| ==> LowerName(attrs[i].name) == attrs[i].name)
            && (forall i, j :: 0 <= i < j < |attrs| ==> attrs[i].name != attrs[j].name)
  {
    var lower := LowerAttrs(attrs);
    AllAreFirst(lower);
    if forall i :: 0 <= i < |attrs| ==> LowerName(attrs[i].name) == attrs[i].name {
      assert forall i :: 0 <= i < |attrs| ==> lower[i] == LowerAttr(attrs[i]) == attrs[i];
      assert lower == attrs;
    }
    if FirstOnes(lower) == attrs {
      assert lower == attrs;
      forall i | 0 <= i < |attrs| ensures LowerName(attrs[i].name) == attrs[i].name {
        assert lower[i] == LowerAttr(attrs[i]);
      }
    }
  }

  lemma VoidReads(tag: string, attrs: seq<Attr>, t: string)
    requires NamesOk(tag, attrs) && NamesKept(tag, attrs)
    requires StartTag(tag, attrs).Some? && (IsVoid(tag) || IsSelfClosing(tag))
    ensures var s := StartTag(tag, attrs).value + t;
      s != [] && s[0] == '<' && ParseElement(s) == Some((DElement(tag, attrs, []), t))
  {
    StartBack(tag, attrs, t);
    FirstOnesKeep(attrs);
  }

  /** The element is what its contents are. */
  lemma ElementReads(n: Html, after: string, t: string)
    requires n.Element? && Ok(n) && NamesKept(n.tag, n.attrs) && StartTag(n.tag, n.attrs).Some?
    requires !IsVoid(n.tag) && !IsSelfClosing(n.tag)
    requires BodyReads(n, ParseBody(n.tag, after), t)
    ensures var s := StartTag(n.tag, n.attrs).value + after;
      s != [] && s[0] == '<' && if BodySurvives(n) then ParseElement(s) == Some((FlatNode(n)[0], t))
                                else ParseElement(s).Some? ==> ParseElement(s).value.0 != FlatNode(n)[0]
  {
    StartBack(n.tag, n.attrs, after);
    FirstOnesKeep(n.attrs);
    EndTagCloses(n.tag, t);
  }

  /** What is written after the start tag, with `t` after the element. */
  function AfterStart(n: Html, t: string): string
    requires n.Element? && EncodeBody(n).Some?
  {
    (if AddsNewline(n) then "\n" else "") + (EncodeBody(n).value + (EndTag(n.tag) + t))
  }

  /** The contents are read up to the end tag, or differ. */
  ghost predicate BodyReads(n: Html, r: Content, t: string)
    requires n.Element? && Ok(n)
  {
    if BodySurvives(n) then r == Some((Flat(n.children), EndTag(n.tag) + t))
    else r.Some? ==> r.value.0 != Flat(n.children)
  }

  lemma {:induction false} BodyBack(n: Html, t: string)
    requires n.Element? && Ok(n) && LowerName(n.tag) == n.tag && EncodeBody(n).Some?
    ensures BodyReads(n, ParseBody(n.tag, AfterStart(n, t)), t)
    decreases n, 2
  {
    var body, e := EncodeBody(n).value, EndTag(n.tag) + t;
    assert "" + (body + e) == body + e;
    EndTagCloses(n.tag, t);
    if ReadsRaw(n.tag) {
      RawBodyBack(n, t);
    } else if n.tag == "script" {
      ScriptBodyBack(n, t);
    } else if n.tag == "plaintext" {
    } else {
      NewlineBack(n, e);
      if IsEscapableRaw(n.tag) {
        EscapableBodyBack(n, t);
      } else {
        AllBack(n.children, n.preSpan, e);
        NestedBodyBack(n, t);
      }
    }
  }

  lemma ScriptBodyBack(n: Html, t: string)
    requires n.Element? && Ok(n) && n.tag == "script" && EncodeBody(n).Some?
    ensures BodyReads(n, ParseBody(n.tag, EncodeBody(n).value + (EndTag(n.tag) + t)), t)
  {
    var body, e := EncodeBody(n).value, EndTag(n.tag) + t;
    SearchPanicsIff(body, n.tag);
    ScriptBack(body, Data, t);
    RawIsFlat(n.children);
    DCharsInject(body, ReadScript(body + e, Data).0);
  }

  lemma {:induction false} DCharsInject(s: string, t: string)
    ensures DChars(s) == DChars(t) <==> s == t
  {
    if s != [] && t != [] {
      DCharsInject(s[1..], t[1..]);
      assert s == [s[0]] + s[1..] && t == [t[0]] + t[1..];
      assert DChars(s)[0] == DChar(s[0]) && DChars(s)[1..] == DChars(s[1..]);
      assert DChars(t)[0] == DChar(t[0]) && DChars(t)[1..] == DChars(t[1..]);
    }
  }

  // ----- Raw text -----

  /** Raw text is read back if the writer knows that it is raw, or if it happens to need no escapes. */
  lemma RawBodyBack(n: Html, t: string)
    requires n.Element? && Ok(n) && ReadsRaw(n.tag) && EncodeBody(n).Some?
    ensures BodyReads(n, ParseBody(n.tag, EncodeBody(n).value + (EndTag(n.tag) + t)), t)
  {
    var body, e := EncodeBody(n).value, EndTag(n.tag) + t;
    EndTagCloses(n.tag, t);
    if IsRaw(n.tag) {
      SearchPanicsIff(body, n.tag);
      RawBack(body, n.tag, t);
      RawIsFlat(n.children);
    } else if RawText(n.children).None? {
      HasElement(n.children);
      OnlyChars(ReadRaw(body + e, n.tag).0);
    } else {
      var text := RawText(n.children).value;
      TextsEncoded(n.children, n.preSpan);
      VerbatimText(n.children, n.preSpan);
      EncodedIsPlain(text, n.preSpan);
      PlainIsRaw(body, e, n.tag);
      RawIsFlat(n.children);
      DCharsInject(body, text);
    }
  }

  lemma {:induction false} OnlyChars(s: string)
    ensures forall d <- DChars(s) :: d.DChar?
  {
    if s != [] {
      OnlyChars(s[1..]);
    }
  }

  lemma {:induction false} HasElement(ns: seq<Html>)
    requires RawText(ns).None?
    ensures !Verbatim(ns, true) && !Verbatim(ns, false) && exists d <- Flat(ns) :: d.DElement?
  {
    if RawText(ns[1..]).None? {
      HasElement(ns[1..]);
      var d :| d in Flat(ns[1..]) && d.DElement?;
      assert d in Flat(ns);
      assert forall n <- ns[1..] :: n in ns;
    } else {
      assert ns[0] in ns && FlatNode(ns[0])[0] in Flat(ns);
    }
  }

  /** Without elements, the children are written as their text is. */
  lemma {:induction false} TextsEncoded(ns: seq<Html>, escape: bool)
    requires RawText(ns).Some?
    ensures EncodeAll(ns, escape) == EncodeText(RawText(ns).value, escape)
  {
    if ns != [] {
      TextsEncoded(ns[1..], escape);
      if ns[0].Text? {
        EncodeAppend(ns[0].text, RawText(ns[1..]).value, escape);
      } else {
        JoinedNothing(EncodeAll(ns[1..], escape));
      }
    }
  }

  lemma {:induction false} VerbatimText(ns: seq<Html>, escape: bool)
    requires RawText(ns).Some?
    ensures Verbatim(ns, escape) <==> forall c <- RawText(ns).value :: !escape && ValidInText(c)
  {
    if ns != [] {
      VerbatimText(ns[1..], escape);
      var rest := RawText(ns[1..]).value;
      assert ns == [ns[0]] + ns[1..];
      if ns[0].Text? {
        var t := ns[0].text;
        assert RawText(ns).value == t + rest;
        assert (forall c <- t + rest :: !escape && ValidInText(c))
          <==> (forall c <- t :: !escape && ValidInText(c)) && (forall c <- rest :: !escape && ValidInText(c)) by {
          assert forall c <- t :: c in t + rest;
          assert forall c <- rest :: c in t + rest;
        }
      }
    }
  }

  lemma {:induction false} EncodeAppend(s: string, t: string, escape: bool)
    ensures EncodeText(s + t, escape) == var a :- EncodeText(s, escape); Joined(a, EncodeText(t, escape))
  {
    if s == [] {
      assert s + t == t;
      JoinedNothing(EncodeText(t, escape));
    } else {
      assert (s + t)[1..] == s[1..] + t;
      EncodeAppend(s[1..], t, escape);
      if EncodeChar(s[0], escape).Some? && EncodeText(s[1..], escape).Some? {
        JoinedTwice(EncodeChar(s[0], escape).value, EncodeText(s[1..], escape).value, EncodeText(t, escape));
      }
    }
  }

  lemma EscapeIsLonger(c: char)
    requires Escape(c).Some?
    ensures |Escape(c).value| > 1 && '<' !in Escape(c).value
  {
    HexIsPlain(c as int);
  }

  lemma {:induction false} HexIsPlain(n: nat)
    ensures '<' !in Hex(n)
  {
    if n >= 16 {
      HexIsPlain(n / 16);
    }
  }

  /** Written text has no `<`; it is the text itself exactly when nothing had to be escaped. */
  lemma {:induction false} EncodedIsPlain(text: string, escape: bool)
    requires EncodeText(text, escape).Some?
    ensures '<' !in EncodeText(text, escape).value && |EncodeText(text, escape).value| >= |text|
    ensures EncodeText(text, escape).value == text <==> forall c <- text :: !escape && ValidInText(c)
  {
    if text != [] {
      EncodedIsPlain(text[1..], escape);
      var s, rest := EncodeChar(text[0], escape).value, EncodeText(text[1..], escape).value;
      assert text == [text[0]] + text[1..];
      if escape || !ValidInText(text[0]) {
        EscapeIsLonger(text[0]);
        assert |s + rest| > |text|;
        assert text[0] in text;
      } else {
        assert (s + rest)[1..] == rest;
      }
    }
  }

  lemma {:induction false} PlainIsRaw(s: string, e: string, tag: string)
    requires '<' !in s && ClosesAt(e, tag)
    ensures ReadRaw(s + e, tag) == (s, e)
  {
    if s == [] {
      assert s + e == e;
    } else {
      assert s[0] in s && (s + e)[0] == s[0] && (s + e)[1..] == s[1..] + e;
      PlainIsRaw(s[1..], e, tag);
      assert [s[0]] + s[1..] == s;
    }
  }

  // ----- Leading newlines -----

  /** What is ignored is the newline that the writer adds, or else a leading newline. */
  lemma NewlineBack(n: Html, e: string)
    requires n.Element? && Ok(n) && !IsRaw(n.tag) && EncodeBody(n).Some? && e != [] && e[0] == '<'
    ensures var body := EncodeBody(n).value;
      var s := DropNewline((if AddsNewline(n) then "\n" else "") + (body + e), n.tag);
      if NewlineSeen(n) then s == body + e
      else
        && body != [] && body[0] == '\n' && s == body[1..] + e
        && Flat(n.children) != [] && Flat(n.children)[0] == DChar('\n')
  {
    var body := EncodeBody(n).value;
    NewlineIgnored(n);
    if AddsNewline(n) {
      assert ("\n" + (body + e))[1..] == body + e;
    } else {
      assert "" + (body + e) == body + e;
      assert (body + e)[0] == if body == [] then '<' else body[0];
      if IgnoresNewline(n.tag) {
        FirstWritten(n);
        if body != [] {
          assert (body + e)[1..] == body[1..] + e;
        }
      }
    }
  }

  lemma NewlineIgnored(n: Html)
    requires n.Element?
    ensures AddsNewline(n) ==> NewlineSeen(n)
    ensures !NewlineSeen(n) ==> Flat(n.children) != [] && Flat(n.children)[0] == DChar('\n')
    ensures (&& IgnoresNewline(n.tag) && Flat(n.children) != [] && Flat(n.children)[0] == DChar('\n')
             && (IsEscapableRaw(n.tag) || !n.preSpan) && NewlineSeen(n)) ==> AddsNewline(n)
  {
    if IgnoresNewline(n.tag) && Flat(n.children) != [] && Flat(n.children)[0] == DChar('\n')
       && (IsEscapableRaw(n.tag) || !n.preSpan)
    {
      NewlineAgrees(n);
    }
  }

  /** A leading newline is written as it is, unless texts are escaped. */
  lemma FirstWritten(n: Html)
    requires n.Element? && Ok(n) && !IsRaw(n.tag) && EncodeBody(n).Some?
    ensures var body := EncodeBody(n).value;
      (body != [] && body[0] == '\n') <==>
      (Flat(n.children) != [] && Flat(n.children)[0] == DChar('\n') && (IsEscapableRaw(n.tag) || !n.preSpan))
  {
    if IsEscapableRaw(n.tag) {
      var text := RawText(n.children).value;
      RawIsFlat(n.children);
      LeadingText(text, false);
      if text != [] && text[0] == '\n' {
        assert EncodeChar('\n', false) == Some(['\n']);
      }
    } else {
      LeadingNewline(n.children, n.preSpan);
      if !n.preSpan && Flat(n.children) != [] && Flat(n.children)[0] == DChar('\n') {
        FirstCharWritten(n.children);
      }
    }
  }

  lemma {:induction false} FirstCharWritten(ns: seq<Html>)
    requires EncodeAll(ns, false).Some? && Flat(ns) != [] && Flat(ns)[0] == DChar('\n')
    ensures EncodeAll(ns, false).value != [] && EncodeAll(ns, false).value[0] == '\n'
  {
    match ns[0]
    case Tag => FirstCharWritten(ns[1..]);
    case Text(t) =>
      if t == [] {
        FirstCharWritten(ns[1..]);
      } else {
        assert t[0] == '\n';
        assert EncodeChar('\n', false) == Some(['\n']);
      }
    case Element(_, _, _, _) =>
  }

  lemma EscapableBodyBack(n: Html, t: string)
    requires n.Element? && Ok(n) && IsEscapableRaw(n.tag) && EncodeBody(n).Some?
    requires var e := EndTag(n.tag) + t;
      var body := EncodeBody(n).value;
      var s := DropNewline(AfterStart(n, t), n.tag);
      if NewlineSeen(n) then s == body + e else body != [] && body[0] == '\n' && s == body[1..] + e
    ensures BodyReads(n, ParseBody(n.tag, AfterStart(n, t)), t)
  {
    var text := RawText(n.children).value;
    RawIsFlat(n.children);
    if NewlineSeen(n) {
      EscapableBack(text, n.tag, t);
    } else {
      LeadingText(text, false);
      assert EncodeChar('\n', false) == Some(['\n']);
      assert EncodeText(text, false).value[1..] == EncodeText(text[1..], false).value;
      EscapableBack(text[1..], n.tag, t);
      DCharsInject(text, text[1..]);
    }
  }

  /** Content with an ignored newline is too short, whether or not the rest of it survives. */
  lemma NestedBodyBack(n: Html, t: string)
    requires n.Element? && Ok(n) && EncodeBody(n).Some? && n.tag != "script" && n.tag != "plaintext"
    requires !ReadsRaw(n.tag) && !IsRaw(n.tag) && !IsEscapableRaw(n.tag)
    requires var e := EndTag(n.tag) + t;
      var body := EncodeBody(n).value;
      var s := DropNewline(AfterStart(n, t), n.tag);
      && Back(ParseAll(body + e), Flat(n.children), ParseAll(e), AllSurvive(n.children))
      && if NewlineSeen(n) then s == body + e else body != [] && body[0] == '\n' && s == body[1..] + e
    ensures BodyReads(n, ParseBody(n.tag, AfterStart(n, t)), t)
  {
    var body, e := EncodeBody(n).value, EndTag(n.tag) + t;
    EndTagCloses(n.tag, t);
    assert ParseAll(e) == Some(([], e));
    assert Flat(n.children) + [] == Flat(n.children);
    if !NewlineSeen(n) {
      assert (body + e)[0] == '\n' && (body + e)[1..] == body[1..] + e;
      Shortened(ParseAll(body[1..] + e), ParseAll(body + e), Flat(n.children), e, AllSurvive(n.children));
    } else if !AllSurvive(n.children) {
      NeverEqual(ParseAll(body + e), Flat(n.children));
    }
  }

  lemma NeverEqual(r: Content, expected: seq<Dom>)
    requires Differs(r, expected)
    ensures r.Some? ==> r.value.0 != expected
  {
  }

  lemma Shortened(short: Content, r: Content, expected: seq<Dom>, e: string, good: bool)
    requires r == Prepend([DChar('\n')], short) && Back(r, expected, Some(([], e)), good)
    ensures short.Some? ==> short.value.0 != expected
  {
    if short.Some? && short.value.0 == expected {
      var longer := [DChar('\n')] + expected;
      assert r.value.0 == longer;
      if !good {
        var i: nat :| DiffersAt(longer, expected, i);
        ShiftedNewlines(expected, i);
      }
    }
  }

  /** If content starts with itself after a newline, it starts with newlines. */
  lemma {:induction false} ShiftedNewlines(expected: seq<Dom>, i: nat)
    requires i < |expected| && ([DChar('\n')] + expected)[..i] == expected[..i]
    ensures ([DChar('\n')] + expected)[i] == DChar('\n')
  {
    var longer := [DChar('\n')] + expected;
    if i > 0 {
      assert longer[..i - 1] == longer[..i][..i - 1] == expected[..i][..i - 1] == expected[..i - 1];
      ShiftedNewlines(expected, i - 1);
      assert longer[i] == expected[i - 1] == expected[..i][i - 1] == longer[..i][i - 1] == longer[i - 1];
    }
  }

  // ----- Whole documents -----

  /** Without carriage returns, the root is parsed from what was written for it. */
  lemma DocumentRead(root: Html)
    requires root.Element? && Ok(root) && Clean(root) && EncodeDocument(root).Some?
    ensures var s := Encode(root, false).value;
      ParseDocument(EncodeDocument(root).value)
      == if s == [] || s[0] != '<' then None
         else match ParseElement(s)
              case None => None
              case Some((d, rest)) => if rest == [] then Some(d) else None
  {
    var s := Encode(root, false).value;
    EncodeHasNoCR(root, false);
    AfterDoctype(s);
  }

  lemma AfterDoctype(s: string)
    requires NoCR(s)
    ensures var t := Normalize("<!DOCTYPE html>" + s);
      "<!DOCTYPE html>" <= t && |t| == 15 + |s| && t[15..] == s
  {
    var d := "<!DOCTYPE html>" + s;
    assert NoCR(d);
    NormalizeKeeps(d);
    assert d[15..] == s;
  }

  /** A document is read back exactly when it has no carriage return and all its elements survive. */
  lemma RoundTripIffSurvives(root: Html)
    requires root.Element? && Ok(root) && EncodeDocument(root).Some?
    ensures ParseDocument(EncodeDocument(root).value) == Some(FlatNode(root)[0]) <==> Clean(root) && Survives(root)
  {
    if Clean(root) {
      DocumentRead(root);
      ElementBack(root, false, []);
      assert Encode(root, false).value + [] == Encode(root, false).value;
    } else {
      CleanIsPlain(root);
      ParsedIsPlain(EncodeDocument(root).value);
      assert FlatNode(root) == [FlatNode(root)[0]] && FlatNode(root)[1..] == [];
    }
  }

  lemma ParsedIsPlain(s: string)
    ensures ParseDocument(s).Some? ==> Plain(ParseDocument(s).value)
  {
    NormalizedHasNoCR(s);
    if ParseDocument(s).Some? {
      ElementKeeps(Normalize(s)[15..]);
    }
  }

  // ----- Documents that do not come back -----

  lemma OneText(t: string, escape: bool)
    ensures Flat([Text(t)]) == DChars(t) && RawText([Text(t)]) == Some(t)
    ensures EncodeAll([Text(t)], escape) == EncodeText(t, escape) && OkAll([Text(t)])
  {
    assert [Text(t)][1..] == [] && DChars(t) + [] == DChars(t) && t + [] == t;
    assert Flat([]) == [] && RawText([]) == Some([]);
    var s := EncodeText(t, escape);
    if s.Some? {
      assert s.value + [] == s.value;
    }
  }

  lemma OneChar(c: char, escape: bool)
    ensures EncodeText([c], escape) == EncodeChar(c, escape) && DChars([c]) == [DChar(c)]
  {
    assert [c][1..] == [];
    assert EncodeText([], escape) == Some([]);
    var s := EncodeChar(c, escape);
    if s.Some? {
      assert s.value + [] == s.value;
    }
  }

  /** An element without attributes is encoded if its body is, and is read back if its body survives. */
  lemma PlainElement(tag: string, ns: seq<Html>, preSpan: bool)
    requires tag in ["pre", "textarea", "script", "iframe"]
    requires OkAll(ns) && EncodeBody(Element(tag, [], ns, preSpan)).Some?
    ensures var root := Element(tag, [], ns, preSpan);
      && Ok(root) && EncodeDocument(root).Some?
      && (ParseDocument(EncodeDocument(root).value) == Some(FlatNode(root)[0]) <==> CleanAll(ns) && BodySurvives(root))
  {
    var root := Element(tag, [], ns, preSpan);
    TagOk(tag);
    assert EncodeAttrs([]) == Some([]);
    assert StartTag(tag, []).Some?;
    RoundTripIffSurvives(root);
  }

  lemma TagOk(tag: string)
    requires tag in ["pre", "textarea", "script", "iframe"]
    ensures NamesOk(tag, []) && NamesKept(tag, []) && !IsVoid(tag) && !IsSelfClosing(tag)
  {
    assert LowerName(tag) == tag;
  }

  lemma TagKinds(tag: string)
    requires tag == "pre" || tag == "textarea"
    ensures !ReadsRaw(tag) && !IsRaw(tag) && tag != "plaintext" && IgnoresNewline(tag) && tag != "script"
    ensures IsEscapableRaw(tag) <==> tag == "textarea"
  {
  }

  /** An empty text hides the newline after it from the writer. */
  lemma HiddenNewlineIsLost(tag: string)
    requires tag == "pre" || tag == "textarea"
    ensures var root := Element(tag, [], [Text(""), Text("\n")], false);
      Ok(root) && EncodeDocument(root).Some? && ParseDocument(EncodeDocument(root).value) != Some(FlatNode(root)[0])
  {
    var ns := [Text(""), Text("\n")];
    HiddenNewline(ns, false);
    HiddenBody(Element(tag, [], ns, false));
    PlainElement(tag, ns, false);
  }

  lemma HiddenBody(n: Html)
    requires n.Element? && (n.tag == "pre" || n.tag == "textarea") && Ok(n) && !n.preSpan
    requires Flat(n.children) == [DChar('\n')] && !StartsWithNewline(n.children) && RawText(n.children) == Some("\n")
    requires EncodeAll(n.children, false) == EncodeText("\n", false)
    ensures EncodeBody(n).Some? && !BodySurvives(n)
  {
    TagKinds(n.tag);
    OneChar('\n', false);
    NewlineAgrees(n);
  }

  lemma HiddenNewline(ns: seq<Html>, escape: bool)
    requires ns == [Text(""), Text("\n")]
    ensures OkAll(ns) && Flat(ns) == [DChar('\n')] && !StartsWithNewline(ns) && RawText(ns) == Some("\n")
    ensures EncodeAll(ns, escape) == EncodeText("\n", escape)
  {
    assert ns[1..] == [Text("\n")];
    OneText("\n", escape);
    OneChar('\n', escape);
    assert [] + Flat(ns[1..]) == Flat(ns[1..]) && "" + "\n" == "\n";
    JoinedNothing(EncodeAll(ns[1..], escape));
  }

  /** Where texts are escaped, the newline is a character reference, which is not ignored. */
  lemma EscapedNewlineIsKept()
    ensures var root := Element("pre", [], [Text(""), Text("\n")], true);
      Ok(root) && EncodeDocument(root).Some? && ParseDocument(EncodeDocument(root).value) == Some(FlatNode(root)[0])
  {
    var ns := [Text(""), Text("\n")];
    HiddenNewline(ns, true);
    TextsSurvive(ns);
    EscapedBody(Element("pre", [], ns, true));
    PlainElement("pre", ns, true);
  }

  lemma TextsSurvive(ns: seq<Html>)
    requires ns == [Text(""), Text("\n")]
    ensures OkAll(ns) && AllSurvive(ns) && CleanAll(ns)
  {
    assert ns[1..] == [Text("\n")] && ns[1..][1..] == [];
    assert OkAll([]) && AllSurvive([]) && CleanAll([]);
    assert OkAll(ns[1..]) && AllSurvive(ns[1..]) && CleanAll(ns[1..]);
  }

  lemma EscapedBody(n: Html)
    requires n.Element? && n.tag == "pre" && Ok(n) && n.preSpan
    requires AllSurvive(n.children) && EncodeAll(n.children, true) == EncodeText("\n", true)
    ensures EncodeBody(n).Some? && BodySurvives(n)
  {
    TagKinds(n.tag);
    OneChar('\n', true);
  }

  /** A script that opens another one in a comment swallows its end tag. */
  lemma OpenScriptIsLost()
    ensures var root := Element("script", [], [Text("<!--" + "<script>")], false);
      Ok(root) && EncodeDocument(root).Some? && ParseDocument(EncodeDocument(root).value) != Some(FlatNode(root)[0])
  {
    var text := "<!--" + "<script>";
    OneText(text, false);
    OpenScript(text);
    ScriptBody(Element("script", [], [Text(text)], false), text);
    PlainElement("script", [Text(text)], false);
  }

  lemma ScriptBody(n: Html, text: string)
    requires n.Element? && n.tag == "script" && Ok(n) && RawText(n.children) == Some(text)
    requires FindClosing(text, "script").NotFound? && ModeAfter(Data, text).Double? && forall c <- text :: IsTextChar(c)
    ensures EncodeBody(n).Some? && !BodySurvives(n)
  {
  }

  lemma OpenScript(text: string)
    requires text == "<!--" + "<script>"
    ensures FindClosing(text, "script").NotFound? && ModeAfter(Data, text).Double? && forall c <- text :: IsTextChar(c)
  {
    CommentOpens("<script>");
    ScriptOpens("<script>");
    ScriptChars(text);
    NoClosing(text);
  }

  lemma ScriptChars(text: string)
    requires text == "<!--" + "<script>"
    ensures '/' !in text && forall c <- text :: IsTextChar(c)
  {
  }

  lemma CommentOpens(t: string)
    ensures ModeAfter(Data, "<!--" + t) == ModeAfter(Escaped(2), t)
  {
    var a, b, c, d := "<!--" + t, "!--" + t, "--" + t, "-" + t;
    assert a[1..] == b && b[1..] == c && c[1..] == d && d[1..] == t;
    assert "<!--" <= a && NextMode(Data, a) == Escaped(0) && NextMode(Escaped(0), b) == Escaped(0);
    assert NextMode(Escaped(0), c) == Escaped(1) && NextMode(Escaped(1), d) == Escaped(2);
    assert ModeAfter(Escaped(1), d) == ModeAfter(Escaped(2), t);
    assert ModeAfter(Escaped(0), c) == ModeAfter(Escaped(1), d);
  }

  lemma ScriptOpens(s: string)
    requires s == "<script>"
    ensures ModeAfter(Escaped(2), s) == Double(0)
  {
    assert s[1..7] == "script";
    DoubleStays(s[1..]);
  }

  lemma {:induction false} DoubleStays(s: string)
    requires '<' !in s && '-' !in s
    ensures ModeAfter(Double(0), s) == Double(0)
  {
    if s != [] {
      assert s[0] in s;
      DoubleStays(s[1..]);
    }
  }

  lemma {:induction false} NoClosing(text: string)
    requires '/' !in text
    ensures FindClosing(text, "script").NotFound?
  {
    if text != [] {
      NoClosing(text[1..]);
      assert |text| > 1 ==> text[1] in text;
    }
  }

  /** The writer escapes what is raw text to a parser. */
  lemma UnknownRawTextIsLost()
    ensures var root := Element("iframe", [], [Text("<")], false);
      Ok(root) && EncodeDocument(root).Some? && ParseDocument(EncodeDocument(root).value) != Some(FlatNode(root)[0])
  {
    OneText("<", false);
    EscapedRawBody(Element("iframe", [], [Text("<")], false));
    PlainElement("iframe", [Text("<")], false);
  }

  lemma EscapedRawBody(n: Html)
    requires n.Element? && n.tag == "iframe" && Ok(n) && n.children == [Text("<")] && !n.preSpan
    requires EncodeAll(n.children, false) == EncodeText("<", false)
    ensures EncodeBody(n).Some? && !BodySurvives(n)
  {
    OneChar('<', false);
    assert '<' in n.children[0].text && n.children[0] in n.children;
  }
}
