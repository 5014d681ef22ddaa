/** The HTML writer, without pretty printing. */
module Encoder {
  import opened Options
  import opened Charsets

  datatype Attr = Attr(name: string, value: string)

  datatype Html =
    | Tag
    | Text(text: string)
    | Element(tag: string, attrs: seq<Attr>, children: seq<Html>, preSpan: bool)

  predicate IsVoid(tag: string) {
    tag in ["area", "base", "br", "col", "embed", "hr", "img", "input", "link", "meta", "source", "track", "wbr"]
  }

  /** Foreign elements whose tag is self-closing. */
  predicate IsSelfClosing(tag: string) { tag == "mprescripts" || tag == "mspace" }

  predicate IsRaw(tag: string) { tag == "script" || tag == "style" }

  predicate IsEscapableRaw(tag: string) { tag == "textarea" || tag == "title" }

  predicate DropsNewline(tag: string) { tag == "pre" || tag == "textarea" }

  /** Whether the first text is a newline, tags aside. */
  predicate StartsWithNewline(children: seq<Html>) {
    children != [] &&
    match children[0]
    case Tag => StartsWithNewline(children[1..])
    case Text(t) => t != [] && (t[0] == '\n' || t[0] == '\r')
    case Element(_, _, _, _) => false
  }

  // ----- The written form -----

  function EncodeChar(c: char, escape: bool): Option<string> {
    if escape || !ValidInText(c) then Escape(c) else Some([c])
  }

  function EncodeText(t: string, escape: bool): Option<string> {
    if t == [] then Some([])
    else
      var s :- EncodeChar(t[0], escape);
      var rest :- EncodeText(t[1..], escape);
      Some(s + rest)
  }

  function EncodeValueChar(c: char): Option<string> {
    if ValidInAttributeValue(c) then Some([c]) else Escape(c)
  }

  function EncodeValue(v: string): Option<string> {
    if v == [] then Some([])
    else
      var s :- EncodeValueChar(v[0]);
      var rest :- EncodeValue(v[1..]);
      Some(s + rest)
  }

  /** An empty value uses the short form. */
  function EncodeAttr(a: Attr): Option<string> {
    if a.value == [] then Some(" " + a.name)
    else
      var v :- EncodeValue(a.value);
      Some(" " + a.name + "=\"" + v + "\"")
  }

  function EncodeAttrs(attrs: seq<Attr>): Option<string> {
    if attrs == [] then Some([])
    else
      var s :- EncodeAttr(attrs[0]);
      var rest :- EncodeAttrs(attrs[1..]);
      Some(s + rest)
  }

  /** The texts of an element without element children. */
  function RawText(children: seq<Html>): Option<string> {
    if children == [] then Some([])
    else
      var rest :- RawText(children[1..]);
      match children[0]
      case Tag => Some(rest)
      case Text(t) => Some(t + rest)
      case Element(_, _, _, _) => None
  }

  function Lower(c: char): char {
    if 'A' <= c <= 'Z' then 'a' + (c - 'A') else c
  }

  predicate EqualsIgnoringCase(a: string, b: string) {
    |a| == |b| && forall i :: 0 <= i < |a| ==> Lower(a[i]) == Lower(b[i])
  }

  predicate EndsTagName(c: char) {
    c == '\t' || c == '\n' || c as int == 0x0C || c == '\r' || c == ' ' || c == '>' || c == '/'
  }

  /** An end tag for `tag`, in any case, at the start of the text. */
  predicate ClosesAt(text: string, tag: string) {
    && |text| > 2 + |tag| && text[0] == '<' && text[1] == '/'
    && EqualsIgnoringCase(text[2..2 + |tag|], tag)
    && EndsTagName(text[2 + |tag|])
  }

  predicate ContainsClosing(text: string, tag: string) {
    text != [] && (ClosesAt(text, tag) || ContainsClosing(text[1..], tag))
  }

  /** The number of bytes of a character in UTF-8. */
  function Bytes(c: char): nat {
    if c as int < 0x80 then 1 else if c as int < 0x800 then 2 else if c as int < 0x1_0000 then 3 else 4
  }

  /** The byte index `n` is in the middle of a character. */
  predicate SplitsChar(text: string, n: nat) {
    text != [] && n > 0 && (n < Bytes(text[0]) || SplitsChar(text[1..], n - Bytes(text[0])))
  }

  /** After `</` as many bytes are cut off as the tag has; the cut must not split a character. */
  predicate PanicsAt(text: string, tag: string) {
    |text| > 2 && text[0] == '<' && text[1] == '/' && SplitsChar(text[2..], |tag|)
  }

  datatype Search = NotFound | Found | Panics

  /** The search for a closing tag, which goes on to the first hit. */
  function FindClosing(text: string, tag: string): Search {
    if text == [] then NotFound
    else if PanicsAt(text, tag) then Panics
    else if ClosesAt(text, tag) then Found
    else FindClosing(text[1..], tag)
  }

  function StartTag(tag: string, attrs: seq<Attr>): Option<string> {
    var a :- EncodeAttrs(attrs);
    Some("<" + tag + a + (if IsSelfClosing(tag) then "/" else "") + ">")
  }

  function EndTag(tag: string): string { "</" + tag + ">" }

  /** `None` where encoding fails or panics. */
  function Encode(n: Html, escape: bool): Option<string>
    decreases n, 1
  {
    match n
    case Tag => Some([])
    case Text(t) => EncodeText(t, escape)
    case Element(tag, attrs, children, _) =>
      var start :- StartTag(tag, attrs);
      if IsVoid(tag) || IsSelfClosing(tag) then
        if children == [] then Some(start) else None
      else
        var newline := if DropsNewline(tag) && StartsWithNewline(children) then "\n" else "";
        var body :- EncodeBody(n);
        Some(start + newline + body + EndTag(tag))
  }

  function EncodeBody(n: Html): Option<string>
    requires n.Element?
    decreases n, 0
  {
    if IsRaw(n.tag) then
      var text :- RawText(n.children);
      if (forall c <- text :: IsTextChar(c)) && FindClosing(text, n.tag).NotFound? then Some(text) else None
    else if IsEscapableRaw(n.tag) then
      var text :- RawText(n.children);
      EncodeText(text, false)
    else EncodeAll(n.children, n.preSpan)
  }

  function EncodeAll(ns: seq<Html>, escape: bool): Option<string>
    decreases ns, 0
  {
    if ns == [] then Some([])
    else
      var s :- Encode(ns[0], escape);
      var rest :- EncodeAll(ns[1..], escape);
      Some(s + rest)
  }

  /** The encoding of a document. */
  function EncodeDocument(root: Html): Option<string> {
    var s :- Encode(root, false);
    Some("<!DOCTYPE html>" + s)
  }

  // ----- The search for a closing tag -----

  /** Up to the first hit, no cut may split a character. */
  ghost predicate PanicsBefore(text: string, tag: string, i: nat) {
    i < |text| && PanicsAt(text[i..], tag) && forall j :: 0 <= j < i ==> !ClosesAt(text[j..], tag)
  }

  /** Exactly when the search panics, and that it finds every closing tag otherwise. */
  lemma {:induction false} SearchPanicsIff(text: string, tag: string)
    ensures FindClosing(text, tag).Panics? <==> exists i: nat :: PanicsBefore(text, tag, i)
    ensures FindClosing(text, tag).NotFound? ==> !ContainsClosing(text, tag)
    ensures FindClosing(text, tag).Found? ==> ContainsClosing(text, tag)
  {
    if text != [] {
      assert text[0..] == text;
      SearchPanicsIff(text[1..], tag);
      if PanicsAt(text, tag) {
        assert PanicsBefore(text, tag, 0);
      } else {
        if i: nat :| PanicsBefore(text[1..], tag, i) && !ClosesAt(text, tag) {
          PanicsLater(text, tag, i);
        }
        if i: nat :| PanicsBefore(text, tag, i) {
          assert !ClosesAt(text[0..], tag);
          PanicsEarlier(text, tag, i);
        }
      }
    }
  }

  lemma PanicsLater(text: string, tag: string, i: nat)
    requires text != [] && PanicsBefore(text[1..], tag, i) && !ClosesAt(text, tag)
    ensures PanicsBefore(text, tag, i + 1)
  {
    assert text[i + 1..] == text[1..][i..] && text[0..] == text;
    forall j | 0 <= j < i + 1 ensures !ClosesAt(text[j..], tag) {
      if j > 0 {
        assert text[j..] == text[1..][j - 1..];
      }
    }
  }

  lemma PanicsEarlier(text: string, tag: string, i: nat)
    requires text != [] && PanicsBefore(text, tag, i) && !PanicsAt(text, tag)
    ensures i > 0 && PanicsBefore(text[1..], tag, i - 1)
  {
    assert text[0..] == text;
    assert text[i..] == text[1..][i - 1..];
    forall j | 0 <= j < i - 1 ensures !ClosesAt(text[1..][j..], tag) {
      assert text[1..][j..] == text[j + 1..];
    }
  }

  /** Text in ASCII is searched to the end. */
  lemma {:induction false} AsciiNeverPanics(text: string, tag: string)
    requires forall i :: 0 <= i < |text| ==> text[i] as int < 0x80
    ensures FindClosing(text, tag) == if ContainsClosing(text, tag) then Found else NotFound
  {
    if text != [] {
      AsciiNeverPanics(text[1..], tag);
      if |text| > 2 {
        AsciiIsWhole(text[2..], |tag|);
      }
    }
  }

  lemma {:induction false} AsciiIsWhole(text: string, n: nat)
    requires forall i :: 0 <= i < |text| ==> text[i] as int < 0x80
    ensures !SplitsChar(text, n)
  {
    if text != [] && n > 0 {
      AsciiIsWhole(text[1..], n - 1);
    }
  }

  /** A style sheet with a euro sign where the tag should end: there is no closing tag, but the search panics. */
  lemma EuroSignPanics(text: string)
    requires text == "</styl\U{20AC}"
    ensures FindClosing(text, "style").Panics? && !ContainsClosing(text, "style")
  {
    var rest := text[2..];
    assert rest == "styl\U{20AC}" && rest[4] == '\U{20AC}';
    assert SplitsChar(rest[4..], 1);
    SplitsLater(rest, 4, 5);
    ShortNeverCloses(text, "style");
  }

  lemma {:induction false} SplitsLater(text: string, k: nat, n: nat)
    requires k <= |text| && k <= n && SplitsChar(text[k..], n - k)
    requires forall i :: 0 <= i < k ==> text[i] as int < 0x80
    ensures SplitsChar(text, n)
    decreases k
  {
    if k == 0 {
      assert text[0..] == text;
    } else {
      assert text[k..] == text[1..][k - 1..];
      SplitsLater(text[1..], k - 1, n - 1);
    }
  }

  lemma {:induction false} ShortNeverCloses(text: string, tag: string)
    requires |text| <= 2 + |tag|
    ensures !ContainsClosing(text, tag)
  {
    if text != [] {
      ShortNeverCloses(text[1..], tag);
    }
  }

  function Joined(s: string, rest: Option<string>): Option<string> {
    var r :- rest;
    Some(s + r)
  }

  lemma JoinedNothing(rest: Option<string>)
    ensures Joined([], rest) == rest
  {
    if rest.Some? {
      assert [] + rest.value == rest.value;
    }
  }

  lemma JoinedTwice(w: string, s: string, rest: Option<string>)
    ensures Joined(w, Joined(s, rest)) == Joined(w + s, rest)
  {
    if rest.Some? {
      assert w + (s + rest.value) == (w + s) + rest.value;
    }
  }

  lemma NextChar(t: string, i: nat, escape: bool)
    requires i < |t|
    ensures EncodeText(t[i..], escape) == var s :- EncodeChar(t[i], escape); Joined(s, EncodeText(t[i + 1..], escape))
  {
    assert t[i..][0] == t[i] && t[i..][1..] == t[i + 1..];
  }

  lemma NextValueChar(v: string, i: nat)
    requires i < |v|
    ensures EncodeValue(v[i..]) == var s :- EncodeValueChar(v[i]); Joined(s, EncodeValue(v[i + 1..]))
  {
    assert v[i..][0] == v[i] && v[i..][1..] == v[i + 1..];
  }

  lemma NextNode(ns: seq<Html>, i: nat, escape: bool, w: string)
    requires i < |ns|
    ensures Joined(w, EncodeAll(ns[i..], escape))
         == var s :- Encode(ns[i], escape); Joined(w + s, EncodeAll(ns[i + 1..], escape))
  {
    assert ns[i..][0] == ns[i] && ns[i..][1..] == ns[i + 1..];
    var s := Encode(ns[i], escape);
    if s.Some? {
      JoinedTwice(w, s.value, EncodeAll(ns[i + 1..], escape));
    }
  }

  // ----- The writer -----

  class Writer {
    var buf: string

    constructor ()
      ensures buf == ""
    {
      buf := "";
    }

    /** `ok` and the written form, or an error. */
    ghost predicate Wrote(was: string, s: Option<string>, ok: bool)
      reads this
    {
      ok == s.Some? && (ok ==> buf == was + s.value)
    }

    method WriteEscape(c: char) returns (ok: bool)
      modifies this
      ensures Wrote(old(buf), Escape(c), ok)
    {
      var s := Escape(c);
      ok := s.Some?;
      if ok {
        buf := buf + s.value;
      }
    }

    method WriteText(t: string, escape: bool) returns (ok: bool)
      modifies this
      ensures Wrote(old(buf), EncodeText(t, escape), ok)
    {
      ok := true;
      var i := 0;
      ghost var w: string := [];
      assert t[0..] == t;
      JoinedNothing(EncodeText(t, escape));
      while i < |t| && ok
        invariant 0 <= i <= |t|
        invariant ok ==> buf == old(buf) + w && EncodeText(t, escape) == Joined(w, EncodeText(t[i..], escape))
        invariant !ok ==> EncodeText(t, escape) == None
        decreases |t| - i, ok
      {
        NextChar(t, i, escape);
        if escape || !ValidInText(t[i]) {
          ok := WriteEscape(t[i]);
        } else {
          buf := buf + [t[i]];
        }
        if ok {
          JoinedTwice(w, EncodeChar(t[i], escape).value, EncodeText(t[i + 1..], escape));
          w := w + EncodeChar(t[i], escape).value;
          i := i + 1;
        }
      }
    }

    method WriteValue(v: string) returns (ok: bool)
      modifies this
      ensures Wrote(old(buf), EncodeValue(v), ok)
    {
      ok := true;
      var i := 0;
      ghost var w: string := [];
      assert v[0..] == v;
      JoinedNothing(EncodeValue(v));
      while i < |v| && ok
        invariant 0 <= i <= |v|
        invariant ok ==> buf == old(buf) + w && EncodeValue(v) == Joined(w, EncodeValue(v[i..]))
        invariant !ok ==> EncodeValue(v) == None
        decreases |v| - i, ok
      {
        NextValueChar(v, i);
        if ValidInAttributeValue(v[i]) {
          buf := buf + [v[i]];
        } else {
          ok := WriteEscape(v[i]);
        }
        if ok {
          JoinedTwice(w, EncodeValueChar(v[i]).value, EncodeValue(v[i + 1..]));
          w := w + EncodeValueChar(v[i]).value;
          i := i + 1;
        }
      }
    }

    method WriteAttr(a: Attr) returns (ok: bool)
      modifies this
      ensures Wrote(old(buf), EncodeAttr(a), ok)
    {
      buf := buf + " " + a.name;
      ok := true;
      if a.value != [] {
        buf := buf + "=\"";
        ok := WriteValue(a.value);
        buf := buf + "\"";
      }
    }

    method WriteAttrs(attrs: seq<Attr>) returns (ok: bool)
      modifies this
      ensures Wrote(old(buf), EncodeAttrs(attrs), ok)
    {
      for i := 0 to |attrs|
        invariant match EncodeAttrs(attrs[i..])
                  case None => EncodeAttrs(attrs) == None
                  case Some(rest) => EncodeAttrs(attrs).Some? && buf + rest == old(buf) + EncodeAttrs(attrs).value
      {
        assert attrs[i..][0] == attrs[i] && attrs[i..][1..] == attrs[i + 1..];
        ok := WriteAttr(attrs[i]);
        if !ok {
          return;
        }
      }
      ok := true;
    }

    method WriteNode(n: Html, escape: bool) returns (ok: bool)
      modifies this
      ensures Wrote(old(buf), Encode(n, escape), ok)
      decreases n, 2
    {
      match n {
        case Tag => ok := true;
        case Text(t) => ok := WriteText(t, escape);
        case Element(_, _, _, _) => ok := WriteElement(n);
      }
    }

    method WriteElement(n: Html) returns (ok: bool)
      requires n.Element?
      modifies this
      ensures Wrote(old(buf), Encode(n, false), ok)
      decreases n, 1
    {
      ok := WriteStart(n.tag, n.attrs);
      if !ok {
        return;
      }
      if IsVoid(n.tag) || IsSelfClosing(n.tag) {
        return n.children == [];
      }
      if DropsNewline(n.tag) && StartsWithNewline(n.children) {
        buf := buf + "\n";
      }
      ok := WriteBody(n);
      buf := buf + "</" + n.tag + ">";
    }

    method WriteStart(tag: string, attrs: seq<Attr>) returns (ok: bool)
      modifies this
      ensures Wrote(old(buf), StartTag(tag, attrs), ok)
    {
      buf := buf + "<" + tag;
      ok := WriteAttrs(attrs);
      if !ok {
        return;
      }
      if IsSelfClosing(tag) {
        buf := buf + "/";
      }
      buf := buf + ">";
    }

    method WriteBody(n: Html) returns (ok: bool)
      requires n.Element?
      modifies this
      ensures Wrote(old(buf), EncodeBody(n), ok)
      decreases n, 0
    {
      if IsRaw(n.tag) {
        var text := RawText(n.children);
        ok := text.Some? && (forall c <- text.value :: IsTextChar(c)) && FindClosing(text.value, n.tag).NotFound?;
        if ok {
          buf := buf + text.value;
        }
      } else if IsEscapableRaw(n.tag) {
        var text := RawText(n.children);
        if text.None? {
          return false;
        }
        ok := WriteText(text.value, false);
      } else {
        ok := WriteChildren(n.children, n.preSpan);
      }
    }

    method WriteChildren(ns: seq<Html>, escape: bool) returns (ok: bool)
      modifies this
      ensures Wrote(old(buf), EncodeAll(ns, escape), ok)
      decreases ns, 0
    {
      ghost var w, whole := "", EncodeAll(ns, escape);
      assert ns[0..] == ns;
      JoinedNothing(whole);
      for i := 0 to |ns|
        invariant buf == old(buf) + w && whole == Joined(w, EncodeAll(ns[i..], escape))
      {
        NextNode(ns, i, escape, w);
        ghost var s;
        ok, s := WriteChild(ns[i], escape, w, EncodeAll(ns[i + 1..], escape), whole);
        if !ok {
          return;
        }
        w := w + s;
      }
      ok := true;
    }

    /** Writes one of several children; `w` is what was written of them. */
    method WriteChild(n: Html, escape: bool, ghost w: string, ghost rest: Option<string>, ghost whole: Option<string>)
      returns (ok: bool, ghost s: string)
      requires whole == var s :- Encode(n, escape); Joined(w + s, rest)
      modifies this
      ensures ok ==> buf == old(buf) + s && whole == Joined(w + s, rest)
      ensures !ok ==> whole == None
      decreases n, 3
    {
      ok := WriteNode(n, escape);
      s := if ok then Encode(n, escape).value else "";
    }
  }

  /** Encodes a document. */
  method EncodeHtml(root: Html) returns (r: Option<string>)
    requires root.Element?
    ensures r == EncodeDocument(root)
  {
    var w := new Writer();
    w.buf := w.buf + "<!DOCTYPE html>";
    assert w.buf == "<!DOCTYPE html>";
    var ok := w.WriteElement(root);
    r := if ok then Some(w.buf) else None;
  }
}
