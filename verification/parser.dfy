/**
 A parser for documents after sections 13.2.5 and 13.2.6 of the HTML Standard, as far as it can be told
 from the syntax: names, attributes, character references, raw text and script data are read as the
 Standard says, and elements are nested by their tags alone.
 */
module HtmlParser {
  import opened Options
  import opened Charsets
  import opened Encoder

  /** A parsed document; adjacent text nodes are not told apart. */
  datatype Dom = DChar(c: char) | DElement(tag: string, attrs: seq<Attr>, children: seq<Dom>)

  function DChars(s: string): seq<Dom> {
    if s == [] then [] else [DChar(s[0])] + DChars(s[1..])
  }

  function LowerName(name: string): (lower: string)
    ensures |lower| == |name| && forall i :: 0 <= i < |name| ==> lower[i] == Lower(name[i])
  {
    seq(|name|, i requires 0 <= i < |name| => Lower(name[i]))
  }

  // ----- Parsing tags -----

  function SkipSpace(s: string): (r: string)
    ensures |r| <= |s| && (r != [] ==> !IsWhitespace(r[0]))
  {
    if s != [] && IsWhitespace(s[0]) then SkipSpace(s[1..]) else s
  }

  /** Names are read in lower case. */
  function ReadTagName(s: string): (r: (string, string))
    ensures |r.1| <= |s|
  {
    if s == [] || IsWhitespace(s[0]) || s[0] == '/' || s[0] == '>' then ([], s)
    else
      var (name, rest) := ReadTagName(s[1..]);
      ([Lower(s[0])] + name, rest)
  }

  function ReadAttrName(s: string): (r: (string, string))
    ensures |r.1| <= |s| && (r.0 != [] ==> |r.1| < |s|)
  {
    if s == [] || IsWhitespace(s[0]) || s[0] == '/' || s[0] == '>' || s[0] == '=' then ([], s)
    else
      var (name, rest) := ReadAttrName(s[1..]);
      ([Lower(s[0])] + name, rest)
  }

  /** A value up to its closing double quote. */
  function ReadValue(s: string): (r: Option<(string, string)>)
    ensures r.Some? ==> |r.value.1| < |s|
    decreases |s|
  {
    if s == [] then None
    else if s[0] == '"' then Some(([], s[1..]))
    else if s[0] == '&' then
      var (c, t) :- ReadReference(s);
      var (v, rest) :- ReadValue(t);
      Some(([c] + v, rest))
    else
      var (v, rest) :- ReadValue(s[1..]);
      Some(([s[0]] + v, rest))
  }

  /** The attributes, whether the tag is self-closing, and what follows the tag. */
  function ReadAttrs(s: string): (r: Option<(seq<Attr>, bool, string)>)
    ensures r.Some? ==> |r.value.2| < |s|
    decreases |s|
  {
    var t := SkipSpace(s);
    if t == [] then None
    else if t[0] == '>' then Some(([], false, t[1..]))
    else if t[0] == '/' then
      if |t| > 1 && t[1] == '>' then Some(([], true, t[2..])) else ReadAttrs(t[1..])
    else
      var (name, u) := ReadAttrName(t);
      if name == [] then None
      else
        var w := SkipSpace(u);
        if w != [] && w[0] == '=' then
          var v := SkipSpace(w[1..]);
          if v == [] || v[0] != '"' then None
          else
            var (value, after) :- ReadValue(v[1..]);
            var (attrs, selfClosing, rest) :- ReadAttrs(after);
            Some(([Attr(name, value)] + attrs, selfClosing, rest))
        else
          var (attrs, selfClosing, rest) :- ReadAttrs(u);
          Some(([Attr(name, "")] + attrs, selfClosing, rest))
  }

  /** Of attributes with the same name, the first counts. */
  function FirstOnes(attrs: seq<Attr>): seq<Attr> {
    if attrs == [] then []
    else
      var n := |attrs| - 1;
      var first := FirstOnes(attrs[..n]);
      if HasName(attrs[..n], attrs[n].name) then first else first + [attrs[n]]
  }

  predicate HasName(attrs: seq<Attr>, name: string) {
    exists a <- attrs :: a.name == name
  }

  // ----- Parsing content -----

  /** Elements with raw text; scripting is enabled. */
  predicate ReadsRaw(tag: string) {
    tag in ["style", "xmp", "iframe", "noembed", "noframes", "noscript"]
  }

  /** A newline directly after the start tag is ignored in these elements. */
  predicate IgnoresNewline(tag: string) {
    tag == "pre" || tag == "listing" || tag == "textarea"
  }

  /** Raw text stops at the first matching end tag (section 13.2.5.3). */
  function ReadRaw(s: string, tag: string): (r: (string, string))
    ensures |r.1| <= |s|
  {
    if s == [] || ClosesAt(s, tag) then ([], s)
    else
      var (text, rest) := ReadRaw(s[1..], tag);
      ([s[0]] + text, rest)
  }

  /** Script data is escaped by a comment and escaped twice by a script in it; `dashes` counts up to two. */
  datatype Mode = Data | Escaped(dashes: nat) | Double(dashes: nat)

  /** The start of a script within a script. */
  predicate OpensScript(s: string) {
    |s| > 7 && s[0] == '<' && EqualsIgnoringCase(s[1..7], "script") && EndsTagName(s[7])
  }

  function Dashes(dashes: nat, c: char): nat {
    if c != '-' then 0 else if dashes < 2 then dashes + 1 else 2
  }

  /** The state after the first character (sections 13.2.5.15 to 13.2.5.31). */
  function NextMode(m: Mode, s: string): Mode
    requires s != []
  {
    match m
    case Data => if "<!--" <= s then Escaped(0) else Data
    case Escaped(d) =>
      if s[0] == '>' && d == 2 then Data else if OpensScript(s) then Double(0) else Escaped(Dashes(d, s[0]))
    case Double(d) =>
      if s[0] == '>' && d == 2 then Data
      else if ClosesAt(s, "script") then Escaped(0) else Double(Dashes(d, s[0]))
  }

  /** Script data stops at the first end tag that is not escaped twice. */
  function ReadScript(s: string, m: Mode): (r: (string, string))
    ensures |r.1| <= |s|
    decreases |s|
  {
    if s == [] || (ClosesAt(s, "script") && !m.Double?) then ([], s)
    else
      var (text, rest) := ReadScript(s[1..], NextMode(m, s));
      ([s[0]] + text, rest)
  }

  /** Escapable raw text additionally resolves references. */
  function ReadEscapable(s: string, tag: string): (r: Option<(string, string)>)
    ensures r.Some? ==> |r.value.1| <= |s|
    decreases |s|
  {
    if s == [] || ClosesAt(s, tag) then Some(([], s))
    else if s[0] == '&' then
      var (c, t) :- ReadReference(s);
      var (text, rest) :- ReadEscapable(t, tag);
      Some(([c] + text, rest))
    else
      var (text, rest) :- ReadEscapable(s[1..], tag);
      Some(([s[0]] + text, rest))
  }

  function Close(s: string, tag: string): (r: Option<string>)
    ensures r.Some? ==> |r.value| <= |s|
  {
    if ClosesAt(s, tag) && s[2 + |tag|] == '>' then Some(s[3 + |tag|..]) else None
  }

  function DropNewline(s: string, tag: string): (r: string)
    ensures |r| <= |s|
  {
    if IgnoresNewline(tag) && s != [] && s[0] == '\n' then s[1..] else s
  }

  function ParseElement(s: string): (r: Option<(Dom, string)>)
    requires s != [] && s[0] == '<'
    ensures r.Some? ==> |r.value.1| < |s| && r.value.0.DElement?
    decreases |s|, 0
  {
    if |s| < 2 || !IsLetter(s[1]) then None
    else
      var (tag, t) := ReadTagName(s[1..]);
      var (attrs, selfClosing, after) :- ReadAttrs(t);
      if IsVoid(tag) || (IsSelfClosing(tag) && selfClosing) then Some((DElement(tag, FirstOnes(attrs), []), after))
      else
        var (children, r) :- ParseBody(tag, after);
        var rest :- Close(r, tag);
        Some((DElement(tag, FirstOnes(attrs), children), rest))
  }

  /** The contents of an element, up to its end tag. */
  function ParseBody(tag: string, s: string): (r: Option<(seq<Dom>, string)>)
    ensures r.Some? ==> |r.value.1| <= |s|
    decreases |s|, 2
  {
    if ReadsRaw(tag) then
      var (text, r) := ReadRaw(s, tag);
      Some((DChars(text), r))
    else if tag == "script" then
      var (text, r) := ReadScript(s, Data);
      Some((DChars(text), r))
    else if tag == "plaintext" then None  // its text never ends
    else if IsEscapableRaw(tag) then
      var (text, r) :- ReadEscapable(DropNewline(s, tag), tag);
      Some((DChars(text), r))
    else ParseAll(DropNewline(s, tag))
  }

  /** Content up to an end tag or the end of input. */
  function ParseAll(s: string): (r: Option<(seq<Dom>, string)>)
    ensures r.Some? ==> |r.value.1| <= |s|
    decreases |s|, 1
  {
    if s == [] then Some(([], []))
    else if s[0] == '<' then
      if |s| > 1 && s[1] == '/' then Some(([], s))
      else
        var (e, t) :- ParseElement(s);
        var (more, rest) :- ParseAll(t);
        Some(([e] + more, rest))
    else if s[0] == '&' then
      var (c, t) :- ReadReference(s);
      var (more, rest) :- ParseAll(t);
      Some(([DChar(c)] + more, rest))
    else
      var (more, rest) :- ParseAll(s[1..]);
      Some(([DChar(s[0])] + more, rest))
  }

  /** Newlines in the input are normalised first: CRLF and CR become LF. */
  function Normalize(s: string): string {
    if s == [] then []
    else if s[0] == '\r' then ['\n'] + Normalize(if |s| > 1 && s[1] == '\n' then s[2..] else s[1..])
    else [s[0]] + Normalize(s[1..])
  }

  /** Parses a whole document with a single root. */
  function ParseDocument(s: string): Option<Dom> {
    var t := Normalize(s);
    if "<!DOCTYPE html>" <= t && |t| > 15 && t[15] == '<' then
      var (root, rest) :- ParseElement(t[15..]);
      if rest == [] then Some(root) else None
    else None
  }
}
