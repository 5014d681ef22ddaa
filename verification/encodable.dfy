/** Which trees can be written at all. */
module Encodable {
  import opened Options
  import opened Charsets
  import opened Encoder

  // ----- What a document may hold -----

  /** Tab, line feed, form feed, carriage return, and everything else that is no control and no noncharacter. */
  predicate CharWritable(c: char) {
    var n := c as int;
    || n == 0x09 || n == 0x0A || n == 0x0C || n == 0x0D || 0x20 <= n <= 0x7E
    || (0xA0 <= n && n % 0x10000 < 0xFFFE && !(0xFDD0 <= n <= 0xFDEF))
  }

  /** No carriage return stands where texts are escaped: a reference to one is forbidden. */
  predicate TextWritable(t: string, escape: bool) {
    forall c <- t :: CharWritable(c) && (escape ==> c != '\r')
  }

  /** The void elements of section 13.1.2 of the HTML Standard, and two of MathML. */
  predicate Childless(tag: string) {
    tag in ["area", "base", "br", "col", "embed", "hr", "img", "input", "link", "meta", "source", "track", "wbr",
            "mprescripts", "mspace"]
  }

  predicate OnlyText(ns: seq<Html>) {
    forall n <- ns :: !n.Element?
  }

  function TextOf(ns: seq<Html>): string {
    if ns == [] then [] else (if ns[0].Text? then ns[0].text else []) + TextOf(ns[1..])
  }

  /** The same letter, or in another case. */
  predicate SameLetter(c: char, d: char) {
    c == d || (IsLetter(c) && IsLetter(d) && (c as int == d as int + 32 || d as int == c as int + 32))
  }

  /** An end tag at `i`. */
  predicate EndTagAt(text: string, tag: string, i: nat) {
    && i + 2 + |tag| < |text| && text[i] == '<' && text[i + 1] == '/'
    && (forall k :: 0 <= k < |tag| ==> SameLetter(text[i + 2 + k], tag[k]))
    && text[i + 2 + |tag|] in ['\t', '\n', '\U{0C}', '\r', ' ', '>', '/']
  }

  /** The length in UTF-8. */
  function ByteLength(text: string): nat {
    if text == [] then 0
    else
      var n := text[0] as int;
      (if n <= 0x7F then 1 else if n <= 0x7FF then 2 else if n <= 0xFFFF then 3 else 4) + ByteLength(text[1..])
  }

  /** The byte at `n` is within the character at `k`. */
  predicate Within(text: string, n: nat, k: nat) {
    k < |text| && ByteLength(text[..k]) < n < ByteLength(text[..k + 1])
  }

  ghost predicate CutsCharacter(text: string, n: nat) {
    exists k: nat :: Within(text, n, k)
  }

  /** At `i` is what an end tag begins with, but a character goes beyond where its name would end. */
  ghost predicate CutAt(text: string, tag: string, i: nat) {
    && i + 2 < |text| && text[i] == '<' && text[i + 1] == '/'
    && CutsCharacter(text[i + 2..], |tag|)
  }

  ghost predicate NodeWritable(n: Html, escape: bool)
    decreases n, 1
  {
    match n
    case Tag => true
    case Text(t) => TextWritable(t, escape)
    case Element(tag, attrs, children, _) =>
      && (forall a <- attrs :: TextWritable(a.value, false))
      && if Childless(tag) then children == [] else ContentsWritable(n)
  }

  ghost predicate ContentsWritable(n: Html)
    requires n.Element?
    decreases n, 0
  {
    if n.tag in ["script", "style"] then
      && OnlyText(n.children) && TextWritable(TextOf(n.children), false)
      && forall i: nat | i < |TextOf(n.children)| ::
           !EndTagAt(TextOf(n.children), n.tag, i) && !CutAt(TextOf(n.children), n.tag, i)
    else if n.tag in ["textarea", "title"] then OnlyText(n.children) && TextWritable(TextOf(n.children), false)
    else forall child <- n.children :: NodeWritable(child, n.preSpan)
  }

  // ----- Characters, texts and attributes -----

  lemma CharEncodes(c: char, escape: bool)
    ensures EncodeChar(c, escape).Some? <==> CharWritable(c) && (escape ==> c != '\r')
    ensures EncodeValueChar(c).Some? <==> CharWritable(c)
    ensures IsTextChar(c) <==> CharWritable(c)
  {
  }

  lemma {:induction false} TextEncodes(t: string, escape: bool)
    ensures EncodeText(t, escape).Some? <==> TextWritable(t, escape)
  {
    if t != [] {
      CharEncodes(t[0], escape);
      TextEncodes(t[1..], escape);
      assert forall c :: c in t <==> c == t[0] || c in t[1..];
    }
  }

  lemma {:induction false} ValueEncodes(v: string)
    ensures EncodeValue(v).Some? <==> TextWritable(v, false)
  {
    if v != [] {
      CharEncodes(v[0], false);
      ValueEncodes(v[1..]);
      assert forall c :: c in v <==> c == v[0] || c in v[1..];
    }
  }

  lemma {:induction false} AttrsEncode(attrs: seq<Attr>)
    ensures EncodeAttrs(attrs).Some? <==> forall a <- attrs :: TextWritable(a.value, false)
  {
    if attrs != [] {
      ValueEncodes(attrs[0].value);
      AttrsEncode(attrs[1..]);
      assert forall a :: a in attrs <==> a == attrs[0] || a in attrs[1..];
    }
  }

  // ----- What is written as it is -----

  lemma CharVerbatim(c: char)
    requires CharWritable(c)
    ensures EncodeChar(c, false) == Some([c]) <==> c != '&' && c != '<'
    ensures EncodeChar(c, false).Some? && |EncodeChar(c, false).value| >= 1
    ensures |EncodeChar(c, false).value| == 1 ==> EncodeChar(c, false) == Some([c])
    ensures EncodeValueChar(c) == Some([c]) <==> c != '&' && c != '"'
    ensures EncodeValueChar(c).Some? && |EncodeValueChar(c).value| >= 1
    ensures |EncodeValueChar(c).value| == 1 ==> EncodeValueChar(c) == Some([c])
  {
    CharEncodes(c, false);
  }

  /** References are used only where they have to be. */
  lemma {:induction false} TextVerbatimIff(t: string)
    requires TextWritable(t, false)
    ensures EncodeText(t, false).Some? && |EncodeText(t, false).value| >= |t|
    ensures |EncodeText(t, false).value| == |t| ==> EncodeText(t, false).value == t
    ensures EncodeText(t, false) == Some(t) <==> '&' !in t && '<' !in t
  {
    if t != [] {
      assert t[0] in t && forall c :: c in t <==> c == t[0] || c in t[1..];
      CharVerbatim(t[0]);
      TextVerbatimIff(t[1..]);
      assert t == [t[0]] + t[1..];
    }
  }

  lemma {:induction false} ValueVerbatimIff(v: string)
    requires TextWritable(v, false)
    ensures EncodeValue(v).Some? && |EncodeValue(v).value| >= |v|
    ensures |EncodeValue(v).value| == |v| ==> EncodeValue(v).value == v
    ensures EncodeValue(v) == Some(v) <==> '&' !in v && '"' !in v
  {
    if v != [] {
      assert v[0] in v && forall c :: c in v <==> c == v[0] || c in v[1..];
      CharVerbatim(v[0]);
      ValueVerbatimIff(v[1..]);
      assert v == [v[0]] + v[1..];
    }
  }

  // ----- Raw text -----

  lemma {:induction false} RawTextIs(ns: seq<Html>)
    ensures RawText(ns) == if OnlyText(ns) then Some(TextOf(ns)) else None
  {
    if ns != [] {
      RawTextIs(ns[1..]);
      assert [] + TextOf(ns[1..]) == TextOf(ns[1..]);
      assert forall n :: n in ns <==> n == ns[0] || n in ns[1..];
    }
  }

  lemma SameLower(c: char, d: char)
    ensures Lower(c) == Lower(d) <==> SameLetter(c, d)
  {
  }

  lemma ClosesIff(text: string, tag: string, i: nat)
    requires i <= |text|
    ensures ClosesAt(text[i..], tag) <==> EndTagAt(text, tag, i)
  {
    if i + 2 + |tag| < |text| {
      var s := text[i..];
      var name := s[2..2 + |tag|];
      assert forall k :: 0 <= k < |tag| ==> name[k] == text[i + 2 + k];
      forall k | 0 <= k < |tag| ensures Lower(name[k]) == Lower(tag[k]) <==> SameLetter(text[i + 2 + k], tag[k]) {
        SameLower(name[k], tag[k]);
      }
    }
  }

  lemma {:induction false} SplitsIff(text: string, n: nat)
    ensures SplitsChar(text, n) <==> CutsCharacter(text, n)
  {
    if text != [] && n > 0 {
      var b := Bytes(text[0]);
      assert text[..0] == [] && text[..1][0] == text[0] && text[..1][1..] == [];
      assert ByteLength(text[..1]) == b;
      if n < b {
        assert Within(text, n, 0);
      } else {
        var rest, m := text[1..], n - b;
        SplitsIff(rest, m);
        if k: nat :| Within(rest, m, k) {
          LengthNext(text, k);
          LengthNext(text, k + 1);
          assert Within(text, n, k + 1);
        }
        if k: nat :| Within(text, n, k) {
          LengthNext(text, k - 1);
          LengthNext(text, k);
          assert Within(rest, m, k - 1);
        }
      }
    }
  }

  lemma LengthNext(text: string, k: nat)
    requires k < |text|
    ensures ByteLength(text[..k + 1]) == Bytes(text[0]) + ByteLength(text[1..][..k])
  {
    assert text[..k + 1][0] == text[0] && text[..k + 1][1..] == text[1..][..k];
  }

  lemma PanicsIff(text: string, tag: string, i: nat)
    requires i <= |text|
    ensures PanicsAt(text[i..], tag) <==> CutAt(text, tag, i)
  {
    if i + 2 < |text| {
      assert text[i..][2..] == text[i + 2..];
      SplitsIff(text[i + 2..], |tag|);
    }
  }

  ghost predicate Quiet(text: string, tag: string, i: nat)
    requires i <= |text|
  {
    forall j: nat | i <= j < |text| :: !EndTagAt(text, tag, j) && !CutAt(text, tag, j)
  }

  /** The search finds nothing, and ends well, exactly when there is nothing that could stop it. */
  lemma {:induction false} SearchIsQuiet(text: string, tag: string, i: nat)
    requires i <= |text|
    ensures FindClosing(text[i..], tag).NotFound? <==> Quiet(text, tag, i)
    decreases |text| - i
  {
    if i < |text| {
      ClosesIff(text, tag, i);
      PanicsIff(text, tag, i);
      assert text[i..][1..] == text[i + 1..];
      SearchIsQuiet(text, tag, i + 1);
    }
  }

  // ----- Trees -----

  /** A document is encoded exactly when its tree is writable. */
  lemma EncodesIff(root: Html)
    ensures EncodeDocument(root).Some? <==> NodeWritable(root, false)
  {
    NodeEncodes(root, false);
  }

  lemma {:induction false} NodeEncodes(n: Html, escape: bool)
    ensures Encode(n, escape).Some? <==> NodeWritable(n, escape)
    decreases n, 2
  {
    match n
    case Tag =>
    case Text(t) => TextEncodes(t, escape);
    case Element(tag, attrs, children, _) =>
      AttrsEncode(attrs);
      KindsAgree(tag);
      if !Childless(tag) {
        ContentsEncode(n);
      }
  }

  lemma KindsAgree(tag: string)
    ensures Childless(tag) <==> IsVoid(tag) || IsSelfClosing(tag)
    ensures IsRaw(tag) <==> tag in ["script", "style"]
    ensures IsEscapableRaw(tag) <==> tag in ["textarea", "title"]
  {
  }

  lemma {:induction false} ContentsEncode(n: Html)
    requires n.Element?
    ensures EncodeBody(n).Some? <==> ContentsWritable(n)
    decreases n, 1
  {
    KindsAgree(n.tag);
    if IsRaw(n.tag) {
      RawEncodes(n);
    } else if IsEscapableRaw(n.tag) {
      RawTextIs(n.children);
      TextEncodes(TextOf(n.children), false);
    } else {
      ChildrenEncode(n.children, n.preSpan);
    }
  }

  lemma RawEncodes(n: Html)
    requires n.Element? && IsRaw(n.tag)
    ensures EncodeBody(n).Some? <==> ContentsWritable(n)
  {
    RawTextIs(n.children);
    var text := TextOf(n.children);
    forall c | c in text ensures IsTextChar(c) <==> CharWritable(c) {
      CharEncodes(c, false);
    }
    SearchIsQuiet(text, n.tag, 0);
    assert text[0..] == text;
  }

  lemma {:induction false} ChildrenEncode(ns: seq<Html>, escape: bool)
    ensures EncodeAll(ns, escape).Some? <==> forall n <- ns :: NodeWritable(n, escape)
    decreases ns, 0
  {
    if ns != [] {
      NodeEncodes(ns[0], escape);
      ChildrenEncode(ns[1..], escape);
      assert forall n :: n in ns <==> n == ns[0] || n in ns[1..];
    }
  }
}
