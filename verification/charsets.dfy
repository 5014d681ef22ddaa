/** Syntactical properties of HTML tags, attributes and text, and character references. */
module Charsets {
  import opened Options

  predicate IsLetter(c: char) { 'a' <= c <= 'z' || 'A' <= c <= 'Z' }

  predicate IsDigit(c: char) { '0' <= c <= '9' }

  predicate ValidInTagName(c: char) { IsLetter(c) || IsDigit(c) || c == '-' }

  predicate IsNonChar(c: char) {
    0xFDD0 <= c as int <= 0xFDEF || c as int % 0x10000 >= 0xFFFE
  }

  predicate IsControl(c: char) {
    c as int <= 0x1F || 0x7F <= c as int <= 0x9F
  }

  /** Tab, line feed, form feed, carriage return and space. */
  predicate IsWhitespace(c: char) {
    c == '\t' || c == '\n' || c as int == 0x0C || c == '\r' || c == ' '
  }

  predicate IsTextChar(c: char) {
    if IsNonChar(c) then false else if IsControl(c) then IsWhitespace(c) else true
  }

  predicate ValidInAttributeName(c: char) {
    && c as int != 0 && c != ' ' && c != '"' && c != '\'' && c != '>' && c != '/' && c != '='
    && !IsControl(c) && !IsNonChar(c)
  }

  predicate ValidInAttributeValue(c: char) { c != '&' && c != '"' && IsTextChar(c) }

  predicate ValidInText(c: char) { c != '&' && c != '<' && IsTextChar(c) }

  // ----- Writing character references -----

  function HexDigit(d: nat): (c: char)
    requires d < 16
    ensures IsHex(c) && HexValue(c) == d
  {
    if d < 10 then '0' + d as char else 'a' + (d - 10) as char
  }

  function Hex(n: nat): string {
    if n < 16 then [HexDigit(n)] else Hex(n / 16) + [HexDigit(n % 16)]
  }

  /** The reference for a character that cannot be written as it is; some cannot be written at all. */
  function Escape(c: char): Option<string> {
    match c
    case '&' => Some("&amp;")
    case '<' => Some("&lt;")
    case '>' => Some("&gt;")
    case '"' => Some("&quot;")
    case '\'' => Some("&apos;")
    case _ => if IsTextChar(c) && c != '\r' then Some("&#x" + Hex(c as int) + ";") else None
  }

  // ----- Reading character references -----

  predicate IsHex(c: char) { IsDigit(c) || 'a' <= c <= 'f' || 'A' <= c <= 'F' }

  function HexValue(c: char): nat
    requires IsHex(c)
  {
    if IsDigit(c) then (c - '0') as nat
    else if 'a' <= c then 10 + (c - 'a') as nat
    else 10 + (c - 'A') as nat
  }

  function ReadHex(s: string, acc: nat): (r: (nat, string))
    ensures |r.1| <= |s|
  {
    if s != [] && IsHex(s[0]) then ReadHex(s[1..], 16 * acc + HexValue(s[0])) else (acc, s)
  }

  predicate IsScalar(n: nat) { n < 0xD800 || 0xE000 <= n <= 0x10FFFF }

  /**
   A named or hexadecimal reference at the start of `s`. References to characters that HTML replaces
   or forbids are refused.
   */
  function ReadReference(s: string): (r: Option<(char, string)>)
    ensures r.Some? ==> |r.value.1| < |s|
  {
    if "&amp;" <= s then Some(('&', s[5..]))
    else if "&lt;" <= s then Some(('<', s[4..]))
    else if "&gt;" <= s then Some(('>', s[4..]))
    else if "&quot;" <= s then Some(('"', s[6..]))
    else if "&apos;" <= s then Some(('\'', s[6..]))
    else if "&#x" <= s && |s| > 3 && IsHex(s[3]) then
      var (n, rest) := ReadHex(s[3..], 0);
      if rest != [] && rest[0] == ';' && IsScalar(n) && IsTextChar(n as char) && n as char != '\r'
      then Some((n as char, rest[1..]))
      else None
    else None
  }

  lemma {:induction false} HexReadsBack(n: nat, t: string)
    ensures Hex(n) != [] && IsHex(Hex(n)[0])
    ensures ReadHex(Hex(n) + t, 0) == ReadHex(t, n)
  {
    if n < 16 {
      assert ([HexDigit(n)] + t)[1..] == t;
    } else {
      HexReadsBack(n / 16, [HexDigit(n % 16)] + t);
      assert Hex(n) + t == Hex(n / 16) + ([HexDigit(n % 16)] + t);
      assert ([HexDigit(n % 16)] + t)[1..] == t;
    }
  }

  /** Every reference that is written is read back as the same character. */
  lemma EscapeReadsBack(c: char, t: string)
    requires Escape(c).Some?
    ensures Escape(c).value != [] && Escape(c).value[0] == '&'
    ensures ReadReference(Escape(c).value + t) == Some((c, t))
  {
    var e := Escape(c).value;
    var s := e + t;
    assert s[|e|..] == t && e <= s;
    if c != '&' && c != '<' && c != '>' && c != '"' && c != '\'' {
      var n := c as int;
      var h := Hex(n);
      HexReadsBack(n, ";" + t);
      assert s == "&#x" + (h + (";" + t));
      assert s[3..] == h + (";" + t);
      assert s[1] == '#';
      assert (";" + t)[1..] == t;
      assert ReadHex(";" + t, n) == (n, ";" + t);
    } else {
      assert s[1] == e[1] && s[2] == e[2];
    }
  }
}
