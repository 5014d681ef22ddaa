/** Trees that can be written, what they stand for, and which of them a parser can get back. */
module Survival {
  import opened Charsets
  import opened Encoder
  import opened HtmlParser

  /** The written tree without tags and with its texts merged. */
  function Flat(ns: seq<Html>): seq<Dom>
    decreases ns, 0
  {
    if ns == [] then [] else FlatNode(ns[0]) + Flat(ns[1..])
  }

  function FlatNode(n: Html): seq<Dom>
    decreases n, 0
  {
    match n
    case Tag => []
    case Text(t) => DChars(t)
    case Element(tag, attrs, children, _) => [DElement(tag, attrs, Flat(children))]
  }

  /** Names as they can be interned. */
  predicate NamesOk(tag: string, attrs: seq<Attr>) {
    tag != [] && (forall c <- tag :: ValidInTagName(c)) && forall a <- attrs :: AttrNameOk(a.name)
  }

  predicate AttrNameOk(name: string) { name != [] && forall c <- name :: ValidInAttributeName(c) }

  predicate Ok(n: Html)
    decreases n, 1
  {
    n.Element? ==> NamesOk(n.tag, n.attrs) && OkAll(n.children)
  }

  predicate OkAll(ns: seq<Html>)
    decreases ns, 0
  {
    ns != [] ==> Ok(ns[0]) && OkAll(ns[1..])
  }

  // ----- What every element has to satisfy -----

  function LowerAttr(a: Attr): Attr { Attr(LowerName(a.name), a.value) }

  function LowerAttrs(attrs: seq<Attr>): (lower: seq<Attr>)
    ensures |lower| == |attrs| && forall i :: 0 <= i < |attrs| ==> lower[i] == LowerAttr(attrs[i])
  {
    seq(|attrs|, i requires 0 <= i < |attrs| => LowerAttr(attrs[i]))
  }

  /** A tag starts with a letter; names are in lower case, and no attribute is given twice. */
  predicate NamesKept(tag: string, attrs: seq<Attr>)
    requires tag != []
  {
    && IsLetter(tag[0]) && LowerName(tag) == tag
    && (forall i :: 0 <= i < |attrs| ==> LowerName(attrs[i].name) == attrs[i].name)
    && (forall i, j :: 0 <= i < j < |attrs| ==> attrs[i].name != attrs[j].name)
  }

  /**
   A parser ignores a leading newline that is written as it is. The writer adds one before it unless an
   empty text hides it, or the element is a `listing`.
   */
  predicate NewlineSeen(n: Html)
    requires n.Element?
  {
    IgnoresNewline(n.tag) && Flat(n.children) != [] && Flat(n.children)[0] == DChar('\n')
      && (IsEscapableRaw(n.tag) || !n.preSpan)
    ==> n.tag != "listing" && LeadsWithText(n.children)
  }

  /** The first child, tags aside, is a text that is not empty. */
  predicate LeadsWithText(ns: seq<Html>) {
    exists i :: 0 <= i < |ns| && LeadingAt(ns, i)
  }

  predicate LeadingAt(ns: seq<Html>, i: nat)
    requires i < |ns|
  {
    ns[i].Text? && ns[i].text != [] && forall j :: 0 <= j < i ==> ns[j].Tag?
  }

  predicate AddsNewline(n: Html)
    requires n.Element?
  {
    DropsNewline(n.tag) && StartsWithNewline(n.children)
  }

  lemma {:induction false} NewlineLeads(ns: seq<Html>)
    requires Flat(ns) != [] && Flat(ns)[0] == DChar('\n')
    ensures StartsWithNewline(ns) <==> LeadsWithText(ns)
  {
    match ns[0]
    case Tag =>
      NewlineLeads(ns[1..]);
      if i :| 0 <= i < |ns[1..]| && LeadingAt(ns[1..], i) {
        assert LeadingAt(ns, i + 1);
      }
      if i :| 0 <= i < |ns| && LeadingAt(ns, i) {
        assert LeadingAt(ns[1..], i - 1);
      }
    case Text(t) =>
      if t != [] {
        assert LeadingAt(ns, 0);
      }
    case Element(_, _, _, _) =>
  }

  /** Whether the writer adds a newline where one would be ignored. */
  lemma NewlineAgrees(n: Html)
    requires n.Element? && IgnoresNewline(n.tag) && Flat(n.children) != [] && Flat(n.children)[0] == DChar('\n')
    requires IsEscapableRaw(n.tag) || !n.preSpan
    ensures NewlineSeen(n) <==> AddsNewline(n)
  {
    NewlineLeads(n.children);
  }

  /** Nothing but text that is written as it is. */
  predicate Verbatim(ns: seq<Html>, escape: bool) {
    forall n <- ns :: n.Tag? || (n.Text? && forall c <- n.text :: !escape && ValidInText(c))
  }

  /** The state of script data after a text. */
  function ModeAfter(m: Mode, text: string): Mode
    decreases |text|
  {
    if text == [] then m else ModeAfter(NextMode(m, text), text[1..])
  }

  /** The text does not leave a script open within a comment. */
  predicate ScriptEnds(ns: seq<Html>) {
    RawText(ns).Some? && !ModeAfter(Data, RawText(ns).value).Double?
  }

  predicate Survives(n: Html)
    requires Ok(n)
    decreases n, 2
  {
    n.Element? ==>
      && NamesKept(n.tag, n.attrs)
      && (IsVoid(n.tag) || IsSelfClosing(n.tag) || BodySurvives(n))
  }

  /**
   Raw text that the writer does not know about has to need no escapes; a leading newline must not
   be ignored.
   */
  predicate BodySurvives(n: Html)
    requires n.Element? && Ok(n)
    decreases n, 1
  {
    if ReadsRaw(n.tag) then IsRaw(n.tag) || Verbatim(n.children, n.preSpan)
    else if n.tag == "script" then ScriptEnds(n.children)
    else if n.tag == "plaintext" then false
    else NewlineSeen(n) && (IsEscapableRaw(n.tag) || AllSurvive(n.children))
  }

  predicate AllSurvive(ns: seq<Html>)
    requires OkAll(ns)
    decreases ns, 0
  {
    ns != [] ==> Survives(ns[0]) && AllSurvive(ns[1..])
  }

  // ----- Carriage returns -----

  predicate NoCR(s: string) { forall i :: 0 <= i < |s| ==> s[i] != '\r' }

  /** No carriage return in any text or attribute value. */
  predicate Clean(n: Html)
    decreases n, 1
  {
    match n
    case Tag => true
    case Text(t) => NoCR(t)
    case Element(_, attrs, children, _) => (forall a <- attrs :: NoCR(a.value)) && CleanAll(children)
  }

  predicate CleanAll(ns: seq<Html>)
    decreases ns, 0
  {
    ns != [] ==> Clean(ns[0]) && CleanAll(ns[1..])
  }
}
