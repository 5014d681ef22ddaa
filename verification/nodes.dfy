/**
 HTML nodes, how a browser shows them, and the reading of their marks that tells whether it shows
 everything they say.
 */
module HtmlNodes {
  import opened Options
  import opened Scanning
  import opened CssText
  import opened Exposure
  import HtmlContent

  type Display = HtmlContent.Display

  /**
   Text nodes carry an id in place of their address. A generated span has `white-space: pre-wrap` and holds
   text and tags. Spans, other elements and objects may have been given `display: block`. Elements that are
   blocks by default have a context of their own.
   */
  datatype Node =
    | TagNode(tag: nat)
    | TextNode(text: string, id: nat)
    | SpanNode(block: bool, leaves: seq<Node>)
    | ElemNode(display: Display, children: seq<Node>)
    | BrNode
    | BlockNode(children: seq<Node>)
    | ObjectNode(block: bool)

  function SpanText(leaves: seq<Node>): string {
    if leaves == [] then [] else (if leaves[0].TextNode? then leaves[0].text else []) + SpanText(leaves[1..])
  }

  // ----- What the nodes say and how they are shown -----

  function Chars(s: string): (said: seq<Shown>)
    ensures |said| == |s| && forall i :: 0 <= i < |s| ==> said[i] == Char(s[i])
  {
    seq(|s|, i requires 0 <= i < |s| => Char(s[i]))
  }

  function CharTokens(s: string, preserved: bool): (ts: seq<Token>)
    ensures |ts| == |s| && forall i :: 0 <= i < |s| ==> ts[i] == Ch(s[i], preserved)
  {
    seq(|s|, i requires 0 <= i < |s| => Ch(s[i], preserved))
  }

  function Words(nodes: seq<Node>): seq<Shown> {
    if nodes == [] then [] else NodeWords(nodes[0]) + Words(nodes[1..])
  }

  function NodeWords(n: Node): seq<Shown> {
    match n
    case TagNode(_) => []
    case TextNode(text, _) => Chars(text)
    case SpanNode(block, leaves) => if block then [BlockBox(Chars(SpanText(leaves)))] else Chars(SpanText(leaves))
    case ElemNode(display, children) => HtmlContent.Surround(display, Words(children))
    case BrNode => [LineBreak]
    case BlockNode(children) => [BlockBox(Words(children))]
    case ObjectNode(block) => if block then [BlockBox([Object])] else [Object]
  }

  /** The inline content; what is displayed as a block or inline block is laid out by itself. */
  ghost function Tokens(nodes: seq<Node>, ignorable: char -> bool): seq<Token>
    decreases nodes, 0
  {
    if nodes == [] then [] else NodeTokens(nodes[0], ignorable) + Tokens(nodes[1..], ignorable)
  }

  ghost function NodeTokens(n: Node, ignorable: char -> bool): seq<Token>
    decreases n, 0
  {
    match n
    case TagNode(_) => []
    case TextNode(text, _) => CharTokens(text, false)
    case SpanNode(block, leaves) =>
      var ts := CharTokens(SpanText(leaves), true);
      if block then [Box(Render(ts, ignorable))] else ts
    case ElemNode(display, children) =>
      (match display
       case Inline => Tokens(children, ignorable)
       case InlineBlock => [Inner(Rendered(children, ignorable))]
       case ListItem | Block => [Box(Rendered(children, ignorable))])
    case BrNode => [Break]
    case BlockNode(children) => [Box(Rendered(children, ignorable))]
    case ObjectNode(block) => if block then [Box([Object])] else [Atom]
  }

  /** What a browser shows of the nodes on lines of their own. */
  ghost function Rendered(nodes: seq<Node>, ignorable: char -> bool): seq<Shown>
    decreases nodes, 1
  {
    Render(Tokens(nodes, ignorable), ignorable)
  }

  // ----- Marks in document order -----

  /** A text node of a single space can be told by its id. */
  datatype Mark = Mark(kind: Kind, id: Option<nat>)

  function Kinds(ms: seq<Mark>): (ks: seq<Kind>)
    ensures |ks| == |ms| && forall i :: 0 <= i < |ms| ==> ks[i] == ms[i].kind
  {
    seq(|ms|, i requires 0 <= i < |ms| => ms[i].kind)
  }

  function Plain(k: Kind): Mark { Mark(k, None) }

  function CharKind(c: char, ignorable: char -> bool): Kind {
    if c == ' ' then Single else if c == '\t' then Kind.Tab else if ignorable(c) then Invisible else Firm
  }

  function TextMarks(text: string, id: nat, ignorable: char -> bool): seq<Mark> {
    if text == " " then [Mark(Single, Some(id))] else CharMarks(text, ignorable)
  }

  function CharMarks(text: string, ignorable: char -> bool): (ms: seq<Mark>)
    ensures |ms| == |text| && forall i :: 0 <= i < |text| ==> ms[i] == Plain(CharKind(text[i], ignorable))
  {
    seq(|text|, i requires 0 <= i < |text| => Plain(CharKind(text[i], ignorable)))
  }

  function SpanMarks(text: string, ignorable: char -> bool): (ms: seq<Mark>)
    ensures |ms| == |text| && forall i :: 0 <= i < |text| ==> ms[i] == Plain(SpanKind(text[i], ignorable))
  {
    seq(|text|, i requires 0 <= i < |text| => Plain(SpanKind(text[i], ignorable)))
  }

  function SpanKind(c: char, ignorable: char -> bool): Kind {
    if !IsSpace(c) && ignorable(c) then Invisible else Kept
  }

  function Marks(nodes: seq<Node>, ignorable: char -> bool): seq<Mark> {
    if nodes == [] then [] else NodeMarks(nodes[0], ignorable) + Marks(nodes[1..], ignorable)
  }

  function NodeMarks(n: Node, ignorable: char -> bool): seq<Mark> {
    match n
    case TagNode(_) => []
    case TextNode(text, id) => TextMarks(text, id, ignorable)
    case SpanNode(block, leaves) => Bounded(block, SpanMarks(SpanText(leaves), ignorable))
    case ElemNode(display, children) =>
      var ms := Marks(children, ignorable);
      (match display
       case Inline => [Plain(Side)] + ms + [Plain(Side)]
       case InlineBlock => [Plain(Enter)] + ms + [Plain(Leave)]
       case ListItem | Block => Bounded(true, ms))
    case BrNode | BlockNode(_) => [Plain(Brk)]
    case ObjectNode(block) => Bounded(block, [Plain(Firm)])
  }

  function Bounded(block: bool, ms: seq<Mark>): seq<Mark> {
    if block then [Plain(Bound)] + ms + [Plain(Bound)] else ms
  }

  function MarkSigns(ms: seq<Mark>): (signs: seq<Sign>)
    ensures |signs| == |ms| && forall i :: 0 <= i < |ms| ==> signs[i] == ms[i].kind.Sign()
  {
    Exposure.Signs(Kinds(ms))
  }

  // ----- The marks tell what is shown -----

  /** Whatever is laid out by itself within a line reads well. */
  ghost predicate Clear(nodes: seq<Node>, ignorable: char -> bool) {
    nodes == [] || (NodeClear(nodes[0], ignorable) && Clear(nodes[1..], ignorable))
  }

  ghost predicate NodeClear(n: Node, ignorable: char -> bool) {
    n.ElemNode? ==>
      && Clear(n.children, ignorable)
      && (!n.display.Inline? ==> Ends(Scan(LineStart, CssText.Signs(Tokens(n.children, ignorable), ignorable))))
  }

  /** A browser shows what blocks say. */
  ghost predicate BlocksShown(nodes: seq<Node>, ignorable: char -> bool) {
    nodes == [] || (NodeBlocksShown(nodes[0], ignorable) && BlocksShown(nodes[1..], ignorable))
  }

  ghost predicate NodeBlocksShown(n: Node, ignorable: char -> bool) {
    match n
    case ElemNode(_, children) => BlocksShown(children, ignorable)
    case BlockNode(children) => Rendered(children, ignorable) == Words(children)
    case _ => true
  }

  lemma SignsAppend(a: seq<Mark>, b: seq<Mark>)
    ensures MarkSigns(a + b) == MarkSigns(a) + MarkSigns(b)
  {
  }

  lemma CssSignsAppend(a: seq<Token>, b: seq<Token>, ignorable: char -> bool)
    ensures CssText.Signs(a + b, ignorable) == CssText.Signs(a, ignorable) + CssText.Signs(b, ignorable)
  {
  }

  lemma ScanOne(l: Left, s: Sign)
    ensures Scan(l, [s]) == if !s.Fits(l) then None else Some(if s.Clear? then l else s.Leaves())
  {
    assert [s][1..] == [];
  }

  /** Reading the marks is reading the tokens, and those of everything laid out by itself. */
  lemma {:induction false} MarksRead(l: Left, nodes: seq<Node>, ignorable: char -> bool)
    ensures Scan(l, MarkSigns(Marks(nodes, ignorable)))
         == if Clear(nodes, ignorable) then Scan(l, CssText.Signs(Tokens(nodes, ignorable), ignorable)) else None
    decreases nodes, 1
  {
    if nodes != [] {
      var n, rest := nodes[0], nodes[1..];
      SignsAppend(NodeMarks(n, ignorable), Marks(rest, ignorable));
      ScanAppend(l, MarkSigns(NodeMarks(n, ignorable)), MarkSigns(Marks(rest, ignorable)));
      CssSignsAppend(NodeTokens(n, ignorable), Tokens(rest, ignorable), ignorable);
      ScanAppend(l, CssText.Signs(NodeTokens(n, ignorable), ignorable),
                 CssText.Signs(Tokens(rest, ignorable), ignorable));
      NodeMarksRead(l, n, ignorable);
      var after := Scan(l, MarkSigns(NodeMarks(n, ignorable)));
      if after.Some? {
        MarksRead(after.value, rest, ignorable);
      }
    } else {
      assert MarkSigns([]) == [] == CssText.Signs([], ignorable);
    }
  }

  lemma {:induction false} NodeMarksRead(l: Left, n: Node, ignorable: char -> bool)
    ensures Scan(l, MarkSigns(NodeMarks(n, ignorable)))
         == if NodeClear(n, ignorable) then Scan(l, CssText.Signs(NodeTokens(n, ignorable), ignorable)) else None
    decreases n, 0
  {
    if n.ElemNode? {
      var inner := if n.display.Inline? then l else LineStart;
      MarksRead(inner, n.children, ignorable);
      ElementRead(l, n, ignorable);
    } else {
      LeafRead(l, n, ignorable);
    }
  }

  lemma ElementRead(l: Left, n: Node, ignorable: char -> bool)
    requires n.ElemNode?
    requires var inner := if n.display.Inline? then l else LineStart;
      Scan(inner, MarkSigns(Marks(n.children, ignorable)))
      == if Clear(n.children, ignorable) then Scan(inner, CssText.Signs(Tokens(n.children, ignorable), ignorable)) else None
    ensures Scan(l, MarkSigns(NodeMarks(n, ignorable)))
         == if NodeClear(n, ignorable) then Scan(l, CssText.Signs(NodeTokens(n, ignorable), ignorable)) else None
  {
    var ms := Marks(n.children, ignorable);
    if n.display.Inline? {
      SurroundedRead(l, Side, ms, Side);
    } else if n.display.InlineBlock? {
      SurroundedRead(l, Enter, ms, Leave);
      OneTokenRead(l, Inner(Rendered(n.children, ignorable)), ignorable);
    } else {
      SurroundedRead(l, Bound, ms, Bound);
      OneTokenRead(l, Box(Rendered(n.children, ignorable)), ignorable);
    }
  }

  lemma LeafRead(l: Left, n: Node, ignorable: char -> bool)
    requires !n.ElemNode?
    ensures Scan(l, MarkSigns(NodeMarks(n, ignorable))) == Scan(l, CssText.Signs(NodeTokens(n, ignorable), ignorable))
  {
    match n
    case TagNode(_) =>
    case TextNode(text, id) =>
      assert MarkSigns(TextMarks(text, id, ignorable)) == CssText.Signs(CharTokens(text, false), ignorable);
    case SpanNode(block, leaves) => SpanRead(l, block, SpanText(leaves), ignorable);
    case BrNode => assert MarkSigns([Plain(Brk)]) == CssText.Signs([Break], ignorable);
    case BlockNode(children) =>
      assert MarkSigns([Plain(Brk)]) == CssText.Signs([Box(Rendered(children, ignorable))], ignorable);
    case ObjectNode(block) => ObjectRead(l, block, ignorable);
  }

  lemma ObjectRead(l: Left, block: bool, ignorable: char -> bool)
    ensures Scan(l, MarkSigns(Bounded(block, [Plain(Firm)])))
         == Scan(l, CssText.Signs(if block then [Box([Object])] else [Atom], ignorable))
  {
    assert MarkSigns([Plain(Firm)]) == [Solid] == CssText.Signs([Atom], ignorable);
    ScanOne(LineStart, Solid);
    SurroundedRead(l, Bound, [Plain(Firm)], Bound);
    OneTokenRead(l, Box([Object]), ignorable);
  }

  lemma OneTokenRead(l: Left, t: Token, ignorable: char -> bool)
    ensures var s := SignOf(t, ignorable);
      Scan(l, CssText.Signs([t], ignorable)) == if !s.Fits(l) then None else Some(if s.Clear? then l else s.Leaves())
  {
    assert CssText.Signs([t], ignorable) == [SignOf(t, ignorable)];
    ScanOne(l, SignOf(t, ignorable));
  }

  lemma SurroundedRead(l: Left, a: Kind, ms: seq<Mark>, b: Kind)
    requires (a.Side? && b.Side?) || (a.Enter? && b.Leave?) || (a.Bound? && b.Bound?)
    ensures var whole := Scan(l, MarkSigns([Plain(a)] + ms + [Plain(b)]));
      whole == match a
               case Side => Scan(l, MarkSigns(ms))
               case Enter => if Ends(Scan(LineStart, MarkSigns(ms))) then Some(AfterSolid) else None
               case _ => if l != AfterSpace && Ends(Scan(LineStart, MarkSigns(ms))) then Some(LineStart) else None
  {
    assert MarkSigns([Plain(a)] + ms + [Plain(b)]) == [a.Sign()] + MarkSigns(ms) + [b.Sign()];
    ScanAppend(l, [a.Sign()] + MarkSigns(ms), [b.Sign()]);
    ScanAppend(l, [a.Sign()], MarkSigns(ms));
    ScanOne(l, a.Sign());
    var inner := Scan(if a.Side? then l else LineStart, MarkSigns(ms));
    if inner.Some? {
      ScanOne(inner.value, b.Sign());
    }
  }

  lemma SpanRead(l: Left, block: bool, text: string, ignorable: char -> bool)
    ensures var ts := CharTokens(text, true);
      Scan(l, MarkSigns(Bounded(block, SpanMarks(text, ignorable))))
      == Scan(l, CssText.Signs(if block then [Box(Render(ts, ignorable))] else ts, ignorable))
  {
    var ts, ms := CharTokens(text, true), SpanMarks(text, ignorable);
    if block {
      SolidsRead(LineStart, MarkSigns(ms));
      SurroundedRead(l, Bound, ms, Bound);
      OneTokenRead(l, Box(Render(ts, ignorable)), ignorable);
    } else {
      assert MarkSigns(ms) == CssText.Signs(ts, ignorable);
    }
  }

  lemma {:induction false} SolidsRead(l: Left, signs: seq<Sign>)
    requires forall s <- signs :: s.Solid? || s.Clear?
    ensures Scan(l, signs) == Some(if forall s <- signs :: s.Clear? then l else AfterSolid)
    decreases |signs|
  {
    if signs != [] {
      SolidsRead(if signs[0].Clear? then l else AfterSolid, signs[1..]);
      assert signs == [signs[0]] + signs[1..];
    }
  }

  // ----- What is shown is what is said -----

  lemma VerbatimAppend(a: seq<Token>, b: seq<Token>, v: seq<Shown>, w: seq<Shown>)
    requires |v| == |a| && |w| == |b|
    ensures Verbatim(a + b) == v + w <==> Verbatim(a) == v && Verbatim(b) == w
  {
    assert Verbatim(a + b) == Verbatim(a) + Verbatim(b);
    assert (v + w)[..|v|] == v && (v + w)[|v|..] == w;
    assert Verbatim(a + b)[..|a|] == Verbatim(a) && Verbatim(a + b)[|a|..] == Verbatim(b);
  }

  lemma OneShown(t: Token, w: Shown)
    ensures Verbatim([t]) == [w] <==> Same(t) == w
  {
    assert Verbatim([t])[0] == Same(t);
  }

  /** Token by token, the nodes say what they hold. */
  lemma {:induction false} WordsSay(nodes: seq<Node>, ignorable: char -> bool)
    ensures Says(Words(nodes), Tokens(nodes, ignorable))
    ensures Verbatim(Tokens(nodes, ignorable)) == Words(nodes)
       <==> Clear(nodes, ignorable) && BlocksShown(nodes, ignorable)
    decreases nodes, 1
  {
    if nodes != [] {
      NodeWordsSay(nodes[0], ignorable);
      WordsSay(nodes[1..], ignorable);
      VerbatimAppend(NodeTokens(nodes[0], ignorable), Tokens(nodes[1..], ignorable), NodeWords(nodes[0]),
                     Words(nodes[1..]));
    }
  }

  lemma {:induction false} NodeWordsSay(n: Node, ignorable: char -> bool)
    ensures Says(NodeWords(n), NodeTokens(n, ignorable))
    ensures Verbatim(NodeTokens(n, ignorable)) == NodeWords(n)
       <==> NodeClear(n, ignorable) && NodeBlocksShown(n, ignorable)
    decreases n, 0
  {
    match n
    case ElemNode(display, children) =>
      WordsSay(children, ignorable);
      if !display.Inline? {
        ShownIffReads(children, ignorable);
        OneShown(NodeTokens(n, ignorable)[0], NodeWords(n)[0]);
      }
    case SpanNode(block, leaves) =>
      if block {
        SpanShown(SpanText(leaves), ignorable);
      }
    case BlockNode(children) => OneShown(NodeTokens(n, ignorable)[0], NodeWords(n)[0]);
    case _ =>
  }

  lemma ShownIffReads(nodes: seq<Node>, ignorable: char -> bool)
    requires Says(Words(nodes), Tokens(nodes, ignorable))
    ensures Rendered(nodes, ignorable) == Words(nodes)
       <==> Ends(Scan(LineStart, CssText.Signs(Tokens(nodes, ignorable), ignorable)))
            && Verbatim(Tokens(nodes, ignorable)) == Words(nodes)
  {
    ShownIffIntact(Tokens(nodes, ignorable), Words(nodes), ignorable);
    IntactIffScans(Tokens(nodes, ignorable), ignorable);
  }

  lemma SpanShown(text: string, ignorable: char -> bool)
    ensures Render(CharTokens(text, true), ignorable) == Chars(text)
  {
    var ts := CharTokens(text, true);
    ShownIffIntact(ts, Chars(text), ignorable);
  }

  /** A browser shows all that the nodes say exactly when their marks read well and it does so for all blocks. */
  lemma ShownIffMarksRead(nodes: seq<Node>, ignorable: char -> bool)
    ensures Rendered(nodes, ignorable) == Words(nodes)
       <==> Ends(Scan(LineStart, MarkSigns(Marks(nodes, ignorable)))) && BlocksShown(nodes, ignorable)
  {
    WordsSay(nodes, ignorable);
    ShownIffReads(nodes, ignorable);
    MarksRead(LineStart, nodes, ignorable);
  }
}
