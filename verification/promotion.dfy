/**
 Converted blocks: what a browser shows of them, and blocks around a lone element, which turn that element
 into a block.
 */
module HtmlPromotion {
  import opened Options
  import opened CssText
  import opened Exposure
  import opened HtmlContent
  import opened HtmlNodes
  import opened HtmlProtect
  import opened HtmlFragments

  // ----- Lone elements -----

  predicate AllTags(nodes: seq<Node>) {
    forall n <- nodes :: n.TagNode?
  }

  /** The index of the element or frame that, apart from tags, is everything there is. */
  function LoneElement(nodes: seq<Node>): Option<nat> {
    if nodes == [] then None
    else if nodes[0].TagNode? then
      match LoneElement(nodes[1..])
      case None => None
      case Some(i) => Some(i + 1)
    else if !nodes[0].TextNode? && AllTags(nodes[1..]) then Some(0)
    else None
  }

  /** Ensures that an element renders as its own block; `display` has no effect on line breaks. */
  function MakeBlockLevel(n: Node): Node {
    match n
    case SpanNode(_, leaves) => SpanNode(true, leaves)
    case ElemNode(display, children) => if display.ListItem? then n else ElemNode(Block, children)
    case ObjectNode(_) => ObjectNode(true)
    case _ => n
  }

  lemma LoneIsAll(nodes: seq<Node>, ignorable: char -> bool)
    requires LoneElement(nodes).Some?
    ensures var i := LoneElement(nodes).value;
      && i < |nodes| && !nodes[i].TagNode? && !nodes[i].TextNode?
      && AllTags(nodes[..i]) && AllTags(nodes[i + 1..])
      && Marks(nodes, ignorable) == NodeMarks(nodes[i], ignorable) && Words(nodes) == NodeWords(nodes[i])
      && BlocksShown(nodes, ignorable) == NodeBlocksShown(nodes[i], ignorable)
  {
    LoneAmongTags(nodes);
    LoneSaysAll(nodes, ignorable);
  }

  lemma {:induction false} LoneAmongTags(nodes: seq<Node>)
    requires LoneElement(nodes).Some?
    ensures var i := LoneElement(nodes).value;
      i < |nodes| && !nodes[i].TagNode? && !nodes[i].TextNode? && AllTags(nodes[..i]) && AllTags(nodes[i + 1..])
  {
    if nodes[0].TagNode? {
      LoneAmongTags(nodes[1..]);
    }
  }

  lemma {:induction false} LoneSaysAll(nodes: seq<Node>, ignorable: char -> bool)
    requires LoneElement(nodes).Some? && LoneElement(nodes).value < |nodes|
    ensures var n := nodes[LoneElement(nodes).value];
      && Marks(nodes, ignorable) == NodeMarks(n, ignorable) && Words(nodes) == NodeWords(n)
      && BlocksShown(nodes, ignorable) == NodeBlocksShown(n, ignorable)
  {
    if nodes[0].TagNode? {
      TagSaysNothing(nodes, ignorable);
      LoneSaysAll(nodes[1..], ignorable);
    } else {
      TagsSayNothing(nodes[1..], ignorable);
    }
  }

  lemma TagSaysNothing(nodes: seq<Node>, ignorable: char -> bool)
    requires nodes != [] && nodes[0].TagNode?
    ensures Marks(nodes, ignorable) == Marks(nodes[1..], ignorable) && Words(nodes) == Words(nodes[1..])
    ensures BlocksShown(nodes, ignorable) == BlocksShown(nodes[1..], ignorable)
  {
  }

  lemma {:induction false} TagsSayNothing(nodes: seq<Node>, ignorable: char -> bool)
    requires AllTags(nodes)
    ensures Marks(nodes, ignorable) == [] && Words(nodes) == [] && BlocksShown(nodes, ignorable)
    ensures ShapeOf(nodes) == Empty
  {
    if nodes != [] {
      assert nodes[0] in nodes;
      TagsSayNothing(nodes[1..], ignorable);
    }
  }

  lemma {:induction false} EmptyIsTags(nodes: seq<Node>)
    requires ShapeOf(nodes) == Empty
    ensures AllTags(nodes)
  {
    if nodes != [] {
      EmptyIsTags(nodes[1..]);
    }
  }

  /** Unless there is just a space that is not wrapped, the shape tells whether there is a lone element. */
  lemma {:induction false} LoneByShape(nodes: seq<Node>, ignorable: char -> bool)
    requires Kinds(Marks(nodes, ignorable)) != [Single]
    ensures LoneElement(nodes).Some? <==> ShapeOf(nodes) == One
  {
    if nodes != [] {
      if nodes[0].TagNode? {
        LoneByShape(nodes[1..], ignorable);
      } else if AllTags(nodes[1..]) {
        TagsSayNothing(nodes[1..], ignorable);
      } else if ShapeOf(nodes[1..]) == Empty {
        EmptyIsTags(nodes[1..]);
      }
    }
  }

  // ----- Elements -----

  lemma ElementSurrounds(display: Display, children: seq<Node>, kids: seq<Content>, lo: nat, hi: nat,
                         ignorable: char -> bool)
    requires !display.Block? && Converted(children, MeaningOf(kids, ignorable), lo, hi, ignorable)
    ensures Converted([ElemNode(display, children)], ElemMeaning(HtmlElem(display, kids), ignorable), lo, hi, ignorable)
  {
    var ms := Marks(children, ignorable);
    match display {
      case Inline => Surrounded(Side, ms, Side, lo, hi);
      case InlineBlock => Surrounded(Enter, ms, Leave, lo, hi);
      case ListItem => Surrounded(Bound, ms, Bound, lo, hi);
    }
    ElementConverted(ElemNode(display, children), Displayed(display, Classify(RawOf(kids, ignorable))),
                     ElemMeaning(HtmlElem(display, kids), ignorable), lo, hi, ignorable);
  }

  /** The nodes are a conversion of a block: spaces that are not exposed have been wrapped. */
  ghost predicate Protected(nodes: seq<Node>, cs: seq<Content>, lo: nat, hi: nat, ignorable: char -> bool) {
    var ms, raw := Marks(nodes, ignorable), RawOf(cs, ignorable);
    && lo <= hi && Tidy(ms) && Distinct(ms, lo, hi)
    && Kinds(ms) == Shield(Classify(raw))
    && Words(nodes) == ContentShown(cs, ignorable)
    && BlocksShown(nodes, ignorable) == BlocksLossless(cs, ignorable)
    && (LoneElement(nodes).Some? <==> Lone(raw))
  }

  /** A browser shows what the block says exactly when no space is lost. */
  lemma ShownIffLossless(nodes: seq<Node>, cs: seq<Content>, lo: nat, hi: nat, ignorable: char -> bool)
    requires Protected(nodes, cs, lo, hi, ignorable)
    ensures Rendered(nodes, ignorable) == ContentShown(cs, ignorable) <==> Lossless(cs, ignorable)
  {
    ShownIffMarksRead(nodes, ignorable);
    var ms, ks := Marks(nodes, ignorable), Classify(RawOf(cs, ignorable));
    NoTabs(ms, ks);
    KeptIffReads(ks);
  }

  lemma NoTabs(ms: seq<Mark>, ks: seq<Kind>)
    requires Tidy(ms) && Kinds(ms) == Shield(ks)
    ensures Kind.Tab !in ks
  {
    forall i | 0 <= i < |ks| ensures ks[i] != Kind.Tab {
      assert Kinds(ms)[i] == ms[i].kind;
    }
  }

  lemma ProtectionShields(nodes: seq<Node>, cs: seq<Content>, lo: nat, hi: nat, ignorable: char -> bool)
    requires !IsIgnorableSpace(ignorable) && Converted(nodes, MeaningOf(cs, ignorable), lo, hi, ignorable)
    ensures var end := Visit(Pass(Collapsing, seq(hi, _ => false)), Marks(nodes, ignorable)).Collapse();
      Protected(Wrapped(nodes, end.flags), cs, lo, hi, ignorable)
  {
    var ms, flags := Marks(nodes, ignorable), seq(hi, _ => false);
    var end := Visit(Pass(Collapsing, flags), ms).Collapse();
    PassIsShield(ms, flags);
    WrappedMarks(nodes, end.flags, ignorable);
    GuardIsTidy(ms, end.flags, lo, hi);
    WrappedShape(nodes, end.flags);
    NeverOneSpace(Kinds(ms));
    LoneByShape(Wrapped(nodes, end.flags), ignorable);
  }

  lemma GuardIsTidy(ms: seq<Mark>, flags: seq<bool>, lo: nat, hi: nat)
    requires Tidy(ms) && Distinct(ms, lo, hi)
    ensures Tidy(Guard(ms, flags)) && Distinct(Guard(ms, flags), lo, hi)
  {
    var guarded := Guard(ms, flags);
    forall i | 0 <= i < |ms| && guarded[i] == Plain(Single) ensures Between(guarded, i) {
      assert Between(ms, i);
      assert guarded[i - 1] == GuardMark(ms[i - 1], flags) && guarded[i + 1] == GuardMark(ms[i + 1], flags);
    }
  }

  lemma {:induction false} WrappedShape(nodes: seq<Node>, flags: seq<bool>)
    ensures ShapeOf(Wrapped(nodes, flags)) == ShapeOf(nodes)
  {
    if nodes != [] {
      WrappedShape(nodes[1..], flags);
    }
  }

  lemma NeverOneSpace(ks: seq<Kind>)
    ensures Shield(ks) != [Single]
  {
    if Shield(ks) == [Single] {
      assert Shield(ks)[0] == Single;
      assert !Supported(ks[..0]);
    }
  }

  /** An element that is a block by default has a context of its own. */
  lemma BlockConverted(nodes: seq<Node>, kids: seq<Content>, lo: nat, hi: nat, ignorable: char -> bool)
    requires Protected(nodes, kids, lo, hi, ignorable)
    ensures Converted([BlockNode(nodes)], ElemMeaning(HtmlElem(Block, kids), ignorable), lo, hi, ignorable)
  {
    ShownIffLossless(nodes, kids, lo, hi, ignorable);
    BlockMeaning(kids, ignorable);
    BlockNodeConverted(nodes, lo, hi, ignorable);
  }

  lemma BlockMeaning(kids: seq<Content>, ignorable: char -> bool)
    ensures ElemMeaning(HtmlElem(Block, kids), ignorable)
         == Meaning([Elem([Brk])], [BlockBox(ContentShown(kids, ignorable))], Lossless(kids, ignorable))
  {
  }

  lemma BlockNodeConverted(nodes: seq<Node>, lo: nat, hi: nat, ignorable: char -> bool)
    requires lo <= hi
    ensures var m := Meaning([Elem([Brk])], [BlockBox(Words(nodes))], Rendered(nodes, ignorable) == Words(nodes));
      Converted([BlockNode(nodes)], m, lo, hi, ignorable)
  {
    var m := Meaning([Elem([Brk])], [BlockBox(Words(nodes))], Rendered(nodes, ignorable) == Words(nodes));
    ElementConverted(BlockNode(nodes), [Brk], m, lo, hi, ignorable);
  }

  /** So does the element that a block is put into. */
  lemma DivConverted(nodes: seq<Node>, kids: seq<Content>, lo: nat, hi: nat, ignorable: char -> bool)
    requires Protected(nodes, kids, lo, hi, ignorable) && LoneElement(nodes).None?
    ensures Converted([BlockNode(nodes)], ElemMeaning(BlockElem(kids), ignorable), lo, hi, ignorable)
  {
    BlockConverted(nodes, kids, lo, hi, ignorable);
    DivMeaning(kids, ignorable);
  }

  lemma DivMeaning(kids: seq<Content>, ignorable: char -> bool)
    requires !Lone(RawOf(kids, ignorable))
    ensures ElemMeaning(BlockElem(kids), ignorable) == ElemMeaning(HtmlElem(Block, kids), ignorable)
  {
  }

  /** A block around a lone element is that element, displayed as a block. */
  lemma PromotedConverted(nodes: seq<Node>, kids: seq<Content>, lo: nat, hi: nat, ignorable: char -> bool)
    requires Protected(nodes, kids, lo, hi, ignorable) && LoneElement(nodes).Some?
    ensures var i := LoneElement(nodes).value;
      i < |nodes| && Converted([MakeBlockLevel(nodes[i])], ElemMeaning(BlockElem(kids), ignorable), lo, hi, ignorable)
  {
    LoneIsAll(nodes, ignorable);
    PromotedElement(nodes[LoneElement(nodes).value], RawOf(kids, ignorable), lo, hi, ignorable);
    PromotedMeaning(kids, ignorable);
  }

  lemma PromotedElement(n: Node, raw: seq<Raw>, lo: nat, hi: nat, ignorable: char -> bool)
    requires !n.TagNode? && !n.TextNode? && lo <= hi && Lone(raw)
    requires Tidy(NodeMarks(n, ignorable)) && Distinct(NodeMarks(n, ignorable), lo, hi)
    requires Kinds(NodeMarks(n, ignorable)) == Shield(Classify(raw))
    ensures var m := Meaning([Elem(BlockKinds(raw))], BlockShown(raw, NodeWords(n)), NodeBlocksShown(n, ignorable));
      Converted([MakeBlockLevel(n)], m, lo, hi, ignorable)
  {
    PromotedMarks(n, lo, hi, ignorable);
    PromotedWords(n, raw, ignorable);
    PromotedBlocks(n, ignorable);
    var m := Meaning([Elem(BlockKinds(raw))], BlockShown(raw, NodeWords(n)), NodeBlocksShown(n, ignorable));
    ElementConverted(MakeBlockLevel(n), BlockKinds(raw), m, lo, hi, ignorable);
  }

  lemma PromotedMeaning(kids: seq<Content>, ignorable: char -> bool)
    requires Lone(RawOf(kids, ignorable))
    ensures var raw := RawOf(kids, ignorable);
      ElemMeaning(BlockElem(kids), ignorable)
      == Meaning([Elem(BlockKinds(raw))], BlockShown(raw, ContentShown(kids, ignorable)), BlocksLossless(kids, ignorable))
  {
  }

  lemma PromotedMarks(n: Node, lo: nat, hi: nat, ignorable: char -> bool)
    requires !n.TagNode? && !n.TextNode? && lo <= hi
    requires Tidy(NodeMarks(n, ignorable)) && Distinct(NodeMarks(n, ignorable), lo, hi)
    ensures var ms := NodeMarks(MakeBlockLevel(n), ignorable);
      Tidy(ms) && Distinct(ms, lo, hi) && Kinds(ms) == Promote(Kinds(NodeMarks(n, ignorable)))
  {
    match n
    case ElemNode(display, children) => ElementPromotes(display, children, lo, hi, ignorable);
    case SpanNode(block, leaves) =>
      SpanIsQuiet(SpanText(leaves), ignorable);
      BoundedPromotes(block, SpanMarks(SpanText(leaves), ignorable), lo, hi);
    case ObjectNode(block) => BoundedPromotes(block, [Plain(Firm)], lo, hi);
    case _ =>
  }

  lemma ElementPromotes(display: Display, children: seq<Node>, lo: nat, hi: nat, ignorable: char -> bool)
    requires var ms := NodeMarks(ElemNode(display, children), ignorable); Tidy(ms) && Distinct(ms, lo, hi)
    ensures var n := ElemNode(display, children);
      var ms := NodeMarks(MakeBlockLevel(n), ignorable);
      Tidy(ms) && Distinct(ms, lo, hi) && Kinds(ms) == Promote(Kinds(NodeMarks(n, ignorable)))
  {
    var ms := Marks(children, ignorable);
    match display
    case Inline => SurroundPromotes(Side, ms, Side, lo, hi);
    case InlineBlock => SurroundPromotes(Enter, ms, Leave, lo, hi);
    case _ => SurroundPromotes(Bound, ms, Bound, lo, hi);
  }

  predicate Quiet(m: Mark) {
    m == Plain(Kept) || m == Plain(Invisible) || m == Plain(Firm)
  }

  lemma SpanIsQuiet(text: string, ignorable: char -> bool)
    ensures forall i :: 0 <= i < |text| ==> Quiet(SpanMarks(text, ignorable)[i])
  {
  }

  lemma BoundedPromotes(block: bool, ms: seq<Mark>, lo: nat, hi: nat)
    requires lo <= hi && forall i :: 0 <= i < |ms| ==> Quiet(ms[i])
    ensures var all := Bounded(true, ms);
      Tidy(all) && Distinct(all, lo, hi) && Kinds(all) == Promote(Kinds(Bounded(block, ms)))
  {
    Surrounded(Bound, ms, Bound, lo, hi);
    if block {
      KindsPromote(Bound, Kinds(ms), Bound);
    } else if ms != [] {
      assert Kinds(ms)[0] == ms[0].kind;
    }
  }

  lemma SurroundPromotes(a: Kind, ms: seq<Mark>, b: Kind, lo: nat, hi: nat)
    requires (a.Side? || a.Enter? || a.Bound?) && !b.Firm?
    requires Tidy([Plain(a)] + ms + [Plain(b)]) && Distinct([Plain(a)] + ms + [Plain(b)], lo, hi)
    ensures var all := Bounded(true, ms);
      Tidy(all) && Distinct(all, lo, hi) && Kinds(all) == Promote(Kinds([Plain(a)] + ms + [Plain(b)]))
  {
    EndsReplaced([Plain(a)] + ms + [Plain(b)], Bounded(true, ms), lo, hi);
    KindsSurrounded(a, ms, b);
    KindsSurrounded(Bound, ms, Bound);
    KindsPromote(a, Kinds(ms), b);
  }

  lemma KindsPromote(a: Kind, ks: seq<Kind>, b: Kind)
    requires a.Side? || a.Enter? || a.Bound?
    ensures Promote([a] + ks + [b]) == [Bound] + ks + [Bound]
  {
    assert ([a] + ks + [b])[1..|ks| + 1] == ks;
  }

  lemma EndsReplaced(was: seq<Mark>, all: seq<Mark>, lo: nat, hi: nat)
    requires Tidy(was) && Distinct(was, lo, hi) && |was| == |all| >= 2
    requires forall i :: 0 < i < |all| - 1 ==> all[i] == was[i]
    requires !was[0].kind.Firm? && !was[|was| - 1].kind.Firm? && all[0] == Plain(Bound) == all[|all| - 1]
    ensures Tidy(all) && Distinct(all, lo, hi)
  {
    forall i | 0 <= i < |all| && all[i] == Plain(Single) ensures Between(all, i) {
      assert Between(was, i);
    }
  }

  lemma PromotedBlocks(n: Node, ignorable: char -> bool)
    ensures NodeBlocksShown(MakeBlockLevel(n), ignorable) == NodeBlocksShown(n, ignorable)
  {
  }

  lemma PromotedWords(n: Node, raw: seq<Raw>, ignorable: char -> bool)
    requires !n.TagNode? && !n.TextNode? && Lone(raw) && Kinds(NodeMarks(n, ignorable)) == Shield(Classify(raw))
    ensures NodeWords(MakeBlockLevel(n)) == BlockShown(raw, NodeWords(n))
  {
    if AllWhite(raw) {
      WhiteKinds(raw);
      SpanWords(n, raw, ignorable);
    } else {
      OneRaw(raw[0]);
      assert raw == [Elem(raw[0].kinds)];
      ElementWords(n, raw[0].kinds, ignorable);
    }
  }

  lemma ElementWords(n: Node, ks: seq<Kind>, ignorable: char -> bool)
    requires !n.TagNode? && !n.TextNode? && Kinds(NodeMarks(n, ignorable)) == Shield(ks)
    ensures NodeWords(MakeBlockLevel(n)) == BlockShown([Elem(ks)], NodeWords(n))
  {
    var ms := NodeMarks(n, ignorable);
    assert |ms| == |ks|;
    assert ks != [] ==> Kinds(ms)[0] == ms[0].kind && ms[0].kind != Single;
  }

  lemma SpanWords(n: Node, raw: seq<Raw>, ignorable: char -> bool)
    requires !n.TagNode? && !n.TextNode? && AllWhite(raw) && raw != []
    requires var ks := Classify(raw);
      ks != [] && (ks[0] == Kept || ks[0] == Single) && Kinds(NodeMarks(n, ignorable)) == Shield(ks)
    ensures NodeWords(MakeBlockLevel(n)) == BlockShown(raw, NodeWords(n))
  {
    assert raw[0] in raw;
    assert NodeMarks(n, ignorable)[0].kind == Kept;
  }

  lemma WhiteKinds(raw: seq<Raw>)
    requires raw != [] && AllWhite(raw)
    ensures Classify(raw) != [] && (Classify(raw)[0] == Kept || Classify(raw)[0] == Single)
  {
  }
}
