/**
 Conversion of realized content to HTML nodes that protects spaces and tabs from being collapsed, and
 the exact condition under which a browser shows everything the content says.
 */
module HtmlConvert {
  import opened Options
  import opened Exposure
  import opened HtmlContent
  import opened HtmlNodes
  import opened HtmlProtect
  import opened HtmlFragments
  import opened HtmlConverter
  import opened HtmlPromotion
  import opened HtmlTrails

  // ----- The whole conversion -----

  /** Converts the children of a block: everything it says is shown exactly when no space is lost. */
  method ConvertBlock(cs: seq<Content>, first: nat, ignorable: char -> bool) returns (nodes: seq<Node>, next: nat)
    requires !IsIgnorableSpace(ignorable)
    ensures Protected(nodes, cs, first, next, ignorable)
    ensures Rendered(nodes, ignorable) == ContentShown(cs, ignorable) <==> Lossless(cs, ignorable)
    ensures Trail(nodes) == ContentTrail(cs, ignorable)
    decreases cs, 2
  {
    nodes, next := ConvertNodes(cs, first, ignorable);
    var p := new Protector(next, ignorable);
    p.VisitNodes(nodes);
    p.Collapse();
    ProtectionShields(nodes, cs, first, next, ignorable);
    WrappedTrail(nodes, p.flags[..]);
    nodes := Wrapped(nodes, p.flags[..]);
    ShownIffLossless(nodes, cs, first, next, ignorable);
  }

  /** Converts a fragment; the text nodes get ids from `first` on. */
  method ConvertNodes(cs: seq<Content>, first: nat, ignorable: char -> bool) returns (nodes: seq<Node>, next: nat)
    requires !IsIgnorableSpace(ignorable)
    ensures Converted(nodes, MeaningOf(cs, ignorable), first, next, ignorable)
    ensures Trail(nodes) == ContentTrail(cs, ignorable)
    decreases cs, 1
  {
    var converter := new Converter(first, ignorable);
    ThenNothing(MeaningOf(cs, ignorable));
    TrailEnds([], cs, ignorable);
    for i := 0 to |cs|
      invariant fresh(converter) && converter.Valid() && converter.ignorable == ignorable && converter.base == first
      invariant converter.Total().Then(MeaningOf(cs[i..], ignorable)) == MeaningOf(cs, ignorable)
      invariant TrailFrom(converter.trail, cs, i, ignorable) == ContentTrail(cs, ignorable)
    {
      NextMeaning(converter.Total(), cs, i, ignorable);
      NextTrail(converter.trail, cs, i, ignorable);
      Handle(converter, cs[i]);
    }
    ThenNothing(converter.Total());
    TrailEnds(converter.trail, cs, ignorable);
    nodes := converter.Finish();
    next := converter.next;
  }

  lemma NextMeaning(done: Meaning, cs: seq<Content>, i: nat, ignorable: char -> bool)
    requires i < |cs|
    ensures done.Then(MeaningOf(cs[i..], ignorable))
         == done.Then(ElemMeaning(cs[i], ignorable)).Then(MeaningOf(cs[i + 1..], ignorable))
  {
    assert cs[i..][0] == cs[i] && cs[i..][1..] == cs[i + 1..];
    ThenThen(done, ElemMeaning(cs[i], ignorable), MeaningOf(cs[i + 1..], ignorable));
  }

  /** The trail up to `i` and the rest. */
  ghost function TrailFrom(done: seq<Step>, cs: seq<Content>, i: nat, ignorable: char -> bool): seq<Step>
    requires i <= |cs|
  {
    done + ContentTrail(cs[i..], ignorable)
  }

  lemma TrailEnds(done: seq<Step>, cs: seq<Content>, ignorable: char -> bool)
    ensures TrailFrom([], cs, 0, ignorable) == ContentTrail(cs, ignorable)
    ensures TrailFrom(done, cs, |cs|, ignorable) == done
  {
    assert cs[0..] == cs && cs[|cs|..] == [];
  }

  lemma NextTrail(done: seq<Step>, cs: seq<Content>, i: nat, ignorable: char -> bool)
    requires i < |cs|
    ensures TrailFrom(done, cs, i, ignorable) == TrailFrom(done + ElemTrail(cs[i], ignorable), cs, i + 1, ignorable)
  {
    assert cs[i..][0] == cs[i] && cs[i..][1..] == cs[i + 1..];
    Regroup(done, ElemTrail(cs[i], ignorable), ContentTrail(cs[i + 1..], ignorable));
  }

  /** Converts one element. */
  method Handle(converter: Converter, c: Content)
    requires converter.Valid() && !IsIgnorableSpace(converter.ignorable)
    modifies converter
    ensures converter.Valid() && converter.Total() == old(converter.Total()).Then(ElemMeaning(c, converter.ignorable))
    ensures converter.trail == old(converter.trail) + ElemTrail(c, converter.ignorable)
    decreases c, 1
  {
    match c
    case TagElem(tag) =>
      ThenNothing(converter.Total());
      converter.PushTag(tag);
    case SpaceElem =>
      WhiteMeaning(' ', converter.ignorable);
      converter.PushWhite(false);
    case TextElem(t) => converter.HandleText(t);
    case LinebreakElem => converter.PushBreak();
    case HtmlElem(display, kids) => HandleHtml(converter, display, kids);
    case BlockElem(kids) => HandleBlock(converter, kids);
    case ReplacedElem => converter.PushObject(false);
    case FrameElem =>
      // A frame is block-level by default.
      converter.PushObject(true);
  }

  /** An HTML element; blocks are contexts of their own, and all other elements are part of this one. */
  method HandleHtml(converter: Converter, display: Display, kids: seq<Content>)
    requires converter.Valid() && !IsIgnorableSpace(converter.ignorable)
    modifies converter
    ensures converter.Valid()
    ensures converter.Total() == old(converter.Total()).Then(ElemMeaning(HtmlElem(display, kids), converter.ignorable))
    ensures converter.trail == old(converter.trail) + ElemTrail(HtmlElem(display, kids), converter.ignorable)
    decreases kids, 3
  {
    ghost var m := ElemMeaning(HtmlElem(display, kids), converter.ignorable);
    if display.Block? {
      var nodes, next := ConvertBlock(kids, converter.next, converter.ignorable);
      BlockConverted(nodes, kids, converter.next, next, converter.ignorable);
      ElementTrail(nodes, display, kids, converter.ignorable);
      converter.PushElement(BlockNode(nodes), m, next);
    } else {
      var children, next := ConvertNodes(kids, converter.next, converter.ignorable);
      ElementSurrounds(display, children, kids, converter.next, next, converter.ignorable);
      ElementTrail(children, display, kids, converter.ignorable);
      converter.PushElement(ElemNode(display, children), m, next);
    }
  }

  /** A lone element is made block-level; anything else goes into an element that is a block. */
  method HandleBlock(converter: Converter, kids: seq<Content>)
    requires converter.Valid() && !IsIgnorableSpace(converter.ignorable)
    modifies converter
    ensures converter.Valid()
    ensures converter.Total() == old(converter.Total()).Then(ElemMeaning(BlockElem(kids), converter.ignorable))
    ensures converter.trail == old(converter.trail) + ElemTrail(BlockElem(kids), converter.ignorable)
    decreases kids, 3
  {
    var nodes, next := ConvertBlock(kids, converter.next, converter.ignorable);
    match LoneElement(nodes)
    case Some(i) => Promoted(converter, nodes, i, kids, next);
    case None =>
      DivConverted(nodes, kids, converter.next, next, converter.ignorable);
      DivTrail(nodes, kids, converter.ignorable);
      converter.PushElement(BlockNode(nodes), ElemMeaning(BlockElem(kids), converter.ignorable), next);
  }

  /** Pushes a lone element as a block, between the tags around it. */
  method Promoted(converter: Converter, nodes: seq<Node>, i: nat, kids: seq<Content>, next: nat)
    requires converter.Valid() && Protected(nodes, kids, converter.next, next, converter.ignorable)
    requires LoneElement(nodes) == Some(i) && Trail(nodes) == ContentTrail(kids, converter.ignorable)
    modifies converter
    ensures converter.Valid()
    ensures converter.Total() == old(converter.Total()).Then(ElemMeaning(BlockElem(kids), converter.ignorable))
    ensures converter.trail == old(converter.trail) + ElemTrail(BlockElem(kids), converter.ignorable)
  {
    PromotedConverted(nodes, kids, converter.next, next, converter.ignorable);
    LoneAmongTags(nodes);
    PromotedTrail(converter.trail, nodes, i);
    PushTags(converter, nodes[..i]);
    converter.PushElement(MakeBlockLevel(nodes[i]), ElemMeaning(BlockElem(kids), converter.ignorable), next);
    PushTags(converter, nodes[i + 1..]);
  }

  lemma ElementTrail(nodes: seq<Node>, display: Display, kids: seq<Content>, ignorable: char -> bool)
    requires Trail(nodes) == ContentTrail(kids, ignorable)
    ensures var n := if display.Block? then BlockNode(nodes) else ElemNode(display, nodes);
      NodeTrail(n) == ElemTrail(HtmlElem(display, kids), ignorable)
  {
  }

  lemma DivTrail(nodes: seq<Node>, kids: seq<Content>, ignorable: char -> bool)
    requires Trail(nodes) == ContentTrail(kids, ignorable) && !Lone(RawOf(kids, ignorable))
    ensures NodeTrail(BlockNode(nodes)) == ElemTrail(BlockElem(kids), ignorable)
  {
  }

  method PushTags(converter: Converter, tags: seq<Node>)
    requires converter.Valid() && AllTags(tags)
    modifies converter`output, converter`trail
    ensures converter.Valid() && converter.trail == old(converter.trail) + Trail(tags)
  {
    for i := 0 to |tags|
      invariant converter.Valid() && converter.trail + Trail(tags[i..]) == old(converter.trail) + Trail(tags)
    {
      NextTag(converter.trail, tags, i);
      converter.PushTag(tags[i].tag);
    }
  }

  lemma NextTag(done: seq<Step>, tags: seq<Node>, i: nat)
    requires i < |tags| && AllTags(tags)
    ensures tags[i].TagNode? && done + Trail(tags[i..]) == done + [TagStep(tags[i].tag)] + Trail(tags[i + 1..])
  {
    assert tags[i] in tags && tags[i..][1..] == tags[i + 1..];
    Regroup(done, [TagStep(tags[i].tag)], Trail(tags[i + 1..]));
  }

  lemma PromotedTrail(done: seq<Step>, nodes: seq<Node>, i: nat)
    requires i < |nodes|
    ensures done + Trail(nodes)
         == done + Trail(nodes[..i]) + NodeTrail(MakeBlockLevel(nodes[i])) + Trail(nodes[i + 1..])
  {
    TrailSplit(nodes, i);
    PromotedStays(nodes[i]);
    RegroupThree(done, Trail(nodes), Trail(nodes[..i]), NodeTrail(nodes[i]), Trail(nodes[i + 1..]));
  }

  lemma PromotedStays(n: Node)
    ensures NodeTrail(MakeBlockLevel(n)) == NodeTrail(n)
  {
  }

  lemma RegroupThree<T>(done: seq<T>, all: seq<T>, x: seq<T>, y: seq<T>, z: seq<T>)
    requires all == x + y + z
    ensures done + all == done + x + y + z
  {
  }

  lemma TrailSplit(nodes: seq<Node>, i: nat)
    requires i < |nodes|
    ensures Trail(nodes) == Trail(nodes[..i]) + NodeTrail(nodes[i]) + Trail(nodes[i + 1..])
  {
    OneTrail(nodes[..i], nodes[i]);
    TrailAppend(nodes[..i] + [nodes[i]], nodes[i + 1..]);
    assert nodes == nodes[..i] + [nodes[i]] + nodes[i + 1..];
  }

  // ----- When spaces are lost -----

  /** Content in which everything that is displayed as a block has a context of its own. */
  predicate Unboxed(cs: seq<Content>, ignorable: char -> bool) {
    cs == [] || (ElemUnboxed(cs[0], ignorable) && Unboxed(cs[1..], ignorable))
  }

  predicate ElemUnboxed(c: Content, ignorable: char -> bool) {
    match c
    case HtmlElem(display, kids) => (display.Inline? || display.Block?) && Unboxed(kids, ignorable)
    case BlockElem(kids) => !Lone(RawOf(kids, ignorable)) && Unboxed(kids, ignorable)
    case FrameElem => false
    case _ => true
  }

  predicate Unbounded(ks: seq<Kind>) {
    forall i :: 0 <= i < |ks| ==> !ks[i].Bound? && !ks[i].Enter? && !ks[i].Leave?
  }

  predicate UnboundedRaw(raw: seq<Raw>) {
    forall i :: 0 <= i < |raw| ==> raw[i].Elem? ==> Unbounded(raw[i].kinds)
  }

  /** Ordinary content, with text, inline elements, line breaks, paragraphs and images, loses nothing. */
  lemma {:induction false} UnboxedIsLossless(cs: seq<Content>, ignorable: char -> bool)
    requires Unboxed(cs, ignorable)
    ensures Lossless(cs, ignorable)
    decreases cs, 2
  {
    UnboxedIsOpen(cs, ignorable);
    UnboxedBlocksLossless(cs, ignorable);
    UnboundedClassified(false, RawOf(cs, ignorable));
    UnboundedLosesNothing(Classify(RawOf(cs, ignorable)));
  }

  lemma {:induction false} UnboxedIsOpen(cs: seq<Content>, ignorable: char -> bool)
    requires Unboxed(cs, ignorable)
    ensures UnboundedRaw(RawOf(cs, ignorable))
    decreases cs, 1
  {
    if cs != [] {
      ElemIsOpen(cs[0], ignorable);
      UnboxedIsOpen(cs[1..], ignorable);
    }
  }

  lemma {:induction false} ElemIsOpen(c: Content, ignorable: char -> bool)
    requires ElemUnboxed(c, ignorable)
    ensures UnboundedRaw(ElemRaw(c, ignorable))
    decreases c, 0
  {
    match c
    case TextElem(t) => TextIsOpen(t, ignorable);
    case HtmlElem(display, kids) =>
      UnboxedIsOpen(kids, ignorable);
      UnboundedClassified(false, RawOf(kids, ignorable));
    case _ =>
  }

  lemma {:induction false} TextIsOpen(t: string, ignorable: char -> bool)
    ensures UnboundedRaw(TextRaw(t, ignorable))
    decreases |t|
  {
    if t != [] {
      TextIsOpen(t[1..], ignorable);
    }
  }

  lemma {:induction false} UnboundedClassified(afterWhite: bool, raw: seq<Raw>)
    requires UnboundedRaw(raw)
    ensures Unbounded(ClassifyFrom(afterWhite, raw))
    decreases |raw|
  {
    if raw != [] {
      assert UnboundedRaw(raw[1..]) by {
        assert forall i :: 0 <= i < |raw| - 1 ==> raw[1..][i] == raw[i + 1];
      }
      UnboundedClassified(raw[0].White?, raw[1..]);
      assert Unbounded(HeadKinds(afterWhite, raw));
    }
  }

  lemma UnboundedLosesNothing(ks: seq<Kind>)
    requires Unbounded(ks)
    ensures NoneLost(ks, 0)
  {
    forall i | 0 <= i < |ks| ensures !Lost(ks, i) {
      OpensNothing(ks[..i]);
      ClosesNothing(ks[i + 1..]);
    }
  }

  lemma {:induction false} OpensNothing(ks: seq<Kind>)
    requires Unbounded(ks)
    ensures !Opens(ks)
    decreases |ks|
  {
    if ks != [] {
      OpensNothing(ks[..|ks| - 1]);
    }
  }

  lemma {:induction false} ClosesNothing(ks: seq<Kind>)
    requires Unbounded(ks)
    ensures !Closes(ks)
    decreases |ks|
  {
    if ks != [] {
      ClosesNothing(ks[1..]);
    }
  }

  lemma {:induction false} UnboxedBlocksLossless(cs: seq<Content>, ignorable: char -> bool)
    requires Unboxed(cs, ignorable)
    ensures BlocksLossless(cs, ignorable)
    decreases cs, 1
  {
    if cs != [] {
      var c := cs[0];
      match c {
        case HtmlElem(display, kids) =>
          UnboxedIsLossless(kids, ignorable);
        case BlockElem(kids) =>
          UnboxedIsLossless(kids, ignorable);
        case _ =>
      }
      UnboxedBlocksLossless(cs[1..], ignorable);
    }
  }

  lemma RawOfOne(c: Content, ignorable: char -> bool)
    ensures RawOf([c], ignorable) == ElemRaw(c, ignorable)
  {
    assert [c][1..] == [];
    assert RawOf([], ignorable) == [];
  }

  lemma RawOfTwo(c: Content, d: Content, ignorable: char -> bool)
    ensures RawOf([c, d], ignorable) == ElemRaw(c, ignorable) + ElemRaw(d, ignorable)
  {
    assert [c, d][1..] == [d];
    RawOfOne(d, ignorable);
  }

  /** A space before a frame is lost: the converter takes the frame for something that supports it. */
  lemma SpaceBeforeFrameIsLost(ignorable: char -> bool)
    requires !ignorable('a')
    ensures !Lossless([TextElem("a "), FrameElem], ignorable)
  {
    RawOfTwo(TextElem("a "), FrameElem, ignorable);
    TextOf("a ", ignorable);
    SpaceBeforeBlock([Bound, Firm, Bound], RawOf([TextElem("a "), FrameElem], ignorable));
  }

  /** So is a space before a block around a lone inline element. */
  lemma SpaceBeforeLoneElementIsLost(ignorable: char -> bool)
    requires !ignorable('a')
    ensures !Lossless([TextElem("a "), BlockElem([HtmlElem(Inline, [TextElem("a")])])], ignorable)
  {
    var e := HtmlElem(Inline, [TextElem("a")]);
    RawOfTwo(TextElem("a "), BlockElem([e]), ignorable);
    TextOf("a ", ignorable);
    LoneElementKinds(ignorable);
    SpaceBeforeBlock([Bound, Firm, Bound], RawOf([TextElem("a "), BlockElem([e])], ignorable));
  }

  lemma LoneElementKinds(ignorable: char -> bool)
    requires !ignorable('a')
    ensures ElemRaw(BlockElem([HtmlElem(Inline, [TextElem("a")])]), ignorable) == [Elem([Bound, Firm, Bound])]
  {
    var e, inner := HtmlElem(Inline, [TextElem("a")]), [Side, Firm, Side];
    TextOf("a", ignorable);
    RawOfOne(TextElem("a"), ignorable);
    OneRaw(Glyph(false));
    assert Classify(RawOf([TextElem("a")], ignorable)) == [Firm];
    assert Displayed(Inline, [Firm]) == inner;
    assert ElemRaw(e, ignorable) == [Elem(inner)];
    RawOfOne(e, ignorable);
    OneRaw(Elem(inner));
    assert Shield(inner) == inner;
    KindsPromote(Side, [Firm], Side);
    assert [Side] + [Firm] + [Side] == inner && [Bound] + [Firm] + [Bound] == [Bound, Firm, Bound];
  }

  lemma TextOf(t: string, ignorable: char -> bool)
    requires !ignorable('a') && (t == "a" || t == "a ")
    ensures TextRaw(t, ignorable) == if t == "a" then [Glyph(false)] else [Glyph(false), White(false)]
  {
    assert "a"[1..] == [] && "a "[1..] == " " && " "[1..] == [];
    assert TextRaw([], ignorable) == [];
    assert TextRaw(" ", ignorable) == [White(false)];
  }

  /** A single space between text and something displayed as a block that begins with text or an object. */
  lemma SpaceBeforeBlock(ks: seq<Kind>, raw: seq<Raw>)
    requires raw == [Glyph(false), White(false), Elem(ks)] && |ks| > 1 && ks[0] == Bound && ks[1] == Firm
    ensures !NoneLost(Classify(raw), 0)
  {
    ThreeKinds(ks);
    var all := Classify(raw);
    assert all[..1] == [Firm] && all[2..] == ks && ks[1..][0] == Firm;
    assert Closes(all[2..]) && Meets(all[2..]) && Supported(all[..1]);
    assert Lost(all, 1);
  }

  lemma ThreeKinds(ks: seq<Kind>)
    ensures Classify([Glyph(false), White(false), Elem(ks)]) == [Firm, Single] + ks
  {
    var raw := [Glyph(false), White(false), Elem(ks)];
    assert raw[1..] == [White(false), Elem(ks)] && raw[1..][1..] == [Elem(ks)] && [Elem(ks)][1..] == [];
    assert ClassifyFrom(false, []) == [];
    assert ClassifyFrom(true, [Elem(ks)]) == ks;
    assert ClassifyFrom(false, raw[1..]) == [Single] + ks;
  }
}
