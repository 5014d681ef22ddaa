/**
 The trail of a document: everything in it from beginning to end, with the tags between the characters,
 objects and elements.
 */
module HtmlTrails {
  import opened CssText
  import opened HtmlContent
  import opened HtmlNodes

  /** A tag, a character, line break or object, or a point where an element begins or ends. */
  datatype Step = TagStep(tag: nat) | LeafStep(leaf: Shown) | OpenStep | CloseStep

  function Leaves(said: seq<Shown>): (steps: seq<Step>)
    ensures |steps| == |said| && forall i :: 0 <= i < |said| ==> steps[i] == LeafStep(said[i])
  {
    seq(|said|, i requires 0 <= i < |said| => LeafStep(said[i]))
  }

  /** A block is an element unless it stands for the lone element in it. */
  function ContentTrail(cs: seq<Content>, ignorable: char -> bool): seq<Step> {
    if cs == [] then [] else ElemTrail(cs[0], ignorable) + ContentTrail(cs[1..], ignorable)
  }

  function ElemTrail(c: Content, ignorable: char -> bool): seq<Step> {
    match c
    case TagElem(tag) => [TagStep(tag)]
    case SpaceElem => [LeafStep(Char(' '))]
    case TextElem(t) => Leaves(TextShown(t))
    case LinebreakElem => [LeafStep(LineBreak)]
    case HtmlElem(_, kids) => [OpenStep] + ContentTrail(kids, ignorable) + [CloseStep]
    case BlockElem(kids) =>
      var inner := ContentTrail(kids, ignorable);
      if Lone(RawOf(kids, ignorable)) then inner else [OpenStep] + inner + [CloseStep]
    case ReplacedElem | FrameElem => [LeafStep(Object)]
  }

  /** Spans are there for white space only. */
  function Trail(nodes: seq<Node>): seq<Step> {
    if nodes == [] then [] else NodeTrail(nodes[0]) + Trail(nodes[1..])
  }

  function NodeTrail(n: Node): seq<Step> {
    match n
    case TagNode(tag) => [TagStep(tag)]
    case TextNode(text, _) => Leaves(Chars(text))
    case SpanNode(_, leaves) => Trail(leaves)
    case ElemNode(_, children) => [OpenStep] + Trail(children) + [CloseStep]
    case BrNode => [LeafStep(LineBreak)]
    case BlockNode(children) => [OpenStep] + Trail(children) + [CloseStep]
    case ObjectNode(_) => [LeafStep(Object)]
  }

  lemma {:induction false} TrailAppend(a: seq<Node>, b: seq<Node>)
    ensures Trail(a + b) == Trail(a) + Trail(b)
  {
    if a == [] {
      assert a + b == b;
    } else {
      assert (a + b)[1..] == a[1..] + b;
      TrailAppend(a[1..], b);
    }
  }

  lemma OneTrail(nodes: seq<Node>, n: Node)
    ensures Trail([n]) == NodeTrail(n) && Trail(nodes + [n]) == Trail(nodes) + NodeTrail(n)
  {
    assert [n][1..] == [];
    TrailAppend(nodes, [n]);
  }

  /** Wrapping white space at the end leaves the trail as it is. */
  lemma SpanTrail(nodes: seq<Node>, from: nat)
    requires from <= |nodes|
    ensures Trail(nodes[..from] + [SpanNode(false, nodes[from..])]) == Trail(nodes)
  {
    assert nodes == nodes[..from] + nodes[from..];
    TrailAppend(nodes[..from], nodes[from..]);
    OneTrail(nodes[..from], SpanNode(false, nodes[from..]));
  }

  lemma LeavesAppend(a: seq<Shown>, b: seq<Shown>)
    ensures Leaves(a + b) == Leaves(a) + Leaves(b)
  {
  }
}
