/**
 Which names the final document carries. A walk over the document before and after the linking meets
 every id that was given out, at the content that settles a target, together with the label of that
 target; these ids are the names for these labels, in document order.
 */
module LinkNames {
  import opened Options
  import opened Anchors
  import opened Links
  import opened LinkIntegrity

  // ----- The walk -----

  /** Targets that wait for content, the labels that ids were given out for, and these ids. */
  datatype Walk = Walk(waiting: seq<Pending>, asked: seq<Option<string>>, given: seq<string>) {
    function Ask(key: Option<string>, id: string): Walk {
      Walk([], asked + [key], given + [id])
    }

    function Settled(): Walk {
      Walk([], asked, given)
    }
  }

  /** The label of the first waiting target at `loc`. */
  function Awaited(waiting: seq<Pending>, loc: Location): Option<Option<string>> {
    if waiting == [] then None
    else if waiting[0].loc == loc then Some(waiting[0].key)
    else Awaited(waiting[1..], loc)
  }

  /** The id at the front of the attributes. */
  function FrontId(n: Node): string {
    if n.Element? && n.attrs != [] then n.attrs[0].value else ""
  }

  /** Walks over `a` and what became of it; `None` where that is not what it should be. */
  function WalkNodes(doc: Document, a: seq<Node>, b: seq<Node>, w: Walk): Option<Walk>
    decreases a, 1
  {
    if a == [] then if b == [] then Some(w) else None
    else if b == [] then None
    else if a[0].End? && Awaited(w.waiting, a[0].loc).Some? then
      // Nothing came before the end tag, so there is an empty span after it.
      if b[0] == a[0] && |b| > 1 && b[1] == Span(FrontId(b[1]), []) then
        WalkNodes(doc, a[1..], b[2..], w.Ask(Awaited(w.waiting, a[0].loc).value, FrontId(b[1])))
      else None
    else
      var next :- WalkNode(doc, a[0], b[0], w);
      WalkNodes(doc, a[1..], b[1..], next)
  }

  function WalkNode(doc: Document, m: Node, n: Node, w: Walk): Option<Walk>
    decreases m, 0
  {
    match m
    case Start(loc, key) =>
      if n != m then None
      else if loc in doc.targets then Some(w.(waiting := w.waiting + [Pending(loc, key)]))
      else Some(w)
    case End(_) => if n == m then Some(w) else None
    case Text(_) =>
      if w.waiting == [] then if n == m then Some(w) else None
      else if n == Span(FrontId(n), [m]) then Some(w.Ask(w.waiting[0].key, FrontId(n)))
      else None
    case Element(tag, attrs, children) =>
      if !n.Element? || n.tag != tag then None
      else if w.waiting == [] || IdOf(attrs).Some? then
        if n.attrs == attrs then WalkNodes(doc, children, n.children, w.Settled()) else None
      else if n.attrs == [Attribute("id", FrontId(n))] + attrs then
        WalkNodes(doc, children, n.children, w.Ask(w.waiting[0].key, FrontId(n)))
      else None
    case Frame(id, inner, anchors) =>
      if !n.Frame? || n.inner != inner || !(anchors <= n.anchors) then None
      else
        var own :- WalkId(id, n.id, w);
        var rest :- WalkFrame(doc, inner, Framed(n.anchors[|anchors|..], own));
        if rest.anchors == [] then Some(rest.w) else None
  }

  function WalkId(id: Option<string>, final: Option<string>, w: Walk): Option<Walk> {
    if w.waiting == [] || id.Some? then if final == id then Some(w.Settled()) else None
    else if final.Some? then Some(w.Ask(w.waiting[0].key, final.value))
    else None
  }

  /** The anchors that are still to be explained. */
  datatype Framed = Framed(anchors: seq<Anchor>, w: Walk)

  function WalkFrame(doc: Document, items: seq<FrameItem>, f: Framed): Option<Framed>
    decreases items
  {
    if items == [] then Some(f)
    else
      var next :- WalkItem(doc, items[0], f);
      WalkFrame(doc, items[1..], next)
  }

  function WalkItem(doc: Document, item: FrameItem, f: Framed): Option<Framed>
    decreases item
  {
    match item
    case Started(loc, key) =>
      if loc !in doc.targets || loc !in doc.points then Some(f)
      else if f.anchors != [] && f.anchors[0].point == doc.points[loc] then
        Some(Framed(f.anchors[1..], Walk(f.w.waiting, f.w.asked + [key], f.w.given + [f.anchors[0].id])))
      else None
    case Group(items) => WalkFrame(doc, items, f)
    case Drawing => Some(f)
  }

  // ----- The walk succeeds -----

  /** The walk has met what the linker has done. */
  ghost predicate Agrees(doc: Document, s: State, w: Walk) {
    w.waiting == s.queue && IdentifyAll(doc.labels, w.asked) == Run(w.given, s.g)
  }

  ghost predicate Arrives(doc: Document, w: Option<Walk>, s: State) {
    w.Some? && Agrees(doc, s, w.value)
  }

  lemma OneMore(labels: Labels, asked: seq<Option<string>>, key: Option<string>)
    ensures var prev := IdentifyAll(labels, asked);
      var (name, g) := Identified(labels, prev.g, key);
      IdentifyAll(labels, asked + [key]) == Run(prev.names + [name], g)
  {
    assert (asked + [key])[..|asked|] == asked;
  }

  lemma AskAgrees(doc: Document, s: State, w: Walk, key: Option<string>, ids: map<Location, string>)
    requires Agrees(doc, s, w)
    ensures var (id, g) := Identified(doc.labels, s.g, key);
      Agrees(doc, State([], ids, g), w.Ask(key, id))
  {
    OneMore(doc.labels, w.asked, key);
  }

  lemma {:induction false} AwaitedIs(queue: seq<Pending>, loc: Location)
    ensures Awaited(queue, loc)
         == match IndexOf(queue, loc) case None => None case Some(i) => Some(queue[i].key)
  {
    if queue != [] {
      AwaitedIs(queue[1..], loc);
    }
  }

  lemma {:induction false} LinkWalks(doc: Document, nodes: seq<Node>, s: State, w: Walk)
    requires Agrees(doc, s, w)
    ensures Arrives(doc, WalkNodes(doc, nodes, Link(doc, nodes, s).nodes, w), Link(doc, nodes, s).s)
    decreases Weight(nodes), 1
  {
    if nodes != [] {
      var n, rest := nodes[0], nodes[1..];
      assert nodes == [n] + rest && Weight(nodes) == ItemWeight(n) + Weight(rest);
      if n.End? && IndexOf(s.queue, n.loc).Some? {
        EndWalks(doc, n.loc, rest, s, w);
      } else {
        if n.End? {
          AwaitedIs(s.queue, n.loc);
        }
        VisitReads(doc, n, s);
        VisitWalks(doc, n, s, w);
        var v := Visit(doc, n, s);
        LinkWalks(doc, rest, v.s, WalkNode(doc, n, v.node, w).value);
        OthersWalk(doc, n, rest, s, w);
      }
    }
  }

  lemma OthersWalk(doc: Document, n: Node, rest: seq<Node>, s: State, w: Walk)
    requires n.End? ==> Awaited(w.waiting, n.loc).None?
    requires var v := Visit(doc, n, s);
      && v.after == [] && WalkNode(doc, n, v.node, w).Some?
      && Arrives(doc, WalkNodes(doc, rest, Link(doc, rest, v.s).nodes, WalkNode(doc, n, v.node, w).value),
                 Link(doc, rest, v.s).s)
    ensures var r := Link(doc, [n] + rest, s); Arrives(doc, WalkNodes(doc, [n] + rest, r.nodes, w), r.s)
  {
    var v := Visit(doc, n, s);
    LinkUnfolds(doc, n, rest, s);
    assert v.after + rest == rest;
    var out := Link(doc, rest, v.s).nodes;
    assert ([n] + rest)[1..] == rest && ([v.node] + out)[1..] == out;
  }

  lemma {:induction false} EndWalks(doc: Document, loc: Location, rest: seq<Node>, s: State, w: Walk)
    requires Agrees(doc, s, w) && IndexOf(s.queue, loc).Some?
    ensures var r := Link(doc, [End(loc)] + rest, s); Arrives(doc, WalkNodes(doc, [End(loc)] + rest, r.nodes, w), r.s)
    decreases Weight(rest), 2
  {
    var i := IndexOf(s.queue, loc).value;
    var key := s.queue[i].key;
    var (id, g) := Identified(doc.labels, s.g, key);
    var ids := PutAll(s.ids[loc := id], Without(s.queue, i), id);
    var t := State([], ids, g);
    AwaitedIs(s.queue, loc);
    EndUnfolds(doc, loc, rest, s);
    AskAgrees(doc, s, w, key, ids);
    LinkWalks(doc, rest, t, w.Ask(key, id));
    var out := Link(doc, rest, t).nodes;
    var b := [End(loc), Span(id, [])] + out;
    assert ([End(loc)] + rest)[1..] == rest && b[2..] == out && b[1] == Span(id, []);
  }

  lemma {:induction false} VisitWalks(doc: Document, n: Node, s: State, w: Walk)
    requires Agrees(doc, s, w) && (n.End? ==> IndexOf(s.queue, n.loc).None?)
    ensures Arrives(doc, WalkNode(doc, n, Visit(doc, n, s).node, w), Visit(doc, n, s).s)
    decreases ItemWeight(n), 0
  {
    match n {
      case Start(loc, key) =>
      case End(loc) =>
      case Text(_) =>
        if s.queue != [] {
          AskAgrees(doc, s, w, s.queue[0].key, Settle(doc, s, None).1.ids);
        }
      case Element(_, _, _) => ElementWalks(doc, n, s, w);
      case Frame(_, _, _) => WholeFrameWalks(doc, n, s, w);
    }
  }

  lemma {:induction false} ElementWalks(doc: Document, n: Node, s: State, w: Walk)
    requires n.Element? && Agrees(doc, s, w)
    ensures Arrives(doc, WalkNode(doc, n, Visit(doc, n, s).node, w), Visit(doc, n, s).s)
    decreases Weight(n.children), 2
  {
    if s.queue == [] {
      assert w.Settled() == w;
      LinkWalks(doc, n.children, s, w);
    } else if IdOf(n.attrs).Some? {
      var t := Settle(doc, s, IdOf(n.attrs)).1;
      LinkWalks(doc, n.children, t, w.Settled());
    } else {
      var (id, t) := Settle(doc, s, None);
      AskAgrees(doc, s, w, s.queue[0].key, t.ids);
      LinkWalks(doc, n.children, t, w.Ask(s.queue[0].key, id));
    }
  }

  lemma WholeFrameWalks(doc: Document, n: Node, s: State, w: Walk)
    requires n.Frame? && Agrees(doc, s, w)
    ensures Arrives(doc, WalkNode(doc, n, Visit(doc, n, s).node, w), Visit(doc, n, s).s)
  {
    var t, own := s, w.Settled();
    if s.queue != [] {
      t := Settle(doc, s, n.id).1;
      if n.id.None? {
        AskAgrees(doc, s, w, s.queue[0].key, t.ids);
        own := w.Ask(s.queue[0].key, Settle(doc, s, n.id).0);
      }
    }
    FrameWalks(doc, n.inner, n.anchors, t, own, []);
    var added := LinkFrame(doc, n.inner, n.anchors, t).0[|n.anchors|..];
    assert added + [] == added;
  }

  ghost predicate FrameArrives(doc: Document, f: Option<Framed>, tail: seq<Anchor>, s: State) {
    f.Some? && f.value.anchors == tail && Agrees(doc, s, f.value.w)
  }

  lemma {:induction false} FrameWalks(doc: Document, items: seq<FrameItem>, anchors: seq<Anchor>, s: State, w: Walk,
                                      tail: seq<Anchor>)
    requires Agrees(doc, s, w)
    ensures var (anchors', s') := LinkFrame(doc, items, anchors, s);
      && anchors <= anchors'
      && FrameArrives(doc, WalkFrame(doc, items, Framed(anchors'[|anchors|..] + tail, w)), tail, s')
    decreases items
  {
    if items == [] {
      assert [] + tail == tail;
    } else {
      var (mid, s1) := LinkFrameItem(doc, items[0], anchors, s);
      var (end, s2) := LinkFrame(doc, items[1..], mid, s1);
      ItemGrows(doc, items[0], anchors, s);
      FrameGrows(doc, items[1..], mid, s1);
      var more := end[|mid|..] + tail;
      ItemWalks(doc, items[0], anchors, s, w, more);
      var f := WalkItem(doc, items[0], Framed(mid[|anchors|..] + more, w));
      FrameWalks(doc, items[1..], mid, s1, f.value.w, tail);
      assert end[|anchors|..] + tail == mid[|anchors|..] + more;
    }
  }

  lemma {:induction false} ItemWalks(doc: Document, item: FrameItem, anchors: seq<Anchor>, s: State, w: Walk,
                                     tail: seq<Anchor>)
    requires Agrees(doc, s, w)
    ensures var (anchors', s') := LinkFrameItem(doc, item, anchors, s);
      && anchors <= anchors'
      && FrameArrives(doc, WalkItem(doc, item, Framed(anchors'[|anchors|..] + tail, w)), tail, s')
    decreases item
  {
    match item {
      case Started(loc, key) =>
        if loc in doc.targets && loc in doc.points {
          OneMore(doc.labels, w.asked, key);
          var anchor := Anchor(doc.points[loc], Identified(doc.labels, s.g, key).0);
          assert (anchors + [anchor])[|anchors|..] + tail == [anchor] + tail;
          assert ([anchor] + tail)[1..] == tail;
        } else {
          assert anchors[|anchors|..] + tail == tail;
        }
      case Group(items) => FrameWalks(doc, items, anchors, s, w, tail);
      case Drawing => assert anchors[|anchors|..] + tail == tail;
    }
  }

  lemma {:induction false} FrameGrows(doc: Document, items: seq<FrameItem>, anchors: seq<Anchor>, s: State)
    ensures anchors <= LinkFrame(doc, items, anchors, s).0
    decreases items
  {
    if items != [] {
      ItemGrows(doc, items[0], anchors, s);
      var (mid, s1) := LinkFrameItem(doc, items[0], anchors, s);
      FrameGrows(doc, items[1..], mid, s1);
    }
  }

  lemma {:induction false} ItemGrows(doc: Document, item: FrameItem, anchors: seq<Anchor>, s: State)
    ensures anchors <= LinkFrameItem(doc, item, anchors, s).0
    decreases item
  {
    if item.Group? {
      FrameGrows(doc, item.items, anchors, s);
    }
  }

  // ----- The names in the final document -----

  const START := Walk([], [], [])

  /** The ids that were given out are the names for the labels of the settled targets, in document order. */
  lemma GivenAreNames(doc: Document, nodes: seq<Node>)
    ensures var r := Link(doc, nodes, NOTHING);
      var w := WalkNodes(doc, nodes, r.nodes, START);
      && w.Some? && w.value.waiting == r.s.queue
      && w.value.given == IdentifyAll(doc.labels, w.value.asked).names
  {
    LinkWalks(doc, nodes, NOTHING, START);
  }

  /** They are distinct exactly when no repeated label `loc` meets a target without a usable label. */
  lemma GivenAreDistinctIff(doc: Document, nodes: seq<Node>)
    requires var w := WalkNodes(doc, nodes, Link(doc, nodes, NOTHING).nodes, START);
      w.Some? && EachOnce(doc.labels, w.value.asked)
    ensures var w := WalkNodes(doc, nodes, Link(doc, nodes, NOTHING).nodes, START).value;
      Distinct(w.given) <==> !HasClash(doc.labels, w.asked)
  {
    GivenAreNames(doc, nodes);
    DistinctIffNoClash(doc.labels, WalkNodes(doc, nodes, Link(doc, nodes, NOTHING).nodes, START).value.asked);
  }
}
