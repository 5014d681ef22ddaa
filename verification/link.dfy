/**
 Link targets: every element that something links to gets an id, on the first content after its start
 tag. The node list grows while it is traversed.
 */
module Links {
  import opened Options
  import opened Anchors

  type Location = nat

  datatype Point = Point(x: real, y: real)

  datatype Anchor = Anchor(point: Point, id: string)

  datatype Attribute = Attribute(name: string, value: string)

  datatype FrameItem = Started(loc: Location, key: Option<string>) | Group(items: seq<FrameItem>) | Drawing

  datatype Node =
    | Start(loc: Location, key: Option<string>)
    | End(loc: Location)
    | Text(text: string)
    | Element(tag: string, attrs: seq<Attribute>, children: seq<Node>)
    | Frame(id: Option<string>, inner: seq<FrameItem>, anchors: seq<Anchor>)

  /** What is linked to, where targets within frames are, and the labels of the document. */
  datatype Document = Document(targets: set<Location>, points: map<Location, Point>, labels: Labels)

  datatype Pending = Pending(loc: Location, key: Option<string>)

  datatype State = State(queue: seq<Pending>, ids: map<Location, string>, g: Counters)

  // ----- Elements -----

  function IdOf(attrs: seq<Attribute>): Option<string> {
    if attrs == [] then None else if attrs[0].name == "id" then Some(attrs[0].value) else IdOf(attrs[1..])
  }

  function WithId(attrs: seq<Attribute>, id: string): (r: seq<Attribute>)
    ensures IdOf(attrs).None? ==> IdOf(r) == Some(id)
    ensures IdOf(attrs).Some? ==> r == attrs
  {
    if IdOf(attrs).Some? then attrs else [Attribute("id", id)] + attrs
  }

  function Span(id: string, children: seq<Node>): Node { Element("span", [Attribute("id", id)], children) }

  // ----- Work -----

  function PutAll(ids: map<Location, string>, queue: seq<Pending>, id: string): map<Location, string>
    decreases queue
  {
    if queue == [] then ids else PutAll(ids[queue[0].loc := id], queue[1..], id)
  }

  /** The id for what is pending: the one already there, or a new one for the first in the queue. */
  function Settle(doc: Document, s: State, existing: Option<string>): (string, State)
    requires s.queue != []
  {
    var (id, g) := if existing.Some? then (existing.value, s.g) else Identified(doc.labels, s.g, s.queue[0].key);
    (id, State([], PutAll(s.ids, s.queue, id), g))
  }

  function IndexOf(queue: seq<Pending>, loc: Location): (i: Option<nat>)
    ensures i.None? <==> forall j :: 0 <= j < |queue| ==> queue[j].loc != loc
    ensures i.Some? ==> i.value < |queue| && queue[i.value].loc == loc
  {
    if queue == [] then None
    else if queue[0].loc == loc then Some(0)
    else
      var i := IndexOf(queue[1..], loc);
      if i.None? then None else Some(i.value + 1)
  }

  function Without(queue: seq<Pending>, i: nat): seq<Pending>
    requires i < |queue|
  {
    queue[..i] + queue[i + 1..]
  }

  // ----- The traversal as a function -----

  function ItemWeight(n: Node): nat
    decreases n
  {
    match n
    case End(_) => 2
    case Element(_, _, children) => 1 + Weight(children)
    case _ => 1
  }

  /** End tags count twice, for the span that may follow. */
  function Weight(nodes: seq<Node>): nat
    decreases nodes
  {
    if nodes == [] then 0 else ItemWeight(nodes[0]) + Weight(nodes[1..])
  }

  datatype Linked = Linked(nodes: seq<Node>, s: State)

  function LinkFrameItem(doc: Document, item: FrameItem, anchors: seq<Anchor>, s: State): (seq<Anchor>, State)
    decreases item
  {
    match item
    case Started(loc, key) =>
      if loc in doc.targets && loc in doc.points then
        var (id, g) := Identified(doc.labels, s.g, key);
        (anchors + [Anchor(doc.points[loc], id)], s.(ids := s.ids[loc := id], g := g))
      else (anchors, s)
    case Group(items) => LinkFrame(doc, items, anchors, s)
    case Drawing => (anchors, s)
  }

  function LinkFrame(doc: Document, items: seq<FrameItem>, anchors: seq<Anchor>, s: State): (seq<Anchor>, State)
    decreases items
  {
    if items == [] then (anchors, s)
    else
      var (anchors1, s1) := LinkFrameItem(doc, items[0], anchors, s);
      LinkFrame(doc, items[1..], anchors1, s1)
  }

  /** What becomes of a node, and what is inserted after it. */
  datatype Visited = Visited(node: Node, after: seq<Node>, s: State)

  function Visit(doc: Document, n: Node, s: State): (v: Visited)
    ensures Weight(v.after) < ItemWeight(n) && |v.after| <= 1
    decreases ItemWeight(n), 0
  {
    match n
    case Start(loc, key) =>
      Visited(n, [], if loc in doc.targets then s.(queue := s.queue + [Pending(loc, key)]) else s)
    case End(loc) =>
      var i := IndexOf(s.queue, loc);
      if i.None? then Visited(n, [], s)
      else
        var (id, g) := Identified(doc.labels, s.g, s.queue[i.value].key);
        Visited(n, [Span(id, [])], State(Without(s.queue, i.value), s.ids[loc := id], g))
    case Text(_) =>
      if s.queue == [] then Visited(n, [], s)
      else
        var (id, s1) := Settle(doc, s, None);
        Visited(Span(id, [n]), [], s1)
    case Element(tag, attrs, children) =>
      var (attrs1, s1) :=
        if s.queue == [] then (attrs, s) else var (id, s1) := Settle(doc, s, IdOf(attrs)); (WithId(attrs, id), s1);
      var inside := Link(doc, children, s1);
      Visited(Element(tag, attrs1, inside.nodes), [], inside.s)
    case Frame(id, inner, anchors) =>
      var (id1, s1) := if s.queue == [] then (id, s) else var (i, s1) := Settle(doc, s, id); (Some(i), s1);
      var (anchors2, s2) := LinkFrame(doc, inner, anchors, s1);
      Visited(Frame(id1, inner, anchors2), [], s2)
  }

  /** The list as it grows: what is inserted is visited next. */
  function Link(doc: Document, nodes: seq<Node>, s: State): Linked
    decreases Weight(nodes), 1
  {
    if nodes == [] then Linked([], s)
    else
      var v := Visit(doc, nodes[0], s);
      WeightInsert(v.after, nodes[1..]);
      var r := Link(doc, v.after + nodes[1..], v.s);
      Linked([v.node] + r.nodes, r.s)
  }

  /** One step of the loop: `done` is visited, `todo` is not. */
  lemma LinkStep(doc: Document, done: seq<Node>, todo: seq<Node>, s: State)
    requires todo != []
    ensures var v := Visit(doc, todo[0], s);
            var r := Link(doc, v.after + todo[1..], v.s);
            && Weight(v.after + todo[1..]) < Weight(todo)
            && Link(doc, todo, s).s == r.s
            && done + Link(doc, todo, s).nodes == (done + [v.node]) + r.nodes
  {
    var v := Visit(doc, todo[0], s);
    WeightInsert(v.after, todo[1..]);
    var r := Link(doc, v.after + todo[1..], v.s);
    assert done + ([v.node] + r.nodes) == (done + [v.node]) + r.nodes;
  }

  /** Replaces the node at `i` and inserts after it. */
  function Grown(nodes: seq<Node>, i: nat, node: Node, after: seq<Node>): (r: seq<Node>)
    requires i < |nodes|
    ensures |r| == |nodes| + |after|
    ensures r[..i + 1] == nodes[..i] + [node]
    ensures r[i + 1..] == after + nodes[i..][1..]
  {
    nodes[..i] + [node] + after + nodes[i + 1..]
  }

  lemma WeightInsert(after: seq<Node>, rest: seq<Node>)
    requires |after| <= 1
    ensures Weight(after + rest) == Weight(after) + Weight(rest)
  {
    if after == [] {
      assert after + rest == rest;
    } else {
      assert (after + rest)[1..] == rest;
    }
  }

  // ----- The traversal in place -----

  /** What is waiting for an id, and the ids given out. */
  class Work {
    var queue: seq<Pending>
    var ids: map<Location, string>

    constructor ()
      ensures queue == [] && ids == map[]
    {
      queue, ids := [], map[];
    }

    method Enqueue(loc: Location, key: Option<string>)
      modifies this
      ensures queue == old(queue) + [Pending(loc, key)] && ids == old(ids)
    {
      queue := queue + [Pending(loc, key)];
    }

    /** Maps everything that is waiting to `id`. */
    method Drain(id: string)
      modifies this
      ensures queue == [] && ids == PutAll(old(ids), old(queue), id)
    {
      while queue != []
        invariant PutAll(ids, queue, id) == old(PutAll(ids, queue, id))
        decreases |queue|
      {
        ids := ids[queue[0].loc := id];
        queue := queue[1..];
      }
    }

    /** Takes one target out of the queue. */
    method Remove(loc: Location) returns (found: Option<Pending>)
      modifies this
      ensures ids == old(ids)
      ensures var i := IndexOf(old(queue), loc);
              && (i.None? ==> found.None? && queue == old(queue))
              && (i.Some? ==> found == Some(old(queue)[i.value]) && queue == Without(old(queue), i.value))
    {
      var i := 0;
      while i < |queue| && queue[i].loc != loc
        invariant 0 <= i <= |queue| && queue == old(queue)
        invariant IndexOf(queue[i..], loc).None? <==> IndexOf(queue, loc).None?
        invariant IndexOf(queue[i..], loc).Some? ==> IndexOf(queue, loc) == Some(i + IndexOf(queue[i..], loc).value)
      {
        i := i + 1;
      }
      if i == |queue| {
        return None;
      }
      found := Some(queue[i]);
      queue := queue[..i] + queue[i + 1..];
    }
  }

  class Linker {
    const doc: Document
    const work: Work
    const generator: AnchorGenerator

    ghost predicate Valid() {
      generator.labels == doc.labels
    }

    function Now(): State
      reads work, generator
    {
      State(work.queue, work.ids, generator.State())
    }

    constructor (doc: Document)
      ensures Valid() && fresh(work) && fresh(generator) && this.doc == doc
      ensures Now() == State([], map[], Counters(0, map[]))
    {
      this.doc := doc;
      this.work := new Work();
      this.generator := new AnchorGenerator(doc.labels);
    }

    /** The id for a node that may have one already; settles what is waiting. */
    method Assign(existing: Option<string>) returns (id: string)
      requires Valid() && work.queue != []
      modifies work, generator
      ensures (id, Now()) == Settle(doc, old(Now()), existing)
    {
      if existing.Some? {
        id := existing.value;
      } else {
        id := generator.Identify(work.queue[0].key);
      }
      work.Drain(id);
    }

    method Traverse(input: seq<Node>) returns (nodes: seq<Node>)
      requires Valid()
      modifies work, generator
      ensures Linked(nodes, Now()) == Link(doc, input, old(Now()))
      decreases Weight(input), 1
    {
      nodes := input;
      var i := 0;
      while i < |nodes|
        invariant 0 <= i <= |nodes|
        invariant Weight(nodes[i..]) <= Weight(input)
        invariant var r := Link(doc, nodes[i..], Now());
                  Link(doc, input, old(Now())) == Linked(nodes[..i] + r.nodes, r.s)
        decreases Weight(nodes[i..])
      {
        LinkStep(doc, nodes[..i], nodes[i..], Now());
        var node, after := VisitNode(nodes[i]);
        nodes := Grown(nodes, i, node, after);
        i := i + 1;
      }
      assert nodes[..i] == nodes;
    }

    /** Changes one node, and says what to insert after it. */
    method VisitNode(n: Node) returns (node: Node, after: seq<Node>)
      requires Valid()
      modifies work, generator
      ensures Visited(node, after, Now()) == Visit(doc, n, old(Now()))
      decreases ItemWeight(n), 0
    {
      node, after := n, [];
      match n {
        case Start(loc, key) =>
          if loc in doc.targets {
            work.Enqueue(loc, key);
          }
        case End(loc) =>
          var found := work.Remove(loc);
          if found.Some? {
            var id := generator.Identify(found.value.key);
            after := [Span(id, [])];
            work.ids := work.ids[loc := id];
          }
        case Element(tag, attrs, children) =>
          var attrs' := attrs;
          if work.queue != [] {
            var id := Assign(IdOf(attrs));
            attrs' := WithId(attrs, id);
          }
          var children' := Traverse(children);
          node := Element(tag, attrs', children');
        case Text(_) =>
          if work.queue != [] {
            var id := Assign(None);
            node := Span(id, [n]);
          }
        case Frame(id, inner, anchors) =>
          var id' := id;
          if work.queue != [] {
            var chosen := Assign(id);
            id' := Some(chosen);
          }
          var anchors' := TraverseFrame(inner, anchors);
          node := Frame(id', inner, anchors');
      }
    }

    method TraverseFrame(items: seq<FrameItem>, input: seq<Anchor>) returns (anchors: seq<Anchor>)
      requires Valid()
      modifies work, generator
      ensures (anchors, Now()) == LinkFrame(doc, items, input, old(Now()))
      decreases items
    {
      anchors := input;
      var i := 0;
      while i < |items|
        invariant 0 <= i <= |items|
        invariant LinkFrame(doc, items[i..], anchors, Now()) == LinkFrame(doc, items, input, old(Now()))
      {
        match items[i] {
          case Started(loc, key) =>
            if loc in doc.targets && loc in doc.points {
              var id := generator.Identify(key);
              work.ids := work.ids[loc := id];
              anchors := anchors + [Anchor(doc.points[loc], id)];
            }
          case Group(inner) => anchors := TraverseFrame(inner, anchors);
          case Drawing =>
        }
        assert items[i..][1..] == items[i + 1..];
        i := i + 1;
      }
    }
  }

  const NOTHING := State([], map[], Counters(0, map[]))

  /** Gives ids to everything that is linked to; without targets there is nothing to do. */
  method CreateLinkAnchors(doc: Document, input: seq<Node>) returns (nodes: seq<Node>, ids: map<Location, string>)
    ensures var r := Link(doc, input, NOTHING); nodes == r.nodes && ids == r.s.ids
  {
    if doc.targets == {} {
      NothingToDo(doc, input, NOTHING);
      return input, map[];
    }
    var linker := new Linker(doc);
    nodes := linker.Traverse(input);
    ids := linker.work.ids;
  }

  lemma {:induction false} NothingToDo(doc: Document, nodes: seq<Node>, s: State)
    requires doc.targets == {} && s.queue == []
    ensures Link(doc, nodes, s) == Linked(nodes, s)
    decreases nodes, 1
  {
    if nodes != [] {
      NothingAtNode(doc, nodes[0], s);
      assert [] + nodes[1..] == nodes[1..];
      NothingToDo(doc, nodes[1..], s);
    }
  }

  lemma {:induction false} NothingAtNode(doc: Document, n: Node, s: State)
    requires doc.targets == {} && s.queue == []
    ensures Visit(doc, n, s) == Visited(n, [], s)
    decreases n, 0
  {
    match n {
      case Element(_, _, children) => NothingToDo(doc, children, s);
      case Frame(_, inner, anchors) => NothingInFrame(doc, inner, anchors, s);
      case _ =>
    }
  }

  lemma {:induction false} NothingInFrame(doc: Document, items: seq<FrameItem>, anchors: seq<Anchor>, s: State)
    requires doc.targets == {}
    ensures LinkFrame(doc, items, anchors, s) == (anchors, s)
    decreases items
  {
    if items != [] {
      if items[0].Group? {
        NothingInFrame(doc, items[0].items, anchors, s);
      }
      NothingInFrame(doc, items[1..], anchors, s);
    }
  }
}
