/**
 What a reader of the final document finds: the id of a target is on the first content after its start
 tag. The map of ids is exactly what this reading gives, and text and tags are where they were.
 */
module LinkIntegrity {
  import opened Options
  import opened Anchors
  import opened Links

  // ----- Reading ids off a document -----

  datatype Event =
    | Opens(loc: Location)
    | Closes(loc: Location)
    | Content(id: Option<string>)
    | Jumps(locs: seq<Location>, anchors: seq<Anchor>)

  /** Targets in a frame, in document order. */
  function FrameTargets(doc: Document, items: seq<FrameItem>): seq<Location>
    decreases items
  {
    if items == [] then []
    else ItemTargets(doc, items[0]) + FrameTargets(doc, items[1..])
  }

  function ItemTargets(doc: Document, item: FrameItem): seq<Location>
    decreases item
  {
    match item
    case Started(loc, _) => if loc in doc.targets && loc in doc.points then [loc] else []
    case Group(items) => FrameTargets(doc, items)
    case Drawing => []
  }

  function LastOf(anchors: seq<Anchor>, n: nat): seq<Anchor> {
    if n <= |anchors| then anchors[|anchors| - n..] else []
  }

  function EventsOf(doc: Document, n: Node): seq<Event>
    decreases n
  {
    match n
    case Start(loc, _) => [Opens(loc)]
    case End(loc) => [Closes(loc)]
    case Text(_) => [Content(None)]
    case Element(_, attrs, children) => [Content(IdOf(attrs))] + Events(doc, children)
    case Frame(id, inner, anchors) =>
      var locs := FrameTargets(doc, inner);
      [Content(id), Jumps(locs, LastOf(anchors, |locs|))]
  }

  function Events(doc: Document, nodes: seq<Node>): seq<Event>
    decreases nodes
  {
    if nodes == [] then [] else EventsOf(doc, nodes[0]) + Events(doc, nodes[1..])
  }

  /** Targets whose start tag was met, with no content since; and where the others are. */
  datatype Reader = Reader(waiting: seq<Location>, ids: map<Location, string>)

  function Put(ids: map<Location, string>, locs: seq<Location>, id: string): map<Location, string> {
    ids + map l | l in locs :: id
  }

  function PutEach(ids: map<Location, string>, locs: seq<Location>, anchors: seq<Anchor>): map<Location, string>
    decreases locs
  {
    if locs == [] || anchors == [] then ids else PutEach(ids[locs[0] := anchors[0].id], locs[1..], anchors[1..])
  }

  function ReadEvent(doc: Document, e: Event, r: Reader): Reader {
    match e
    case Opens(loc) => if loc in doc.targets then r.(waiting := r.waiting + [loc]) else r
    case Closes(_) => r
    case Content(None) => r
    case Content(Some(id)) => Reader([], Put(r.ids, r.waiting, id))
    case Jumps(locs, anchors) => r.(ids := PutEach(r.ids, locs, anchors))
  }

  function Read(doc: Document, events: seq<Event>, r: Reader): Reader {
    if events == [] then r else Read(doc, events[1..], ReadEvent(doc, events[0], r))
  }

  /** Content after a waiting target has an id; an element that closes while waiting is followed by such content. */
  predicate Served(doc: Document, events: seq<Event>, r: Reader) {
    events != [] ==>
      && (events[0].Content? && r.waiting != [] ==> events[0].id.Some?)
      && (events[0].Closes? && events[0].loc in r.waiting ==>
            |events| > 1 && events[1].Content? && events[1].id.Some?)
      && Served(doc, events[1..], ReadEvent(doc, events[0], r))
  }

  // ----- The traversal agrees with the reader -----

  function Locs(queue: seq<Pending>): (r: seq<Location>)
    ensures |r| == |queue| && forall i :: 0 <= i < |r| ==> r[i] == queue[i].loc
  {
    seq(|queue|, i requires 0 <= i < |queue| => queue[i].loc)
  }

  function ReaderOf(s: State): Reader { Reader(Locs(s.queue), s.ids) }

  ghost predicate ReadsAs(doc: Document, events: seq<Event>, s: State, t: State) {
    Read(doc, events, ReaderOf(s)) == ReaderOf(t) && Served(doc, events, ReaderOf(s))
  }

  lemma {:induction false} ReadAppend(doc: Document, a: seq<Event>, b: seq<Event>, r: Reader)
    ensures Read(doc, a + b, r) == Read(doc, b, Read(doc, a, r))
    ensures Served(doc, a, r) && Served(doc, b, Read(doc, a, r)) ==> Served(doc, a + b, r)
    decreases |a|
  {
    if a == [] {
      assert a + b == b;
    } else {
      assert (a + b)[1..] == a[1..] + b;
      ReadAppend(doc, a[1..], b, ReadEvent(doc, a[0], r));
    }
  }

  lemma ReadsThen(doc: Document, a: seq<Event>, b: seq<Event>, s: State, t: State, u: State)
    requires ReadsAs(doc, a, s, t) && ReadsAs(doc, b, t, u)
    ensures ReadsAs(doc, a + b, s, u)
  {
    ReadAppend(doc, a, b, ReaderOf(s));
  }

  lemma {:induction false} PutAllIsPut(ids: map<Location, string>, queue: seq<Pending>, id: string)
    ensures PutAll(ids, queue, id) == Put(ids, Locs(queue), id)
    decreases |queue|
  {
    if queue != [] {
      PutAllIsPut(ids[queue[0].loc := id], queue[1..], id);
      assert Locs(queue) == [queue[0].loc] + Locs(queue[1..]);
    }
  }

  /** One piece of content settles everything that is waiting. */
  lemma SettleReads(doc: Document, s: State, existing: Option<string>)
    requires s.queue != []
    ensures var (id, t) := Settle(doc, s, existing);
            ReadsAs(doc, [Content(Some(id))], s, t) && (existing.Some? ==> id == existing.value)
  {
    var (id, t) := Settle(doc, s, existing);
    PutAllIsPut(s.ids, s.queue, id);
    assert Locs([]) == [];
    ReadOne(doc, Content(Some(id)), ReaderOf(s));
  }

  lemma ReadOne(doc: Document, e: Event, r: Reader)
    ensures Read(doc, [e], r) == ReadEvent(doc, e, r)
    ensures !(e.Closes? && e.loc in r.waiting) && (e.Content? && r.waiting != [] ==> e.id.Some?) ==> Served(doc, [e], r)
  {
    assert [e][1..] == [];
  }

  /** Content while nothing is waiting changes nothing. */
  lemma IdleContent(doc: Document, id: Option<string>, s: State)
    requires s.queue == []
    ensures ReadsAs(doc, [Content(id)], s, s)
  {
    ReadOne(doc, Content(id), ReaderOf(s));
    assert Locs(s.queue) == [];
  }

  /** Anchors were added for the targets `locs`, in order and at their points. */
  ghost predicate Jumped(
    doc: Document, locs: seq<Location>, before: seq<Anchor>, after: seq<Anchor>,
    ids: map<Location, string>, ids': map<Location, string>)
  {
    exists added :: Adds(doc, locs, before, after, ids, ids', added)
  }

  ghost predicate Adds(
    doc: Document, locs: seq<Location>, before: seq<Anchor>, after: seq<Anchor>,
    ids: map<Location, string>, ids': map<Location, string>, added: seq<Anchor>)
  {
    && after == before + added && |added| == |locs|
    && (forall k :: 0 <= k < |locs| ==> locs[k] in doc.points && added[k].point == doc.points[locs[k]])
    && ids' == PutEach(ids, locs, added)
  }

  lemma JumpedThen(
    doc: Document, a: seq<Location>, b: seq<Location>, x: seq<Anchor>, y: seq<Anchor>, z: seq<Anchor>,
    ids: map<Location, string>, ids1: map<Location, string>, ids2: map<Location, string>)
    requires Jumped(doc, a, x, y, ids, ids1) && Jumped(doc, b, y, z, ids1, ids2)
    ensures Jumped(doc, a + b, x, z, ids, ids2)
  {
    var u :| Adds(doc, a, x, y, ids, ids1, u);
    var v :| Adds(doc, b, y, z, ids1, ids2, v);
    PutEachAppend(ids, a, b, u, v);
    assert (x + u) + v == x + (u + v);
    assert Adds(doc, a + b, x, z, ids, ids2, u + v);
  }

  lemma {:induction false} FrameReads(doc: Document, items: seq<FrameItem>, anchors: seq<Anchor>, s: State)
    ensures var (anchors', s') := LinkFrame(doc, items, anchors, s);
            s'.queue == s.queue && Jumped(doc, FrameTargets(doc, items), anchors, anchors', s.ids, s'.ids)
    decreases items
  {
    if items == [] {
      assert Adds(doc, [], anchors, anchors, s.ids, s.ids, []);
    } else {
      FrameItemReads(doc, items[0], anchors, s);
      var (anchors1, s1) := LinkFrameItem(doc, items[0], anchors, s);
      FrameReads(doc, items[1..], anchors1, s1);
      var (anchors2, s2) := LinkFrame(doc, items[1..], anchors1, s1);
      JumpedThen(doc, ItemTargets(doc, items[0]), FrameTargets(doc, items[1..]),
                 anchors, anchors1, anchors2, s.ids, s1.ids, s2.ids);
    }
  }

  lemma {:induction false} FrameItemReads(doc: Document, item: FrameItem, anchors: seq<Anchor>, s: State)
    ensures var (anchors', s') := LinkFrameItem(doc, item, anchors, s);
            s'.queue == s.queue && Jumped(doc, ItemTargets(doc, item), anchors, anchors', s.ids, s'.ids)
    decreases item
  {
    var (anchors', s') := LinkFrameItem(doc, item, anchors, s);
    match item {
      case Started(loc, key) =>
        if loc in doc.targets && loc in doc.points {
          var added := Anchor(doc.points[loc], Identified(doc.labels, s.g, key).0);
          assert Adds(doc, [loc], anchors, anchors', s.ids, s'.ids, [added]);
        } else {
          assert Adds(doc, [], anchors, anchors, s.ids, s.ids, []);
        }
      case Group(items) => FrameReads(doc, items, anchors, s);
      case Drawing => assert Adds(doc, [], anchors, anchors, s.ids, s.ids, []);
    }
  }

  lemma {:induction false} PutEachAppend(
    ids: map<Location, string>, a: seq<Location>, b: seq<Location>, x: seq<Anchor>, y: seq<Anchor>)
    requires |a| == |x|
    ensures PutEach(ids, a + b, x + y) == PutEach(PutEach(ids, a, x), b, y)
    decreases |a|
  {
    if a == [] {
      assert a + b == b && x + y == y;
    } else {
      assert (a + b)[1..] == a[1..] + b && (x + y)[1..] == x[1..] + y;
      PutEachAppend(ids[a[0] := x[0].id], a[1..], b, x[1..], y);
    }
  }

  lemma EventsCons(doc: Document, n: Node, rest: seq<Node>)
    ensures Events(doc, [n] + rest) == EventsOf(doc, n) + Events(doc, rest)
  {
    assert ([n] + rest)[1..] == rest;
  }

  /** One node is visited before the rest, with what it puts in front of the rest. */
  lemma LinkUnfolds(doc: Document, n: Node, rest: seq<Node>, s: State)
    ensures var v := Visit(doc, n, s);
            var r := Link(doc, v.after + rest, v.s);
            Link(doc, [n] + rest, s) == Linked([v.node] + r.nodes, r.s)
  {
    assert ([n] + rest)[1..] == rest;
  }

  lemma SpanIsKept(doc: Document, id: string, s: State)
    ensures Visit(doc, Span(id, []), s) == Visited(Span(id, []), [], State([], PutAll(s.ids, s.queue, id), s.g))
  {
    assert Link(doc, [], s) == Linked([], s);
    assert [Attribute("id", id)][1..] == [];
  }

  /** An end tag met while waiting, and the span after it. */
  lemma EndUnfolds(doc: Document, loc: Location, rest: seq<Node>, s: State)
    requires IndexOf(s.queue, loc).Some?
    ensures var i := IndexOf(s.queue, loc).value;
            var (id, g) := Identified(doc.labels, s.g, s.queue[i].key);
            var t := State([], PutAll(s.ids[loc := id], Without(s.queue, i), id), g);
            Link(doc, [End(loc)] + rest, s)
            == Linked([End(loc), Span(id, [])] + Link(doc, rest, t).nodes, Link(doc, rest, t).s)
  {
    var i := IndexOf(s.queue, loc).value;
    var (id, g) := Identified(doc.labels, s.g, s.queue[i].key);
    var s1 := State(Without(s.queue, i), s.ids[loc := id], g);
    var t := State([], PutAll(s1.ids, s1.queue, id), g);
    var span := Span(id, []);
    LinkUnfolds(doc, End(loc), rest, s);
    LinkUnfolds(doc, span, rest, s1);
    SpanIsKept(doc, id, s1);
    assert [] + rest == rest;
    assert [End(loc)] + ([span] + Link(doc, rest, t).nodes) == [End(loc), span] + Link(doc, rest, t).nodes;
  }

  lemma PutWithout(ids: map<Location, string>, queue: seq<Pending>, i: nat, id: string)
    requires i < |queue|
    ensures Put(ids, Locs(queue), id) == Put(ids[queue[i].loc := id], Locs(Without(queue, i)), id)
  {
    var rest := Without(queue, i);
    forall l
      ensures l in Locs(queue) <==> l == queue[i].loc || l in Locs(rest)
    {
      if l in Locs(queue) && l != queue[i].loc {
        var k :| 0 <= k < |queue| && queue[k].loc == l;
        assert rest[if k < i then k else k - 1].loc == l;
        assert Locs(rest)[if k < i then k else k - 1] == l;
      }
      if l in Locs(rest) {
        var k :| 0 <= k < |rest| && Locs(rest)[k] == l;
        assert queue[if k < i then k else k + 1] == rest[k];
        assert Locs(queue)[if k < i then k else k + 1] == l;
      }
      assert Locs(queue)[i] == queue[i].loc;
    }
  }

  lemma EndReads(doc: Document, loc: Location, s: State)
    requires IndexOf(s.queue, loc).Some?
    ensures var i := IndexOf(s.queue, loc).value;
            var (id, g) := Identified(doc.labels, s.g, s.queue[i].key);
            var t := State([], PutAll(s.ids[loc := id], Without(s.queue, i), id), g);
            ReadsAs(doc, [Closes(loc), Content(Some(id))], s, t)
  {
    var i := IndexOf(s.queue, loc).value;
    var (id, g) := Identified(doc.labels, s.g, s.queue[i].key);
    PutAllIsPut(s.ids[loc := id], Without(s.queue, i), id);
    PutWithout(s.ids, s.queue, i, id);
    assert Locs([]) == [];
    ReadOne(doc, Content(Some(id)), ReaderOf(s));
    assert [Closes(loc), Content(Some(id))][1..] == [Content(Some(id))];
  }

  lemma EndEvents(doc: Document, loc: Location, id: string, rest: seq<Node>)
    ensures Events(doc, [End(loc), Span(id, [])] + rest) == [Closes(loc), Content(Some(id))] + Events(doc, rest)
  {
    var end, span := End(loc), Span(id, []);
    assert [end, span] + rest == [end] + ([span] + rest);
    EventsCons(doc, end, [span] + rest);
    EventsCons(doc, span, rest);
    assert EventsOf(doc, span) == [Content(Some(id))];
    assert [Closes(loc)] + ([Content(Some(id))] + Events(doc, rest))
        == [Closes(loc), Content(Some(id))] + Events(doc, rest);
  }

  /** The map and the queue are what a reader of the new nodes finds. */
  lemma {:induction false} LinkReads(doc: Document, nodes: seq<Node>, s: State)
    ensures ReadsAs(doc, Events(doc, Link(doc, nodes, s).nodes), s, Link(doc, nodes, s).s)
    decreases Weight(nodes), 1
  {
    if nodes != [] {
      var n, rest := nodes[0], nodes[1..];
      assert nodes == [n] + rest;
      if n.End? && IndexOf(s.queue, n.loc).Some? {
        var i := IndexOf(s.queue, n.loc).value;
        var (id, g) := Identified(doc.labels, s.g, s.queue[i].key);
        var t := State([], PutAll(s.ids[n.loc := id], Without(s.queue, i), id), g);
        EndUnfolds(doc, n.loc, rest, s);
        EndReads(doc, n.loc, s);
        LinkReads(doc, rest, t);
        EndEvents(doc, n.loc, id, Link(doc, rest, t).nodes);
        ReadsThen(doc, [Closes(n.loc), Content(Some(id))], Events(doc, Link(doc, rest, t).nodes),
                  s, t, Link(doc, rest, t).s);
      } else {
        VisitReads(doc, n, s);
        LinkReads(doc, rest, Visit(doc, n, s).s);
        OtherReads(doc, n, rest, s);
      }
    }
  }

  lemma OtherReads(doc: Document, n: Node, rest: seq<Node>, s: State)
    requires var v := Visit(doc, n, s);
             && v.after == [] && ReadsAs(doc, EventsOf(doc, v.node), s, v.s)
             && ReadsAs(doc, Events(doc, Link(doc, rest, v.s).nodes), v.s, Link(doc, rest, v.s).s)
    ensures ReadsAs(doc, Events(doc, Link(doc, [n] + rest, s).nodes), s, Link(doc, [n] + rest, s).s)
  {
    var v := Visit(doc, n, s);
    var out := Link(doc, rest, v.s);
    assert ([n] + rest)[1..] == rest && v.after + rest == rest;
    EventsCons(doc, v.node, out.nodes);
    ReadsThen(doc, EventsOf(doc, v.node), Events(doc, out.nodes), s, v.s, out.s);
  }

  lemma {:induction false} VisitReads(doc: Document, n: Node, s: State)
    requires n.End? ==> IndexOf(s.queue, n.loc).None?
    ensures Visit(doc, n, s).after == []
    ensures ReadsAs(doc, EventsOf(doc, Visit(doc, n, s).node), s, Visit(doc, n, s).s)
    decreases ItemWeight(n), 0
  {
    var v := Visit(doc, n, s);
    match n {
      case Start(loc, key) =>
        ReadOne(doc, Opens(loc), ReaderOf(s));
        assert Locs(s.queue + [Pending(loc, key)]) == Locs(s.queue) + [loc];
      case End(loc) => ReadOne(doc, Closes(loc), ReaderOf(s));
      case Text(_) => TextReads(doc, n, s);
      case Element(_, attrs, children) => ElementReads(doc, n, s);
      case Frame(id, inner, anchors) => WholeFrameReads(doc, n, s);
    }
  }

  lemma TextReads(doc: Document, n: Node, s: State)
    requires n.Text?
    ensures ReadsAs(doc, EventsOf(doc, Visit(doc, n, s).node), s, Visit(doc, n, s).s)
  {
    if s.queue == [] {
      IdleContent(doc, None, s);
    } else {
      SettleReads(doc, s, None);
      var (id, t) := Settle(doc, s, None);
      IdleContent(doc, None, t);
      EventsCons(doc, n, []);
      assert Events(doc, [n]) == [Content(None)] by { assert [n] + [] == [n]; }
      ReadsThen(doc, [Content(Some(id))], [Content(None)], s, t, t);
    }
  }

  lemma {:induction false} ElementReads(doc: Document, n: Node, s: State)
    requires n.Element?
    ensures ReadsAs(doc, EventsOf(doc, Visit(doc, n, s).node), s, Visit(doc, n, s).s)
    decreases Weight(n.children), 2
  {
    var v := Visit(doc, n, s);
    var t := s;
    if s.queue == [] {
      IdleContent(doc, IdOf(n.attrs), s);
    } else {
      SettleReads(doc, s, IdOf(n.attrs));
      t := Settle(doc, s, IdOf(n.attrs)).1;
    }
    LinkReads(doc, n.children, t);
    ReadsThen(doc, [Content(IdOf(v.node.attrs))], Events(doc, v.node.children), s, t, v.s);
  }

  lemma WholeFrameReads(doc: Document, n: Node, s: State)
    requires n.Frame?
    ensures ReadsAs(doc, EventsOf(doc, Visit(doc, n, s).node), s, Visit(doc, n, s).s)
  {
    var v := Visit(doc, n, s);
    var t := s;
    if s.queue == [] {
      IdleContent(doc, n.id, s);
    } else {
      SettleReads(doc, s, n.id);
      t := Settle(doc, s, n.id).1;
    }
    FrameReads(doc, n.inner, n.anchors, t);
    var locs := FrameTargets(doc, n.inner);
    var jumps := Jumps(locs, LastOf(v.node.anchors, |locs|));
    var added :| Adds(doc, locs, n.anchors, v.node.anchors, t.ids, v.s.ids, added);
    assert LastOf(v.node.anchors, |locs|) == added;
    ReadOne(doc, jumps, ReaderOf(t));
    ReadsThen(doc, [Content(v.node.id)], [jumps], s, t, v.s);
  }

  // ----- Ids in the map are in the document -----

  predicate CarriesNode(n: Node, id: string)
    decreases n
  {
    match n
    case Element(_, attrs, children) => IdOf(attrs) == Some(id) || Carries(children, id)
    case Frame(own, _, anchors) => own == Some(id) || exists k :: 0 <= k < |anchors| && anchors[k].id == id
    case _ => false
  }

  /** Some element or frame, or a place within a frame, has the id. */
  predicate Carries(nodes: seq<Node>, id: string)
    decreases nodes
  {
    nodes != [] && (CarriesNode(nodes[0], id) || Carries(nodes[1..], id))
  }

  predicate Shows(e: Event, id: string) {
    match e
    case Content(own) => own == Some(id)
    case Jumps(_, anchors) => exists k :: 0 <= k < |anchors| && anchors[k].id == id
    case _ => false
  }

  lemma {:induction false} EventsAreCarried(doc: Document, nodes: seq<Node>, k: nat, id: string)
    requires k < |Events(doc, nodes)| && Shows(Events(doc, nodes)[k], id)
    ensures Carries(nodes, id)
    decreases nodes, 1
  {
    var first := EventsOf(doc, nodes[0]);
    if k < |first| {
      EventIsCarried(doc, nodes[0], k, id);
    } else {
      EventsAreCarried(doc, nodes[1..], k - |first|, id);
    }
  }

  lemma {:induction false} EventIsCarried(doc: Document, n: Node, k: nat, id: string)
    requires k < |EventsOf(doc, n)| && Shows(EventsOf(doc, n)[k], id)
    ensures CarriesNode(n, id)
    decreases n, 0
  {
    match n {
      case Element(_, _, children) =>
        if k > 0 {
          EventsAreCarried(doc, children, k - 1, id);
        }
      case Frame(_, inner, anchors) =>
        if k == 1 {
          var last := LastOf(anchors, |FrameTargets(doc, inner)|);
          var j :| 0 <= j < |last| && last[j].id == id;
          assert anchors[|anchors| - |last| + j].id == id;
        }
      case _ =>
    }
  }

  lemma {:induction false} PutEachShows(
    ids: map<Location, string>, locs: seq<Location>, anchors: seq<Anchor>, loc: Location)
    requires loc in PutEach(ids, locs, anchors)
    ensures var id := PutEach(ids, locs, anchors)[loc];
            (loc in ids && ids[loc] == id) || exists k :: 0 <= k < |anchors| && anchors[k].id == id
    decreases locs
  {
    if locs != [] && anchors != [] {
      var id := PutEach(ids, locs, anchors)[loc];
      PutEachShows(ids[locs[0] := anchors[0].id], locs[1..], anchors[1..], loc);
      if k :| 0 <= k < |anchors[1..]| && anchors[1..][k].id == id {
        assert anchors[k + 1].id == id;
      } else {
        assert anchors[0].id == id || (loc in ids && ids[loc] == id);
      }
    }
  }

  lemma {:induction false} ReadIsShown(doc: Document, events: seq<Event>, r: Reader, loc: Location)
    requires loc in Read(doc, events, r).ids
    ensures var id := Read(doc, events, r).ids[loc];
            (loc in r.ids && r.ids[loc] == id) || exists k :: 0 <= k < |events| && Shows(events[k], id)
    decreases |events|
  {
    if events != [] {
      var id := Read(doc, events, r).ids[loc];
      var next := ReadEvent(doc, events[0], r);
      ReadIsShown(doc, events[1..], next, loc);
      if k :| 0 <= k < |events[1..]| && Shows(events[1..][k], id) {
        assert Shows(events[k + 1], id);
      } else if events[0].Jumps? {
        PutEachShows(r.ids, events[0].locs, events[0].anchors, loc);
        assert (loc in r.ids && r.ids[loc] == id) || Shows(events[0], id);
      } else if !(loc in r.ids && r.ids[loc] == id) {
        assert Shows(events[0], id);
      }
    }
  }

  /** Every id in the returned map is in the final document. */
  lemma IdsAreCarried(doc: Document, nodes: seq<Node>, loc: Location)
    requires loc in Link(doc, nodes, NOTHING).s.ids
    ensures Carries(Link(doc, nodes, NOTHING).nodes, Link(doc, nodes, NOTHING).s.ids[loc])
  {
    var r := Link(doc, nodes, NOTHING);
    LinkReads(doc, nodes, NOTHING);
    ReadIsShown(doc, Events(doc, r.nodes), ReaderOf(NOTHING), loc);
    var k :| 0 <= k < |Events(doc, r.nodes)| && Shows(Events(doc, r.nodes)[k], r.s.ids[loc]);
    EventsAreCarried(doc, r.nodes, k, r.s.ids[loc]);
  }

  // ----- Targets are in the map, at their first content -----

  lemma {:induction false} PutEachKeeps(
    ids: map<Location, string>, locs: seq<Location>, anchors: seq<Anchor>, loc: Location)
    ensures loc in ids ==> loc in PutEach(ids, locs, anchors)
    ensures loc in ids && loc !in locs ==> PutEach(ids, locs, anchors)[loc] == ids[loc]
    decreases locs
  {
    if locs != [] && anchors != [] {
      PutEachKeeps(ids[locs[0] := anchors[0].id], locs[1..], anchors[1..], loc);
    }
  }

  lemma {:induction false} ClosedIsLinked(doc: Document, events: seq<Event>, r: Reader, loc: Location)
    requires Served(doc, events, r)
    ensures loc in r.ids ==> loc in Read(doc, events, r).ids
    ensures loc in r.waiting && Closes(loc) in events ==> loc in Read(doc, events, r).ids
    decreases |events|
  {
    if events != [] {
      var next := ReadEvent(doc, events[0], r);
      if events[0].Jumps? {
        PutEachKeeps(r.ids, events[0].locs, events[0].anchors, loc);
      }
      ClosedIsLinked(doc, events[1..], next, loc);
      if loc in r.waiting && events[0] == Closes(loc) {
        ClosedIsLinked(doc, events[2..], ReadEvent(doc, events[1], next), loc);
        assert events[1..][1..] == events[2..];
      }
    }
  }

  /** A target whose end tag follows its start tag always gets an id. */
  lemma ClosedTargetsAreLinked(doc: Document, nodes: seq<Node>, i: nat, j: nat)
    requires var events := Events(doc, Link(doc, nodes, NOTHING).nodes);
             i < j < |events| && events[i].Opens? && events[i].loc in doc.targets && events[j] == Closes(events[i].loc)
    ensures Events(doc, Link(doc, nodes, NOTHING).nodes)[i].loc in Link(doc, nodes, NOTHING).s.ids
  {
    var r := Link(doc, nodes, NOTHING);
    var events := Events(doc, r.nodes);
    LinkReads(doc, nodes, NOTHING);
    var mid := SplitServed(doc, events, ReaderOf(NOTHING), i + 1);
    assert events[i + 1..][j - (i + 1)] == Closes(events[i].loc);
    ClosedIsLinked(doc, events[i + 1..], mid, events[i].loc);
  }

  /** The reader after `n` events. */
  lemma {:induction false} SplitServed(doc: Document, events: seq<Event>, r: Reader, n: nat) returns (mid: Reader)
    requires Served(doc, events, r) && n <= |events|
    ensures mid == Read(doc, events[..n], r) && Served(doc, events[n..], mid)
    ensures Read(doc, events[n..], mid) == Read(doc, events, r)
    ensures n > 0 ==> mid == ReadEvent(doc, events[n - 1], Read(doc, events[..n - 1], r))
    decreases |events|
  {
    if n == 0 {
      assert events[0..] == events;
      return r;
    }
    mid := SplitServed(doc, events[1..], ReadEvent(doc, events[0], r), n - 1);
    assert events[1..][..n - 1] == events[..n][1..];
    assert events[1..][n - 1..] == events[n..];
    if n > 1 {
      assert events[1..][..n - 2] == events[..n - 1][1..];
    } else {
      assert events[..0] == [];
    }
  }

  /** The events neither open `loc` nor have it in a frame. */
  predicate Quiet(events: seq<Event>, loc: Location) {
    forall k :: 0 <= k < |events| ==> events[k] != Opens(loc) && !(events[k].Jumps? && loc in events[k].locs)
  }

  lemma {:induction false} SettledStays(doc: Document, events: seq<Event>, r: Reader, loc: Location)
    requires loc !in r.waiting && loc in r.ids && Quiet(events, loc)
    ensures loc in Read(doc, events, r).ids && Read(doc, events, r).ids[loc] == r.ids[loc]
    decreases |events|
  {
    if events != [] {
      if events[0].Jumps? {
        PutEachKeeps(r.ids, events[0].locs, events[0].anchors, loc);
      }
      SettledStays(doc, events[1..], ReadEvent(doc, events[0], r), loc);
    }
  }

  lemma {:induction false} WaitingIsSettled(doc: Document, events: seq<Event>, r: Reader, loc: Location, m: nat)
    requires Served(doc, events, r) && loc in r.waiting && Quiet(events, loc)
    requires m < |events| && events[m].Content? && forall k :: 0 <= k < m ==> !events[k].Content?
    ensures var ids := Read(doc, events, r).ids;
            loc in ids && events[m].id == Some(ids[loc])
    decreases m
  {
    var next := ReadEvent(doc, events[0], r);
    if m == 0 {
      SettledStays(doc, events[1..], next, loc);
    } else {
      assert events[1..][m - 1] == events[m];
      WaitingIsSettled(doc, events[1..], next, loc, m - 1);
    }
  }

  /**
   The first content after the start tag of a target has an id, and the target is mapped to it. A
   location is opened once and is not in a frame as well.
   */
  lemma TargetGetsFirstContent(doc: Document, nodes: seq<Node>, i: nat, j: nat)
    requires var events := Events(doc, Link(doc, nodes, NOTHING).nodes);
             && i < j < |events| && events[i].Opens? && events[i].loc in doc.targets && events[j].Content?
             && Quiet(events[i + 1..], events[i].loc)
             && forall k :: i < k < j ==> !events[k].Content?
    ensures var r := Link(doc, nodes, NOTHING);
            var events := Events(doc, r.nodes);
            events[i].loc in r.s.ids && events[j].id == Some(r.s.ids[events[i].loc])
  {
    var r := Link(doc, nodes, NOTHING);
    var events := Events(doc, r.nodes);
    LinkReads(doc, nodes, NOTHING);
    var mid := SplitServed(doc, events, ReaderOf(NOTHING), i + 1);
    assert events[i + 1..][j - (i + 1)] == events[j];
    WaitingIsSettled(doc, events[i + 1..], mid, events[i].loc, j - (i + 1));
  }

  // ----- Nothing else changes -----

  /** `n` is `m` with an id, or with a span around it if it is text. */
  predicate AnchoredNode(doc: Document, m: Node, n: Node)
    decreases m
  {
    match m
    case Start(_, _) => n == m
    case End(_) => n == m
    case Text(_) => n == m || (n.Element? && |n.attrs| == 1 && n == Span(n.attrs[0].value, [m]))
    case Element(tag, attrs, children) =>
      && n.Element? && n.tag == tag
      && (|| n.attrs == attrs
          || (IdOf(attrs).None? && |n.attrs| > 0 && n.attrs == [Attribute("id", n.attrs[0].value)] + attrs))
      && Anchored(doc, children, n.children)
    case Frame(id, inner, anchors) =>
      var locs := FrameTargets(doc, inner);
      && n.Frame? && n.inner == inner && (id.Some? ==> n.id == id)
      && |n.anchors| == |anchors| + |locs| && n.anchors[..|anchors|] == anchors
      && forall k :: 0 <= k < |locs| ==> locs[k] in doc.points && n.anchors[|anchors| + k].point == doc.points[locs[k]]
  }

  predicate EmptySpan(n: Node) {
    n.Element? && |n.attrs| == 1 && n == Span(n.attrs[0].value, [])
  }

  /** `b` is `a` with ids, spans around text and empty spans after end tags. */
  predicate Anchored(doc: Document, a: seq<Node>, b: seq<Node>)
    decreases a
  {
    if a == [] then b == []
    else
      && b != [] && AnchoredNode(doc, a[0], b[0])
      && (|| Anchored(doc, a[1..], b[1..])
          || (a[0].End? && |b| > 1 && EmptySpan(b[1]) && Anchored(doc, a[1..], b[2..])))
  }

  lemma {:induction false} LinkOnlyAnchors(doc: Document, nodes: seq<Node>, s: State)
    ensures Anchored(doc, nodes, Link(doc, nodes, s).nodes)
    decreases Weight(nodes), 1
  {
    if nodes != [] {
      var n, rest := nodes[0], nodes[1..];
      assert nodes == [n] + rest;
      if n.End? && IndexOf(s.queue, n.loc).Some? {
        var i := IndexOf(s.queue, n.loc).value;
        var (id, g) := Identified(doc.labels, s.g, s.queue[i].key);
        var t := State([], PutAll(s.ids[n.loc := id], Without(s.queue, i), id), g);
        EndUnfolds(doc, n.loc, rest, s);
        LinkOnlyAnchors(doc, rest, t);
        var out := [n, Span(id, [])] + Link(doc, rest, t).nodes;
        assert out[2..] == Link(doc, rest, t).nodes && EmptySpan(out[1]);
      } else {
        var v := Visit(doc, n, s);
        VisitReads(doc, n, s);
        assert v.after + rest == rest;
        VisitOnlyAnchors(doc, n, s);
        LinkOnlyAnchors(doc, rest, v.s);
        assert ([v.node] + Link(doc, rest, v.s).nodes)[1..] == Link(doc, rest, v.s).nodes;
      }
    }
  }

  lemma {:induction false} VisitOnlyAnchors(doc: Document, n: Node, s: State)
    ensures AnchoredNode(doc, n, Visit(doc, n, s).node)
    decreases ItemWeight(n), 0
  {
    match n {
      case Element(_, attrs, children) =>
        var t := if s.queue == [] then s else Settle(doc, s, IdOf(attrs)).1;
        LinkOnlyAnchors(doc, children, t);
      case Frame(id, inner, anchors) =>
        var t := if s.queue == [] then s else Settle(doc, s, id).1;
        FrameReads(doc, inner, anchors, t);
      case _ =>
    }
  }

  /** Tags, text and frames in document order, without the elements around them. */
  function Trace(nodes: seq<Node>): seq<Node>
    decreases nodes
  {
    if nodes == [] then [] else TraceOf(nodes[0]) + Trace(nodes[1..])
  }

  function TraceOf(n: Node): seq<Node>
    decreases n
  {
    match n
    case Element(_, _, children) => Trace(children)
    case Frame(_, inner, _) => [Frame(None, inner, [])]
    case _ => [n]
  }

  lemma {:induction false} TraceIsKept(doc: Document, a: seq<Node>, b: seq<Node>)
    requires Anchored(doc, a, b)
    ensures Trace(a) == Trace(b)
    decreases a, 1
  {
    if a != [] {
      NodeTraceIsKept(doc, a[0], b[0]);
      if Anchored(doc, a[1..], b[1..]) {
        TraceIsKept(doc, a[1..], b[1..]);
      } else {
        TraceIsKept(doc, a[1..], b[2..]);
        assert b[1..][1..] == b[2..] && TraceOf(b[1]) == [];
        assert Trace(b[1..]) == Trace(b[2..]);
      }
    }
  }

  lemma {:induction false} NodeTraceIsKept(doc: Document, m: Node, n: Node)
    requires AnchoredNode(doc, m, n)
    ensures TraceOf(m) == TraceOf(n)
    decreases m, 0
  {
    match m {
      case Element(_, _, children) => TraceIsKept(doc, children, n.children);
      case Text(_) =>
        if n != m {
          assert Trace([m]) == [m];
        }
      case _ =>
    }
  }
}
