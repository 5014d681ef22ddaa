/**
 The pass over a block that wraps single spaces in need of protection. It updates the text nodes in
 place: a flag for each id says whether its text node was wrapped.
 */
module HtmlProtect {
  import opened Options
  import opened Exposure
  import opened HtmlNodes
  import opened HtmlTrails

  // ----- The pass as a function of the marks -----

  datatype Protection = Collapsing | Supportive | Pending(id: nat)

  datatype Pass = Pass(state: Protection, flags: seq<bool>) {
    function Wrap(k: nat): Pass {
      if k < |flags| then this.(flags := flags[k := true]) else this
    }

    function Collapse(): Pass {
      (if state.Pending? then Wrap(state.id) else this).(state := Collapsing)
    }

    function Space(k: nat): Pass {
      match state
      case Collapsing => Wrap(k).(state := Supportive)
      case Supportive => this.(state := Pending(k))
      case Pending(j) => Wrap(j).(state := Pending(k))
    }

    function Mark(m: Mark): Pass {
      match m.kind
      case Single => if m.id.Some? then Space(m.id.value) else this.(state := Supportive)
      case Tab | Firm => this.(state := Supportive)
      case Brk => Collapse()
      case _ => this
    }
  }

  function Visit(p: Pass, ms: seq<Mark>): Pass
    decreases |ms|
  {
    if ms == [] then p else Visit(p.Mark(ms[0]), ms[1..])
  }

  lemma {:induction false} VisitAppend(p: Pass, a: seq<Mark>, b: seq<Mark>)
    ensures Visit(p, a + b) == Visit(Visit(p, a), b)
    decreases |a|
  {
    if a == [] {
      assert a + b == b;
    } else {
      assert (a + b)[1..] == a[1..] + b;
      VisitAppend(p.Mark(a[0]), a[1..], b);
    }
  }

  lemma VisitOne(p: Pass, m: Mark)
    ensures Visit(p, [m]) == p.Mark(m)
  {
    assert [m][1..] == [];
  }

  lemma VisitSurrounded(p: Pass, a: Kind, ms: seq<Mark>, b: Kind)
    requires !a.Visible() && !a.Tab? && !b.Visible() && !b.Tab?
    ensures Visit(p, [Plain(a)] + ms + [Plain(b)]) == Visit(p, ms)
  {
    VisitAppend(p, [Plain(a)] + ms, [Plain(b)]);
    VisitAppend(p, [Plain(a)], ms);
    VisitOne(p, Plain(a));
    VisitOne(Visit(p, ms), Plain(b));
  }

  lemma {:induction false} VisitNothing(p: Pass, ms: seq<Mark>)
    requires forall m <- ms :: !m.kind.Visible() && !m.kind.Tab?
    ensures Visit(p, ms) == p
    decreases |ms|
  {
    if ms != [] {
      assert p.Mark(ms[0]) == p;
      VisitNothing(p, ms[1..]);
    }
  }

  // ----- The pass -----

  predicate IsIgnorableSpace(ignorable: char -> bool) {
    ignorable(' ') || ignorable('\t')
  }

  predicate InRange(ms: seq<Mark>, n: nat) {
    forall m <- ms :: m.id.Some? ==> m.id.value < n
  }

  class Protector {
    const ignorable: char -> bool
    const flags: array<bool>
    var state: Protection

    constructor (size: nat, ignorable: char -> bool)
      ensures Valid() && fresh(flags) && flags.Length == size && this.ignorable == ignorable
      ensures AsPass() == Pass(Collapsing, seq(size, _ => false))
    {
      this.ignorable := ignorable;
      flags := new bool[size](_ => false);
      state := Collapsing;
      new;
      assert flags[..] == seq(size, _ => false);
    }

    ghost predicate Valid()
      reads this
    {
      state.Pending? ==> state.id < flags.Length
    }

    ghost function AsPass(): Pass
      reads this, flags
    {
      Pass(state, flags[..])
    }

    /** A neighbour that would collapse adjacent spaces. */
    method Collapse()
      requires Valid()
      modifies this, flags
      ensures Valid() && AsPass() == old(AsPass()).Collapse()
    {
      if state.Pending? {
        flags[state.id] := true;
      }
      state := Collapsing;
    }

    /** A text node of a single space: wrapped at once, or left to what follows. */
    method VisitSpace(id: nat)
      requires Valid() && id < flags.Length
      modifies this, flags
      ensures Valid() && AsPass() == old(AsPass()).Space(id)
    {
      match state
      case Collapsing =>
        flags[id] := true;
        state := Supportive;
      case Supportive =>
        state := Pending(id);
      case Pending(previous) =>
        flags[previous] := true;
        state := Pending(id);
    }

    /** Visits nodes and wraps the single spaces that need to be saved from collapsing. */
    method VisitNodes(nodes: seq<Node>)
      requires Valid() && InRange(Marks(nodes, ignorable), flags.Length) && !IsIgnorableSpace(ignorable)
      modifies this, flags
      ensures Valid() && AsPass() == Visit(old(AsPass()), Marks(nodes, ignorable))
      decreases nodes, 1
    {
      for i := 0 to |nodes|
        invariant Valid() && InRange(Marks(nodes[i..], ignorable), flags.Length)
        invariant Visit(AsPass(), Marks(nodes[i..], ignorable)) == Visit(old(AsPass()), Marks(nodes, ignorable))
      {
        assert nodes[i..][0] == nodes[i] && nodes[i..][1..] == nodes[i + 1..];
        VisitAppend(AsPass(), NodeMarks(nodes[i], ignorable), Marks(nodes[i + 1..], ignorable));
        VisitNode(nodes[i]);
      }
    }

    method VisitNode(n: Node)
      requires Valid() && InRange(NodeMarks(n, ignorable), flags.Length) && !IsIgnorableSpace(ignorable)
      modifies this, flags
      ensures Valid() && AsPass() == Visit(old(AsPass()), NodeMarks(n, ignorable))
      decreases n, 0
    {
      match n
      case TagNode(_) =>
      case TextNode(text, id) => VisitText(text, id);
      case SpanNode(block, leaves) =>
        // Spans that the converter has generated are not visited again.
        SpanIsPassed(AsPass(), n, ignorable);
      case ElemNode(display, children) =>
        ElementIsEntered(AsPass(), n, ignorable);
        VisitNodes(children);
      case BrNode =>
        VisitOne(AsPass(), Plain(Brk));
        Collapse();
      case BlockNode(_) =>
        VisitOne(AsPass(), Plain(Brk));
        Collapse();
      case ObjectNode(block) =>
        VisitOne(AsPass(), Plain(Firm));
        VisitSurrounded(AsPass(), Bound, [Plain(Firm)], Bound);
        state := Supportive;
    }

    /** A text node: a space, something solid, or default-ignorables. */
    method VisitText(text: string, id: nat)
      requires Valid() && InRange(TextMarks(text, id, ignorable), flags.Length) && !IsIgnorableSpace(ignorable)
      modifies this, flags
      ensures Valid() && AsPass() == Visit(old(AsPass()), TextMarks(text, id, ignorable))
    {
      if text == " " {
        VisitOne(AsPass(), Mark(Single, Some(id)));
        assert Mark(Single, Some(id)) in TextMarks(text, id, ignorable);
        VisitSpace(id);
      } else {
        TextSupports(AsPass(), text, ignorable);
        if exists i :: 0 <= i < |text| && !ignorable(text[i]) {
          state := Supportive;
        }
      }
    }
  }

  lemma SpanIsPassed(p: Pass, n: Node, ignorable: char -> bool)
    requires n.SpanNode?
    ensures Visit(p, NodeMarks(n, ignorable)) == p
  {
    var ms := SpanMarks(SpanText(n.leaves), ignorable);
    VisitNothing(p, ms);
    VisitSurrounded(p, Bound, ms, Bound);
  }

  lemma ElementIsEntered(p: Pass, n: Node, ignorable: char -> bool)
    requires n.ElemNode?
    ensures Visit(p, NodeMarks(n, ignorable)) == Visit(p, Marks(n.children, ignorable))
    ensures forall m <- Marks(n.children, ignorable) :: m in NodeMarks(n, ignorable)
  {
    var ms := Marks(n.children, ignorable);
    match n.display
    case Inline => VisitSurrounded(p, Side, ms, Side);
    case InlineBlock => VisitSurrounded(p, Enter, ms, Leave);
    case _ => VisitSurrounded(p, Bound, ms, Bound);
  }

  lemma {:induction false} TextSupports(p: Pass, text: string, ignorable: char -> bool)
    requires !IsIgnorableSpace(ignorable)
    ensures Visit(p, CharMarks(text, ignorable))
         == if exists i :: 0 <= i < |text| && !ignorable(text[i]) then p.(state := Supportive) else p
    decreases |text|
  {
    if text != [] {
      TextSupports(p.Mark(Plain(CharKind(text[0], ignorable))), text[1..], ignorable);
      assert CharMarks(text, ignorable)[1..] == CharMarks(text[1..], ignorable);
      assert forall i :: 1 <= i < |text| ==> text[i] == text[1..][i - 1];
    }
  }

  // ----- The pass preserves exactly the spaces that are not exposed -----

  predicate Between(ms: seq<Mark>, i: nat)
    requires i < |ms|
  {
    0 < i < |ms| - 1 && ms[i - 1].kind.Firm? && ms[i + 1].kind.Firm?
  }

  /** Spaces without a text node of their own are between other characters, and there are no tabs. */
  predicate Tidy(ms: seq<Mark>) {
    forall i :: 0 <= i < |ms| ==>
      && !ms[i].kind.Tab?
      && (ms[i].id.Some? ==> ms[i].kind.Single?)
      && (ms[i] == Plain(Single) ==> Between(ms, i))
  }

  predicate Distinct(ms: seq<Mark>, lo: nat, hi: nat) {
    && (forall i :: 0 <= i < |ms| && ms[i].id.Some? ==> lo <= ms[i].id.value < hi)
    && (forall i, j :: 0 <= i < j < |ms| && ms[i].id.Some? ==> ms[i].id != ms[j].id)
  }

  function Guard(ms: seq<Mark>, flags: seq<bool>): (guarded: seq<Mark>)
    ensures |guarded| == |ms| && forall i :: 0 <= i < |ms| ==> guarded[i] == GuardMark(ms[i], flags)
  {
    seq(|ms|, i requires 0 <= i < |ms| => GuardMark(ms[i], flags))
  }

  function GuardMark(m: Mark, flags: seq<bool>): Mark {
    if m.id.Some? && m.id.value < |flags| && flags[m.id.value] then Plain(Kept) else m
  }

  predicate Free(ms: seq<Mark>, n: nat, k: nat) {
    forall i :: n <= i < |ms| ==> ms[i].id != Some(k)
  }

  /** The state of the pass before the mark at `n`. */
  predicate Reached(p: Pass, ms: seq<Mark>, n: nat)
    requires n <= |ms| && Distinct(ms, 0, |p.flags|)
  {
    && (match p.state
        case Collapsing => !Supported(Kinds(ms)[..n])
        case Supportive => Supported(Kinds(ms)[..n])
        case Pending(k) =>
          && n > 0 && !ms[n - 1].kind.Firm? && Supported(Kinds(ms)[..n])
          && k < |p.flags| && !p.flags[k] && Free(ms, n, k))
    && forall i :: n <= i < |ms| && ms[i].id.Some? ==> !p.flags[ms[i].id.value]
  }

  lemma PassAdvances(p: Pass, ms: seq<Mark>, n: nat)
    requires n < |ms| && Tidy(ms) && Distinct(ms, 0, |p.flags|) && Reached(p, ms, n)
    ensures var q := p.Mark(ms[n]);
      && Reached(q, ms, n + 1) && |q.flags| == |p.flags|
      && (forall k :: 0 <= k < |q.flags| && p.state != Pending(k) && ms[n].id != Some(k) ==> q.flags[k] == p.flags[k])
      && (p.state.Pending? && q.state == p.state ==> !ms[n].kind.Visible() && q == p)
      && (p.state.Pending? && q.state != p.state ==> ms[n].kind.Visible() && q.flags[p.state.id] == !ms[n].kind.Firm?)
  {
    Advance(Kinds(ms), n);
  }

  /** The flags at the end. */
  function Outcome(p: Pass, ms: seq<Mark>, n: nat): seq<bool>
    requires n <= |ms|
  {
    Visit(p, ms[n..]).Collapse().flags
  }

  lemma OutcomeAdvances(p: Pass, ms: seq<Mark>, n: nat)
    requires n < |ms|
    ensures Outcome(p, ms, n) == Outcome(p.Mark(ms[n]), ms, n + 1)
  {
    assert ms[n..][1..] == ms[n + 1..];
  }

  /** Only a pending space and those that follow can still be wrapped. */
  lemma {:induction false} Untouched(p: Pass, ms: seq<Mark>, n: nat, k: nat)
    requires n <= |ms| && Tidy(ms) && Distinct(ms, 0, |p.flags|) && Reached(p, ms, n)
    requires k < |p.flags| && p.state != Pending(k) && Free(ms, n, k)
    ensures |Outcome(p, ms, n)| == |p.flags| && Outcome(p, ms, n)[k] == p.flags[k]
    decreases |ms| - n
  {
    if n < |ms| {
      PassAdvances(p, ms, n);
      OutcomeAdvances(p, ms, n);
      Untouched(p.Mark(ms[n]), ms, n + 1, k);
    }
  }

  lemma {:induction false} PendingIsDecided(p: Pass, ms: seq<Mark>, n: nat)
    requires n <= |ms| && Tidy(ms) && Distinct(ms, 0, |p.flags|) && Reached(p, ms, n) && p.state.Pending?
    ensures |Outcome(p, ms, n)| == |p.flags| && Outcome(p, ms, n)[p.state.id] == !Meets(Kinds(ms)[n..])
    decreases |ms| - n
  {
    if n < |ms| {
      PassAdvances(p, ms, n);
      OutcomeAdvances(p, ms, n);
      Advance(Kinds(ms), n);
      if p.Mark(ms[n]).state == p.state {
        PendingIsDecided(p.Mark(ms[n]), ms, n + 1);
      } else {
        Untouched(p.Mark(ms[n]), ms, n + 1, p.state.id);
      }
    }
  }

  lemma {:induction false} SpaceIsDecided(p: Pass, ms: seq<Mark>, n: nat, i: nat)
    requires n <= i < |ms| && ms[i].id.Some? && Tidy(ms) && Distinct(ms, 0, |p.flags|) && Reached(p, ms, n)
    ensures |Outcome(p, ms, n)| == |p.flags|
    ensures Outcome(p, ms, n)[ms[i].id.value] == !Exposed(Kinds(ms), i)
    decreases |ms| - n
  {
    PassAdvances(p, ms, n);
    OutcomeAdvances(p, ms, n);
    if n < i {
      SpaceIsDecided(p.Mark(ms[n]), ms, n + 1, i);
    } else if p.state.Collapsing? {
      Untouched(p.Mark(ms[n]), ms, n + 1, ms[n].id.value);
    } else {
      PendingIsDecided(p.Mark(ms[n]), ms, n + 1);
    }
  }

  lemma PassIsShield(ms: seq<Mark>, flags: seq<bool>)
    requires Tidy(ms) && Distinct(ms, 0, |flags|) && forall k :: 0 <= k < |flags| ==> !flags[k]
    ensures var end := Visit(Pass(Collapsing, flags), ms).Collapse();
      Kinds(Guard(ms, end.flags)) == Shield(Kinds(ms))
  {
    assert ms[0..] == ms;
    var ks := Kinds(ms);
    var end := Visit(Pass(Collapsing, flags), ms).Collapse();
    forall i | 0 <= i < |ms| ensures Kinds(Guard(ms, end.flags))[i] == Shield(ks)[i] {
      if ms[i].id.Some? {
        SpaceIsDecided(Pass(Collapsing, flags), ms, 0, i);
      } else if ms[i] == Plain(Single) {
        assert Between(ms, i);
        assert ks[..i][i - 1] == ms[i - 1].kind;
        assert ks[i + 1..][0] == ms[i + 1].kind;
      }
    }
  }

  // ----- The wrapped nodes -----

  function Wrapped(nodes: seq<Node>, flags: seq<bool>): seq<Node> {
    if nodes == [] then [] else [WrappedNode(nodes[0], flags)] + Wrapped(nodes[1..], flags)
  }

  function WrappedNode(n: Node, flags: seq<bool>): Node {
    match n
    case TextNode(text, id) =>
      if text == " " && id < |flags| && flags[id] then SpanNode(false, [n]) else n
    case ElemNode(display, children) => ElemNode(display, Wrapped(children, flags))
    case _ => n
  }

  /** Wrapping keeps the trail. */
  lemma {:induction false} WrappedTrail(nodes: seq<Node>, flags: seq<bool>)
    ensures Trail(Wrapped(nodes, flags)) == Trail(nodes)
  {
    if nodes != [] {
      var n := nodes[0];
      match n {
        case TextNode(_, _) => OneTrail([], n);
        case ElemNode(_, children) => WrappedTrail(children, flags);
        case _ =>
      }
      WrappedTrail(nodes[1..], flags);
    }
  }

  lemma GuardAppend(a: seq<Mark>, b: seq<Mark>, flags: seq<bool>)
    ensures Guard(a + b, flags) == Guard(a, flags) + Guard(b, flags)
  {
  }

  lemma {:induction false} WrappedMarks(nodes: seq<Node>, flags: seq<bool>, ignorable: char -> bool)
    requires !IsIgnorableSpace(ignorable)
    ensures Marks(Wrapped(nodes, flags), ignorable) == Guard(Marks(nodes, ignorable), flags)
    ensures Words(Wrapped(nodes, flags)) == Words(nodes)
    ensures BlocksShown(Wrapped(nodes, flags), ignorable) == BlocksShown(nodes, ignorable)
    decreases nodes, 1
  {
    if nodes != [] {
      WrappedNodeMarks(nodes[0], flags, ignorable);
      WrappedMarks(nodes[1..], flags, ignorable);
      GuardAppend(NodeMarks(nodes[0], ignorable), Marks(nodes[1..], ignorable), flags);
    }
  }

  lemma {:induction false} WrappedNodeMarks(n: Node, flags: seq<bool>, ignorable: char -> bool)
    requires !IsIgnorableSpace(ignorable)
    ensures var w := WrappedNode(n, flags);
      && NodeMarks(w, ignorable) == Guard(NodeMarks(n, ignorable), flags)
      && NodeWords(w) == NodeWords(n)
      && NodeBlocksShown(w, ignorable) == NodeBlocksShown(n, ignorable)
    decreases n, 0
  {
    match n
    case TextNode(text, id) => WrappedText(text, id, flags, ignorable);
    case ElemNode(display, children) =>
      WrappedMarks(children, flags, ignorable);
      GuardSurrounds(n, flags, ignorable);
    case _ => Unguarded(NodeMarks(n, ignorable), flags);
  }

  lemma Unguarded(ms: seq<Mark>, flags: seq<bool>)
    requires forall i :: 0 <= i < |ms| ==> ms[i].id.None?
    ensures Guard(ms, flags) == ms
  {
  }

  lemma GuardSurrounds(n: Node, flags: seq<bool>, ignorable: char -> bool)
    requires n.ElemNode?
    requires Marks(Wrapped(n.children, flags), ignorable) == Guard(Marks(n.children, ignorable), flags)
    ensures NodeMarks(WrappedNode(n, flags), ignorable) == Guard(NodeMarks(n, ignorable), flags)
  {
    var ms := Marks(n.children, ignorable);
    match n.display
    case Inline => GuardEnds(Side, ms, Side, flags);
    case InlineBlock => GuardEnds(Enter, ms, Leave, flags);
    case _ => GuardEnds(Bound, ms, Bound, flags);
  }

  lemma GuardEnds(a: Kind, ms: seq<Mark>, b: Kind, flags: seq<bool>)
    ensures Guard([Plain(a)] + ms + [Plain(b)], flags) == [Plain(a)] + Guard(ms, flags) + [Plain(b)]
  {
  }

  lemma WrappedText(text: string, id: nat, flags: seq<bool>, ignorable: char -> bool)
    requires !IsIgnorableSpace(ignorable)
    ensures var n, w := TextNode(text, id), WrappedNode(TextNode(text, id), flags);
      && NodeMarks(w, ignorable) == Guard(NodeMarks(n, ignorable), flags)
      && NodeWords(w) == NodeWords(n)
  {
    var n := TextNode(text, id);
    if text == " " && id < |flags| && flags[id] {
      assert SpanText([n]) == " " + SpanText([n][1..]) == " ";
      assert NodeMarks(WrappedNode(n, flags), ignorable) == [Plain(Kept)];
    }
  }
}
