/**
 What converted fragments of content mean, and that fragments one after the other mean both.
 */
module HtmlFragments {
  import opened Options
  import opened CssText
  import opened Exposure
  import opened HtmlContent
  import opened HtmlNodes
  import opened HtmlProtect

  // ----- What fragments mean -----

  /** What is in a fragment, what it says, and whether all blocks in it are shown as they should be. */
  datatype Meaning = Meaning(raw: seq<Raw>, said: seq<Shown>, blocks: bool) {
    function Then(m: Meaning): Meaning {
      Meaning(raw + m.raw, said + m.said, blocks && m.blocks)
    }
  }

  const Nothing: Meaning := Meaning([], [], true)

  function MeaningOf(cs: seq<Content>, ignorable: char -> bool): Meaning {
    Meaning(RawOf(cs, ignorable), ContentShown(cs, ignorable), BlocksLossless(cs, ignorable))
  }

  function ElemMeaning(c: Content, ignorable: char -> bool): Meaning {
    Meaning(ElemRaw(c, ignorable), ElemShown(c, ignorable), ElemLossless(c, ignorable))
  }

  function TextMeaning(s: string, ignorable: char -> bool): Meaning {
    Meaning(TextRaw(s, ignorable), TextShown(s), true)
  }

  /** Text without newlines. */
  function CharsMeaning(s: string, ignorable: char -> bool): Meaning {
    Meaning(CharsRaw(s, ignorable), Chars(s), true)
  }

  function CharsRaw(s: string, ignorable: char -> bool): (raw: seq<Raw>)
    ensures |raw| == |s| && forall i :: 0 <= i < |s| ==> raw[i] == CharRaw(s[i], ignorable)
  {
    seq(|s|, i requires 0 <= i < |s| => CharRaw(s[i], ignorable))
  }

  const BreakMeaning: Meaning := Meaning([Elem([Brk])], [LineBreak], true)

  function ObjectMeaning(block: bool): Meaning {
    if block then Meaning([Elem([Bound, Firm, Bound])], [BlockBox([Object])], true)
    else Meaning([Elem([Firm])], [Object], true)
  }

  /** What the first character of a text says. */
  ghost function HeadMeaning(s: string, ignorable: char -> bool): (m: Meaning)
    requires s != []
    ensures TextMeaning(s, ignorable) == m.Then(TextMeaning(s[1..], ignorable))
  {
    if s[0] == '\r' && |s| > 1 && s[1] == '\n' then Nothing
    else if s[0] == '\r' || s[0] == '\n' then BreakMeaning
    else CharsMeaning([s[0]], ignorable)
  }

  /** It neither begins nor ends with white space. */
  predicate Unspaced(m: Meaning) {
    m.raw != [] && !m.raw[0].White? && !m.raw[|m.raw| - 1].White?
  }

  lemma ThenThen(a: Meaning, b: Meaning, c: Meaning)
    ensures a.Then(b).Then(c) == a.Then(b.Then(c))
  {
    assert a.raw + b.raw + c.raw == a.raw + (b.raw + c.raw);
    assert a.said + b.said + c.said == a.said + (b.said + c.said);
  }

  lemma ThenNothing(a: Meaning)
    ensures a.Then(Nothing) == a == Nothing.Then(a)
  {
  }

  /** No element; one element, or a space that will be wrapped in one if it stays alone; or more, or text. */
  datatype Shape = Empty | One | More {
    function And(s: Shape): Shape {
      if Empty? then s else if s.Empty? then this else More
    }
  }

  function NodeShape(n: Node): Shape {
    match n
    case TagNode(_) => Empty
    case TextNode(text, _) => if text == " " then One else More
    case _ => One
  }

  function ShapeOf(nodes: seq<Node>): Shape {
    if nodes == [] then Empty else NodeShape(nodes[0]).And(ShapeOf(nodes[1..]))
  }

  function RawShape(raw: seq<Raw>): Shape {
    if raw == [] then Empty else if Lone(raw) then One else More
  }

  /** The nodes are a conversion of a fragment; single spaces have distinct ids. */
  ghost predicate Converted(nodes: seq<Node>, m: Meaning, lo: nat, hi: nat, ignorable: char -> bool) {
    var ms := Marks(nodes, ignorable);
    && lo <= hi && Tidy(ms) && Distinct(ms, lo, hi)
    && Kinds(ms) == Classify(m.raw)
    && Words(nodes) == m.said
    && BlocksShown(nodes, ignorable) == m.blocks
    && ShapeOf(nodes) == RawShape(m.raw)
  }

  // ----- Fragments one after the other -----

  /** No white space is split. */
  predicate Joins(a: seq<Raw>, b: seq<Raw>) {
    a == [] || b == [] || !a[|a| - 1].White? || !b[0].White?
  }

  lemma {:induction false} ConvertedAppend(a: seq<Node>, b: seq<Node>, m: Meaning, m': Meaning, lo: nat, mid: nat, hi: nat,
                                           ignorable: char -> bool)
    requires Converted(a, m, lo, mid, ignorable) && Converted(b, m', mid, hi, ignorable) && Joins(m.raw, m'.raw)
    ensures Converted(a + b, m.Then(m'), lo, hi, ignorable)
  {
    NodesAppend(a, b, ignorable);
    ClassifyAppend(false, m.raw, m'.raw);
    MarksAppend(Marks(a, ignorable), Marks(b, ignorable), lo, mid, hi);
    ShapeAppend(m.raw, m'.raw);
  }

  lemma NodesAppend(a: seq<Node>, b: seq<Node>, ignorable: char -> bool)
    ensures Marks(a + b, ignorable) == Marks(a, ignorable) + Marks(b, ignorable)
    ensures Words(a + b) == Words(a) + Words(b)
    ensures BlocksShown(a + b, ignorable) == (BlocksShown(a, ignorable) && BlocksShown(b, ignorable))
    ensures ShapeOf(a + b) == ShapeOf(a).And(ShapeOf(b))
  {
    MarkListsAppend(a, b, ignorable);
    WordsAppend(a, b);
    ShapesAppend(a, b, ignorable);
  }

  lemma Regroup<T>(x: seq<T>, y: seq<T>, z: seq<T>)
    ensures x + (y + z) == x + y + z
  {
  }

  lemma {:induction false} MarkListsAppend(a: seq<Node>, b: seq<Node>, ignorable: char -> bool)
    ensures Marks(a + b, ignorable) == Marks(a, ignorable) + Marks(b, ignorable)
  {
    if a == [] {
      assert a + b == b;
    } else {
      assert (a + b)[1..] == a[1..] + b;
      MarkListsAppend(a[1..], b, ignorable);
      Regroup(NodeMarks(a[0], ignorable), Marks(a[1..], ignorable), Marks(b, ignorable));
    }
  }

  lemma {:induction false} WordsAppend(a: seq<Node>, b: seq<Node>)
    ensures Words(a + b) == Words(a) + Words(b)
  {
    if a == [] {
      assert a + b == b;
    } else {
      assert (a + b)[1..] == a[1..] + b;
      WordsAppend(a[1..], b);
      Regroup(NodeWords(a[0]), Words(a[1..]), Words(b));
    }
  }

  lemma {:induction false} ShapesAppend(a: seq<Node>, b: seq<Node>, ignorable: char -> bool)
    ensures BlocksShown(a + b, ignorable) == (BlocksShown(a, ignorable) && BlocksShown(b, ignorable))
    ensures ShapeOf(a + b) == ShapeOf(a).And(ShapeOf(b))
  {
    if a == [] {
      assert a + b == b;
    } else {
      assert (a + b)[1..] == a[1..] + b;
      ShapesAppend(a[1..], b, ignorable);
    }
  }

  lemma MarksAppend(a: seq<Mark>, b: seq<Mark>, lo: nat, mid: nat, hi: nat)
    requires Tidy(a) && Distinct(a, lo, mid) && Tidy(b) && Distinct(b, mid, hi) && lo <= mid <= hi
    ensures Tidy(a + b) && Distinct(a + b, lo, hi) && Kinds(a + b) == Kinds(a) + Kinds(b)
  {
    forall i | 0 <= i < |a + b| && (a + b)[i] == Plain(Single) ensures Between(a + b, i) {
      if i < |a| {
        assert Between(a, i);
      } else {
        assert Between(b, i - |a|);
      }
    }
  }

  lemma {:induction false} ClassifyAppend(afterWhite: bool, a: seq<Raw>, b: seq<Raw>)
    requires Joins(a, b) && (a == [] ==> !afterWhite || b == [] || !b[0].White?)
    ensures ClassifyFrom(afterWhite, a + b) == ClassifyFrom(afterWhite, a) + Classify(b)
    decreases |a|
  {
    if a == [] {
      assert a + b == b;
    } else {
      assert (a + b)[1..] == a[1..] + b;
      ClassifyAppend(a[0].White?, a[1..], b);
    }
  }

  lemma ShapeAppend(a: seq<Raw>, b: seq<Raw>)
    requires Joins(a, b)
    ensures RawShape(a + b) == RawShape(a).And(RawShape(b))
  {
    if a == [] {
      assert a + b == b;
    } else if b == [] {
      assert a + b == a;
    } else {
      assert a[|a| - 1] in a + b && b[0] in a + b;
    }
  }

  lemma OneNode(n: Node, ignorable: char -> bool)
    ensures Marks([n], ignorable) == NodeMarks(n, ignorable) && Words([n]) == NodeWords(n)
    ensures BlocksShown([n], ignorable) == NodeBlocksShown(n, ignorable) && ShapeOf([n]) == NodeShape(n)
  {
    assert [n][1..] == [];
  }

  lemma OneRaw(r: Raw)
    ensures Classify([r]) == HeadKinds(false, [r])
  {
    assert [r][1..] == [];
    assert ClassifyFrom(r.White?, []) == [];
  }

  /** A node for a single element is all that there is to it. */
  lemma ElementConverted(n: Node, ks: seq<Kind>, m: Meaning, lo: nat, hi: nat, ignorable: char -> bool)
    requires !n.TagNode? && !n.TextNode? && lo <= hi
    requires Tidy(NodeMarks(n, ignorable)) && Distinct(NodeMarks(n, ignorable), lo, hi)
    requires Kinds(NodeMarks(n, ignorable)) == ks
    requires m == Meaning([Elem(ks)], NodeWords(n), NodeBlocksShown(n, ignorable))
    ensures Converted([n], m, lo, hi, ignorable)
  {
    OneNode(n, ignorable);
    OneRaw(Elem(ks));
  }

  // ----- White space at the end of what has been converted -----

  function RunText(run: seq<Raw>): (s: string)
    ensures |s| == |run| && forall i :: 0 <= i < |run| ==> s[i] == WhiteChar(run[i])
  {
    seq(|run|, i requires 0 <= i < |run| => WhiteChar(run[i]))
  }

  function WhiteChar(r: Raw): char {
    if r == White(true) then '\t' else ' '
  }

  function RunMeaning(run: seq<Raw>): Meaning {
    Meaning(run, Chars(RunText(run)), true)
  }

  lemma RunAppend(run: seq<Raw>, more: seq<Raw>)
    ensures RunText(run + more) == RunText(run) + RunText(more)
    ensures RunMeaning(run + more) == RunMeaning(run).Then(RunMeaning(more))
  {
    assert RunText(run + more) == RunText(run) + RunText(more);
    CharsSplit(RunText(run), RunText(more));
  }

  /** Text nodes for the spaces and tabs of the run, and tags. */
  predicate Tail(nodes: seq<Node>, run: seq<Raw>, lo: nat, hi: nat) {
    if nodes == [] then run == [] && lo <= hi
    else match nodes[0]
      case TagNode(_) => Tail(nodes[1..], run, lo, hi)
      case TextNode(text, id) =>
        && run != [] && run[0].White? && text == (if run[0].tab then "\t" else " ")
        && lo <= id < hi && Tail(nodes[1..], run[1..], id + 1, hi)
      case _ => false
  }

  lemma {:induction false} TailGrows(nodes: seq<Node>, run: seq<Raw>, more: seq<Node>, extra: seq<Raw>, lo: nat, mid: nat,
                                     hi: nat)
    requires Tail(nodes, run, lo, mid) && Tail(more, extra, mid, hi)
    ensures Tail(nodes + more, run + extra, lo, hi)
  {
    if nodes == [] {
      assert nodes + more == more && run + extra == extra;
      TailWidens(more, extra, lo, mid, hi);
    } else {
      assert (nodes + more)[1..] == nodes[1..] + more;
      if nodes[0].TagNode? {
        TailGrows(nodes[1..], run, more, extra, lo, mid, hi);
      } else {
        assert (run + extra)[1..] == run[1..] + extra;
        TailBounds(more, extra, mid, hi);
        TailGrows(nodes[1..], run[1..], more, extra, nodes[0].id + 1, mid, hi);
      }
    }
  }

  lemma {:induction false} TailWidens(nodes: seq<Node>, run: seq<Raw>, lo: nat, lo': nat, hi: nat)
    requires Tail(nodes, run, lo', hi) && lo <= lo'
    ensures Tail(nodes, run, lo, hi)
  {
    if nodes != [] && nodes[0].TagNode? {
      TailWidens(nodes[1..], run, lo, lo', hi);
    }
  }

  lemma {:induction false} TailBounds(nodes: seq<Node>, run: seq<Raw>, lo: nat, hi: nat)
    requires Tail(nodes, run, lo, hi)
    ensures lo <= hi
  {
    if nodes != [] {
      TailBounds(nodes[1..], if nodes[0].TagNode? then run else run[1..],
                 if nodes[0].TagNode? then lo else nodes[0].id + 1, hi);
    }
  }

  lemma {:induction false} TailSays(nodes: seq<Node>, run: seq<Raw>, lo: nat, hi: nat, ignorable: char -> bool)
    requires Tail(nodes, run, lo, hi)
    ensures AllWhite(run) && SpanText(nodes) == RunText(run) && Words(nodes) == Chars(RunText(run))
    ensures BlocksShown(nodes, ignorable)
  {
    if nodes != [] {
      if nodes[0].TagNode? {
        TailSays(nodes[1..], run, lo, hi, ignorable);
      } else {
        TailSays(nodes[1..], run[1..], nodes[0].id + 1, hi, ignorable);
        HeadRun(nodes[0].text, run);
      }
    }
  }

  lemma HeadRun(text: string, run: seq<Raw>)
    requires run != [] && run[0].White? && text == (if run[0].tab then "\t" else " ") && AllWhite(run[1..])
    ensures AllWhite(run)
    ensures RunText(run) == text + RunText(run[1..])
    ensures Chars(RunText(run)) == Chars(text) + Chars(RunText(run[1..]))
  {
    assert run == [run[0]] + run[1..];
    RunAppend([run[0]], run[1..]);
    assert RunText([run[0]]) == text;
  }

  lemma {:induction false} SingleTail(nodes: seq<Node>, lo: nat, hi: nat, ignorable: char -> bool) returns (id: nat)
    requires Tail(nodes, [White(false)], lo, hi)
    ensures lo <= id < hi && Marks(nodes, ignorable) == [Mark(Single, Some(id))] && ShapeOf(nodes) == One
  {
    if nodes[0].TagNode? {
      id := SingleTail(nodes[1..], lo, hi, ignorable);
    } else {
      id := nodes[0].id;
      OnlyTags(nodes[1..], [White(false)][1..], id + 1, hi, ignorable);
    }
  }

  lemma {:induction false} OnlyTags(nodes: seq<Node>, run: seq<Raw>, lo: nat, hi: nat, ignorable: char -> bool)
    requires Tail(nodes, run, lo, hi) && run == []
    ensures Marks(nodes, ignorable) == [] && ShapeOf(nodes) == Empty
  {
    if nodes != [] {
      OnlyTags(nodes[1..], run, lo, hi, ignorable);
    }
  }

  /** A single space is left as it is. */
  lemma SingleConverted(nodes: seq<Node>, lo: nat, hi: nat, ignorable: char -> bool)
    requires Tail(nodes, [White(false)], lo, hi)
    ensures Converted(nodes, RunMeaning([White(false)]), lo, hi, ignorable)
  {
    TailSays(nodes, [White(false)], lo, hi, ignorable);
    TailBounds(nodes, [White(false)], lo, hi);
    var id := SingleTail(nodes, lo, hi, ignorable);
    OneRaw(White(false));
  }

  /** All other white space is wrapped. */
  lemma SpanConverted(nodes: seq<Node>, run: seq<Raw>, lo: nat, hi: nat, ignorable: char -> bool)
    requires Tail(nodes, run, lo, hi) && run != [] && run != [White(false)]
    ensures AllWhite(run) && Converted([SpanNode(false, nodes)], RunMeaning(run), lo, hi, ignorable)
  {
    TailSays(nodes, run, lo, hi, ignorable);
    TailBounds(nodes, run, lo, hi);
    OneNode(SpanNode(false, nodes), ignorable);
    AllKept(false, run);
  }

  lemma {:induction false} AllKept(afterWhite: bool, run: seq<Raw>)
    requires AllWhite(run) && (afterWhite || run != [White(false)])
    ensures var ks := ClassifyFrom(afterWhite, run); |ks| == |run| && forall i :: 0 <= i < |ks| ==> ks[i] == Kept
    decreases |run|
  {
    if run != [] {
      assert run[0] in run;
      assert |run| > 1 ==> run[1] in run;
      AllKept(true, run[1..]);
      assert |run| == 1 ==> run == [run[0]];
    }
  }

  // ----- Text -----

  /** Spaces, tabs, newlines and default-ignorables get special treatment. */
  predicate Special(c: char, ignorable: char -> bool) {
    c == ' ' || c == '\t' || c == '\r' || c == '\n' || ignorable(c)
  }

  /** A character at `j` that needs no node of its own: normal, or a space between normal ones. */
  predicate Ordinary(t: string, j: nat, ignorable: char -> bool)
    requires j < |t|
  {
    || !Special(t[j], ignorable)
    || (t[j] == ' ' && 0 < j < |t| - 1 && !Special(t[j - 1], ignorable) && !Special(t[j + 1], ignorable))
  }

  predicate Unspecial(t: string, ignorable: char -> bool) {
    && t != [] && !Special(t[0], ignorable) && !Special(t[|t| - 1], ignorable)
    && forall j :: 0 <= j < |t| ==> Ordinary(t, j, ignorable)
  }

  /** Text that is pushed as one node: a stretch of unspecial text, or one default-ignorable. */
  predicate Pushable(t: string, ignorable: char -> bool) {
    Unspecial(t, ignorable) || (|t| == 1 && !IsSpace(t[0]) && ignorable(t[0]))
  }

  /** Unspecial text up to a special character, or to the end. */
  lemma SegmentIsUnspecial(text: string, a: nat, b: nat, ignorable: char -> bool)
    requires a < b <= |text| && (a > 0 ==> Special(text[a - 1], ignorable))
    requires b < |text| ==> Special(text[b], ignorable)
    requires forall j :: a <= j < b ==> Ordinary(text, j, ignorable)
    ensures Unspecial(text[a..b], ignorable)
    ensures forall j :: 0 <= j < b - a ==> text[a..b][j] != '\r' && text[a..b][j] != '\n'
  {
    assert Ordinary(text, a, ignorable) && Ordinary(text, b - 1, ignorable);
    forall j | 0 <= j < b - a
      ensures Ordinary(text[a..b], j, ignorable) && text[a..b][j] != '\r' && text[a..b][j] != '\n'
    {
      assert Ordinary(text, a + j, ignorable);
    }
  }

  lemma {:induction false} NoNewlines(s: string, rest: string, ignorable: char -> bool)
    requires forall j :: 0 <= j < |s| ==> s[j] != '\r' && s[j] != '\n'
    ensures TextMeaning(s + rest, ignorable) == CharsMeaning(s, ignorable).Then(TextMeaning(rest, ignorable))
    decreases |s|
  {
    if s == [] {
      assert s + rest == rest;
      ThenNothing(TextMeaning(rest, ignorable));
    } else {
      assert (s + rest)[1..] == s[1..] + rest && (s + rest)[0] == s[0];
      NoNewlines(s[1..], rest, ignorable);
      HeadChar(s, ignorable);
      ThenThen(CharsMeaning([s[0]], ignorable), CharsMeaning(s[1..], ignorable), TextMeaning(rest, ignorable));
      var m := HeadMeaning(s + rest, ignorable);
    }
  }

  lemma HeadChar(s: string, ignorable: char -> bool)
    requires s != []
    ensures CharsMeaning(s, ignorable) == CharsMeaning([s[0]], ignorable).Then(CharsMeaning(s[1..], ignorable))
  {
    HeadRaw(s, ignorable);
    CharsSplit([s[0]], s[1..]);
    assert [s[0]] + s[1..] == s;
  }

  lemma HeadRaw(s: string, ignorable: char -> bool)
    requires s != []
    ensures CharsRaw(s, ignorable) == CharsRaw([s[0]], ignorable) + CharsRaw(s[1..], ignorable)
  {
  }

  lemma CharsSplit(s: string, t: string)
    ensures Chars(s + t) == Chars(s) + Chars(t)
  {
  }

  lemma TextConverted(t: string, id: nat, ignorable: char -> bool)
    requires Pushable(t, ignorable)
    ensures Converted([TextNode(t, id)], CharsMeaning(t, ignorable), id, id + 1, ignorable)
    ensures Unspaced(CharsMeaning(t, ignorable))
  {
    OneNode(TextNode(t, id), ignorable);
    assert t != " ";
    assert CharsRaw(t, ignorable)[0].Glyph?;
    if Unspecial(t, ignorable) {
      ClassifyText(t, 0, ignorable);
      assert CharsRaw(t, ignorable)[0..] == CharsRaw(t, ignorable);
      TextIsTidy(t, ignorable);
    } else {
      OneRaw(CharRaw(t[0], ignorable));
      assert CharsRaw(t, ignorable) == [CharRaw(t[0], ignorable)];
    }
  }

  lemma TextIsTidy(t: string, ignorable: char -> bool)
    requires Unspecial(t, ignorable)
    ensures Tidy(CharMarks(t, ignorable))
  {
    var ms := CharMarks(t, ignorable);
    forall i | 0 <= i < |t| ensures !ms[i].kind.Tab? && (ms[i] == Plain(Single) ==> Between(ms, i)) {
      assert Ordinary(t, i, ignorable);
    }
  }

  lemma {:induction false} ClassifyText(t: string, n: nat, ignorable: char -> bool)
    requires Unspecial(t, ignorable) && n <= |t|
    ensures ClassifyFrom(n > 0 && IsSpace(t[n - 1]), CharsRaw(t, ignorable)[n..]) == Kinds(CharMarks(t, ignorable))[n..]
    decreases |t| - n
  {
    if n < |t| {
      ClassifyText(t, n + 1, ignorable);
      var raw := CharsRaw(t, ignorable);
      assert raw[n..][1..] == raw[n + 1..];
      HeadOfText(t, n, ignorable);
    }
  }

  lemma HeadOfText(t: string, n: nat, ignorable: char -> bool)
    requires Unspecial(t, ignorable) && n < |t|
    ensures HeadKinds(n > 0 && IsSpace(t[n - 1]), CharsRaw(t, ignorable)[n..]) == [CharKind(t[n], ignorable)]
  {
    assert Ordinary(t, n, ignorable);
    var raw := CharsRaw(t, ignorable);
    assert raw[n..][0] == raw[n] && (n + 1 < |t| ==> raw[n..][1] == raw[n + 1]);
  }

  // ----- Elements -----

  lemma Surrounded(a: Kind, ms: seq<Mark>, b: Kind, lo: nat, hi: nat)
    requires Tidy(ms) && Distinct(ms, lo, hi) && lo <= hi && !a.Single? && !a.Tab? && !b.Single? && !b.Tab?
    ensures var all := [Plain(a)] + ms + [Plain(b)];
      Tidy(all) && Distinct(all, lo, hi) && Kinds(all) == [a] + Kinds(ms) + [b]
  {
    MarksAppend([Plain(a)], ms, lo, lo, hi);
    MarksAppend([Plain(a)] + ms, [Plain(b)], lo, hi, hi);
    KindsSurrounded(a, ms, b);
  }

  lemma KindsSurrounded(a: Kind, ms: seq<Mark>, b: Kind)
    ensures Kinds([Plain(a)] + ms + [Plain(b)]) == [a] + Kinds(ms) + [b]
  {
  }
}
