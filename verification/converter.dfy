/**
 The converter of a fragment. It protects tabs and longer white space at once and leaves single spaces
 to the pass over the whole block.
 */
module HtmlConverter {
  import opened Options
  import opened CssText
  import opened Exposure
  import opened HtmlContent
  import opened HtmlNodes
  import opened HtmlFragments
  import opened HtmlTrails

  /** The trailing white space starts at `from`; `single` if it is exactly one space. */
  datatype Trailing = Trailing(single: bool, from: nat)

  /** A converted fragment, followed by white space that may still grow. */
  ghost predicate State(output: seq<Node>, trailing: Option<Trailing>, done: Meaning, run: seq<Raw>, base: nat, mid: nat,
                        next: nat, ignorable: char -> bool)
  {
    (done.raw != [] ==> !done.raw[|done.raw| - 1].White?) &&
    match trailing
    case None => run == [] && mid == next && Converted(output, done, base, mid, ignorable)
    case Some(t) =>
      && t.from <= |output| && run != [] && (t.single <==> run == [White(false)])
      && Converted(output[..t.from], done, base, mid, ignorable)
      && Tail(output[t.from..], run, mid, next)
  }

  /** What is still to be said of the text after `k`, and the trail that it leaves. */
  ghost predicate RestOf(total: Meaning, trail: seq<Step>, whole: Meaning, end: seq<Step>, text: string, k: nat,
                         ignorable: char -> bool)
    requires k <= |text|
  {
    && whole == total.Then(TextMeaning(text[k..], ignorable))
    && end == trail + Leaves(TextShown(text[k..]))
  }

  /** Trailing white space with one more space or tab, which follows `n` nodes. */
  function Widened(trailing: Option<Trailing>, n: nat, tab: bool): Trailing {
    match trailing
    case None => Trailing(!tab, n)
    case Some(t) => Trailing(false, t.from)
  }

  class Converter {
    const ignorable: char -> bool
    var output: seq<Node>
    var trailing: Option<Trailing>
    /** The next id of a text node. */
    var next: nat
    ghost const base: nat
    /** What was converted up to the trailing white space, with ids up to `mid`. */
    ghost var done: Meaning
    ghost var mid: nat
    ghost var run: seq<Raw>
    /** The trail of the output. */
    ghost var trail: seq<Step>

    constructor (next: nat, ignorable: char -> bool)
      ensures Valid() && this.next == next && this.ignorable == ignorable && base == next && Total() == Nothing
      ensures trail == []
    {
      this.ignorable := ignorable;
      this.next := next;
      output, trailing := [], None;
      base, mid, done, run, trail := next, next, Nothing, [], [];
    }

    ghost predicate Valid()
      reads this
    {
      State(output, trailing, done, run, base, mid, next, ignorable) && trail == Trail(output)
    }

    /** What was converted so far. */
    ghost function Total(): Meaning
      reads this
    {
      done.Then(RunMeaning(run))
    }

    ghost predicate Rest(whole: Meaning, end: seq<Step>, text: string, k: nat)
      requires k <= |text|
      reads this
    {
      RestOf(Total(), trail, whole, end, text, k, ignorable)
    }

    /** Wraps trailing white space unless it is a single space. */
    method FlushWhitespace()
      requires Valid()
      modifies this`output, this`trailing
      ensures trailing == None && Converted(output, Total(), base, next, ignorable) && trail == Trail(output)
    {
      if trailing.Some? {
        var t := trailing.value;
        FlushKeeps(output, t, done, run, base, mid, next, ignorable);
        SpanTrail(output, t.from);
        trailing := None;
        if !t.single {
          output := output[..t.from] + [SpanNode(false, output[t.from..])];
        }
      } else {
        ThenNothing(done);
      }
    }

    /** Finishes the fragment. */
    method Finish() returns (nodes: seq<Node>)
      requires Valid()
      modifies this`output, this`trailing
      ensures Converted(nodes, Total(), base, next, ignorable) && Trail(nodes) == trail
    {
      FlushWhitespace();
      nodes := output;
    }

    /** Appends a node. */
    method Put(n: Node)
      requires trail == Trail(output)
      modifies this`output, this`trail
      ensures output == old(output) + [n] && trail == Trail(output) == old(trail) + NodeTrail(n)
    {
      OneTrail(output, n);
      output, trail := output + [n], trail + NodeTrail(n);
    }

    /** Appends a node for something other than white space. */
    method Append(n: Node, ghost m: Meaning, next: nat)
      requires trailing == None && Converted(output, Total(), base, this.next, ignorable) && trail == Trail(output)
      requires Unspaced(m) && Converted([n], m, this.next, next, ignorable)
      modifies this`output, this`next, this`done, this`mid, this`run, this`trail
      ensures Valid() && this.next == next && Total() == old(Total()).Then(m) && trail == old(trail) + NodeTrail(n)
    {
      AppendKeeps(output, n, Total(), m, base, this.next, next, ignorable);
      done, mid, run, this.next := Total().Then(m), next, [], next;
      Put(n);
    }

    /** Pushes the text node of a space or tab. */
    method PushWhite(tab: bool)
      requires Valid()
      modifies this
      ensures Valid() && next == old(next) + 1 && Total() == old(Total()).Then(RunMeaning([White(tab)]))
      ensures trail == old(trail) + [LeafStep(WhiteLeaf(tab))]
    {
      var n := WhiteNode(tab, next);
      WhitePushed(output, trailing, done, run, base, mid, next, tab, ignorable);
      RunGrows(done, run, White(tab));
      WhiteTrail(tab, next);
      trailing := Some(Widened(trailing, |output|, tab));
      Put(n);
      next, run := next + 1, run + [White(tab)];
    }

    /** Pushes text that is no white space. */
    method PushText(s: string)
      requires Valid() && Pushable(s, ignorable)
      modifies this
      ensures Valid() && next == old(next) + 1 && Total() == old(Total()).Then(CharsMeaning(s, ignorable))
      ensures trail == old(trail) + Leaves(Chars(s))
    {
      FlushWhitespace();
      TextConverted(s, next, ignorable);
      Append(TextNode(s, next), CharsMeaning(s, ignorable), next + 1);
    }

    /** Pushes a tag, which belongs to the white space around it. */
    method PushTag(tag: nat)
      requires Valid()
      modifies this`output, this`trail
      ensures Valid() && trail == old(trail) + [TagStep(tag)]
    {
      var n := TagNode(tag);
      if trailing.Some? {
        TailPushed(output, trailing.value.from, n, run, [], mid, next, next);
        assert run + [] == run;
      } else {
        TagConverted(output, tag, done, base, mid, ignorable);
      }
      Put(n);
    }

    /** Pushes an element or frame; `next` is after the ids in it. */
    method PushElement(n: Node, ghost m: Meaning, next: nat)
      requires Valid() && |m.raw| == 1 && m.raw[0].Elem? && Converted([n], m, this.next, next, ignorable)
      modifies this
      ensures Valid() && this.next == next && Total() == old(Total()).Then(m) && trail == old(trail) + NodeTrail(n)
    {
      FlushWhitespace();
      Append(n, m, next);
    }

    /** A line break. */
    method PushBreak()
      requires Valid()
      modifies this
      ensures Valid() && next == old(next) && Total() == old(Total()).Then(BreakMeaning)
      ensures trail == old(trail) + [LeafStep(LineBreak)]
    {
      BreakConverted(next, ignorable);
      PushElement(BrNode, BreakMeaning, next);
    }

    /** A replaced element or frame. */
    method PushObject(block: bool)
      requires Valid()
      modifies this
      ensures Valid() && next == old(next) && Total() == old(Total()).Then(ObjectMeaning(block))
      ensures trail == old(trail) + [LeafStep(Object)]
    {
      ObjectConverted(block, next, ignorable);
      PushElement(ObjectNode(block), ObjectMeaning(block), next);
    }

    /** Splits text so that white space and newlines get nodes of their own where they need it. */
    method HandleText(text: string)
      requires Valid()
      modifies this
      ensures Valid() && next >= old(next) && Total() == old(Total()).Then(TextMeaning(text, ignorable))
      ensures trail == old(trail) + Leaves(TextShown(text))
    {
      ghost var whole, end := Total().Then(TextMeaning(text, ignorable)), trail + Leaves(TextShown(text));
      var emitted: nat := 0;
      assert text[0..] == text;
      for i := 0 to |text|
        invariant Valid() && next >= old(next)
        invariant Unemitted(text, emitted, i, ignorable) && Rest(whole, end, text, emitted)
      {
        emitted := HandleChar(text, emitted, i, whole, end);
      }
      if emitted < |text| {
        PushSegment(text, emitted, |text|, whole, end);
      }
      NothingLeft(Total(), text, ignorable);
    }

    /** Emits a character that needs a node of its own, after the text before it. */
    method HandleChar(text: string, emitted: nat, i: nat, ghost whole: Meaning, ghost end: seq<Step>)
      returns (done: nat)
      requires Valid() && i < |text| && Unemitted(text, emitted, i, ignorable) && Rest(whole, end, text, emitted)
      modifies this
      ensures Valid() && next >= old(next) && Unemitted(text, done, i + 1, ignorable) && Rest(whole, end, text, done)
    {
      done := emitted;
      if !Special(text[i], ignorable) {
        return;
      }
      // A space between normal characters is already protected.
      if text[i] == ' ' && 0 < i < |text| - 1 && !Special(text[i - 1], ignorable) && !Special(text[i + 1], ignorable) {
        return;
      }
      PushUpTo(text, emitted, i, whole, end);
      done := i + 1;
    }

    /** Pushes the unspecial text up to a special character and that character. */
    method PushUpTo(text: string, emitted: nat, i: nat, ghost whole: Meaning, ghost end: seq<Step>)
      requires Valid() && Unemitted(text, emitted, i, ignorable) && Rest(whole, end, text, emitted)
      requires i < |text| && Special(text[i], ignorable)
      modifies this
      ensures Valid() && next >= old(next) && Rest(whole, end, text, i + 1)
    {
      if emitted < i {
        PushSegment(text, emitted, i, whole, end);
      }
      PushSpecial(text, i, whole, end);
    }

    /** Pushes unspecial text up to a special character, or to the end. */
    method PushSegment(text: string, a: nat, b: nat, ghost whole: Meaning, ghost end: seq<Step>)
      requires Valid() && a < b && Unemitted(text, a, b, ignorable) && Rest(whole, end, text, a)
      requires b < |text| ==> Special(text[b], ignorable)
      modifies this
      ensures Valid() && next >= old(next) && Rest(whole, end, text, b)
    {
      SegmentMeaning(Total(), trail, text, a, b, ignorable);
      PushText(text[a..b]);
    }

    /** Pushes a special character: a text node of its own, or a line break. */
    method PushSpecial(text: string, i: nat, ghost whole: Meaning, ghost end: seq<Step>)
      requires Valid() && i < |text| && Special(text[i], ignorable) && Rest(whole, end, text, i)
      modifies this
      ensures Valid() && next >= old(next) && Rest(whole, end, text, i + 1)
    {
      RestAdvances(Total(), trail, whole, end, text, i, ignorable);
      PushHead(text, i);
    }

    method PushHead(text: string, i: nat)
      requires Valid() && i < |text| && Special(text[i], ignorable)
      modifies this
      ensures Valid() && next >= old(next) && trail == old(trail) + HeadTrail(text, i)
      ensures Total() == old(Total()).Then(HeadMeaning(text[i..], ignorable))
    {
      if IsSpace(text[i]) {
        HeadIsWhite(text, i, ignorable);
        PushWhite(text[i] == '\t');
      } else if text[i] == '\r' || text[i] == '\n' {
        PushNewline(text, i);
      } else {
        HeadIsChar(text, i, ignorable);
        PushText([text[i]]);
      }
    }

    /** The CR of a CRLF is skipped because the LF will already turn into a break. */
    method PushNewline(text: string, i: nat)
      requires Valid() && i < |text| && (text[i] == '\r' || text[i] == '\n')
      modifies this
      ensures Valid() && next == old(next) && trail == old(trail) + HeadTrail(text, i)
      ensures Total() == old(Total()).Then(HeadMeaning(text[i..], ignorable))
    {
      if text[i] == '\r' && i + 1 < |text| && text[i + 1] == '\n' {
        ThenNothing(Total());
      } else {
        PushBreak();
      }
    }
  }

  function WhiteLeaf(tab: bool): Shown {
    Char(if tab then '\t' else ' ')
  }

  function WhiteNode(tab: bool, id: nat): Node {
    TextNode(if tab then "\t" else " ", id)
  }

  lemma WhiteTrail(tab: bool, id: nat)
    ensures NodeTrail(WhiteNode(tab, id)) == [LeafStep(WhiteLeaf(tab))]
  {
  }

  lemma BreakConverted(next: nat, ignorable: char -> bool)
    ensures Converted([BrNode], BreakMeaning, next, next, ignorable)
  {
    ElementConverted(BrNode, [Brk], BreakMeaning, next, next, ignorable);
  }

  lemma ObjectConverted(block: bool, next: nat, ignorable: char -> bool)
    ensures Converted([ObjectNode(block)], ObjectMeaning(block), next, next, ignorable)
  {
    Surrounded(Bound, [Plain(Firm)], Bound, next, next);
    ElementConverted(ObjectNode(block), ObjectMeaning(block).raw[0].kinds, ObjectMeaning(block), next, next, ignorable);
  }

  function HeadTrail(text: string, i: nat): seq<Step>
    requires i < |text|
  {
    if text[i] == '\r' && i + 1 < |text| && text[i + 1] == '\n' then []
    else if text[i] == '\r' || text[i] == '\n' then [LeafStep(LineBreak)]
    else [LeafStep(Char(text[i]))]
  }

  lemma HeadLeaves(text: string, i: nat)
    requires i < |text|
    ensures Leaves(TextShown(text[i..])) == HeadTrail(text, i) + Leaves(TextShown(text[i + 1..]))
  {
    assert text[i..][1..] == text[i + 1..];
  }

  lemma RestAdvances(total: Meaning, trail: seq<Step>, whole: Meaning, end: seq<Step>, text: string, i: nat,
                     ignorable: char -> bool)
    requires i < |text| && RestOf(total, trail, whole, end, text, i, ignorable)
    ensures RestOf(total.Then(HeadMeaning(text[i..], ignorable)), trail + HeadTrail(text, i), whole, end, text, i + 1,
                   ignorable)
  {
    HeadLeaves(text, i);
    Regroup(trail, HeadTrail(text, i), Leaves(TextShown(text[i + 1..])));
    assert text[i..][1..] == text[i + 1..];
    ThenThen(total, HeadMeaning(text[i..], ignorable), TextMeaning(text[i + 1..], ignorable));
  }

  /** Everything from `emitted` to `i` needs no node of its own. */
  ghost predicate Unemitted(text: string, emitted: nat, i: nat, ignorable: char -> bool) {
    && emitted <= i <= |text| && (emitted > 0 ==> Special(text[emitted - 1], ignorable))
    && forall j :: emitted <= j < i ==> Ordinary(text, j, ignorable)
  }

  lemma SegmentMeaning(done: Meaning, trail: seq<Step>, text: string, a: nat, b: nat, ignorable: char -> bool)
    requires a < b && Unemitted(text, a, b, ignorable) && (b < |text| ==> Special(text[b], ignorable))
    ensures Pushable(text[a..b], ignorable)
    ensures trail + Leaves(TextShown(text[a..])) == trail + Leaves(Chars(text[a..b])) + Leaves(TextShown(text[b..]))
    ensures done.Then(TextMeaning(text[a..], ignorable))
         == done.Then(CharsMeaning(text[a..b], ignorable)).Then(TextMeaning(text[b..], ignorable))
  {
    SegmentIsUnspecial(text, a, b, ignorable);
    NoNewlines(text[a..b], text[b..], ignorable);
    assert text[a..] == text[a..b] + text[b..];
    assert TextMeaning(text[a..], ignorable).said == TextShown(text[a..]);
    LeavesAppend(Chars(text[a..b]), TextShown(text[b..]));
    Regroup(trail, Leaves(Chars(text[a..b])), Leaves(TextShown(text[b..])));
    ThenThen(done, CharsMeaning(text[a..b], ignorable), TextMeaning(text[b..], ignorable));
  }

  lemma NothingLeft(done: Meaning, text: string, ignorable: char -> bool)
    ensures done.Then(TextMeaning(text[|text|..], ignorable)) == done
  {
    assert text[|text|..] == [];
    ThenNothing(done);
  }

  lemma HeadIsChar(text: string, i: nat, ignorable: char -> bool)
    requires i < |text| && text[i] != '\r' && text[i] != '\n'
    ensures HeadMeaning(text[i..], ignorable) == CharsMeaning([text[i]], ignorable)
    ensures HeadTrail(text, i) == Leaves(Chars([text[i]]))
  {
  }

  lemma HeadIsWhite(text: string, i: nat, ignorable: char -> bool)
    requires i < |text| && IsSpace(text[i])
    ensures HeadMeaning(text[i..], ignorable) == RunMeaning([White(text[i] == '\t')])
    ensures HeadTrail(text, i) == [LeafStep(WhiteLeaf(text[i] == '\t'))]
  {
    WhiteMeaning(text[i], ignorable);
  }

  lemma WhiteMeaning(c: char, ignorable: char -> bool)
    requires IsSpace(c)
    ensures RunMeaning([White(c == '\t')]) == CharsMeaning([c], ignorable)
  {
    assert RunText([White(c == '\t')]) == [c];
    assert CharsRaw([c], ignorable) == [White(c == '\t')];
  }

  lemma {:induction false} FlushKeeps(output: seq<Node>, t: Trailing, done: Meaning, run: seq<Raw>, base: nat, mid: nat,
                                      next: nat, ignorable: char -> bool)
    requires State(output, Some(t), done, run, base, mid, next, ignorable)
    ensures Converted(if t.single then output else output[..t.from] + [SpanNode(false, output[t.from..])],
                      done.Then(RunMeaning(run)), base, next, ignorable)
  {
    var kept, nodes := output[..t.from], output[t.from..];
    TailKept(kept, nodes, t.single, done, run, base, mid, next, ignorable);
    assert t.single ==> output == kept + nodes;
  }

  lemma {:induction false} TailKept(kept: seq<Node>, nodes: seq<Node>, single: bool, done: Meaning, run: seq<Raw>,
                                    base: nat, mid: nat, next: nat, ignorable: char -> bool)
    requires done.raw != [] ==> !done.raw[|done.raw| - 1].White?
    requires run != [] && (single <==> run == [White(false)])
    requires Converted(kept, done, base, mid, ignorable) && Tail(nodes, run, mid, next)
    ensures Converted(kept + if single then nodes else [SpanNode(false, nodes)], done.Then(RunMeaning(run)), base, next,
                      ignorable)
  {
    if single {
      SingleConverted(nodes, mid, next, ignorable);
      RunKept(kept, nodes, done, run, base, mid, next, ignorable);
    } else {
      SpanConverted(nodes, run, mid, next, ignorable);
      RunKept(kept, [SpanNode(false, nodes)], done, run, base, mid, next, ignorable);
    }
  }

  lemma {:induction false} RunKept(kept: seq<Node>, nodes: seq<Node>, done: Meaning, run: seq<Raw>, base: nat, mid: nat,
                                   next: nat, ignorable: char -> bool)
    requires done.raw != [] ==> !done.raw[|done.raw| - 1].White?
    requires Converted(kept, done, base, mid, ignorable) && Converted(nodes, RunMeaning(run), mid, next, ignorable)
    ensures Converted(kept + nodes, done.Then(RunMeaning(run)), base, next, ignorable)
  {
    RunJoins(done, run);
    ConvertedAppend(kept, nodes, done, RunMeaning(run), base, mid, next, ignorable);
  }

  lemma RunJoins(done: Meaning, run: seq<Raw>)
    requires done.raw != [] ==> !done.raw[|done.raw| - 1].White?
    ensures Joins(done.raw, RunMeaning(run).raw)
  {
  }

  lemma AppendKeeps(output: seq<Node>, n: Node, done: Meaning, m: Meaning, base: nat, mid: nat, next: nat,
                    ignorable: char -> bool)
    requires Unspaced(m) && Converted(output, done, base, mid, ignorable) && Converted([n], m, mid, next, ignorable)
    ensures State(output + [n], None, done.Then(m), [], base, next, next, ignorable)
    ensures done.Then(m).Then(RunMeaning([])) == done.Then(m)
  {
    ConvertedAppend(output, [n], done, m, base, mid, next, ignorable);
    ThenNothing(done.Then(m));
  }

  lemma WhitePushed(output: seq<Node>, trailing: Option<Trailing>, done: Meaning, run: seq<Raw>, base: nat, mid: nat,
                    next: nat, tab: bool, ignorable: char -> bool)
    requires State(output, trailing, done, run, base, mid, next, ignorable)
    ensures State(output + [WhiteNode(tab, next)], Some(Widened(trailing, |output|, tab)), done, run + [White(tab)],
                  base, mid, next + 1, ignorable)
  {
    var n := WhiteNode(tab, next);
    var from := if trailing.Some? then trailing.value.from else |output|;
    assert output[|output|..] == [] && output[..|output|] == output;
    TailPushed(output, from, n, run, [White(tab)], mid, next, next + 1);
  }

  lemma TailPushed(output: seq<Node>, from: nat, n: Node, run: seq<Raw>, extra: seq<Raw>, lo: nat, mid: nat, hi: nat)
    requires from <= |output| && mid <= hi && Tail(output[from..], run, lo, mid)
    requires match n
             case TagNode(_) => extra == []
             case TextNode(text, id) =>
               mid <= id < hi && extra == [White(text == "\t")] && (text == " " || text == "\t")
             case _ => false
    ensures (output + [n])[..from] == output[..from] && Tail((output + [n])[from..], run + extra, lo, hi)
  {
    assert (output + [n])[from..] == output[from..] + [n];
    assert [n][1..] == [] && (extra != [] ==> extra[1..] == []);
    assert Tail([n], extra, mid, hi);
    TailGrows(output[from..], run, [n], extra, lo, mid, hi);
  }

  lemma RunGrows(done: Meaning, run: seq<Raw>, r: Raw)
    ensures done.Then(RunMeaning(run)).Then(RunMeaning([r])) == done.Then(RunMeaning(run + [r]))
  {
    RunAppend(run, [r]);
    ThenThen(done, RunMeaning(run), RunMeaning([r]));
  }

  lemma TagConverted(nodes: seq<Node>, tag: nat, m: Meaning, lo: nat, hi: nat, ignorable: char -> bool)
    requires Converted(nodes, m, lo, hi, ignorable)
    ensures Converted(nodes + [TagNode(tag)], m, lo, hi, ignorable)
  {
    OneNode(TagNode(tag), ignorable);
    NodesAppend(nodes, [TagNode(tag)], ignorable);
    assert Marks(nodes, ignorable) + [] == Marks(nodes, ignorable) && Words(nodes) + [] == Words(nodes);
  }
}
