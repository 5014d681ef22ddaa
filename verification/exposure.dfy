/**
 Which single spaces are left exposed to the white space rules, and which of them are lost, read off
 the kinds of things in a block in document order.
 */
module Exposure {
  import opened Scanning

  /**
   A single space; a tab, which content never leaves exposed; white space that is preserved; a
   default-ignorable; text or an object; a line break or a block with a context of its own; the start or
   end of something that is displayed as a block but converted as part of the line; the start and end of
   an inline block; and the start or end of any other element.
   */
  datatype Kind = Single | Tab | Kept | Invisible | Firm | Brk | Bound | Enter | Leave | Side {
    function Sign(): Sign {
      match this
      case Single => Space
      case Tab => Scanning.Tab
      case Kept | Firm => Solid
      case Brk | Bound => Edge
      case Enter => Open
      case Leave => Close
      case Invisible | Side => Clear
    }

    /** What supports a space, is one, or makes it collapse, as far as the converter can see. */
    predicate Visible() { Single? || Firm? || Brk? }
  }

  /** There is something visible on the left, and it is not a line break or block. */
  predicate Supported(before: seq<Kind>) {
    before != [] &&
    var k := before[|before| - 1];
    if k.Visible() then !k.Brk? else Supported(before[..|before| - 1])
  }

  /** The first visible thing is text or an object. */
  predicate Meets(after: seq<Kind>) {
    after != [] && if after[0].Visible() then after[0].Firm? else Meets(after[1..])
  }

  /** Elements and default-ignorables aside, what comes before ends with the start of a line of its own. */
  predicate Opens(before: seq<Kind>) {
    before != [] &&
    var k := before[|before| - 1];
    if k.Sign().Clear? then Opens(before[..|before| - 1]) else k.Bound? || k.Enter?
  }

  predicate Closes(after: seq<Kind>) {
    after != [] && if after[0].Sign().Clear? then Closes(after[1..]) else after[0].Bound? || after[0].Leave?
  }

  /** A single space that the converter leaves as it is, since both neighbours seem to support it. */
  predicate Exposed(ks: seq<Kind>, i: nat)
    requires i < |ks|
  {
    ks[i].Single? && Supported(ks[..i]) && Meets(ks[i + 1..])
  }

  /** An exposed space that is at the edge of something displayed as a block or inline block after all. */
  predicate Lost(ks: seq<Kind>, i: nat)
    requires i < |ks|
  {
    Exposed(ks, i) && (Opens(ks[..i]) || Closes(ks[i + 1..]))
  }

  predicate NoneLost(ks: seq<Kind>, n: nat) {
    forall i :: n <= i < |ks| ==> !Lost(ks, i)
  }

  /** All other single spaces are preserved. */
  function Shield(ks: seq<Kind>): (shielded: seq<Kind>)
    ensures |shielded| == |ks|
    ensures forall i :: 0 <= i < |ks| ==>
      shielded[i] == if ks[i].Single? && !Exposed(ks, i) then Kept else ks[i]
  {
    seq(|ks|, i requires 0 <= i < |ks| => if ks[i].Single? && !Exposed(ks, i) then Kept else ks[i])
  }

  function Signs(ks: seq<Kind>): (signs: seq<Sign>)
    ensures |signs| == |ks| && forall i :: 0 <= i < |ks| ==> signs[i] == ks[i].Sign()
  {
    seq(|ks|, i requires 0 <= i < |ks| => ks[i].Sign())
  }

  /** What the reading of the first `n` things knows about the exposed space in front, if any. */
  predicate Consistent(l: Left, before: seq<Kind>, after: seq<Kind>) {
    match l
    case LineStart => Opens(before) || !Supported(before)
    case AfterSpace => Meets(after) && !Opens(before)
    case AfterSolid => !Opens(before)
  }

  lemma Advance(ks: seq<Kind>, n: nat)
    requires n < |ks|
    ensures Supported(ks[..n + 1]) == if ks[n].Visible() then !ks[n].Brk? else Supported(ks[..n])
    ensures Opens(ks[..n + 1]) == if ks[n].Sign().Clear? then Opens(ks[..n]) else ks[n].Bound? || ks[n].Enter?
    ensures Meets(ks[n..]) == if ks[n].Visible() then ks[n].Firm? else Meets(ks[n + 1..])
    ensures Closes(ks[n..]) == if ks[n].Sign().Clear? then Closes(ks[n + 1..]) else ks[n].Bound? || ks[n].Leave?
  {
    assert ks[..n + 1][..n] == ks[..n];
    assert ks[n..][1..] == ks[n + 1..];
  }

  lemma ReadsOn(ks: seq<Kind>, n: nat, l: Left)
    requires n < |ks| && ks[n] != Kind.Tab && Consistent(l, ks[..n], ks[n..])
    ensures var sign := Signs(Shield(ks))[n];
      if sign.Clear? then
        !Lost(ks, n) && Consistent(l, ks[..n + 1], ks[n + 1..]) && Closes(ks[n..]) == Closes(ks[n + 1..])
      else if sign.Fits(l) then
        && Consistent(sign.Leaves(), ks[..n + 1], ks[n + 1..])
        && (l == AfterSpace ==> !Closes(ks[n..]))
        && (Lost(ks, n) <==> sign.Leaves() == AfterSpace && Closes(ks[n + 1..]))
      else
        Lost(ks, n) || (l == AfterSpace && Closes(ks[n..]))
  {
    Advance(ks, n);
  }

  lemma {:induction false} KeptFrom(ks: seq<Kind>, n: nat, l: Left)
    requires n <= |ks| && Kind.Tab !in ks && Consistent(l, ks[..n], ks[n..])
    ensures Ends(Scan(l, Signs(Shield(ks))[n..])) <==> NoneLost(ks, n) && (l == AfterSpace ==> !Closes(ks[n..]))
    decreases |ks| - n
  {
    if n < |ks| {
      ReadsOn(ks, n, l);
      var signs := Signs(Shield(ks));
      assert signs[n..][0] == signs[n] && signs[n..][1..] == signs[n + 1..];
      assert NoneLost(ks, n) <==> !Lost(ks, n) && NoneLost(ks, n + 1);
      if signs[n].Clear? {
        KeptFrom(ks, n + 1, l);
      } else if signs[n].Fits(l) {
        KeptFrom(ks, n + 1, signs[n].Leaves());
      }
    }
  }

  /** A block reads well to its end exactly when no space of it is lost. */
  lemma KeptIffReads(ks: seq<Kind>)
    requires Kind.Tab !in ks
    ensures Ends(Scan(LineStart, Signs(Shield(ks)))) <==> NoneLost(ks, 0)
  {
    KeptFrom(ks, 0, LineStart);
    assert Signs(Shield(ks))[0..] == Signs(Shield(ks));
  }
}
