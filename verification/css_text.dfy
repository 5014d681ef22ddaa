/**
 What a browser shows of inline content, after sections 4.1.1 and 4.1.2 of the CSS Text Module
 Level 3: which collapsible spaces it removes. Default-ignorable characters are transparent.
 */
module CssText {
  import opened Options
  import opened Scanning

  /** What a reader sees. */
  datatype Shown =
    | Char(c: char)
    | LineBreak
    | Object
    | BlockBox(content: seq<Shown>)
    | InlineBox(content: seq<Shown>)

  /** Inline content in document order; a preserved character is inside `white-space: pre-wrap`. */
  datatype Token =
    | Ch(c: char, preserved: bool)
    | Break
    | Atom
    | Box(content: seq<Shown>)
    | Inner(content: seq<Shown>)

  predicate IsSpace(c: char) { c == ' ' || c == '\t' }

  predicate Collapsible(t: Token) { t.Ch? && !t.preserved && IsSpace(t.c) }

  predicate Transparent(t: Token, ignorable: char -> bool) { t.Ch? && !IsSpace(t.c) && ignorable(t.c) }

  /** Forced breaks and blocks end the line before them and start one after them. */
  predicate EndsLine(t: Token) { t.Break? || t.Box? }

  /** Nothing but collapsible spaces and transparent characters from `a` to `b`. */
  ghost predicate Blank(ts: seq<Token>, a: nat, b: nat, ignorable: char -> bool)
    requires b <= |ts|
  {
    forall k :: a <= k < b ==> Transparent(ts[k], ignorable) || Collapsible(ts[k])
  }

  /** A collapsible space directly after another one. */
  ghost predicate FollowsSpace(ts: seq<Token>, i: nat, ignorable: char -> bool)
    requires i < |ts|
  {
    exists j :: 0 <= j < i && Collapsible(ts[j]) && forall k :: j < k < i ==> Transparent(ts[k], ignorable)
  }

  predicate LineStarts(ts: seq<Token>, b: nat)
    requires b <= |ts|
  {
    b == 0 || EndsLine(ts[b - 1])
  }

  predicate LineEnds(ts: seq<Token>, e: nat)
    requires e <= |ts|
  {
    e == |ts| || EndsLine(ts[e])
  }

  ghost predicate AtLineStart(ts: seq<Token>, i: nat, ignorable: char -> bool)
    requires i < |ts|
  {
    exists b: nat :: b <= i && LineStarts(ts, b) && Blank(ts, b, i, ignorable)
  }

  ghost predicate AtLineEnd(ts: seq<Token>, i: nat, ignorable: char -> bool)
    requires i < |ts|
  {
    exists e: nat :: i < e <= |ts| && LineEnds(ts, e) && Blank(ts, i + 1, e, ignorable)
  }

  ghost predicate Removed(ts: seq<Token>, i: nat, ignorable: char -> bool)
    requires i < |ts|
  {
    Collapsible(ts[i]) &&
    (FollowsSpace(ts, i, ignorable) || AtLineStart(ts, i, ignorable) || AtLineEnd(ts, i, ignorable))
  }

  /** A collapsible tab is shown as a space. */
  function Show(t: Token): Shown {
    if t == Ch('\t', false) then Char(' ') else Same(t)
  }

  ghost function Render(ts: seq<Token>, ignorable: char -> bool): seq<Shown> {
    RenderFrom(ts, 0, ignorable)
  }

  ghost function RenderFrom(ts: seq<Token>, i: nat, ignorable: char -> bool): (shown: seq<Shown>)
    requires i <= |ts|
    ensures |shown| <= |ts| - i
    decreases |ts| - i
  {
    if i == |ts| then []
    else (if Removed(ts, i, ignorable) then [] else [Show(ts[i])]) + RenderFrom(ts, i + 1, ignorable)
  }

  /** The content without any white space processing. */
  function Verbatim(ts: seq<Token>): (shown: seq<Shown>)
    ensures |shown| == |ts| && forall i :: 0 <= i < |ts| ==> shown[i] == Same(ts[i])
  {
    seq(|ts|, i requires 0 <= i < |ts| => Same(ts[i]))
  }

  function Same(t: Token): Shown {
    match t
    case Ch(c, _) => Char(c)
    case Break => LineBreak
    case Atom => Object
    case Box(content) => BlockBox(content)
    case Inner(content) => InlineBox(content)
  }

  // ----- Reading from left to right -----

  function SignOf(t: Token, ignorable: char -> bool): Sign {
    if Transparent(t, ignorable) then Clear
    else if Collapsible(t) then if t.c == '\t' then Tab else Space
    else if EndsLine(t) then Edge
    else Solid
  }

  function Signs(ts: seq<Token>, ignorable: char -> bool): (signs: seq<Sign>)
    ensures |signs| == |ts| && forall i :: 0 <= i < |ts| ==> signs[i] == SignOf(ts[i], ignorable)
  {
    seq(|ts|, i requires 0 <= i < |ts| => SignOf(ts[i], ignorable))
  }

  /** Nothing is removed, and no tab becomes a space. */
  ghost predicate Intact(ts: seq<Token>, ignorable: char -> bool) {
    (forall i :: 0 <= i < |ts| ==> !Removed(ts, i, ignorable)) && Ch('\t', false) !in ts
  }

  /** The rules change nothing exactly when the reading succeeds. */
  lemma IntactIffScans(ts: seq<Token>, ignorable: char -> bool)
    ensures Intact(ts, ignorable) <==> Ends(Scan(LineStart, Signs(ts, ignorable)))
  {
    var signs := Signs(ts, ignorable);
    EndsByView(signs);
    if Ends(Scan(LineStart, signs)) {
      forall i | 0 <= i < |ts| ensures ts[i] != Ch('\t', false) {
        FitAt(LineStart, signs, |ts|, i);
      }
      forall i | 0 <= i < |ts| ensures !Removed(ts, i, ignorable) {
        if Collapsible(ts[i]) {
          SolidBefore(ts, i, ignorable);
          SolidAfter(ts, i, ignorable);
        }
      }
    } else if Intact(ts, ignorable) {
      EndsIfIntact(ts, |ts|, ignorable);
      var i := Misfit(LineStart, signs, |ts|);
      FitsIfIntact(ts, i, ignorable);
    }
  }

  lemma SolidAfter(ts: seq<Token>, i: nat, ignorable: char -> bool)
    requires i < |ts| && Collapsible(ts[i])
    requires var signs := Signs(ts, ignorable);
             AllFit(LineStart, signs, |ts|) && View(LineStart, signs, |ts|) != AfterSpace
    ensures !AtLineEnd(ts, i, ignorable)
  {
    if AtLineEnd(ts, i, ignorable) {
      var e: nat :| i < e <= |ts| && LineEnds(ts, e) && Blank(ts, i + 1, e, ignorable);
      SpaceSeen(ts, i, e, ignorable);
      if e < |ts| {
        FitAt(LineStart, Signs(ts, ignorable), |ts|, e);
      }
    }
  }

  lemma SpaceSeen(ts: seq<Token>, i: nat, e: nat, ignorable: char -> bool)
    requires i < e <= |ts| && Collapsible(ts[i]) && Blank(ts, i + 1, e, ignorable)
    ensures View(LineStart, Signs(ts, ignorable), e) == AfterSpace
  {
    var signs := Signs(ts, ignorable);
    assert signs[i].Space? || signs[i].Tab?;
    var p := Last(signs, e);
    assert p >= i && (p == i || Transparent(ts[p], ignorable) || Collapsible(ts[p]));
  }

  lemma SolidBefore(ts: seq<Token>, i: nat, ignorable: char -> bool)
    requires i < |ts| && Collapsible(ts[i]) && AllFit(LineStart, Signs(ts, ignorable), |ts|)
    ensures !FollowsSpace(ts, i, ignorable) && !AtLineStart(ts, i, ignorable)
  {
    var p := SolidSeen(ts, i, ignorable);
  }

  lemma SolidSeen(ts: seq<Token>, i: nat, ignorable: char -> bool) returns (p: nat)
    requires i < |ts| && Collapsible(ts[i]) && AllFit(LineStart, Signs(ts, ignorable), |ts|)
    ensures p < i && !Collapsible(ts[p]) && !EndsLine(ts[p]) && !Transparent(ts[p], ignorable)
    ensures forall k :: p < k < i ==> Transparent(ts[k], ignorable)
  {
    var signs := Signs(ts, ignorable);
    FitAt(LineStart, signs, |ts|, i);
    p := Last(signs, i);
    assert forall k :: p < k < i ==> signs[k].Clear?;
  }

  lemma FitsIfIntact(ts: seq<Token>, i: nat, ignorable: char -> bool)
    requires Intact(ts, ignorable) && i < |ts|
    ensures Signs(ts, ignorable)[i].Fits(View(LineStart, Signs(ts, ignorable), i))
  {
    if EndsLine(ts[i]) {
      EndsIfIntact(ts, i, ignorable);
    } else if Signs(ts, ignorable)[i].Space? && View(LineStart, Signs(ts, ignorable), i) != AfterSolid {
      RemovedIfUnsupported(ts, i, ignorable);
    }
  }

  lemma RemovedIfUnsupported(ts: seq<Token>, i: nat, ignorable: char -> bool)
    requires i < |ts| && Collapsible(ts[i]) && View(LineStart, Signs(ts, ignorable), i) != AfterSolid
    ensures Removed(ts, i, ignorable)
  {
    var signs := Signs(ts, ignorable);
    var p := Last(signs, i);
    assert forall k :: p < k < i ==> signs[k].Clear?;
    if p >= 0 && Collapsible(ts[p]) {
      assert FollowsSpace(ts, i, ignorable);
    } else {
      StartsLine(ts, p + 1, i, ignorable);
    }
  }

  lemma StartsLine(ts: seq<Token>, b: nat, i: nat, ignorable: char -> bool)
    requires b <= i < |ts| && LineStarts(ts, b) && forall k :: b <= k < i ==> Transparent(ts[k], ignorable)
    ensures AtLineStart(ts, i, ignorable)
  {
    assert Blank(ts, b, i, ignorable);
  }

  lemma LineEndsAt(ts: seq<Token>, i: nat, e: nat, ignorable: char -> bool)
    requires i < e <= |ts| && LineEnds(ts, e) && Blank(ts, i + 1, e, ignorable)
    ensures AtLineEnd(ts, i, ignorable)
  {
  }

  lemma EndsIfIntact(ts: seq<Token>, e: nat, ignorable: char -> bool)
    requires Intact(ts, ignorable) && e <= |ts| && LineEnds(ts, e)
    ensures View(LineStart, Signs(ts, ignorable), e) != AfterSpace
  {
    if View(LineStart, Signs(ts, ignorable), e) == AfterSpace {
      var p := RemovedBefore(ts, e, ignorable);
    }
  }

  lemma RemovedBefore(ts: seq<Token>, e: nat, ignorable: char -> bool) returns (p: nat)
    requires e <= |ts| && LineEnds(ts, e) && View(LineStart, Signs(ts, ignorable), e) == AfterSpace
    ensures p < |ts| && Removed(ts, p, ignorable)
  {
    var signs := Signs(ts, ignorable);
    p := Last(signs, e);
    assert forall k :: p < k < e ==> signs[k].Clear?;
    LineEndsAt(ts, p, e, ignorable);
  }

  // ----- What is shown -----

  lemma {:induction false} RenderIntact(ts: seq<Token>, i: nat, ignorable: char -> bool)
    requires i <= |ts| && Intact(ts, ignorable)
    ensures RenderFrom(ts, i, ignorable) == Verbatim(ts)[i..]
    decreases |ts| - i
  {
    if i < |ts| {
      assert !Removed(ts, i, ignorable);
      RenderIntact(ts, i + 1, ignorable);
      assert Verbatim(ts)[i..] == [Same(ts[i])] + Verbatim(ts)[i + 1..];
    }
  }

  /** What is shown if no token is removed. */
  lemma {:induction false} RenderWhole(ts: seq<Token>, i: nat, j: nat, ignorable: char -> bool)
    requires i <= j < |ts| && |RenderFrom(ts, i, ignorable)| == |ts| - i
    ensures !Removed(ts, j, ignorable) && RenderFrom(ts, i, ignorable)[j - i] == Show(ts[j])
    decreases |ts| - i
  {
    assert |RenderFrom(ts, i + 1, ignorable)| <= |ts| - (i + 1);
    if i < j {
      RenderWhole(ts, i + 1, j, ignorable);
    }
  }

  /** The same text and the same kinds of things. */
  predicate Says(said: seq<Shown>, ts: seq<Token>) {
    |said| == |ts| && forall i :: 0 <= i < |ts| && ts[i].Ch? ==> said[i] == Char(ts[i].c)
  }

  /** The browser shows `said`, token by token, exactly when it changes nothing and `said` is the content. */
  lemma ShownIffIntact(ts: seq<Token>, said: seq<Shown>, ignorable: char -> bool)
    requires Says(said, ts)
    ensures Render(ts, ignorable) == said <==> Intact(ts, ignorable) && Verbatim(ts) == said
  {
    if Intact(ts, ignorable) {
      RenderIntact(ts, 0, ignorable);
    } else if Render(ts, ignorable) == said {
      var j :| 0 <= j < |ts| && (Removed(ts, j, ignorable) || ts[j] == Ch('\t', false));
      RenderWhole(ts, 0, j, ignorable);
    }
  }
}
