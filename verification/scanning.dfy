/** Reading a line of content from left to right, where only the last thing that is not transparent matters. */
module Scanning {
  import opened Options

  /** What the next thing has on its left. */
  datatype Left = LineStart | AfterSpace | AfterSolid

  /**
   A transparent thing, something solid, an exposed space or tab, the end of a line and start of the
   next one, or the edges of a box within the line: inside they are line edges, outside the box is solid.
   */
  datatype Sign = Clear | Solid | Space | Tab | Edge | Open | Close {
    function Leaves(): Left
      requires !Clear?
    {
      match this
      case Solid | Close => AfterSolid
      case Space | Tab => AfterSpace
      case Edge | Open => LineStart
    }

    /** Spaces need something solid before them, lines do not end with one, and exposed tabs never do well. */
    predicate Fits(l: Left) {
      !Tab? && (Space? ==> l == AfterSolid) && (Edge? || Close? ==> l != AfterSpace)
    }
  }

  function Scan(l: Left, ts: seq<Sign>): Option<Left>
    decreases |ts|
  {
    if ts == [] then Some(l)
    else if !ts[0].Fits(l) then None
    else Scan(if ts[0].Clear? then l else ts[0].Leaves(), ts[1..])
  }

  /** The last sign before `n` that is not transparent. */
  function Last(ts: seq<Sign>, n: nat): (i: int)
    requires n <= |ts|
    ensures -1 <= i < n && (i >= 0 ==> !ts[i].Clear?) && forall j :: i < j < n ==> ts[j].Clear?
  {
    if n == 0 then -1 else if !ts[n - 1].Clear? then n - 1 else Last(ts, n - 1)
  }

  function View(l: Left, ts: seq<Sign>, n: nat): Left
    requires n <= |ts|
  {
    if Last(ts, n) < 0 then l else ts[Last(ts, n)].Leaves()
  }

  lemma {:induction false} ScanAppend(l: Left, a: seq<Sign>, b: seq<Sign>)
    ensures Scan(l, a + b) == match Scan(l, a) case None => None case Some(k) => Scan(k, b)
    decreases |a|
  {
    if a == [] {
      assert a + b == b;
    } else {
      assert (a + b)[1..] == a[1..] + b;
      ScanAppend(if a[0].Clear? then l else a[0].Leaves(), a[1..], b);
    }
  }

  /** Each of the first `n` signs fits the last one before it that is not transparent. */
  predicate AllFit(l: Left, ts: seq<Sign>, n: nat)
    requires n <= |ts|
  {
    n > 0 ==> AllFit(l, ts, n - 1) && ts[n - 1].Fits(View(l, ts, n - 1))
  }

  lemma {:induction false} FitAt(l: Left, ts: seq<Sign>, n: nat, i: nat)
    requires i < n <= |ts| && AllFit(l, ts, n)
    ensures ts[i].Fits(View(l, ts, i))
  {
    if i < n - 1 {
      FitAt(l, ts, n - 1, i);
    }
  }

  lemma {:induction false} Misfit(l: Left, ts: seq<Sign>, n: nat) returns (i: nat)
    requires n <= |ts| && !AllFit(l, ts, n)
    ensures i < n && !ts[i].Fits(View(l, ts, i))
  {
    i := n - 1;
    if ts[i].Fits(View(l, ts, i)) {
      i := Misfit(l, ts, n - 1);
    }
  }

  lemma {:induction false} ScanByView(l: Left, ts: seq<Sign>, n: nat)
    requires n <= |ts|
    ensures Scan(l, ts[..n]) == if AllFit(l, ts, n) then Some(View(l, ts, n)) else None
    decreases n
  {
    if n > 0 {
      ScanByView(l, ts, n - 1);
      assert ts[..n] == ts[..n - 1] + [ts[n - 1]];
      ScanAppend(l, ts[..n - 1], [ts[n - 1]]);
      assert [ts[n - 1]][1..] == [];
    }
  }

  /** A whole text: at its end no space may be exposed. */
  predicate Ends(l: Option<Left>) { l.Some? && l.value != AfterSpace }

  lemma EndsByView(ts: seq<Sign>)
    ensures Ends(Scan(LineStart, ts)) <==> AllFit(LineStart, ts, |ts|) && View(LineStart, ts, |ts|) != AfterSpace
  {
    ScanByView(LineStart, ts, |ts|);
    assert ts[..|ts|] == ts;
  }
}
