/**
 Equations without accents and tables are displayed exactly as they are meant to be, at any depth of fractions,
 radicals, scripts, limits and fences, and whatever sizes their items have, unless a radical undoes a compact
 shift or stands alone in a superscript on the left.
 */
module MathMlSimple {
  import opened MathMl
  import opened MathMlProofs

  /** `low` where the shift is compact around the item, `left` if it is alone in a superscript on the left. */
  predicate Simple(item: Item, low: bool, left: bool)
    decreases item, 2
  {
    match item.kind
    case Leaf(_) => true
    case Fraction(n, d) => SimpleBody(n, item.cramped, false) && SimpleBody(d, true, false)
    case Square(r) => (item.cramped || (!low && !left)) && SimpleAll(r.items, true)
    case Root(r, i) =>
      (item.cramped || (!low && !left)) && SimpleBody(r, true, false) && SimpleBody(i, true, false)
    case Cornered(b, corners) => SimpleBody(b, item.cramped, false) && SimpleCorners(corners, item.cramped)
    case Limited(b, limits) => SimpleBody(b, item.cramped, false) && SimpleLimits(limits, item.cramped)
    case Attached(b, corners, limits) =>
      && SimpleBody(b, item.cramped, false)
      && SimpleCorners(corners, item.cramped) && SimpleLimits(limits, item.cramped)
    case Fenced(parts) => forall i :: 0 <= i < |parts| ==> SimpleBody(parts[i], item.cramped, false)
    case _ => false
  }

  predicate SimpleAll(items: seq<Item>, low: bool)
    decreases items, 0
  {
    forall i :: 0 <= i < |items| ==> Simple(items[i], low, false)
  }

  predicate SimpleBody(b: Body, low: bool, left: bool)
    decreases b, 1
  {
    if |b.items| == 1 then Simple(b.items[0], low, left) else SimpleAll(b.items, low)
  }

  predicate SimpleCorners(corners: Corners, low: bool)
    decreases corners, 2
  {
    match corners
    case Sub(s) => SimpleBody(s, true, false)
    case Sup(s) => SimpleBody(s, low, false)
    case SubSup(s, t) => SimpleBody(s, true, false) && SimpleBody(t, low, false)
    case Multi(br, tr, bl, tl) =>
      && SimpleBody(br, true, false) && SimpleBody(tr, low, false)
      && SimpleBody(bl, true, false) && SimpleBody(tl, low, true)
  }

  predicate SimpleLimits(limits: Limits, low: bool)
    decreases limits, 2
  {
    match limits
    case Top(t) => SimpleBody(t, low, false)
    case Bottom(b) => SimpleBody(b, true, false)
    case TopBottom(t, b) => SimpleBody(t, low, false) && SimpleBody(b, true, false)
  }

  /** The tracked context is what the place gives. */
  predicate Tracks(css: Css, at: Place) {
    Similar(css, at.Given()) && !at.slot.Mark?
  }

  /** What is tracked inside an item is in effect there. */
  function Inside(item: Item): Css {
    if item.kind.Radical() then item.Own().ShiftCompact() else item.Own()
  }

  lemma ItemIsExpressible(item: Item, css: Css, at: Place)
    requires Simple(item, css.shift.Compact?, at.slot.UpperLeft?) && Tracks(css, at)
    ensures Expressible(item, css, at, false) && InEffect(item, css, at) == Inside(item)
  {
  }

  /** The contexts that the exporter tracks for the parts are those that the stylesheet gives to their slots. */
  lemma SlotsAreTracked(c: Css, multiline: bool)
    ensures Tracks(c, Place(c, Inherits, multiline))
    ensures Tracks(c.Above(), Place(c, Numerator, multiline)) && Tracks(c.Below(), Place(c, Denominator, multiline))
    ensures Tracks(c.Raised(), Place(c, Upper, multiline)) && Tracks(c.Raised(), Place(c, UpperLeft, multiline))
    ensures Tracks(c.Lowered(), Place(c, Lower, multiline))
    ensures Tracks(c.DepthAdd(2).StyleCompact(), Place(c, Index, multiline))
  {
  }

  lemma {:induction false} ItemIsGood(item: Item, css: Css, at: Place)
    requires Simple(item, css.shift.Compact?, at.slot.UpperLeft?) && Tracks(css, at)
    ensures Good(item, css, at, false)
    decreases item, 2
  {
    ItemIsExpressible(item, css, at);
    var c, m := Inside(item), at.multiline;
    SlotsAreTracked(c, m);
    match item.kind
    case Leaf(_) =>
    case Fraction(n, d) =>
      BodyIsGood(n, c.Above(), Place(c, Numerator, m));
      BodyIsGood(d, c.Below(), Place(c, Denominator, m));
    case Square(r) => AllAreGood(r.items, c, Place(c, Inherits, m));
    case Root(r, i) =>
      BodyIsGood(r, c, Place(c, Inherits, m));
      BodyIsGood(i, c.DepthAdd(2).StyleCompact(), Place(c, Index, m));
    case Cornered(b, corners) =>
      BodyIsGood(b, c, Place(c, Inherits, m));
      CornersAreGood(corners, c, m);
    case Limited(b, limits) =>
      BodyIsGood(b, c, Place(c, Inherits, m));
      LimitsAreGood(limits, c, m);
    case Attached(b, corners, limits) =>
      BodyIsGood(b, c, Place(c, Inherits, m));
      CornersAreGood(corners, c, m);
      LimitsAreGood(limits, c, m);
    case Fenced(parts) =>
      forall i | 0 <= i < |parts| ensures GoodBody(parts[i], c, Place(c, Inherits, m), false) {
        BodyIsGood(parts[i], c, Place(c, Inherits, m));
      }
  }

  lemma {:induction false} AllAreGood(items: seq<Item>, css: Css, at: Place)
    requires SimpleAll(items, css.shift.Compact?) && Tracks(css, at) && at.slot.Inherits?
    ensures GoodAll(items, css, at, false)
    decreases items, 0
  {
    forall i | 0 <= i < |items| ensures Good(items[i], css, at, false) {
      ItemIsGood(items[i], css, at);
    }
  }

  lemma {:induction false} BodyIsGood(b: Body, css: Css, at: Place)
    requires SimpleBody(b, css.shift.Compact?, at.slot.UpperLeft?) && Tracks(css, at)
    ensures GoodBody(b, css, at, false)
    decreases b, 1
  {
    if |b.items| == 1 {
      ItemIsGood(b.items[0], css, at);
    } else {
      AllAreGood(b.items, css, Place(at.Given(), Inherits, at.multiline));
    }
  }

  lemma {:induction false} CornersAreGood(corners: Corners, c: Css, m: bool)
    requires SimpleCorners(corners, c.shift.Compact?)
    ensures GoodCorners(corners, c, c, m, false)
    decreases corners, 2
  {
    SlotsAreTracked(c, m);
    match corners
    case Sub(s) => BodyIsGood(s, c.Lowered(), Place(c, Lower, m));
    case Sup(s) => BodyIsGood(s, c.Raised(), Place(c, Upper, m));
    case SubSup(s, t) =>
      BodyIsGood(s, c.Lowered(), Place(c, Lower, m));
      BodyIsGood(t, c.Raised(), Place(c, Upper, m));
    case Multi(br, tr, bl, tl) =>
      BodyIsGood(br, c.Lowered(), Place(c, Lower, m));
      BodyIsGood(tr, c.Raised(), Place(c, Upper, m));
      BodyIsGood(bl, c.Lowered(), Place(c, Lower, m));
      BodyIsGood(tl, c.Raised(), Place(c, UpperLeft, m));
  }

  lemma {:induction false} LimitsAreGood(limits: Limits, c: Css, m: bool)
    requires SimpleLimits(limits, c.shift.Compact?)
    ensures GoodLimits(limits, c, c, m, false)
    decreases limits, 2
  {
    SlotsAreTracked(c, m);
    match limits
    case Top(t) => BodyIsGood(t, c.Raised(), Place(c, Upper, m));
    case Bottom(b) => BodyIsGood(b, c.Lowered(), Place(c, Lower, m));
    case TopBottom(t, b) =>
      BodyIsGood(t, c.Raised(), Place(c, Upper, m));
      BodyIsGood(b, c.Lowered(), Place(c, Lower, m));
  }

  /** Every node of a simple equation gets its style, its size and, unless it is a radical itself, its shift. */
  lemma SimpleEquationDecodes(equation: Body, block: bool, i: nat)
    requires SimpleAll(equation.items, false) && i < |equation.items|
    ensures var css := EquationContext(block);
      Decodes(ConvertAll(equation.items, css)[i], Place(css, Inherits, false), false)
  {
    var css := EquationContext(block);
    ItemIsGood(equation.items[i], css, Place(css, Inherits, false));
    ItemDecodes(equation.items[i], css, Place(css, Inherits, false), false);
  }
}
