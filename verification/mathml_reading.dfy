/**
 The structure of an equation can be read off its elements: nothing is dropped, and every part is where
 its element has to have it.
 */
module MathMlReading {
  import opened Options
  import opened MathMl

  // ----- Reading elements -----

  /** The size that a target stands for. */
  function SizeOf(target: Css): MathSize {
    if target.style.Normal? then Display
    else if target.depth == 0 then TextSize
    else if target.depth == 1 then Script
    else ScriptScript
  }

  /** Elements of items have targets. */
  function ReadItem(e: Element): Item
    decreases e, 4
  {
    match e.target
    case None => Item(Display, false, Leaf(""))
    case Some(own) => Item(SizeOf(own), own.shift.Compact?, ReadKind(e))
  }

  function ReadItems(es: seq<Element>): seq<Item>
    decreases es, 0
  {
    if es == [] then [] else [ReadItem(es[0])] + ReadItems(es[1..])
  }

  /** A lone item, or a row. */
  function ReadBody(e: Element): Body
    decreases e, 5
  {
    if e.target.Some? then Body([ReadItem(e)]) else Body(ReadItems(e.children))
  }

  function ReadBodies(es: seq<Element>): seq<Body>
    decreases es, 0
  {
    if es == [] then [] else [ReadBody(es[0])] + ReadBodies(es[1..])
  }

  function ReadPart(e: Element, i: nat): Body
    decreases e, 0
  {
    if i < |e.children| then ReadBody(e.children[i]) else Body([])
  }

  function ReadRows(es: seq<Element>): seq<Row>
    decreases es, 0
  {
    if es == [] then [] else [Row(ReadCells(es[0].children))] + ReadRows(es[1..])
  }

  function ReadCells(es: seq<Element>): seq<Body>
    decreases es, 0
  {
    if es == [] then [] else [Body(ReadItems(es[0].children))] + ReadCells(es[1..])
  }

  predicate HasCorners(name: Name) { name.Msub? || name.Msup? || name.Msubsup? || name.Mmultiscripts? }

  predicate HasLimits(name: Name) { name.Mover? || name.Munder? || name.Munderover? }

  function ReadCorners(e: Element): Corners
    decreases e, 1
  {
    match e.name
    case Msub => Sub(ReadPart(e, 1))
    case Msup => Sup(ReadPart(e, 1))
    case Msubsup => SubSup(ReadPart(e, 1), ReadPart(e, 2))
    case _ => Multi(ReadPart(e, 1), ReadPart(e, 2), ReadPart(e, 4), ReadPart(e, 5))
  }

  function ReadLimits(e: Element): Limits
    decreases e, 1
  {
    match e.name
    case Mover => Top(ReadPart(e, 1))
    case Munder => Bottom(ReadPart(e, 1))
    case _ => TopBottom(ReadPart(e, 2), ReadPart(e, 1))
  }

  /** The base of an element with limits may have scripts at its corners. */
  function ReadLimited(e: Element): Kind
    decreases e, 2
  {
    if e.children != [] && e.children[0].target.None? && HasCorners(e.children[0].name) then
      Attached(ReadPart(e.children[0], 0), ReadCorners(e.children[0]), ReadLimits(e))
    else Limited(ReadPart(e, 0), ReadLimits(e))
  }

  function ReadKind(e: Element): Kind
    decreases e, 3
  {
    match e.name
    case Token(text) => Leaf(text)
    case Mfrac => Fraction(ReadPart(e, 0), ReadPart(e, 1))
    case Msqrt => Square(Body(ReadItems(e.children)))
    case Mroot => Root(ReadPart(e, 0), ReadPart(e, 1))
    case MoverAccent => Accent(false, ReadPart(e, 0), ReadPart(e, 1))
    case MunderAccent => Accent(true, ReadPart(e, 0), ReadPart(e, 1))
    case Mtable => Table(false, ReadRows(e.children))
    case MultilineTable => Table(true, ReadRows(e.children))
    case Mrow => Fenced(ReadBodies(e.children))
    case _ =>
      if HasCorners(e.name) then Cornered(ReadPart(e, 0), ReadCorners(e))
      else if HasLimits(e.name) then ReadLimited(e)
      else Leaf("")
  }

  // ----- The structure is kept -----

  lemma SizeBack(size: MathSize, cramped: bool)
    ensures var own := FromSize(size, cramped); SizeOf(own) == size && own.shift.Compact? == cramped
  {
  }

  /** An equation is read back from its nodes. */
  lemma EquationBack(equation: Body, block: bool)
    ensures ReadItems(ConvertAll(equation.items, EquationContext(block))) == equation.items
  {
    ItemsBack(equation.items, EquationContext(block));
  }

  /** Every item is read back from its element, with its size and all its parts. */
  lemma {:induction false} ItemBack(item: Item, css: Css)
    ensures ReadItem(Convert(item, css)) == item
    decreases item, 2
  {
    SizeBack(item.size, item.cramped);
    KindBack(item.kind, item.Own(), Convert(item, css));
  }

  lemma {:induction false} ItemsBack(items: seq<Item>, css: Css)
    ensures ReadItems(ConvertAll(items, css)) == items
    decreases items, 0
  {
    if items != [] {
      ItemBack(items[0], css);
      ItemsBack(items[1..], css);
    }
  }

  lemma {:induction false} BodyBack(b: Body, css: Css)
    ensures ReadBody(ConvertBody(b, css)) == b
    ensures ConvertBody(b, css).target.None? ==> ConvertBody(b, css).name.Mrow?
    decreases b, 1
  {
    if |b.items| == 1 {
      ItemBack(b.items[0], css);
    } else {
      ItemsBack(b.items, css);
    }
  }

  lemma {:induction false} PartBack(e: Element, i: nat, b: Body, css: Css)
    requires i < |e.children| && e.children[i] == ConvertBody(b, css)
    ensures ReadPart(e, i) == b
    decreases b, 2
  {
    BodyBack(b, css);
  }

  lemma {:induction false} BodiesBack(parts: seq<Body>, css: Css)
    ensures ReadBodies(ConvertParts(parts, css)) == parts
    decreases parts, 0
  {
    if parts != [] {
      BodyBack(parts[0], css);
      BodiesBack(parts[1..], css);
    }
  }

  lemma {:induction false} RowsBack(rows: seq<Row>, multiline: bool, css: Css)
    ensures ReadRows(ConvertRows(rows, multiline, css)) == rows
    decreases rows, 0
  {
    if rows != [] {
      assert rows[0] in rows;
      CellsBack(rows[0].cells, multiline, css);
      RowsBack(rows[1..], multiline, css);
    }
  }

  lemma {:induction false} CellsBack(cells: seq<Body>, multiline: bool, css: Css)
    ensures ReadCells(ConvertCells(cells, multiline, css)) == cells
    decreases cells, 0
  {
    if cells != [] {
      assert cells[0] in cells;
      ItemsBack(cells[0].items, if multiline then css else css.Below());
      CellsBack(cells[1..], multiline, css);
    }
  }

  predicate Alike(e: Element, f: Element) {
    e.name == f.name && e.children == f.children
  }

  lemma {:induction false} CornersBack(e: Element, base: Element, corners: Corners, css: Css)
    requires Alike(e, WithCorners(base, corners, css))
    ensures HasCorners(e.name) && e.children != [] && e.children[0] == base && ReadCorners(e) == corners
    decreases corners, 0
  {
    match corners
    case Sub(s) => PartBack(e, 1, s, css.Lowered());
    case Sup(s) => PartBack(e, 1, s, css.Raised());
    case SubSup(s, t) =>
      PartBack(e, 1, s, css.Lowered());
      PartBack(e, 2, t, css.Raised());
    case Multi(br, tr, bl, tl) =>
      PartBack(e, 1, br, css.Lowered());
      PartBack(e, 2, tr, css.Raised());
      PartBack(e, 4, bl, css.Lowered());
      PartBack(e, 5, tl, css.Raised());
  }

  lemma {:induction false} LimitsBack(e: Element, base: Element, limits: Limits, css: Css)
    requires Alike(e, WithLimits(base, limits, css))
    ensures HasLimits(e.name) && e.children != [] && e.children[0] == base && ReadLimits(e) == limits
    decreases limits, 0
  {
    match limits
    case Top(t) => PartBack(e, 1, t, css.Raised());
    case Bottom(b) => PartBack(e, 1, b, css.Lowered());
    case TopBottom(t, b) =>
      PartBack(e, 2, t, css.Raised());
      PartBack(e, 1, b, css.Lowered());
  }

  lemma {:induction false} KindBack(k: Kind, css: Css, e: Element)
    requires Alike(e, Inner(k, css))
    ensures ReadKind(e) == k
    decreases k, 1
  {
    match k
    case Leaf(_) =>
    case Fraction(n, d) =>
      PartBack(e, 0, n, css.Above());
      PartBack(e, 1, d, css.Below());
    case Square(r) => ItemsBack(r.items, css.ShiftCompact());
    case Root(r, i) =>
      PartBack(e, 0, r, css.ShiftCompact());
      PartBack(e, 1, i, css.DepthAdd(2).StyleCompact().ShiftCompact());
    case Accent(below, b, a) =>
      PartBack(e, 0, b, if below then css else css.ShiftCompact());
      PartBack(e, 1, a, css);
    case Cornered(b, corners) => CorneredBack(b, corners, css, e);
    case Limited(b, limits) => LimitedBack(b, limits, css, e);
    case Attached(b, corners, limits) => AttachedBack(b, corners, limits, css, e);
    case Table(multiline, rows) => RowsBack(rows, multiline, css);
    case Fenced(parts) => BodiesBack(parts, css);
  }

  lemma {:induction false} CorneredBack(b: Body, corners: Corners, css: Css, e: Element)
    requires Alike(e, Inner(Cornered(b, corners), css))
    ensures ReadKind(e) == Cornered(b, corners)
    decreases Cornered(b, corners), 0
  {
    CornersBack(e, ConvertBody(b, css), corners, css);
    PartBack(e, 0, b, css);
  }

  lemma {:induction false} LimitedBack(b: Body, limits: Limits, css: Css, e: Element)
    requires Alike(e, Inner(Limited(b, limits), css))
    ensures ReadKind(e) == Limited(b, limits)
    decreases Limited(b, limits), 0
  {
    LimitsBack(e, ConvertBody(b, css), limits, css);
    PartBack(e, 0, b, css);
    BodyBack(b, css);
  }

  lemma {:induction false} AttachedBack(b: Body, corners: Corners, limits: Limits, css: Css, e: Element)
    requires Alike(e, Inner(Attached(b, corners, limits), css))
    ensures ReadKind(e) == Attached(b, corners, limits)
    decreases Attached(b, corners, limits), 0
  {
    var base := ConvertBody(b, css);
    var inner := WithCorners(base, corners, css);
    LimitsBack(e, inner, limits, css);
    CornersBack(inner, base, corners, css);
    PartBack(inner, 0, b, css);
  }
}
