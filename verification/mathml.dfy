/**
 MathML export: an element says `scriptlevel`, `displaystyle` and `math-shift` only where its target
 differs from the context that the exporter tracks. The tracked context is compared with the cascade:
 the user agent stylesheet (Appendix A of MathML Core), the exporter's own stylesheet, the attributes.
 */
module MathMl {
  import opened Options

  datatype Style = Normal | Compact

  /** The MathML Core properties in effect. */
  datatype Css = Css(style: Style, shift: Style, depth: nat) {
    function DepthAutoAdd(): Css { if style.Compact? then this.(depth := depth + 1) else this }
    function DepthAdd(n: nat): Css { this.(depth := depth + n) }
    function StyleCompact(): Css { this.(style := Compact) }
    function ShiftCompact(): Css { this.(shift := Compact) }
    /** Superscripts and tops. */
    function Raised(): Css { DepthAdd(1).StyleCompact() }
    /** Subscripts and bottoms. */
    function Lowered(): Css { Raised().ShiftCompact() }
    /** Numerators. */
    function Above(): Css { DepthAutoAdd().StyleCompact() }
    /** Denominators and the cells of a table. */
    function Below(): Css { Above().ShiftCompact() }
  }

  datatype MathSize = Display | TextSize | Script | ScriptScript

  function FromSize(size: MathSize, cramped: bool): Css {
    var shift := if cramped then Compact else Normal;
    match size
    case Display => Css(Normal, shift, 0)
    case TextSize => Css(Compact, shift, 0)
    case Script => Css(Compact, shift, 1)
    case ScriptScript => Css(Compact, shift, 2)
  }

  /** The context of a whole equation. */
  function EquationContext(block: bool): Css { Css(if block then Normal else Compact, Normal, 0) }

  function Clamp(depth: nat): nat { if depth < 2 then depth else 2 }

  /** A math item that becomes an element of its own. */
  datatype Item = Item(size: MathSize, cramped: bool, kind: Kind) {
    function Own(): Css { FromSize(size, cramped) }
  }

  /** The contents of a numerator, a script, a cell and so on. */
  datatype Body = Body(items: seq<Item>)

  datatype Row = Row(cells: seq<Body>)

  datatype Kind =
    | Leaf(text: string)
    | Fraction(numerator: Body, denominator: Body)
    | Root(radicand: Body, index: Body)
    | Square(radicand: Body)
    | Accent(below: bool, base: Body, accent: Body)
    | Cornered(base: Body, corners: Corners)
    | Limited(base: Body, limits: Limits)
    | Attached(base: Body, corners: Corners, limits: Limits)
    | Table(multiline: bool, rows: seq<Row>)
    | Fenced(parts: seq<Body>)
  {
    predicate Radical() { Root? || Square? }
  }

  /** Scripts at the corners of a base; an absent one of four is an empty row. */
  datatype Corners =
    | Sub(sub: Body)
    | Sup(sup: Body)
    | SubSup(sub: Body, sup: Body)
    | Multi(br: Body, tr: Body, bl: Body, tl: Body)

  /** Scripts above and below. */
  datatype Limits = Top(top: Body) | Bottom(bottom: Body) | TopBottom(top: Body, bottom: Body)

  datatype Name =
    | Token(text: string) | Mrow | Mfrac | Msqrt | Mroot | MoverAccent | MunderAccent | Mover | Munder | Munderover
    | Msub | Msup | Msubsup | Mmultiscripts | Mprescripts | Mtable | MultilineTable | Mtr | Mtd
  {
    predicate Radical() { Msqrt? || Mroot? }
    predicate Table() { Mtable? || MultilineTable? }
  }

  /** `scriptlevel` and `displaystyle` are presentational hints, `math-shift` is an inline style. */
  datatype Attrs = Attrs(scriptlevel: Option<nat>, displaystyle: Option<bool>, mathShift: Option<Style>)

  const NO_ATTRS := Attrs(None, None, None)

  /** An element, with the properties it is meant to have, if any. */
  datatype Element = Element(name: Name, attrs: Attrs, children: seq<Element>, target: Option<Css>)

  // ----- The cascade -----

  /** The places for children that stylesheets tell apart. */
  datatype Slot = Inherits | Numerator | Denominator | Index | Upper | Lower | UpperLeft | Accented | Mark

  function SlotOf(name: Name, i: nat): Slot {
    match name
    case Mfrac => if i == 0 then Numerator else Denominator
    case Mroot => if i == 0 then Inherits else Index
    case MoverAccent => if i == 0 then Accented else Mark
    case MunderAccent => if i == 0 then Inherits else Mark
    case Mover | Msup => if i == 0 then Inherits else Upper
    case Munder | Msub => if i == 0 then Inherits else Lower
    case Munderover | Msubsup => if i == 0 then Inherits else if i == 1 then Lower else Upper
    case Mmultiscripts => if i == 0 then Inherits else if i == 2 then Upper else if i == 5 then UpperLeft else Lower
    case _ => Inherits
  }

  /** `math-depth: auto-add` adds one only where `math-style` is inherited as compact. */
  function AutoAdded(parent: Css): nat {
    match parent.style
    case Normal => parent.depth
    case Compact => parent.depth + 1
  }

  /** Where an element stands: what its parent computes, and whether a multi-line table is above it. */
  datatype Place = Place(parent: Css, slot: Slot, multiline: bool) {
    /** What an element without a rule or attribute of its own gets. */
    function Given(): Css {
      match slot
      case Inherits | Mark => parent
      case Numerator => Css(Compact, parent.shift, AutoAdded(parent))
      case Denominator => Css(Compact, Compact, AutoAdded(parent))
      case Index => Css(Compact, parent.shift, parent.depth + 2)
      case Upper | UpperLeft => Css(Compact, parent.shift, parent.depth + 1)
      case Lower => Css(Compact, Compact, parent.depth + 1)
      case Accented => Css(parent.style, Compact, parent.depth)
    }
  }

  /**
   Attributes aside. The exporter's stylesheet lets every table inherit its style, which beats what the user
   agent's stylesheet says about the slot. The user agent's rule for radicals is beaten by those for accents
   and for superscripts on the left, which inherit.
   */
  function Unstated(table: bool, radical: bool, at: Place): Css {
    var given := at.Given();
    Css(
      if table then at.parent.style else given.style,
      if radical && !at.slot.Mark? && !at.slot.UpperLeft? then Compact else given.shift,
      given.depth)
  }

  /** Cells have rules of their own, except below a multi-line table at any distance. */
  function Unattributed(name: Name, at: Place): Css {
    var c := Unstated(name.Table(), name.Radical(), at);
    if name.Mtd? && !at.multiline then Css(Compact, Compact, AutoAdded(c)) else c
  }

  /**
   An inline style beats all rules. Hints beat the user agent's rules, but those of the exporter's stylesheet
   beat hints: they fix the style of tables, and style and depth of accents and cells.
   */
  function Computed(e: Element, at: Place): Css {
    var plain := Unattributed(e.name, at);
    var fixed := at.slot.Mark? || e.name.Mtd?;
    Css(
      if e.attrs.displaystyle.Some? && !fixed && !e.name.Table()
      then (if e.attrs.displaystyle.value then Normal else Compact) else plain.style,
      if e.attrs.mathShift.Some? then e.attrs.mathShift.value else plain.shift,
      if e.attrs.scriptlevel.Some? && !fixed then e.attrs.scriptlevel.value else plain.depth)
  }

  /** From a depth of two on, the size stays the same. */
  predicate SameSize(a: nat, b: nat) { a == b || (a >= 2 && b >= 2) }

  /** The shift of a radical only matters to what is inside; it counts if `exact`. */
  predicate Meets(e: Element, actual: Css, exact: bool) {
    e.target.Some? ==>
      && actual.style == e.target.value.style && SameSize(actual.depth, e.target.value.depth)
      && ((e.name.Radical() && !exact) || actual.shift == e.target.value.shift)
  }

  /** Here and everywhere below, the properties that the browser computes are those that are meant. */
  predicate Decodes(e: Element, at: Place, exact: bool)
    decreases e
  {
    var c := Computed(e, at);
    Meets(e, c, exact) && ChildrenDecode(e, c, at.multiline || e.name.MultilineTable?, exact)
  }

  predicate ChildrenDecode(e: Element, c: Css, multiline: bool, exact: bool)
    decreases e, 0
  {
    forall i :: 0 <= i < |e.children| ==> Decodes(e.children[i], Place(c, SlotOf(e.name, i), multiline), exact)
  }

  // ----- What the exporter produces -----

  function Delta(target: Css, css: Css): Attrs {
    Attrs(
      if target.depth != Clamp(css.depth) then Some(target.depth) else None,
      if target.style != css.style then Some(target.style.Normal?) else None,
      if target.shift != css.shift then Some(target.shift) else None)
  }

  function Bare(name: Name, children: seq<Element>): Element {
    Element(name, NO_ATTRS, children, None)
  }

  function Convert(item: Item, css: Css): Element
    decreases item, 2
  {
    Inner(item.kind, item.Own()).(attrs := Delta(item.Own(), css), target := Some(item.Own()))
  }

  function ConvertAll(items: seq<Item>, css: Css): (es: seq<Element>)
    ensures |es| == |items|
    ensures forall i :: 0 <= i < |items| ==> es[i] == Convert(items[i], css)
    decreases items, 0
  {
    if items == [] then [] else [Convert(items[0], css)] + ConvertAll(items[1..], css)
  }

  function Collapse(es: seq<Element>): Element {
    if |es| == 1 then es[0] else Bare(Mrow, es)
  }

  function ConvertBody(b: Body, css: Css): Element
    decreases b, 1
  {
    Collapse(ConvertAll(b.items, css))
  }

  function ConvertParts(parts: seq<Body>, css: Css): (es: seq<Element>)
    ensures |es| == |parts|
    ensures forall i :: 0 <= i < |parts| ==> es[i] == ConvertBody(parts[i], css)
    decreases parts, 0
  {
    if parts == [] then [] else [ConvertBody(parts[0], css)] + ConvertParts(parts[1..], css)
  }

  function ConvertRows(rows: seq<Row>, multiline: bool, css: Css): (es: seq<Element>)
    ensures |es| == |rows|
    ensures forall i :: 0 <= i < |rows| ==> es[i] == Bare(Mtr, ConvertCells(rows[i].cells, multiline, css))
    decreases rows, 0
  {
    if rows == [] then []
    else
      assert rows[0] in rows;
      [Bare(Mtr, ConvertCells(rows[0].cells, multiline, css))] + ConvertRows(rows[1..], multiline, css)
  }

  function ConvertCells(cells: seq<Body>, multiline: bool, css: Css): (es: seq<Element>)
    ensures |es| == |cells|
    ensures forall i :: 0 <= i < |cells| ==> es[i] == ConvertCell(cells[i], multiline, css)
    decreases cells, 0
  {
    if cells == [] then [] else [ConvertCell(cells[0], multiline, css)] + ConvertCells(cells[1..], multiline, css)
  }

  function ConvertCell(cell: Body, multiline: bool, css: Css): Element
    decreases cell, 1
  {
    Bare(Mtd, ConvertAll(cell.items, if multiline then css else css.Below()))
  }

  function TableName(multiline: bool): Name { if multiline then MultilineTable else Mtable }

  /** The element of a kind in the item's own context `css`; the item's attributes come on top. */
  function Inner(k: Kind, css: Css): Element
    decreases k, 1
  {
    match k
    case Leaf(text) => Bare(Token(text), [])
    case Fraction(n, d) => Bare(Mfrac, [ConvertBody(n, css.Above()), ConvertBody(d, css.Below())])
    case Square(r) => Bare(Msqrt, ConvertAll(r.items, css.ShiftCompact()))
    case Root(r, i) =>
      Bare(Mroot, [
        ConvertBody(r, css.ShiftCompact()), ConvertBody(i, css.DepthAdd(2).StyleCompact().ShiftCompact())])
    case Accent(true, b, a) => Bare(MunderAccent, [ConvertBody(b, css), ConvertBody(a, css)])
    case Accent(false, b, a) => Bare(MoverAccent, [ConvertBody(b, css.ShiftCompact()), ConvertBody(a, css)])
    case Cornered(b, corners) => WithCorners(ConvertBody(b, css), corners, css)
    case Limited(b, limits) => WithLimits(ConvertBody(b, css), limits, css)
    case Attached(b, corners, limits) => WithLimits(WithCorners(ConvertBody(b, css), corners, css), limits, css)
    case Table(multiline, rows) => Bare(TableName(multiline), ConvertRows(rows, multiline, css))
    case Fenced(parts) => Bare(Mrow, ConvertParts(parts, css))
  }

  function WithCorners(base: Element, corners: Corners, css: Css): Element
    decreases corners, 0
  {
    match corners
    case Sub(s) => Bare(Msub, [base, ConvertBody(s, css.Lowered())])
    case Sup(s) => Bare(Msup, [base, ConvertBody(s, css.Raised())])
    case SubSup(s, t) => Bare(Msubsup, [base, ConvertBody(s, css.Lowered()), ConvertBody(t, css.Raised())])
    case Multi(br, tr, bl, tl) =>
      Bare(Mmultiscripts, [
        base, ConvertBody(br, css.Lowered()), ConvertBody(tr, css.Raised()), Bare(Mprescripts, []),
        ConvertBody(bl, css.Lowered()), ConvertBody(tl, css.Raised())])
  }

  function WithLimits(base: Element, limits: Limits, css: Css): Element
    decreases limits, 0
  {
    match limits
    case Top(t) => Bare(Mover, [base, ConvertBody(t, css.Raised())])
    case Bottom(b) => Bare(Munder, [base, ConvertBody(b, css.Lowered())])
    case TopBottom(t, b) =>
      Bare(Munderover, [base, ConvertBody(b, css.Lowered()), ConvertBody(t, css.Raised())])
  }

  // ----- Which items can be decoded -----

  /**
   In the tracked context `css`, every property of an item is what its place gives it anyway, or it is stated
   and not overruled. It is stated where it differs from the tracked one. Hints of accents and the style of
   tables are overruled.
   */
  predicate Expressible(item: Item, css: Css, at: Place, exact: bool) {
    var own, plain := item.Own(), Unstated(item.kind.Table?, item.kind.Radical(), at);
    && (own.style == plain.style || (own.style != css.style && !at.slot.Mark? && !item.kind.Table?))
    && (own.depth == Clamp(plain.depth) || (own.depth != Clamp(css.depth) && !at.slot.Mark?))
    && (own.shift == plain.shift || own.shift != css.shift || (item.kind.Radical() && !exact))
  }

  /** What is in effect in an expressible item: its own context, but for the shift of a radical. */
  function InEffect(item: Item, css: Css, at: Place): Css {
    var own, plain := item.Own(), Unstated(item.kind.Table?, item.kind.Radical(), at);
    own.(shift := if own.shift != css.shift then own.shift else plain.shift)
  }

  predicate Good(item: Item, css: Css, at: Place, exact: bool)
    decreases item, 2
  {
    && Expressible(item, css, at, exact)
    && GoodInside(item.kind, item.Own(), InEffect(item, css, at), at.multiline, exact)
  }

  predicate GoodAll(items: seq<Item>, css: Css, at: Place, exact: bool)
    decreases items, 0
  {
    forall i :: 0 <= i < |items| ==> Good(items[i], css, at, exact)
  }

  /** A lone item takes the place of the body; others inherit from a row in this place. */
  predicate GoodBody(b: Body, css: Css, at: Place, exact: bool)
    decreases b, 1
  {
    if |b.items| == 1 then Good(b.items[0], css, at, exact)
    else GoodAll(b.items, css, Place(at.Given(), Inherits, at.multiline), exact)
  }

  /** The contents of an item in its own context `css`, where `c` is in effect. */
  predicate GoodInside(k: Kind, css: Css, c: Css, multiline: bool, exact: bool)
    decreases k, 1
  {
    match k
    case Leaf(_) => true
    case Fraction(n, d) =>
      && GoodBody(n, css.Above(), Place(c, Numerator, multiline), exact)
      && GoodBody(d, css.Below(), Place(c, Denominator, multiline), exact)
    case Square(r) => GoodAll(r.items, css.ShiftCompact(), Place(c, Inherits, multiline), exact)
    case Root(r, i) =>
      && GoodBody(r, css.ShiftCompact(), Place(c, Inherits, multiline), exact)
      && GoodBody(i, css.DepthAdd(2).StyleCompact().ShiftCompact(), Place(c, Index, multiline), exact)
    case Accent(true, b, a) =>
      && GoodBody(b, css, Place(c, Inherits, multiline), exact)
      && GoodBody(a, css, Place(c, Mark, multiline), exact)
    case Accent(false, b, a) =>
      && GoodBody(b, css.ShiftCompact(), Place(c, Accented, multiline), exact)
      && GoodBody(a, css, Place(c, Mark, multiline), exact)
    case Cornered(b, corners) =>
      GoodBody(b, css, Place(c, Inherits, multiline), exact) && GoodCorners(corners, css, c, multiline, exact)
    case Limited(b, limits) =>
      GoodBody(b, css, Place(c, Inherits, multiline), exact) && GoodLimits(limits, css, c, multiline, exact)
    case Attached(b, corners, limits) =>
      && GoodBody(b, css, Place(c, Inherits, multiline), exact)
      && GoodCorners(corners, css, c, multiline, exact) && GoodLimits(limits, css, c, multiline, exact)
    case Table(equation, rows) =>
      forall r, i :: 0 <= r < |rows| && 0 <= i < |rows[r].cells| ==>
        GoodCell(rows[r].cells[i], equation, css, c, multiline || equation, exact)
    case Fenced(parts) =>
      forall i :: 0 <= i < |parts| ==> GoodBody(parts[i], css, Place(c, Inherits, multiline), exact)
  }

  /** A cell changes nothing in a multi-line table; the exporter thinks so only of the table's own cells. */
  predicate GoodCell(cell: Body, equation: bool, css: Css, c: Css, multiline: bool, exact: bool)
    decreases cell, 1
  {
    GoodAll(cell.items, if equation then css else css.Below(),
            Place(if multiline then c else c.Below(), Inherits, multiline), exact)
  }

  predicate GoodCorners(corners: Corners, css: Css, c: Css, multiline: bool, exact: bool)
    decreases corners, 0
  {
    match corners
    case Sub(s) => GoodBody(s, css.Lowered(), Place(c, Lower, multiline), exact)
    case Sup(s) => GoodBody(s, css.Raised(), Place(c, Upper, multiline), exact)
    case SubSup(s, t) =>
      && GoodBody(s, css.Lowered(), Place(c, Lower, multiline), exact)
      && GoodBody(t, css.Raised(), Place(c, Upper, multiline), exact)
    case Multi(br, tr, bl, tl) =>
      && GoodBody(br, css.Lowered(), Place(c, Lower, multiline), exact)
      && GoodBody(tr, css.Raised(), Place(c, Upper, multiline), exact)
      && GoodBody(bl, css.Lowered(), Place(c, Lower, multiline), exact)
      && GoodBody(tl, css.Raised(), Place(c, UpperLeft, multiline), exact)
  }

  predicate GoodLimits(limits: Limits, css: Css, c: Css, multiline: bool, exact: bool)
    decreases limits, 0
  {
    match limits
    case Top(t) => GoodBody(t, css.Raised(), Place(c, Upper, multiline), exact)
    case Bottom(b) => GoodBody(b, css.Lowered(), Place(c, Lower, multiline), exact)
    case TopBottom(t, b) =>
      && GoodBody(t, css.Raised(), Place(c, Upper, multiline), exact)
      && GoodBody(b, css.Lowered(), Place(c, Lower, multiline), exact)
  }

  // ----- The exporter -----

  /** The context of the export: the CSS context in effect and the nodes produced so far. */
  class MathContext {
    var css: Css
    var content: seq<Element>

    constructor (block: bool)
      ensures css == EquationContext(block) && content == []
    {
      css := EquationContext(block);
      content := [];
    }

    /** Handles items one by one, which push their elements. */
    method HandleIntoSelf(items: seq<Item>)
      modifies this
      ensures css == old(css) && content == old(content) + ConvertAll(items, old(css))
      decreases items, 0
    {
      var i := 0;
      ghost var pushed: seq<Element> := [];
      while i < |items|
        invariant 0 <= i <= |items| && css == old(css)
        invariant content == old(content) + pushed && |pushed| == i
        invariant forall k :: 0 <= k < i ==> pushed[k] == Convert(items[k], css)
      {
        HandleRealized(items[i]);
        pushed := pushed + [Convert(items[i], css)];
        i := i + 1;
      }
      assert pushed == ConvertAll(items, css);
    }

    method HandleIntoNodes(items: seq<Item>) returns (nodes: seq<Element>)
      modifies this
      ensures css == old(css) && content == old(content) && nodes == ConvertAll(items, css)
      decreases items, 1
    {
      var prev := content;
      content := [];
      HandleIntoSelf(items);
      nodes, content := content, prev;
    }

    method HandleIntoNode(b: Body) returns (node: Element)
      modifies this
      ensures css == old(css) && content == old(content) && node == ConvertBody(b, css)
      decreases b, 1
    {
      var nodes := HandleIntoNodes(b.items);
      node := Collapse(nodes);
    }

    /** The context is replaced for the duration of the call. */
    method NodeIn(within: Css, b: Body) returns (node: Element)
      modifies this
      ensures css == old(css) && content == old(content) && node == ConvertBody(b, within)
      decreases b, 2
    {
      var prev := css;
      css := within;
      node := HandleIntoNode(b);
      css := prev;
    }

    method NodesIn(within: Css, b: Body) returns (nodes: seq<Element>)
      modifies this
      ensures css == old(css) && content == old(content) && nodes == ConvertAll(b.items, within)
      decreases b, 0
    {
      var prev := css;
      css := within;
      nodes := HandleIntoNodes(b.items);
      css := prev;
    }

    method HandleRealized(item: Item)
      modifies this
      ensures css == old(css) && content == old(content) + [Convert(item, css)]
      decreases item, 2
    {
      var target := item.Own();
      var scriptlevel := if target.depth != Clamp(css.depth) then Some(target.depth) else None;
      var displaystyle := if target.style != css.style then Some(target.style == Normal) else None;
      var mathShift := if target.shift != css.shift then Some(target.shift) else None;
      var prev := css;
      css := target;
      var node := HandleKind(item.kind);
      css := prev;
      content := content +
        [node.(attrs := Attrs(scriptlevel, displaystyle, mathShift), target := Some(target))];
    }

    method HandleKind(kind: Kind) returns (node: Element)
      modifies this
      ensures css == old(css) && content == old(content) && node == Inner(kind, css)
      decreases kind, 1
    {
      match kind {
        case Leaf(text) => node := Bare(Token(text), []);
        case Fraction(n, d) =>
          var num := NodeIn(css.DepthAutoAdd().StyleCompact(), n);
          var denom := NodeIn(css.DepthAutoAdd().StyleCompact().ShiftCompact(), d);
          node := Bare(Mfrac, [num, denom]);
        case Square(r) =>
          var nodes := NodesIn(css.ShiftCompact(), r);
          node := Bare(Msqrt, nodes);
        case Root(r, i) =>
          var nodes := NodesIn(css.ShiftCompact(), r);
          var index := NodeIn(css.DepthAdd(2).StyleCompact().ShiftCompact(), i);
          node := Bare(Mroot, [Collapse(nodes), index]);
        case Accent(below, b, a) =>
          var base := NodeIn(if below then css else css.ShiftCompact(), b);
          var accent := HandleIntoNode(a);
          node := Bare(if below then MunderAccent else MoverAccent, [base, accent]);
        case Cornered(b, corners) =>
          var base := HandleIntoNode(b);
          node := HandleCorners(base, corners);
        case Limited(b, limits) =>
          var base := HandleIntoNode(b);
          node := HandleLimits(base, limits);
        case Attached(b, corners, limits) =>
          var base := HandleIntoNode(b);
          node := HandleCorners(base, corners);
          node := HandleLimits(node, limits);
        case Table(multiline, rows) => node := HandleTable(multiline, rows);
        case Fenced(parts) => node := HandleFenced(parts);
      }
    }

    method HandleCorners(base: Element, corners: Corners) returns (node: Element)
      modifies this
      ensures css == old(css) && content == old(content) && node == WithCorners(base, corners, css)
      decreases corners, 0
    {
      var supCss := css.DepthAdd(1).StyleCompact();
      var subCss := supCss.ShiftCompact();
      match corners {
        case Sub(s) =>
          var br := NodeIn(subCss, s);
          node := Bare(Msub, [base, br]);
        case Sup(s) =>
          var tr := NodeIn(supCss, s);
          node := Bare(Msup, [base, tr]);
        case SubSup(s, t) =>
          var tr := NodeIn(supCss, t);
          var br := NodeIn(subCss, s);
          node := Bare(Msubsup, [base, br, tr]);
        case Multi(b, t, l, k) =>
          var tr := NodeIn(supCss, t);
          var tl := NodeIn(supCss, k);
          var br := NodeIn(subCss, b);
          var bl := NodeIn(subCss, l);
          node := Bare(Mmultiscripts, [base, br, tr, Bare(Mprescripts, []), bl, tl]);
      }
    }

    method HandleLimits(base: Element, limits: Limits) returns (node: Element)
      modifies this
      ensures css == old(css) && content == old(content) && node == WithLimits(base, limits, css)
      decreases limits, 0
    {
      var supCss := css.DepthAdd(1).StyleCompact();
      var subCss := supCss.ShiftCompact();
      match limits {
        case Top(t) =>
          var top := NodeIn(supCss, t);
          node := Bare(Mover, [base, top]);
        case Bottom(b) =>
          var bottom := NodeIn(subCss, b);
          node := Bare(Munder, [base, bottom]);
        case TopBottom(t, b) =>
          var top := NodeIn(supCss, t);
          var bottom := NodeIn(subCss, b);
          node := Bare(Munderover, [base, bottom, top]);
      }
    }

    method HandleTable(multiline: bool, rows: seq<Row>) returns (node: Element)
      modifies this
      ensures css == old(css) && content == old(content)
      ensures node == Bare(TableName(multiline), ConvertRows(rows, multiline, css))
      decreases Table(multiline, rows), 0
    {
      var cells: seq<Element> := [];
      var i := 0;
      while i < |rows|
        invariant 0 <= i <= |rows|
        invariant css == old(css) && content == old(content) && |cells| == i
        invariant forall k :: 0 <= k < i ==> cells[k] == Bare(Mtr, ConvertCells(rows[k].cells, multiline, css))
      {
        assert rows[i] in rows;
        var row := HandleRow(multiline, rows[i]);
        cells := cells + [row];
        i := i + 1;
      }
      node := Bare(TableName(multiline), cells);
    }

    method HandleRow(multiline: bool, row: Row) returns (node: Element)
      modifies this
      ensures css == old(css) && content == old(content)
      ensures node == Bare(Mtr, ConvertCells(row.cells, multiline, css))
      decreases row, 1
    {
      var nodes: seq<Element> := [];
      var i := 0;
      while i < |row.cells|
        invariant 0 <= i <= |row.cells|
        invariant css == old(css) && content == old(content) && |nodes| == i
        invariant forall k :: 0 <= k < i ==> nodes[k] == ConvertCell(row.cells[k], multiline, css)
      {
        assert row.cells[i] in row.cells;
        var cell := HandleCell(multiline, row.cells[i]);
        nodes := nodes + [cell];
        i := i + 1;
      }
      node := Bare(Mtr, nodes);
    }

    method HandleCell(multiline: bool, cell: Body) returns (node: Element)
      modifies this
      ensures css == old(css) && content == old(content) && node == ConvertCell(cell, multiline, css)
      decreases cell, 3
    {
      var within := if multiline then css else css.DepthAutoAdd().StyleCompact().ShiftCompact();
      var nodes := NodesIn(within, cell);
      node := Bare(Mtd, nodes);
    }

    method HandleFenced(parts: seq<Body>) returns (node: Element)
      modifies this
      ensures css == old(css) && content == old(content) && node == Bare(Mrow, ConvertParts(parts, css))
      decreases Fenced(parts), 0
    {
      var children: seq<Element> := [];
      var i := 0;
      while i < |parts|
        invariant 0 <= i <= |parts|
        invariant css == old(css) && content == old(content) && |children| == i
        invariant forall k :: 0 <= k < i ==> children[k] == ConvertBody(parts[k], css)
      {
        var child := HandleIntoNode(parts[i]);
        children := children + [child];
        i := i + 1;
      }
      node := Bare(Mrow, children);
    }
  }

  /** The nodes of a whole equation. */
  method ConvertMathToNodes(equation: Body, block: bool) returns (nodes: seq<Element>)
    ensures nodes == ConvertAll(equation.items, EquationContext(block))
  {
    var ctx := new MathContext(block);
    nodes := ctx.HandleIntoNodes(equation.items);
  }
}
