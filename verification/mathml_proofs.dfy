/** What the exporter leaves out, the cascade puts back: exactly for the expressible items. */
module MathMlProofs {
  import opened Options
  import opened MathMl

  /** The same properties, as far as the exporter distinguishes them. */
  predicate Similar(c: Css, d: Css) {
    c.style == d.style && c.shift == d.shift && Clamp(c.depth) == Clamp(d.depth)
  }

  // ----- One item -----

  /** What the attributes of an item establish. */
  lemma DeltaRestores(own: Css, css: Css, e: Element, at: Place)
    requires own.depth <= 2 && e.attrs == Delta(own, css) && !e.name.Mtd?
    ensures var plain, c := Unattributed(e.name, at), Computed(e, at);
      && (c.style == own.style
          <==> own.style == plain.style || (own.style != css.style && !at.slot.Mark? && !e.name.Table()))
      && (Clamp(c.depth) == own.depth
          <==> own.depth == Clamp(plain.depth) || (own.depth != Clamp(css.depth) && !at.slot.Mark?))
      && c.shift == if own.shift != css.shift then own.shift else plain.shift
  {
  }

  lemma InnerName(k: Kind, css: Css)
    ensures Inner(k, css).name.Radical() <==> k.Radical()
    ensures Inner(k, css).name.Table() <==> k.Table?
    ensures Inner(k, css).name.MultilineTable? <==> k.Table? && k.multiline
    ensures !Inner(k, css).name.Mtd?
  {
  }

  /** The targets of one item are met exactly if it is expressible, and then its own context is in effect. */
  lemma MeetsIffExpressible(item: Item, css: Css, at: Place, exact: bool)
    ensures var e := Convert(item, css);
      && (Meets(e, Computed(e, at), exact) <==> Expressible(item, css, at, exact))
      && (Expressible(item, css, at, exact) ==> Similar(Computed(e, at), InEffect(item, css, at)))
  {
    InnerName(item.kind, item.Own());
    DeltaRestores(item.Own(), css, Convert(item, css), at);
  }

  // ----- Similar places -----

  lemma GivenSimilar(c: Css, d: Css, slot: Slot, multiline: bool)
    requires Similar(c, d)
    ensures Similar(Place(c, slot, multiline).Given(), Place(d, slot, multiline).Given())
  {
  }

  lemma GoodSimilar(item: Item, css: Css, c: Css, d: Css, slot: Slot, multiline: bool, exact: bool)
    requires Similar(c, d)
    ensures Good(item, css, Place(c, slot, multiline), exact) <==> Good(item, css, Place(d, slot, multiline), exact)
  {
    GivenSimilar(c, d, slot, multiline);
  }

  lemma AllSimilar(items: seq<Item>, css: Css, c: Css, d: Css, slot: Slot, multiline: bool, exact: bool)
    requires Similar(c, d)
    ensures GoodAll(items, css, Place(c, slot, multiline), exact)
      <==> GoodAll(items, css, Place(d, slot, multiline), exact)
  {
    forall i | 0 <= i < |items|
      ensures Good(items[i], css, Place(c, slot, multiline), exact)
        <==> Good(items[i], css, Place(d, slot, multiline), exact)
    {
      GoodSimilar(items[i], css, c, d, slot, multiline, exact);
    }
  }

  lemma BodySimilar(b: Body, css: Css, c: Css, d: Css, slot: Slot, multiline: bool, exact: bool)
    requires Similar(c, d)
    ensures GoodBody(b, css, Place(c, slot, multiline), exact) <==> GoodBody(b, css, Place(d, slot, multiline), exact)
  {
    if |b.items| == 1 {
      GoodSimilar(b.items[0], css, c, d, slot, multiline, exact);
    } else {
      GivenSimilar(c, d, slot, multiline);
      AllSimilar(b.items, css, Place(c, slot, multiline).Given(), Place(d, slot, multiline).Given(), Inherits, multiline,
                 exact);
    }
  }

  // ----- Items and bodies -----

  /** An element without attributes decodes when what is inside does. */
  lemma BareDecodes(name: Name, children: seq<Element>, at: Place, exact: bool)
    ensures Decodes(Bare(name, children), at, exact)
      <==> ChildrenDecode(Bare(name, children), Unattributed(name, at), at.multiline || name.MultilineTable?, exact)
  {
    assert Computed(Bare(name, children), at) == Unattributed(name, at);
  }

  /** Only the name and the children matter to the children. */
  lemma ChildrenOnly(e: Element, f: Element, c: Css, multiline: bool, exact: bool)
    requires e.name == f.name && e.children == f.children
    ensures ChildrenDecode(e, c, multiline, exact) <==> ChildrenDecode(f, c, multiline, exact)
  {
  }

  /** An item is displayed as it is meant to be exactly when it and all items in it are expressible. */
  lemma {:induction false} ItemDecodes(item: Item, css: Css, at: Place, exact: bool)
    ensures Decodes(Convert(item, css), at, exact) <==> Good(item, css, at, exact)
    decreases item, 2
  {
    var e, own := Convert(item, css), item.Own();
    var c := Computed(e, at);
    InnerName(item.kind, own);
    MeetsIffExpressible(item, css, at, exact);
    if Meets(e, c, exact) {
      var multiline := at.multiline || e.name.MultilineTable?;
      ChildrenOnly(e, Inner(item.kind, own), c, multiline, exact);
      KindDecodes(item.kind, own, c, InEffect(item, css, at), at.multiline, exact);
    }
  }

  /** Children just inherit. */
  predicate Plain(name: Name) {
    name.Mrow? || name.Msqrt? || name.Table() || name.Mtr? || name.Mtd?
  }

  lemma PlainChildren(e: Element, c: Css, multiline: bool, exact: bool)
    requires Plain(e.name)
    ensures ChildrenDecode(e, c, multiline, exact)
      <==> forall i :: 0 <= i < |e.children| ==> Decodes(e.children[i], Place(c, Inherits, multiline), exact)
  {
    assert forall i: nat :: SlotOf(e.name, i) == Inherits;
  }

  lemma {:induction false} AllDecode(items: seq<Item>, e: Element, css: Css, c: Css, multiline: bool, exact: bool)
    requires e.children == ConvertAll(items, css) && Plain(e.name)
    ensures ChildrenDecode(e, c, multiline, exact) <==> GoodAll(items, css, Place(c, Inherits, multiline), exact)
    decreases items, 0
  {
    PlainChildren(e, c, multiline, exact);
    forall i | 0 <= i < |items|
      ensures Decodes(e.children[i], Place(c, Inherits, multiline), exact)
        <==> Good(items[i], css, Place(c, Inherits, multiline), exact)
    {
      ItemDecodes(items[i], css, Place(c, Inherits, multiline), exact);
    }
  }

  lemma {:induction false} BodyDecodes(b: Body, css: Css, at: Place, exact: bool)
    ensures Decodes(ConvertBody(b, css), at, exact) <==> GoodBody(b, css, at, exact)
    decreases b, 1
  {
    if |b.items| == 1 {
      ItemDecodes(b.items[0], css, at, exact);
    } else {
      var es := ConvertAll(b.items, css);
      BareDecodes(Mrow, es, at, exact);
      AllDecode(b.items, Bare(Mrow, es), css, at.Given(), at.multiline, exact);
    }
  }

  /** A body in a slot of an element that computes `c`, where `d` is in effect. */
  lemma {:induction false} PartDecodes(b: Body, css: Css, c: Css, d: Css, slot: Slot, multiline: bool, exact: bool)
    requires Similar(c, d)
    ensures Decodes(ConvertBody(b, css), Place(c, slot, multiline), exact)
      <==> GoodBody(b, css, Place(d, slot, multiline), exact)
    decreases b, 2
  {
    BodyDecodes(b, css, Place(c, slot, multiline), exact);
    BodySimilar(b, css, c, d, slot, multiline, exact);
  }

  // ----- Counting children -----

  predicate ChildDecodes(x: Element, name: Name, i: nat, c: Css, multiline: bool, exact: bool) {
    Decodes(x, Place(c, SlotOf(name, i), multiline), exact)
  }

  lemma {:induction false} Prefix(name: Name, es: seq<Element>, c: Css, multiline: bool, exact: bool)
    requires |es| > 0
    ensures ChildrenDecode(Bare(name, es), c, multiline, exact)
            <==> (&& ChildrenDecode(Bare(name, es[..|es| - 1]), c, multiline, exact)
                  && ChildDecodes(es[|es| - 1], name, |es| - 1, c, multiline, exact))
  {
    var e, f := Bare(name, es), Bare(name, es[..|es| - 1]);
    forall i | 0 <= i < |es| - 1
      ensures Decodes(f.children[i], Place(c, SlotOf(name, i), multiline), exact)
              <==> Decodes(e.children[i], Place(c, SlotOf(name, i), multiline), exact)
    {
      assert e.children[i] == f.children[i];
    }
    assert e.children[|es| - 1] == es[|es| - 1];
  }

  lemma Pair(name: Name, x: Element, y: Element, c: Css, multiline: bool, exact: bool)
    ensures ChildrenDecode(Bare(name, [x, y]), c, multiline, exact)
            <==> ChildDecodes(x, name, 0, c, multiline, exact) && ChildDecodes(y, name, 1, c, multiline, exact)
  {
    var e := Bare(name, [x, y]);
    assert e.children[0] == x && e.children[1] == y;
  }

  lemma Triple(name: Name, x: Element, y: Element, z: Element, c: Css, multiline: bool, exact: bool)
    ensures ChildrenDecode(Bare(name, [x, y, z]), c, multiline, exact)
            <==> (&& ChildDecodes(x, name, 0, c, multiline, exact) && ChildDecodes(y, name, 1, c, multiline, exact)
                  && ChildDecodes(z, name, 2, c, multiline, exact))
  {
    Pair(name, x, y, c, multiline, exact);
    Prefix(name, [x, y, z], c, multiline, exact);
    assert [x, y, z][..2] == [x, y];
  }

  lemma Six(name: Name, u: Element, v: Element, w: Element, x: Element, y: Element, z: Element, c: Css, multiline: bool,
            exact: bool)
    ensures ChildrenDecode(Bare(name, [u, v, w, x, y, z]), c, multiline, exact)
            <==> (&& ChildDecodes(u, name, 0, c, multiline, exact) && ChildDecodes(v, name, 1, c, multiline, exact)
                  && ChildDecodes(w, name, 2, c, multiline, exact) && ChildDecodes(x, name, 3, c, multiline, exact)
                  && ChildDecodes(y, name, 4, c, multiline, exact) && ChildDecodes(z, name, 5, c, multiline, exact))
  {
    Triple(name, u, v, w, c, multiline, exact);
    Prefix(name, [u, v, w, x], c, multiline, exact);
    Prefix(name, [u, v, w, x, y], c, multiline, exact);
    Prefix(name, [u, v, w, x, y, z], c, multiline, exact);
    assert [u, v, w, x][..3] == [u, v, w] && [u, v, w, x, y][..4] == [u, v, w, x];
    assert [u, v, w, x, y, z][..5] == [u, v, w, x, y];
  }

  // ----- Kinds -----

  /** The contents of an element that computes `c` in place of its own context `css`. */
  lemma {:induction false} KindDecodes(k: Kind, css: Css, c: Css, d: Css, multiline: bool, exact: bool)
    requires Similar(c, d)
    ensures ChildrenDecode(Inner(k, css), c, multiline || Inner(k, css).name.MultilineTable?, exact)
      <==> GoodInside(k, css, d, multiline, exact)
    decreases k, 1
  {
    InnerName(k, css);
    match k {
      case Leaf(_) =>
      case Fraction(n, dn) => FractionDecodes(n, dn, css, c, d, multiline, exact);
      case Square(r) =>
        AllDecode(r.items, Inner(k, css), css.ShiftCompact(), c, multiline, exact);
        AllSimilar(r.items, css.ShiftCompact(), c, d, Inherits, multiline, exact);
      case Root(r, i) =>
        var index := css.DepthAdd(2).StyleCompact().ShiftCompact();
        RootDecodes(r, i, css.ShiftCompact(), index, c, d, multiline, exact);
      case Accent(below, b, a) => AccentDecodes(below, b, a, css, c, d, multiline, exact);
      case Cornered(b, corners) =>
        PartDecodes(b, css, c, d, Inherits, multiline, exact);
        CornersDecode(ConvertBody(b, css), corners, css, c, d, multiline, exact);
      case Limited(b, limits) =>
        PartDecodes(b, css, c, d, Inherits, multiline, exact);
        LimitsDecode(ConvertBody(b, css), limits, css, c, d, multiline, exact);
      case Attached(b, corners, limits) => AttachedDecodes(b, corners, limits, css, c, d, multiline, exact);
      case Table(equation, rows) => TableDecodes(equation, rows, k, css, c, d, multiline, exact);
      case Fenced(parts) => PartsDecode(parts, css, c, d, multiline, exact);
    }
  }

  lemma {:induction false} FractionDecodes(n: Body, m: Body, css: Css, c: Css, d: Css, multiline: bool, exact: bool)
    requires Similar(c, d)
    ensures ChildrenDecode(Inner(Fraction(n, m), css), c, multiline, exact)
      <==> GoodInside(Fraction(n, m), css, d, multiline, exact)
    decreases Fraction(n, m), 0
  {
    PartDecodes(n, css.Above(), c, d, Numerator, multiline, exact);
    PartDecodes(m, css.Below(), c, d, Denominator, multiline, exact);
    Pair(Mfrac, ConvertBody(n, css.Above()), ConvertBody(m, css.Below()), c, multiline, exact);
  }

  lemma {:induction false} RootDecodes(r: Body, i: Body, css: Css, index: Css, c: Css, d: Css, multiline: bool,
                                       exact: bool)
    requires Similar(c, d)
    ensures ChildrenDecode(Bare(Mroot, [ConvertBody(r, css), ConvertBody(i, index)]), c, multiline, exact)
      <==> (&& GoodBody(r, css, Place(d, Inherits, multiline), exact)
            && GoodBody(i, index, Place(d, Index, multiline), exact))
    decreases Root(r, i), 0
  {
    PartDecodes(r, css, c, d, Inherits, multiline, exact);
    PartDecodes(i, index, c, d, Index, multiline, exact);
    Pair(Mroot, ConvertBody(r, css), ConvertBody(i, index), c, multiline, exact);
  }

  lemma {:induction false} AccentDecodes(below: bool, b: Body, a: Body, css: Css, c: Css, d: Css, multiline: bool,
                                         exact: bool)
    requires Similar(c, d)
    ensures ChildrenDecode(Inner(Accent(below, b, a), css), c, multiline, exact)
      <==> GoodInside(Accent(below, b, a), css, d, multiline, exact)
    decreases Accent(below, b, a), 0
  {
    PartDecodes(a, css, c, d, Mark, multiline, exact);
    if below {
      PartDecodes(b, css, c, d, Inherits, multiline, exact);
      Pair(MunderAccent, ConvertBody(b, css), ConvertBody(a, css), c, multiline, exact);
    } else {
      PartDecodes(b, css.ShiftCompact(), c, d, Accented, multiline, exact);
      Pair(MoverAccent, ConvertBody(b, css.ShiftCompact()), ConvertBody(a, css), c, multiline, exact);
    }
  }

  lemma {:induction false} PartsDecode(parts: seq<Body>, css: Css, c: Css, d: Css, multiline: bool, exact: bool)
    requires Similar(c, d)
    ensures ChildrenDecode(Inner(Fenced(parts), css), c, multiline, exact)
      <==> GoodInside(Fenced(parts), css, d, multiline, exact)
    decreases Fenced(parts), 0
  {
    var e := Inner(Fenced(parts), css);
    PlainChildren(e, c, multiline, exact);
    forall i | 0 <= i < |parts|
      ensures Decodes(e.children[i], Place(c, Inherits, multiline), exact)
        <==> GoodBody(parts[i], css, Place(d, Inherits, multiline), exact)
    {
      PartDecodes(parts[i], css, c, d, Inherits, multiline, exact);
    }
  }

  // ----- Scripts -----

  lemma {:induction false} AttachedDecodes(b: Body, corners: Corners, limits: Limits, css: Css, c: Css, d: Css,
                                           multiline: bool, exact: bool)
    requires Similar(c, d)
    ensures ChildrenDecode(WithLimits(WithCorners(ConvertBody(b, css), corners, css), limits, css), c, multiline, exact)
      <==> (&& GoodBody(b, css, Place(d, Inherits, multiline), exact)
            && GoodCorners(corners, css, d, multiline, exact) && GoodLimits(limits, css, d, multiline, exact))
    decreases Attached(b, corners, limits), 0
  {
    var base := ConvertBody(b, css);
    PartDecodes(b, css, c, d, Inherits, multiline, exact);
    CornersDecode(base, corners, css, c, d, multiline, exact);
    CorneredDecodes(base, corners, css, c, multiline, exact);
    LimitsDecode(WithCorners(base, corners, css), limits, css, c, d, multiline, exact);
  }

  /** An element with scripts has no attributes of its own. */
  lemma CorneredDecodes(base: Element, corners: Corners, css: Css, c: Css, multiline: bool, exact: bool)
    ensures var e := WithCorners(base, corners, css);
      Decodes(e, Place(c, Inherits, multiline), exact) <==> ChildrenDecode(e, c, multiline, exact)
  {
    var e := WithCorners(base, corners, css);
    BareDecodes(e.name, e.children, Place(c, Inherits, multiline), exact);
  }

  /** One script after a base. */
  lemma {:induction false} ScriptDecodes(name: Name, base: Element, s: Body, css: Css, c: Css, d: Css, multiline: bool,
                                         exact: bool)
    requires (name.Msub? || name.Msup? || name.Mover? || name.Munder?) && Similar(c, d)
    ensures ChildrenDecode(Bare(name, [base, ConvertBody(s, css)]), c, multiline, exact)
      <==> (&& Decodes(base, Place(c, Inherits, multiline), exact)
            && GoodBody(s, css, Place(d, SlotOf(name, 1), multiline), exact))
    decreases s, 3
  {
    PartDecodes(s, css, c, d, SlotOf(name, 1), multiline, exact);
    Pair(name, base, ConvertBody(s, css), c, multiline, exact);
  }

  /** A lowered and a raised script after a base. */
  lemma ScriptsDecode(name: Name, base: Element, s: Body, t: Body, css: Css, c: Css, multiline: bool, exact: bool)
    requires name.Msubsup? || name.Munderover?
    ensures ChildrenDecode(Bare(name, [base, ConvertBody(s, css.Lowered()), ConvertBody(t, css.Raised())]), c, multiline,
                           exact)
      <==> (&& Decodes(base, Place(c, Inherits, multiline), exact)
            && Decodes(ConvertBody(s, css.Lowered()), Place(c, Lower, multiline), exact)
            && Decodes(ConvertBody(t, css.Raised()), Place(c, Upper, multiline), exact))
  {
    Triple(name, base, ConvertBody(s, css.Lowered()), ConvertBody(t, css.Raised()), c, multiline, exact);
  }

  lemma {:induction false} CornersDecode(base: Element, corners: Corners, css: Css, c: Css, d: Css, multiline: bool,
                                         exact: bool)
    requires Similar(c, d)
    ensures ChildrenDecode(WithCorners(base, corners, css), c, multiline, exact)
      <==> Decodes(base, Place(c, Inherits, multiline), exact) && GoodCorners(corners, css, d, multiline, exact)
    decreases corners, 1
  {
    match corners {
      case Sub(s) => ScriptDecodes(Msub, base, s, css.Lowered(), c, d, multiline, exact);
      case Sup(s) => ScriptDecodes(Msup, base, s, css.Raised(), c, d, multiline, exact);
      case SubSup(s, t) =>
        PartDecodes(s, css.Lowered(), c, d, Lower, multiline, exact);
        PartDecodes(t, css.Raised(), c, d, Upper, multiline, exact);
        ScriptsDecode(Msubsup, base, s, t, css, c, multiline, exact);
      case Multi(_, _, _, _) => MultiDecodes(base, corners, css, c, d, multiline, exact);
    }
  }

  lemma {:induction false} MultiDecodes(base: Element, corners: Corners, css: Css, c: Css, d: Css, multiline: bool,
                                        exact: bool)
    requires Similar(c, d) && corners.Multi?
    ensures ChildrenDecode(WithCorners(base, corners, css), c, multiline, exact)
      <==> Decodes(base, Place(c, Inherits, multiline), exact) && GoodCorners(corners, css, d, multiline, exact)
    decreases corners, 0
  {
    PartDecodes(corners.br, css.Lowered(), c, d, Lower, multiline, exact);
    PartDecodes(corners.tr, css.Raised(), c, d, Upper, multiline, exact);
    PartDecodes(corners.bl, css.Lowered(), c, d, Lower, multiline, exact);
    PartDecodes(corners.tl, css.Raised(), c, d, UpperLeft, multiline, exact);
    MultiFits(base, corners, css, c, multiline, exact);
  }

  lemma MultiSlots()
    ensures SlotOf(Mmultiscripts, 0) == Inherits && SlotOf(Mmultiscripts, 1) == Lower
    ensures SlotOf(Mmultiscripts, 2) == Upper && SlotOf(Mmultiscripts, 3) == Lower
    ensures SlotOf(Mmultiscripts, 4) == Lower && SlotOf(Mmultiscripts, 5) == UpperLeft
  {
  }

  lemma PrescriptsDecode(at: Place, exact: bool)
    ensures Decodes(Bare(Mprescripts, []), at, exact)
  {
    BareDecodes(Mprescripts, [], at, exact);
    assert ChildrenDecode(Bare(Mprescripts, []), Unattributed(Mprescripts, at), at.multiline, exact);
  }

  lemma MultiFits(base: Element, corners: Corners, css: Css, c: Css, multiline: bool, exact: bool)
    requires corners.Multi?
    ensures ChildrenDecode(WithCorners(base, corners, css), c, multiline, exact)
      <==> (&& Decodes(base, Place(c, Inherits, multiline), exact)
            && Decodes(ConvertBody(corners.br, css.Lowered()), Place(c, Lower, multiline), exact)
            && Decodes(ConvertBody(corners.tr, css.Raised()), Place(c, Upper, multiline), exact)
            && Decodes(ConvertBody(corners.bl, css.Lowered()), Place(c, Lower, multiline), exact)
            && Decodes(ConvertBody(corners.tl, css.Raised()), Place(c, UpperLeft, multiline), exact))
  {
    PrescriptsDecode(Place(c, Lower, multiline), exact);
    MultiSlots();
    Six(Mmultiscripts, base, ConvertBody(corners.br, css.Lowered()), ConvertBody(corners.tr, css.Raised()),
        Bare(Mprescripts, []),
        ConvertBody(corners.bl, css.Lowered()), ConvertBody(corners.tl, css.Raised()), c, multiline, exact);
  }

  lemma {:induction false} LimitsDecode(base: Element, limits: Limits, css: Css, c: Css, d: Css, multiline: bool,
                                        exact: bool)
    requires Similar(c, d)
    ensures ChildrenDecode(WithLimits(base, limits, css), c, multiline, exact)
      <==> Decodes(base, Place(c, Inherits, multiline), exact) && GoodLimits(limits, css, d, multiline, exact)
    decreases limits, 1
  {
    match limits {
      case Top(t) => ScriptDecodes(Mover, base, t, css.Raised(), c, d, multiline, exact);
      case Bottom(b) => ScriptDecodes(Munder, base, b, css.Lowered(), c, d, multiline, exact);
      case TopBottom(t, b) =>
        PartDecodes(b, css.Lowered(), c, d, Lower, multiline, exact);
        PartDecodes(t, css.Raised(), c, d, Upper, multiline, exact);
        ScriptsDecode(Munderover, base, b, t, css, c, multiline, exact);
    }
  }

  // ----- Tables -----

  lemma {:induction false} TableDecodes(equation: bool, rows: seq<Row>, k: Kind, css: Css, c: Css, d: Css, multiline: bool,
                                        exact: bool)
    requires Similar(c, d) && k == Table(equation, rows)
    ensures ChildrenDecode(Inner(k, css), c, multiline || equation, exact) <==> GoodInside(k, css, d, multiline, exact)
    decreases k, 0
  {
    var e := Inner(k, css);
    PlainChildren(e, c, multiline || equation, exact);
    forall r | 0 <= r < |rows|
      ensures Decodes(e.children[r], Place(c, Inherits, multiline || equation), exact)
        <==> GoodRow(rows[r], equation, css, d, multiline || equation, exact)
    {
      assert rows[r] in rows;
      RowDecodes(rows[r], equation, css, c, d, multiline || equation, exact);
    }
    RowsAreGood(equation, rows, css, d, multiline, exact);
  }

  predicate GoodRow(row: Row, equation: bool, css: Css, d: Css, multiline: bool, exact: bool) {
    forall i :: 0 <= i < |row.cells| ==> GoodCell(row.cells[i], equation, css, d, multiline, exact)
  }

  lemma RowsAreGood(equation: bool, rows: seq<Row>, css: Css, d: Css, multiline: bool, exact: bool)
    ensures GoodInside(Table(equation, rows), css, d, multiline, exact)
      <==> forall r :: 0 <= r < |rows| ==> GoodRow(rows[r], equation, css, d, multiline || equation, exact)
  {
  }

  lemma {:induction false} RowDecodes(row: Row, equation: bool, css: Css, c: Css, d: Css, multiline: bool, exact: bool)
    requires Similar(c, d)
    ensures Decodes(Bare(Mtr, ConvertCells(row.cells, equation, css)), Place(c, Inherits, multiline), exact)
      <==> GoodRow(row, equation, css, d, multiline, exact)
    decreases row
  {
    var e := Bare(Mtr, ConvertCells(row.cells, equation, css));
    BareDecodes(Mtr, e.children, Place(c, Inherits, multiline), exact);
    PlainChildren(e, c, multiline, exact);
    forall i | 0 <= i < |row.cells|
      ensures Decodes(e.children[i], Place(c, Inherits, multiline), exact)
        <==> GoodCell(row.cells[i], equation, css, d, multiline, exact)
    {
      assert row.cells[i] in row.cells;
      CellDecodes(row.cells[i], equation, css, c, d, multiline, exact);
    }
  }

  lemma {:induction false} CellDecodes(cell: Body, equation: bool, css: Css, c: Css, d: Css, multiline: bool, exact: bool)
    requires Similar(c, d)
    ensures Decodes(ConvertCell(cell, equation, css), Place(c, Inherits, multiline), exact)
      <==> GoodCell(cell, equation, css, d, multiline, exact)
    decreases cell
  {
    var e, within := ConvertCell(cell, equation, css), if equation then css else css.Below();
    var inside, inside' := if multiline then c else c.Below(), if multiline then d else d.Below();
    BareDecodes(Mtd, e.children, Place(c, Inherits, multiline), exact);
    AllDecode(cell.items, e, within, inside, multiline, exact);
    AllSimilar(cell.items, within, inside, inside', Inherits, multiline, exact);
  }

  // ----- Whole equations -----

  function Outermost(block: bool): Place { Place(EquationContext(block), Inherits, false) }

  /** A whole equation is displayed as it is meant to be exactly when each of its items is expressible. */
  lemma EquationDecodes(equation: Body, block: bool, i: nat, exact: bool)
    requires i < |equation.items|
    ensures Decodes(ConvertAll(equation.items, EquationContext(block))[i], Outermost(block), exact)
      <==> Good(equation.items[i], EquationContext(block), Outermost(block), exact)
  {
    ItemDecodes(equation.items[i], EquationContext(block), Outermost(block), exact);
  }

  /**
   No attribute could be left out: where the tracked context is in effect, the browser would compute something
   else without it. The exception is a compact shift of a radical, which the user agent's rule gives anyway.
   */
  lemma AttributesAreNeeded(item: Item, css: Css, at: Place)
    requires Similar(at.Given(), css)
    ensures var e := Convert(item, css);
            && (e.attrs.scriptlevel.Some? ==>
                  Clamp(Computed(e.(attrs := e.attrs.(scriptlevel := None)), at).depth) != item.Own().depth)
            && (e.attrs.displaystyle.Some? && (item.kind.Table? ==> at.parent.style == css.style) ==>
                  Computed(e.(attrs := e.attrs.(displaystyle := None)), at).style != item.Own().style)
            && (e.attrs.mathShift.Some? ==>
                  (Computed(e.(attrs := e.attrs.(mathShift := None)), at).shift == item.Own().shift
                   <==> item.kind.Radical() && item.Own().shift.Compact? && !at.slot.Mark? && !at.slot.UpperLeft?))
  {
    InnerName(item.kind, item.Own());
  }

  // ----- Where the tracked context is not in effect -----

  /** A radical has the shift that it is meant to have only if that is compact or stated. */
  lemma RadicalShift(root: Item, css: Css, at: Place)
    requires root.kind.Radical() && !at.slot.Mark? && !at.slot.UpperLeft?
    ensures Expressible(root, css, at, true)
      <==> Expressible(root, css, at, false) && (root.Own().shift.Compact? || root.Own().shift != css.shift)
  {
  }

  lemma SquareIsGood(item: Item, symbol: Item, css: Css, at: Place)
    requires item.kind.Square? && item.kind.radicand.items == [symbol] && symbol.kind.Leaf?
    ensures Good(item, css, at, false)
      <==> (&& Expressible(item, css, at, false)
            && Expressible(symbol, item.Own().ShiftCompact(), Place(InEffect(item, css, at), Inherits, at.multiline),
                           false))
  {
    var within, inside := item.Own().ShiftCompact(), Place(InEffect(item, css, at), Inherits, at.multiline);
    LeafIsGood(symbol, within, inside);
    assert GoodAll([symbol], within, inside, false) <==> Good([symbol][0], within, inside, false);
  }

  lemma LeafIsGood(symbol: Item, css: Css, at: Place)
    requires symbol.kind.Leaf?
    ensures Good(symbol, css, at, false) <==> Expressible(symbol, css, at, false)
  {
  }

  /**
   An uncramped square root of a symbol, in a cramped place: a cramped symbol is displayed uncramped, while
   an uncramped one states its shift and is displayed as it is meant to be.
   */
  lemma RadicalUndoesTheShift(root: Item, symbol: Item, css: Css)
    requires root.kind.Square? && root.kind.radicand.items == [symbol] && symbol.kind.Leaf?
    requires !root.cramped && css.shift.Compact? && css.depth <= 2
    ensures Decodes(Convert(root, css), Place(css, Inherits, false), false) <==> !symbol.cramped
  {
    var at := Place(css, Inherits, false);
    SquareIsGood(root, symbol, css, at);
    ItemDecodes(root, css, at, false);
  }

  /** The same happens to a square root alone in a superscript on the left, where radicals inherit their shift. */
  lemma LeftSuperscriptKeepsTheShift(root: Item, symbol: Item, c: Css)
    requires root.kind.Square? && root.kind.radicand.items == [symbol] && symbol.kind.Leaf?
    requires !root.cramped && c.shift.Normal?
    ensures Decodes(Convert(root, c.Raised()), Place(c, UpperLeft, false), false) <==> !symbol.cramped
  {
    SquareIsGood(root, symbol, c.Raised(), Place(c, UpperLeft, false));
    ItemDecodes(root, c.Raised(), Place(c, UpperLeft, false), false);
  }

  /** A display-style matrix in an inline formula: its `displaystyle` is overruled. */
  lemma TableKeepsTheStyle(rows: seq<Row>)
    ensures var table := Item(Display, false, Table(false, rows));
      !Decodes(Convert(table, EquationContext(false)), Outermost(false), false)
  {
    ItemDecodes(Item(Display, false, Table(false, rows)), EquationContext(false), Outermost(false), false);
  }

  /** A matrix alone in a numerator of a display fraction keeps the style of the fraction. */
  lemma TableInNumeratorKeepsTheStyle(rows: seq<Row>, denominator: Body)
    ensures var numerator := Body([Item(TextSize, false, Table(false, rows))]);
      var fraction := Item(Display, false, Fraction(numerator, denominator));
      !Decodes(Convert(fraction, EquationContext(true)), Outermost(true), false)
  {
    var table, css := Item(TextSize, false, Table(false, rows)), EquationContext(true);
    var item := Item(Display, false, Fraction(Body([table]), denominator));
    assert !Expressible(table, css.Above(), Place(css, Numerator, false), false);
    assert !GoodBody(Body([table]), css.Above(), Place(css, Numerator, false), false);
    assert InEffect(item, css, Outermost(true)) == css == item.Own();
    ItemDecodes(item, css, Outermost(true), false);
  }

  /** A script-size accent in a display formula: its `scriptlevel` and `displaystyle` are overruled. */
  lemma AccentKeepsTheStyle(base: Body)
    ensures var accent := Accent(false, base, Body([Item(Script, false, Leaf("^"))]));
      !Decodes(Convert(Item(Display, false, accent), EquationContext(true)), Outermost(true), false)
  {
    var css := EquationContext(true);
    var accent := Item(Script, false, Leaf("^"));
    var item := Item(Display, false, Accent(false, base, Body([accent])));
    assert !Expressible(accent, css, Place(css, Mark, false), false);
    assert !GoodBody(Body([accent]), css, Place(css, Mark, false), false);
    assert InEffect(item, css, Outermost(true)) == css == item.Own();
    ItemDecodes(item, css, Outermost(true), false);
  }

  // ----- Tables in multi-line equations -----

  /** A display-style table with one item. */
  predicate OneCell(table: Item, equation: bool, item: Item) {
    && table.size.Display? && !table.cramped && table.kind.Table? && table.kind.multiline == equation
    && |table.kind.rows| == 1 && |table.kind.rows[0].cells| == 1 && table.kind.rows[0].cells[0].items == [item]
  }

  lemma OneCellIsGood(table: Item, equation: bool, item: Item, css: Css, c: Css, multiline: bool)
    requires OneCell(table, equation, item)
    ensures GoodInside(table.kind, css, c, multiline, false)
      <==> Good(item, if equation then css else css.Below(),
                Place(if multiline || equation then c else c.Below(), Inherits, multiline || equation), false)
  {
    var cell := table.kind.rows[0].cells[0];
    var within := if equation then css else css.Below();
    var at := Place(if multiline || equation then c else c.Below(), Inherits, multiline || equation);
    assert GoodCell(cell, equation, css, c, multiline || equation, false) <==> GoodAll([item], within, at, false);
    assert GoodAll([item], within, at, false) <==> Good([item][0], within, at, false);
  }

  /** A display-style table in a display-style place is as it is meant to be if what is in its cell is. */
  lemma DisplayTable(table: Item, equation: bool, item: Item, css: Css, multiline: bool)
    requires OneCell(table, equation, item) && css == EquationContext(true)
    ensures Good(table, css, Place(css, Inherits, multiline), false)
      <==> Good(item, if equation then css else css.Below(),
                Place(if multiline || equation then css else css.Below(), Inherits, multiline || equation), false)
  {
    assert InEffect(table, css, Place(css, Inherits, multiline)) == css == table.Own();
    OneCellIsGood(table, equation, item, css, css, multiline);
  }

  /**
   A matrix of one symbol in a multi-line equation: its cell is not made compact, since the rule for the cells of
   such equations reaches it too, and the exporter relies on it. Only an uncramped symbol in display style, which
   states both, is displayed as it is meant to be.
   */
  lemma MatrixInMultilineEquation(equation: Item, matrix: Item, symbol: Item)
    requires OneCell(equation, true, matrix) && OneCell(matrix, false, symbol) && symbol.kind.Leaf?
    ensures Decodes(Convert(equation, EquationContext(true)), Outermost(true), false)
      <==> !symbol.cramped && symbol.size.Display?
  {
    var css := EquationContext(true);
    DisplayTable(equation, true, matrix, css, false);
    DisplayTable(matrix, false, symbol, css, true);
    LeafIsGood(symbol, css.Below(), Place(css, Inherits, true));
    ItemDecodes(equation, css, Outermost(true), false);
  }

  /** In an equation of one line, the same matrix is displayed as it is meant to be, whatever the symbol. */
  lemma MatrixInEquation(matrix: Item, symbol: Item)
    requires OneCell(matrix, false, symbol) && symbol.kind.Leaf?
    ensures Decodes(Convert(matrix, EquationContext(true)), Outermost(true), false)
  {
    var css := EquationContext(true);
    DisplayTable(matrix, false, symbol, css, false);
    LeafIsGood(symbol, css.Below(), Place(css.Below(), Inherits, false));
    ItemDecodes(matrix, css, Outermost(true), false);
  }
}
