/** What can be read off the syntax alone: bound names, free names, invariance and divergence. */
module Static {
  import opened Options
  import opened Values

  /** The names a pattern binds. */
  function PatternNames(p: Pattern): set<string> {
    match p
    case Bind(n) => {n}
    case Placeholder => {}
    case Destructuring(items) => ItemNames(items)
  }

  function ItemNames(items: seq<PatternItem>): set<string> {
    if items == [] then {}
    else
      (match items[0]
       case Slot(p) => assert p < items[0]; PatternNames(p)
       case Field(_, p) => assert p < items[0]; PatternNames(p)
       case Rest(Some(n)) => {n}
       case Rest(None) => {}) + ItemNames(items[1..])
  }

  function ParamNames(ps: seq<Param>): set<string> {
    if ps == [] then {}
    else
      (match ps[0]
       case PosParam(p) => PatternNames(p)
       case NamedParam(n, _) => {n}
       case SinkParam(Some(n)) => {n}
       case SinkParam(None) => {}) + ParamNames(ps[1..])
  }

  function OptName(n: Option<string>): set<string> {
    match n case None => {} case Some(x) => {x}
  }

  /** The names an expression reads or writes without binding them; `bound` are the internal ones. */
  function Free(e: Expr, bound: set<string>): set<string>
    decreases e, 1
  {
    match e
    case Literal(_) => {}
    case Ident(n) => {n} - bound
    case ArrayLit(items) => FreeItems(items, bound)
    case DictLit(items) => FreeItems(items, bound)
    case Unary(_, a) => Free(a, bound)
    case Binary(_, l, r) => Free(l, bound) + Free(r, bound)
    case Assign(_, l, r) => Free(l, bound) + Free(r, bound)
    case DestructAssign(p, r) => (PatternNames(p) - bound) + Free(r, bound)
    case Block(body) => FreeStmts(body, bound)
    case If(c, t, f) => Free(c, bound) + Free(t, bound) + (if f.Some? then Free(f.value, bound) else {})
    case While(c, b) => Free(c, bound) + Free(b, bound)
    case For(p, i, b) => Free(i, bound) + Free(b, bound + PatternNames(p))
    case Break => {}
    case Continue => {}
    case Return(r) => if r.Some? then Free(r.value, bound) else {}
    case Lambda(self, ps, code) =>
      FreeDefaults(ps, bound) + Free(code, bound + OptName(self) + ParamNames(ps))
    case Call(f, items) => Free(f, bound) + FreeItems(items, bound)
  }

  function FreeItems(items: seq<Item>, bound: set<string>): set<string>
    decreases items, 0
  {
    if items == [] then {}
    else
      assert items[0].expr < items[0];
      Free(items[0].expr, bound) + FreeItems(items[1..], bound)
  }

  /** Defaults are evaluated where the closure is created, before its parameters exist. */
  function FreeDefaults(ps: seq<Param>, bound: set<string>): set<string>
    decreases ps, 0
  {
    if ps == [] then {}
    else
      (if ps[0].NamedParam? then assert ps[0].default < ps[0]; Free(ps[0].default, bound) else {})
      + FreeDefaults(ps[1..], bound)
  }

  /** A `let` binds for the statements after it. */
  function FreeStmts(ss: seq<Stmt>, bound: set<string>): set<string>
    decreases ss, 0
  {
    if ss == [] then {}
    else match ss[0]
      case Do(e) => assert e < ss[0]; Free(e, bound) + FreeStmts(ss[1..], bound)
      case Let(p, init) =>
        (if init.Some? then assert init < ss[0]; Free(init.value, bound) else {})
        + FreeStmts(ss[1..], bound + PatternNames(p))
  }

  // ----- What the parser guarantees -----

  /** Patterns and parameter lists contain at most one spread. */
  predicate WellFormed(e: Expr)
    decreases e, 1
  {
    match e
    case Literal(_) => true
    case Ident(_) => true
    case ArrayLit(items) => WellItems(items)
    case DictLit(items) => WellItems(items)
    case Unary(_, a) => WellFormed(a)
    case Binary(_, l, r) => WellFormed(l) && WellFormed(r)
    case Assign(_, l, r) => WellFormed(l) && WellFormed(r)
    case DestructAssign(p, r) => WellPattern(p) && WellFormed(r)
    case Block(body) => WellStmts(body)
    case If(c, t, f) => WellFormed(c) && WellFormed(t) && (f.Some? ==> WellFormed(f.value))
    case While(c, b) => WellFormed(c) && WellFormed(b)
    case For(p, i, b) => WellPattern(p) && WellFormed(i) && WellFormed(b)
    case Break => true
    case Continue => true
    case Return(r) => r.Some? ==> WellFormed(r.value)
    case Lambda(_, ps, code) => WellParams(ps) && SinkCount(ps) <= 1 && WellFormed(code)
    case Call(f, items) => WellFormed(f) && WellItems(items)
  }

  predicate WellItems(items: seq<Item>)
    decreases items, 0
  {
    items != [] ==> (assert items[0].expr < items[0]; WellFormed(items[0].expr)) && WellItems(items[1..])
  }

  predicate WellStmts(ss: seq<Stmt>)
    decreases ss, 0
  {
    ss != [] ==>
      && (match ss[0]
          case Do(e) => assert e < ss[0]; WellFormed(e)
          case Let(p, init) => WellPattern(p) && (init.Some? ==> assert init < ss[0]; WellFormed(init.value)))
      && WellStmts(ss[1..])
  }

  predicate WellParams(ps: seq<Param>)
    decreases ps, 0
  {
    ps != [] ==>
      && (match ps[0]
          case PosParam(p) => WellPattern(p)
          case NamedParam(_, d) => assert d < ps[0]; WellFormed(d)
          case SinkParam(_) => true)
      && WellParams(ps[1..])
  }

  function SinkCount(ps: seq<Param>): nat {
    if ps == [] then 0 else (if ps[0].SinkParam? then 1 else 0) + SinkCount(ps[1..])
  }

  predicate WellPattern(p: Pattern) {
    p.Destructuring? ==> SpreadCount(p.items) <= 1 && WellSlots(p.items)
  }

  predicate WellSlots(items: seq<PatternItem>) {
    items != [] ==>
      && (!items[0].Rest? ==> assert items[0].pattern < items[0]; WellPattern(items[0].pattern))
      && WellSlots(items[1..])
  }

  function SpreadCount(items: seq<PatternItem>): nat {
    if items == [] then 0 else (if items[0].Rest? then 1 else 0) + SpreadCount(items[1..])
  }

  // ----- The early check of while loops -----

  /** No identifier occurs anywhere, not even as a key, a parameter or in a pattern. */
  predicate IsInvariant(e: Expr)
    decreases e, 1
  {
    match e
    case Literal(_) => true
    case Ident(_) => false
    case ArrayLit(items) => InvariantItems(items)
    case DictLit(items) => InvariantItems(items)
    case Unary(_, a) => IsInvariant(a)
    case Binary(_, l, r) => IsInvariant(l) && IsInvariant(r)
    case Assign(_, l, r) => IsInvariant(l) && IsInvariant(r)
    case DestructAssign(p, r) => InvariantPattern(p) && IsInvariant(r)
    case Block(body) => InvariantStmts(body)
    case If(c, t, f) => IsInvariant(c) && IsInvariant(t) && (f.Some? ==> IsInvariant(f.value))
    case While(c, b) => IsInvariant(c) && IsInvariant(b)
    case For(p, i, b) => InvariantPattern(p) && IsInvariant(i) && IsInvariant(b)
    case Break => true
    case Continue => true
    case Return(r) => r.Some? ==> IsInvariant(r.value)
    case Lambda(self, ps, code) => self.None? && InvariantParams(ps) && IsInvariant(code)
    case Call(f, items) => IsInvariant(f) && InvariantItems(items)
  }

  predicate InvariantItems(items: seq<Item>)
    decreases items, 0
  {
    items != [] ==>
      && !items[0].marker.Key?
      && (assert items[0].expr < items[0]; IsInvariant(items[0].expr))
      && InvariantItems(items[1..])
  }

  predicate InvariantStmts(ss: seq<Stmt>)
    decreases ss, 0
  {
    ss != [] ==>
      && (match ss[0]
          case Do(e) => assert e < ss[0]; IsInvariant(e)
          case Let(p, init) =>
            InvariantPattern(p) && (init.Some? ==> assert init < ss[0]; IsInvariant(init.value)))
      && InvariantStmts(ss[1..])
  }

  predicate InvariantParams(ps: seq<Param>) {
    ps != [] ==>
      && (match ps[0]
          case PosParam(p) => InvariantPattern(p)
          case NamedParam(_, _) => false
          case SinkParam(sink) => sink.None?)
      && InvariantParams(ps[1..])
  }

  predicate InvariantPattern(p: Pattern) {
    match p
    case Bind(_) => false
    case Placeholder => true
    case Destructuring(items) => InvariantSlots(items)
  }

  predicate InvariantSlots(items: seq<PatternItem>) {
    items != [] ==>
      && (match items[0]
          case Slot(p) => assert p < items[0]; InvariantPattern(p)
          case Field(_, _) => false
          case Rest(sink) => sink.None?)
      && InvariantSlots(items[1..])
  }

  /** A break or return occurs anywhere. */
  predicate CanDiverge(e: Expr)
    decreases e, 1
  {
    match e
    case Literal(_) => false
    case Ident(_) => false
    case ArrayLit(items) => DivergingItems(items)
    case DictLit(items) => DivergingItems(items)
    case Unary(_, a) => CanDiverge(a)
    case Binary(_, l, r) => CanDiverge(l) || CanDiverge(r)
    case Assign(_, l, r) => CanDiverge(l) || CanDiverge(r)
    case DestructAssign(_, r) => CanDiverge(r)
    case Block(body) => DivergingStmts(body)
    case If(c, t, f) => CanDiverge(c) || CanDiverge(t) || (f.Some? && CanDiverge(f.value))
    case While(c, b) => CanDiverge(c) || CanDiverge(b)
    case For(_, i, b) => CanDiverge(i) || CanDiverge(b)
    case Break => true
    case Continue => false
    case Return(_) => true
    case Lambda(_, ps, code) => DivergingDefaults(ps) || CanDiverge(code)
    case Call(f, items) => CanDiverge(f) || DivergingItems(items)
  }

  predicate DivergingItems(items: seq<Item>)
    decreases items, 0
  {
    items != [] && ((assert items[0].expr < items[0]; CanDiverge(items[0].expr)) || DivergingItems(items[1..]))
  }

  predicate DivergingDefaults(ps: seq<Param>)
    decreases ps, 0
  {
    ps != [] &&
    ((ps[0].NamedParam? && (assert ps[0].default < ps[0]; CanDiverge(ps[0].default))) || DivergingDefaults(ps[1..]))
  }

  predicate DivergingStmts(ss: seq<Stmt>)
    decreases ss, 0
  {
    ss != [] &&
    ((match ss[0]
      case Do(e) => assert e < ss[0]; CanDiverge(e)
      case Let(_, init) => init.Some? && (assert init < ss[0]; CanDiverge(init.value)))
     || DivergingStmts(ss[1..]))
  }
}
