/** Which control-flow events an expression can complete with, read off its syntax. */
module Events {
  import opened Options
  import opened Values
  import opened Scoping
  import opened Patterns
  import opened Static
  import opened Reference

  datatype Kind = BreakKind | ContinueKind | ReturnKind

  ghost function KindOf(e: Event): Kind {
    match e
    case BreakEvent => BreakKind
    case ContinueEvent => ContinueKind
    case ReturnEvent(_, _) => ReturnKind
  }

  /** Loops consume the breaks and continues of their bodies, but not those of the head. */
  ghost function Emits(e: Expr): set<Kind>
    decreases e, 1
  {
    match e
    case Literal(_) => {}
    case Ident(_) => {}
    case ArrayLit(items) => EmitsItems(items)
    case DictLit(items) => EmitsItems(items)
    case Unary(_, a) => Emits(a)
    case Binary(_, l, r) => Emits(l) + Emits(r)
    case Assign(_, l, r) => Emits(l) + Emits(r)
    case DestructAssign(_, r) => Emits(r)
    case Block(body) => EmitsStmts(body)
    case If(c, t, f) => Emits(c) + Emits(t) + (if f.Some? then Emits(f.value) else {})
    case While(c, b) => Emits(c) + Emits(b) * {ReturnKind}
    case For(_, i, b) => Emits(i) + Emits(b) * {ReturnKind}
    case Break => {BreakKind}
    case Continue => {ContinueKind}
    case Return(r) => {ReturnKind} + (if r.Some? then Emits(r.value) else {})
    case Lambda(_, ps, _) => EmitsDefaults(ps)
    case Call(f, items) => Emits(f) + EmitsItems(items)
  }

  ghost function EmitsItems(items: seq<Item>): set<Kind>
    decreases items, 0
  {
    if items == [] then {} else assert items[0].expr < items[0]; Emits(items[0].expr) + EmitsItems(items[1..])
  }

  ghost function EmitsDefaults(ps: seq<Param>): set<Kind>
    decreases ps, 0
  {
    if ps == [] then {}
    else (if ps[0].NamedParam? then assert ps[0].default < ps[0]; Emits(ps[0].default) else {}) + EmitsDefaults(ps[1..])
  }

  ghost function EmitsStmts(ss: seq<Stmt>): set<Kind>
    decreases ss, 0
  {
    if ss == [] then {}
    else
      (match ss[0]
       case Do(e) => assert e < ss[0]; Emits(e)
       case Let(_, init) => if init.Some? then assert init < ss[0]; Emits(init.value) else {})
      + EmitsStmts(ss[1..])
  }

  ghost predicate Allowed(ev: Option<Event>, K: set<Kind>) {
    ev.Some? ==> KindOf(ev.value) in K
  }

  ghost predicate Within(r: Result<Completion>, K: set<Kind>) {
    r.Ok? ==> Allowed(r.value.event, K)
  }

  lemma AfterAllowed(first: Option<Event>, c: Completion, K: set<Kind>, L: set<Kind>)
    requires Allowed(first, K) && Allowed(c.event, L)
    ensures Allowed(After(first, c), K + L)
  {
  }

  /** Every event of a run was emitted by the expression itself, not by a function it calls. */
  lemma {:induction false} EvalEmits(lib: Library, e: Expr, s: Scopes, depth: nat)
    ensures Within(Eval(lib, e, s, depth), Emits(e))
    decreases depth, e, 2, 0
  {
    match e {
      case Literal(_) =>
      case Ident(_) =>
      case ArrayLit(items) => ItemsEmit(lib, ArrayItems, items, [], s, depth);
      case DictLit(items) => ItemsEmit(lib, DictItems, items, [], s, depth);
      case Unary(_, a) => EvalEmits(lib, a, s, depth);
      case Binary(_, _, _) => BinaryEmits(lib, e, s, depth);
      case Assign(_, _, _) => AssignEmits(lib, e, s, depth);
      case DestructAssign(_, _) => AssignEmits(lib, e, s, depth);
      case Block(body) => StmtsEmit(lib, body, NoneVal, s + [map[]], depth);
      case If(_, _, _) => IfEmits(lib, e, s, depth);
      case While(_, _) => WhileEmits(lib, e, 0, NoneVal, s, depth);
      case For(_, _, _) => ForLoopEmits(lib, e, s, depth);
      case Break => JumpEmits(lib, e, s, depth);
      case Continue => JumpEmits(lib, e, s, depth);
      case Return(_) => JumpEmits(lib, e, s, depth);
      case Lambda(_, ps, _) => DefaultsEmit(lib, ps, [], s, depth);
      case Call(_, _) => CallEmits(lib, e, s, depth);
    }
  }

  lemma {:induction false} AssignEmits(lib: Library, e: Expr, s: Scopes, depth: nat)
    requires e.Assign? || e.DestructAssign?
    ensures Within(Eval(lib, e, s, depth), Emits(e))
    decreases depth, e, 1, 0
  {
    EvalEmits(lib, e.rhs, s, depth);
  }

  lemma {:induction false} JumpEmits(lib: Library, e: Expr, s: Scopes, depth: nat)
    requires e.Break? || e.Continue? || e.Return?
    ensures Within(Eval(lib, e, s, depth), Emits(e))
    decreases depth, e, 1, 0
  {
    if e.Return? && e.result.Some? {
      EvalEmits(lib, e.result.value, s, depth);
    }
  }

  lemma {:induction false} BinaryEmits(lib: Library, e: Expr, s: Scopes, depth: nat)
    requires e.Binary?
    ensures Within(Eval(lib, e, s, depth), Emits(e))
    decreases depth, e, 1, 0
  {
    EvalEmits(lib, e.lhs, s, depth);
    var l := Eval(lib, e.lhs, s, depth);
    if l.Ok? {
      EvalEmits(lib, e.rhs, l.value.scopes, depth);
    }
  }

  lemma {:induction false} IfEmits(lib: Library, e: Expr, s: Scopes, depth: nat)
    requires e.If?
    ensures Within(Eval(lib, e, s, depth), Emits(e))
    decreases depth, e, 1, 0
  {
    EvalEmits(lib, e.cond, s, depth);
    var c := Eval(lib, e.cond, s, depth);
    if c.Ok? && c.value.value.BoolVal? {
      var branch := if c.value.value.b then Some(e.thn) else e.els;
      if branch.Some? {
        EvalEmits(lib, branch.value, c.value.scopes, depth);
      }
    }
  }

  lemma {:induction false} ForLoopEmits(lib: Library, e: Expr, s: Scopes, depth: nat)
    requires e.For?
    ensures Within(Eval(lib, e, s, depth), Emits(e))
    decreases depth, e, 1, 0
  {
    EvalEmits(lib, e.iterable, s, depth);
    var c := Eval(lib, e.iterable, s, depth);
    if c.Ok? && Elements(lib, e.pattern, c.value.value).Ok? {
      ForEmits(lib, e, Elements(lib, e.pattern, c.value.value).value, c.value.event, NoneVal,
        c.value.scopes + [map[]], depth);
    }
  }

  lemma {:induction false} CallEmits(lib: Library, e: Expr, s: Scopes, depth: nat)
    requires e.Call?
    ensures Within(Eval(lib, e, s, depth), Emits(e))
    decreases depth, e, 1, 0
  {
    if depth > 0 {
      EvalEmits(lib, e.callee, s, depth);
      var f := Eval(lib, e.callee, s, depth);
      if f.Ok? {
        ItemsEmit(lib, CallItems, e.items, [], f.value.scopes, depth);
      }
    }
  }

  lemma {:induction false} ItemsEmit(lib: Library, mode: Mode, items: seq<Item>, acc: seq<Arg>, s: Scopes, depth: nat)
    ensures Within(EvalItems(lib, mode, items, acc, s, depth), EmitsItems(items))
    decreases depth, items, 0, 0
  {
    if items != [] {
      assert items[0].expr < items[0];
      EvalEmits(lib, items[0].expr, s, depth);
      var c := Eval(lib, items[0].expr, s, depth);
      if c.Ok? && AddItem(mode, items[0].marker, c.value.value).Ok? {
        ItemsEmit(lib, mode, items[1..], acc + AddItem(mode, items[0].marker, c.value.value).value,
          c.value.scopes, depth);
      }
    }
  }

  lemma {:induction false} DefaultsEmit(lib: Library, ps: seq<Param>, acc: seq<Arg>, s: Scopes, depth: nat)
    ensures Within(EvalDefaults(lib, ps, acc, s, depth), EmitsDefaults(ps))
    decreases depth, ps, 0, 0
  {
    if ps != [] {
      if ps[0].NamedParam? {
        assert ps[0].default < ps[0];
        EvalEmits(lib, ps[0].default, s, depth);
        var c := Eval(lib, ps[0].default, s, depth);
        if c.Ok? {
          DefaultsEmit(lib, ps[1..], acc + [Arg(None, c.value.value)], c.value.scopes, depth);
        }
      } else {
        DefaultsEmit(lib, ps[1..], acc, s, depth);
      }
    }
  }

  lemma {:induction false} StmtsEmit(lib: Library, ss: seq<Stmt>, out: Value, s: Scopes, depth: nat)
    requires s != []
    ensures Within(EvalStmts(lib, ss, out, s, depth), EmitsStmts(ss))
    decreases depth, ss, 0, 0
  {
    if ss != [] {
      match ss[0] {
        case Do(e) =>
          assert e < ss[0];
          EvalEmits(lib, e, s, depth);
        case Let(_, init) =>
          if init.Some? {
            assert init < ss[0];
            EvalEmits(lib, init.value, s, depth);
          }
      }
      var c := EvalStmt(lib, ss[0], s, depth);
      if c.Ok? && Join(out, c.value.value).Ok? && c.value.event.None? {
        StmtsEmit(lib, ss[1..], Join(out, c.value.value).value, c.value.scopes, depth);
      }
    }
  }

  lemma {:induction false} WhileEmits(lib: Library, w: Expr, i: nat, out: Value, s: Scopes, depth: nat)
    requires w.While? && i <= MAX_ITERATIONS
    ensures Within(EvalWhile(lib, w, i, out, s, depth), Emits(w))
    decreases depth, w, 0, MAX_ITERATIONS - i
  {
    EvalEmits(lib, w.cond, s, depth);
    var c := Eval(lib, w.cond, s, depth);
    if c.Ok? && Guard(w, i, c.value.value) == Ok(true) {
      EvalEmits(lib, w.loop, c.value.scopes, depth);
      var b := Eval(lib, w.loop, c.value.scopes, depth);
      if b.Ok? {
        AfterAllowed(c.value.event, b.value, Emits(w.cond), Emits(w.loop));
        var step := AfterBody(out, c.value.event, b.value);
        if step.Go? {
          WhileEmits(lib, w, i + 1, step.out, b.value.scopes, depth);
        }
      }
    }
  }

  lemma {:induction false} ForEmits(lib: Library, f: Expr, vs: seq<Value>, pending: Option<Event>, out: Value,
                                    s: Scopes, depth: nat)
    requires f.For? && s != [] && Allowed(pending, Emits(f.iterable))
    ensures Within(EvalFor(lib, f, vs, pending, out, s, depth), Emits(f))
    decreases depth, f, 0, |vs|
  {
    if vs != [] && Match(f.pattern, vs[0]).ok {
      var t := DefineAll(s, Match(f.pattern, vs[0]).binds);
      EvalEmits(lib, f.loop, t, depth);
      var b := Eval(lib, f.loop, t, depth);
      if b.Ok? {
        AfterAllowed(pending, b.value, Emits(f.iterable), Emits(f.loop));
        var step := AfterBody(out, pending, b.value);
        if step.Go? {
          ForEmits(lib, f, vs[1..], None, step.out, b.value.scopes, depth);
        }
      }
    }
  }

  // ----- Without a break or return in the source, there is none in a run -----

  lemma {:induction false} UndivergingEmits(e: Expr)
    requires !CanDiverge(e)
    ensures Emits(e) <= {ContinueKind}
    decreases e, 1
  {
    match e {
      case ArrayLit(items) => UndivergingItems(items);
      case DictLit(items) => UndivergingItems(items);
      case Unary(_, a) => UndivergingEmits(a);
      case Binary(_, l, r) => UndivergingEmits(l); UndivergingEmits(r);
      case Assign(_, l, r) => UndivergingEmits(l); UndivergingEmits(r);
      case DestructAssign(_, r) => UndivergingEmits(r);
      case Block(body) => UndivergingStmts(body);
      case If(c, t, f) =>
        UndivergingEmits(c);
        UndivergingEmits(t);
        if f.Some? {
          UndivergingEmits(f.value);
        }
      case While(c, b) => UndivergingEmits(c); UndivergingEmits(b);
      case For(_, i, b) => UndivergingEmits(i); UndivergingEmits(b);
      case Lambda(_, ps, _) => UndivergingDefaults(ps);
      case Call(f, items) => UndivergingEmits(f); UndivergingItems(items);
      case _ =>
    }
  }

  lemma {:induction false} UndivergingItems(items: seq<Item>)
    requires !DivergingItems(items)
    ensures EmitsItems(items) <= {ContinueKind}
    decreases items, 0
  {
    if items != [] {
      assert items[0].expr < items[0];
      UndivergingEmits(items[0].expr);
      UndivergingItems(items[1..]);
    }
  }

  lemma {:induction false} UndivergingDefaults(ps: seq<Param>)
    requires !DivergingDefaults(ps)
    ensures EmitsDefaults(ps) <= {ContinueKind}
    decreases ps, 0
  {
    if ps != [] {
      if ps[0].NamedParam? {
        assert ps[0].default < ps[0];
        UndivergingEmits(ps[0].default);
      }
      UndivergingDefaults(ps[1..]);
    }
  }

  lemma {:induction false} UndivergingStmts(ss: seq<Stmt>)
    requires !DivergingStmts(ss)
    ensures EmitsStmts(ss) <= {ContinueKind}
    decreases ss, 0
  {
    if ss != [] {
      match ss[0] {
        case Do(e) =>
          assert e < ss[0];
          UndivergingEmits(e);
        case Let(_, init) =>
          if init.Some? {
            assert init < ss[0];
            UndivergingEmits(init.value);
          }
      }
      UndivergingStmts(ss[1..]);
    }
  }
}
