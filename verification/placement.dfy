/** Control flow that is written where it belongs is never rejected at run time. */
module Placement {
  import opened Options
  import opened Values
  import opened Scoping
  import opened Patterns
  import opened Arguments
  import opened Static
  import opened Reference
  import opened Events

  /**
   Every break and continue lies in the body of a loop, every return in the body of a function. The
   condition or iterable of a loop belongs to the context around the loop.
   */
  predicate Placed(e: Expr, inLoop: bool, inFunc: bool)
    decreases e, 1
  {
    match e
    case Literal(_) => true
    case Ident(_) => true
    case ArrayLit(items) => PlacedItems(items, inLoop, inFunc)
    case DictLit(items) => PlacedItems(items, inLoop, inFunc)
    case Unary(_, a) => Placed(a, inLoop, inFunc)
    case Binary(_, l, r) => Placed(l, inLoop, inFunc) && Placed(r, inLoop, inFunc)
    case Assign(_, l, r) => Placed(l, inLoop, inFunc) && Placed(r, inLoop, inFunc)
    case DestructAssign(_, r) => Placed(r, inLoop, inFunc)
    case Block(body) => PlacedStmts(body, inLoop, inFunc)
    case If(c, t, f) =>
      Placed(c, inLoop, inFunc) && Placed(t, inLoop, inFunc) && (f.Some? ==> Placed(f.value, inLoop, inFunc))
    case While(c, b) => Placed(c, inLoop, inFunc) && Placed(b, true, inFunc)
    case For(_, i, b) => Placed(i, inLoop, inFunc) && Placed(b, true, inFunc)
    case Break => inLoop
    case Continue => inLoop
    case Return(r) => inFunc && (r.Some? ==> Placed(r.value, inLoop, inFunc))
    case Lambda(_, ps, code) => PlacedDefaults(ps, inLoop, inFunc) && Placed(code, false, true)
    case Call(f, items) => Placed(f, inLoop, inFunc) && PlacedItems(items, inLoop, inFunc)
  }

  predicate PlacedItems(items: seq<Item>, inLoop: bool, inFunc: bool)
    decreases items, 0
  {
    items != [] ==>
      (assert items[0].expr < items[0]; Placed(items[0].expr, inLoop, inFunc))
      && PlacedItems(items[1..], inLoop, inFunc)
  }

  predicate PlacedDefaults(ps: seq<Param>, inLoop: bool, inFunc: bool)
    decreases ps, 0
  {
    ps != [] ==>
      (ps[0].NamedParam? ==> assert ps[0].default < ps[0]; Placed(ps[0].default, inLoop, inFunc))
      && PlacedDefaults(ps[1..], inLoop, inFunc)
  }

  predicate PlacedStmts(ss: seq<Stmt>, inLoop: bool, inFunc: bool)
    decreases ss, 0
  {
    ss != [] ==>
      (match ss[0]
       case Do(e) => assert e < ss[0]; Placed(e, inLoop, inFunc)
       case Let(_, init) => init.Some? ==> assert init < ss[0]; Placed(init.value, inLoop, inFunc))
      && PlacedStmts(ss[1..], inLoop, inFunc)
  }

  ghost function Kinds(inLoop: bool, inFunc: bool): set<Kind> {
    (if inLoop then {BreakKind, ContinueKind} else {}) + (if inFunc then {ReturnKind} else {})
  }

  lemma {:induction false} PlacedEmits(e: Expr, l: bool, f: bool)
    requires Placed(e, l, f)
    ensures Emits(e) <= Kinds(l, f)
    decreases e, 1
  {
    match e {
      case ArrayLit(items) => ItemsPlaced(items, l, f);
      case DictLit(items) => ItemsPlaced(items, l, f);
      case Unary(_, a) => PlacedEmits(a, l, f);
      case Binary(_, x, y) => PlacedEmits(x, l, f); PlacedEmits(y, l, f);
      case Assign(_, x, y) => PlacedEmits(x, l, f); PlacedEmits(y, l, f);
      case DestructAssign(_, r) => PlacedEmits(r, l, f);
      case Block(body) => StmtsPlaced(body, l, f);
      case If(c, t, x) =>
        PlacedEmits(c, l, f);
        PlacedEmits(t, l, f);
        if x.Some? {
          PlacedEmits(x.value, l, f);
        }
      case While(c, b) => PlacedEmits(c, l, f); PlacedEmits(b, true, f);
      case For(_, i, b) => PlacedEmits(i, l, f); PlacedEmits(b, true, f);
      case Return(r) =>
        if r.Some? {
          PlacedEmits(r.value, l, f);
        }
      case Lambda(_, ps, _) => DefaultsPlaced(ps, l, f);
      case Call(g, items) => PlacedEmits(g, l, f); ItemsPlaced(items, l, f);
      case _ =>
    }
  }

  lemma {:induction false} ItemsPlaced(items: seq<Item>, l: bool, f: bool)
    requires PlacedItems(items, l, f)
    ensures EmitsItems(items) <= Kinds(l, f)
    decreases items, 0
  {
    if items != [] {
      assert items[0].expr < items[0];
      PlacedEmits(items[0].expr, l, f);
      ItemsPlaced(items[1..], l, f);
    }
  }

  lemma {:induction false} DefaultsPlaced(ps: seq<Param>, l: bool, f: bool)
    requires PlacedDefaults(ps, l, f)
    ensures EmitsDefaults(ps) <= Kinds(l, f)
    decreases ps, 0
  {
    if ps != [] {
      if ps[0].NamedParam? {
        assert ps[0].default < ps[0];
        PlacedEmits(ps[0].default, l, f);
      }
      DefaultsPlaced(ps[1..], l, f);
    }
  }

  lemma {:induction false} StmtsPlaced(ss: seq<Stmt>, l: bool, f: bool)
    requires PlacedStmts(ss, l, f)
    ensures EmitsStmts(ss) <= Kinds(l, f)
    decreases ss, 0
  {
    if ss != [] {
      match ss[0] {
        case Do(e) =>
          assert e < ss[0];
          PlacedEmits(e, l, f);
        case Let(_, init) =>
          if init.Some? {
            assert init < ss[0];
            PlacedEmits(init.value, l, f);
          }
      }
      StmtsPlaced(ss[1..], l, f);
    }
  }

  // ----- Values that hold only well-placed functions -----

  ghost predicate Good(v: Value) {
    match v
    case ArrayVal(xs) => forall x <- xs :: Good(x)
    case DictVal(es) => forall e <- es :: Good(e.value)
    case ArgsVal(args) => forall a <- args :: Good(a.value)
    case FuncVal(f) => GoodClosure(f)
    case _ => true
  }

  ghost predicate GoodClosure(f: Closure) {
    && Placed(f.code, false, true)
    && (forall x <- f.defaults :: Good(x))
    && (forall n <- f.captured :: Good(f.captured[n]))
  }

  ghost predicate GoodScopes(s: Scopes) {
    forall i, n | 0 <= i < |s| && n in s[i] :: Good(s[i][n].value)
  }

  ghost predicate GoodEntries(es: seq<Entry>) {
    forall e <- es :: Good(e.value)
  }

  ghost predicate GoodArgs(args: seq<Arg>) {
    forall a <- args :: Good(a.value)
  }

  /** Operators do not make up functions. */
  ghost predicate GoodLibrary(lib: Library) {
    && (forall op, v | Good(v) && lib.unary(op, v).Some? :: Good(lib.unary(op, v).value))
    && (forall op, v, w | Good(v) && Good(w) && lib.binary(op, v, w).Some? :: Good(lib.binary(op, v, w).value))
  }

  ghost predicate GoodEvent(ev: Option<Event>) {
    ev.Some? && ev.value.ReturnEvent? && ev.value.result.Some? ==> Good(ev.value.result.value)
  }

  /** No forbidden control flow, and nothing but good values. */
  ghost predicate Fine(r: Result<Completion>) {
    match r
    case Err(x) => x != Forbidden
    case Ok(c) => Good(c.value) && GoodEvent(c.event) && GoodScopes(c.scopes)
  }

  // ----- Scopes, patterns and arguments only move values around -----

  lemma {:induction false} GoodFind(s: Scopes, n: string)
    requires GoodScopes(s)
    ensures Find(s, n).Some? ==> Good(Find(s, n).value.value)
  {
    if s != [] && n !in s[|s| - 1] {
      GoodFind(s[..|s| - 1], n);
    }
  }

  lemma {:induction false} GoodUpdate(s: Scopes, n: string, v: Value)
    requires GoodScopes(s) && Good(v)
    ensures GoodScopes(Update(s, n, v))
  {
    if s != [] && n !in s[|s| - 1] {
      GoodUpdate(s[..|s| - 1], n, v);
    }
  }

  lemma {:induction false} GoodDefines(s: Scopes, bs: seq<Entry>)
    requires s != [] && GoodScopes(s) && GoodEntries(bs)
    ensures GoodScopes(DefineAll(s, bs))
    decreases bs
  {
    if bs != [] {
      GoodDefines(Define(s, bs[0].key, bs[0].value), bs[1..]);
    }
  }

  lemma {:induction false} GoodWrites(s: Scopes, bs: seq<Entry>)
    requires GoodScopes(s) && GoodEntries(bs)
    ensures match WriteAll(s, bs) case Err(x) => x != Forbidden case Ok(t) => GoodScopes(t)
    decreases bs
  {
    if bs != [] {
      GoodUpdate(s, bs[0].key, bs[0].value);
      if Write(s, bs[0].key, bs[0].value).Ok? {
        GoodWrites(Write(s, bs[0].key, bs[0].value).value, bs[1..]);
      }
    }
  }

  lemma {:induction false} GoodMatch(p: Pattern, v: Value)
    requires Good(v)
    ensures GoodEntries(Match(p, v).binds)
    decreases p, 1
  {
    if p.Destructuring? {
      if v.ArrayVal? {
        GoodArray(p.items, |p.items|, v.elems, 0);
      } else if v.DictVal? {
        GoodDict(p.items, v.entries, {}, None);
      }
    }
  }

  lemma {:induction false} GoodArray(items: seq<PatternItem>, count: nat, xs: seq<Value>, i: nat)
    requires forall x <- xs :: Good(x)
    ensures GoodEntries(MatchArray(items, count, xs, i).binds)
    decreases items, 0
  {
    if items != [] {
      if items[0].Slot? && i < |xs| {
        assert items[0].pattern < items[0];
        GoodMatch(items[0].pattern, xs[i]);
      }
      GoodArray(items[1..], count, xs, i + Width(items[0], count, xs));
    }
  }

  lemma {:induction false} GoodDict(items: seq<PatternItem>, d: seq<Entry>, used: set<string>, sink: Option<string>)
    requires GoodEntries(d)
    ensures GoodEntries(MatchDict(items, d, used, sink).binds)
    decreases items, 0
  {
    if items == [] {
      GoodUnused(d, used);
    } else if items[0].Rest? {
      GoodDict(items[1..], d, used, items[0].sink);
    } else {
      var p := items[0].pattern;
      var k := if items[0].Field? then items[0].key else if p.Bind? then p.name else "";
      GoodDict(items[1..], d, used + {k}, sink);
      GoodGet(d, k);
      if Get(d, k).Some? {
        assert p < items[0];
        GoodMatch(p, Get(d, k).value);
      }
    }
  }

  lemma {:induction false} GoodGet(d: seq<Entry>, k: string)
    requires GoodEntries(d)
    ensures Get(d, k).Some? ==> Good(Get(d, k).value)
  {
    if d != [] {
      GoodGet(d[1..], k);
    }
  }

  lemma {:induction false} GoodUnused(d: seq<Entry>, used: set<string>)
    requires GoodEntries(d)
    ensures GoodEntries(Unused(d, used))
  {
    if d != [] {
      GoodUnused(d[1..], used);
    }
  }

  lemma {:induction false} GoodInserts(d: seq<Entry>, es: seq<Entry>)
    requires GoodEntries(d) && GoodEntries(es)
    ensures GoodEntries(InsertAll(d, es))
    decreases es
  {
    if es != [] {
      GoodInsert(d, es[0]);
      GoodInserts(Insert(d, es[0]), es[1..]);
    }
  }

  lemma {:induction false} GoodInsert(d: seq<Entry>, e: Entry)
    requires GoodEntries(d) && Good(e.value)
    ensures GoodEntries(Insert(d, e))
  {
    if d != [] && d[0].key != e.key {
      GoodInsert(d[1..], e);
    }
  }

  lemma GoodJoin(a: Value, b: Value)
    requires Good(a) && Good(b)
    ensures Join(a, b).Ok? ==> Good(Join(a, b).value)
  {
    if a.DictVal? && b.DictVal? {
      GoodInserts(a.entries, b.entries);
    }
  }

  lemma {:induction false} GoodNamed(es: seq<Entry>)
    requires GoodEntries(es)
    ensures GoodArgs(Named(es))
  {
    if es != [] {
      GoodNamed(es[1..]);
    }
  }

  lemma {:induction false} GoodUnnamed(vs: seq<Value>)
    requires forall v <- vs :: Good(v)
    ensures GoodArgs(Unnamed(vs))
  {
    if vs != [] {
      GoodUnnamed(vs[1..]);
    }
  }

  lemma GoodItem(mode: Mode, marker: Marker, v: Value)
    requires Good(v)
    ensures AddItem(mode, marker, v).Ok? ==> GoodArgs(AddItem(mode, marker, v).value)
  {
    if v.ArrayVal? {
      GoodUnnamed(v.elems);
    } else if v.DictVal? {
      GoodNamed(v.entries);
    }
  }

  lemma GoodMore(args: seq<Arg>, more: seq<Arg>)
    requires GoodArgs(args) && GoodArgs(more)
    ensures GoodArgs(args + more)
  {
  }

  lemma {:induction false} GoodContents(args: seq<Arg>)
    requires GoodArgs(args)
    ensures forall v <- ValuesOf(args) :: Good(v)
    ensures GoodEntries(EntriesOf(args))
  {
    if args != [] {
      GoodContents(args[1..]);
    }
  }

  lemma GoodElements(lib: Library, p: Pattern, v: Value)
    requires Good(v)
    ensures match Elements(lib, p, v) case Err(x) => x != Forbidden case Ok(vs) => forall x <- vs :: Good(x)
  {
    if v.DictVal? {
      forall i | 0 <= i < |v.entries| ensures Good(ArrayVal([StrVal(v.entries[i].key), v.entries[i].value])) {
        assert Good(StrVal(v.entries[i].key));
      }
    }
  }

  lemma {:induction false} GoodTake(args: seq<Arg>, n: nat)
    requires GoodArgs(args)
    ensures Take(args, n).Ok? ==> GoodArgs(Take(args, n).value.0) && GoodArgs(Take(args, n).value.1)
  {
    if n > 0 && args != [] {
      GoodTake(args[1..], if args[0].name.None? then n - 1 else n);
    }
  }

  lemma {:induction false} GoodWithout(args: seq<Arg>, n: string)
    requires GoodArgs(args)
    ensures GoodArgs(Without(args, n))
  {
    if args != [] {
      GoodWithout(args[1..], n);
    }
  }

  lemma {:induction false} GoodLast(args: seq<Arg>, n: string)
    requires GoodArgs(args)
    ensures Last(args, n).Some? ==> Good(Last(args, n).value)
  {
    if args != [] {
      GoodLast(args[..|args| - 1], n);
    }
  }

  ghost predicate GoodBinder(st: Binder) {
    && GoodEntries(st.binds) && GoodArgs(st.args) && GoodArgs(st.sunk)
    && forall v <- st.defaults :: Good(v)
  }

  lemma GoodParam(p: Param, st: Binder, size: Option<nat>)
    requires GoodBinder(st)
    ensures BindParam(p, st, size).Ok? ==> GoodBinder(BindParam(p, st, size).value)
  {
    match p
    case PosParam(pattern) =>
      GoodTake(st.args, 1);
      if Take(st.args, 1).Ok? {
        GoodMatch(pattern, Take(st.args, 1).value.0[0].value);
      }
    case NamedParam(n, _) =>
      GoodWithout(st.args, n);
      GoodLast(st.args, n);
    case SinkParam(_) =>
      if size.Some? {
        GoodTake(st.args, size.value);
      }
  }

  lemma {:induction false} GoodParams(ps: seq<Param>, st: Binder, size: Option<nat>)
    requires GoodBinder(st)
    ensures BindParams(ps, st, size).Ok? ==> GoodBinder(BindParams(ps, st, size).value)
  {
    if ps != [] {
      GoodParam(ps[0], st, size);
      if BindParam(ps[0], st, size).Ok? {
        GoodParams(ps[1..], BindParam(ps[0], st, size).value, size);
      }
    }
  }

  lemma GoodCall(f: Closure, args: seq<Arg>)
    requires GoodClosure(f) && GoodArgs(args)
    ensures BindCall(f, args).Ok? ==> GoodEntries(BindCall(f, args).value)
  {
    assert Good(FuncVal(f));
    GoodParams(f.params, Binder(SelfBind(f), args, f.defaults, None, []), SinkSize(f, args));
  }

  lemma GoodLambda(lib: Library, e: Expr, s: Scopes, defaults: seq<Value>)
    requires e.Lambda? && Placed(e.code, false, true) && GoodScopes(s) && forall v <- defaults :: Good(v)
    ensures Good(FuncVal(Closure(e.self, e.params, e.code, defaults, Capture(s, Free(e, {})))))
  {
    forall n | n in Capture(s, Free(e, {})) ensures Good(Capture(s, Free(e, {}))[n]) {
      GoodFind(s, n);
    }
  }

  lemma FineThen(c: Completion, next: Completion, v: Value)
    requires Fine(Ok(c)) && Fine(Ok(next)) && Good(v)
    ensures Fine(Ok(Then(c, next).(value := v)))
  {
  }

  // ----- Runs of well-placed programs -----

  lemma {:induction false} EvalFine(lib: Library, e: Expr, s: Scopes, depth: nat, l: bool, f: bool)
    requires GoodLibrary(lib) && GoodScopes(s) && Placed(e, l, f)
    ensures Fine(Eval(lib, e, s, depth))
    decreases depth, e, 2, 0
  {
    match e {
      case Literal(_) =>
      case Ident(n) => GoodFind(s, n);
      case ArrayLit(_) => ListFine(lib, e, s, depth, l, f);
      case DictLit(_) => ListFine(lib, e, s, depth, l, f);
      case Unary(_, a) => EvalFine(lib, a, s, depth, l, f);
      case Binary(_, _, _) => BinaryFine(lib, e, s, depth, l, f);
      case Assign(_, _, _) => AssignFine(lib, e, s, depth, l, f);
      case DestructAssign(p, rhs) =>
        EvalFine(lib, rhs, s, depth, l, f);
        var r := Eval(lib, rhs, s, depth);
        if r.Ok? {
          GoodMatch(p, r.value.value);
          GoodWrites(r.value.scopes, Match(p, r.value.value).binds);
        }
      case Block(body) => StmtsFine(lib, body, NoneVal, s + [map[]], depth, l, f);
      case If(_, _, _) => IfFine(lib, e, s, depth, l, f);
      case While(_, _) => WhileFine(lib, e, 0, NoneVal, s, depth, l, f);
      case For(_, _, _) => ForLoopFine(lib, e, s, depth, l, f);
      case Break =>
      case Continue =>
      case Return(result) =>
        if result.Some? {
          EvalFine(lib, result.value, s, depth, l, f);
        }
      case Lambda(_, ps, code) =>
        DefaultsFine(lib, ps, [], s, depth, l, f);
        var c := EvalDefaults(lib, ps, [], s, depth);
        if c.Ok? {
          GoodContents(c.value.value.args);
          GoodLambda(lib, e, c.value.scopes, ValuesOf(c.value.value.args));
        }
      case Call(_, _) => CallFine(lib, e, s, depth, l, f);
    }
  }

  lemma {:induction false} ListFine(lib: Library, e: Expr, s: Scopes, depth: nat, l: bool, f: bool)
    requires GoodLibrary(lib) && GoodScopes(s) && (e.ArrayLit? || e.DictLit?) && Placed(e, l, f)
    ensures Fine(Eval(lib, e, s, depth))
    decreases depth, e, 1, 0
  {
    var mode := if e.ArrayLit? then ArrayItems else DictItems;
    ItemsFine(lib, mode, e.items, [], s, depth, l, f);
    var c := EvalItems(lib, mode, e.items, [], s, depth);
    if c.Ok? {
      GoodContents(c.value.value.args);
      GoodInserts([], EntriesOf(c.value.value.args));
    }
  }

  lemma {:induction false} BinaryFine(lib: Library, e: Expr, s: Scopes, depth: nat, l: bool, f: bool)
    requires GoodLibrary(lib) && GoodScopes(s) && e.Binary? && Placed(e, l, f)
    ensures Fine(Eval(lib, e, s, depth))
    decreases depth, e, 1, 0
  {
    EvalFine(lib, e.lhs, s, depth, l, f);
    var x := Eval(lib, e.lhs, s, depth);
    if x.Ok? {
      EvalFine(lib, e.rhs, x.value.scopes, depth, l, f);
      var y := Eval(lib, e.rhs, x.value.scopes, depth);
      if y.Ok? && lib.binary(e.op, x.value.value, y.value.value).Some? {
        FineThen(x.value, y.value, lib.binary(e.op, x.value.value, y.value.value).value);
      }
    }
  }

  lemma {:induction false} AssignFine(lib: Library, e: Expr, s: Scopes, depth: nat, l: bool, f: bool)
    requires GoodLibrary(lib) && GoodScopes(s) && e.Assign? && Placed(e, l, f)
    ensures Fine(Eval(lib, e, s, depth))
    decreases depth, e, 1, 0
  {
    EvalFine(lib, e.rhs, s, depth, l, f);
    var r := Eval(lib, e.rhs, s, depth);
    if r.Ok? {
      if e.target.Ident? {
        var n := e.target.name;
        GoodFind(r.value.scopes, n);
        if Find(r.value.scopes, n).Some? {
          var v := if e.compound.None? then Ok(r.value.value)
                   else Checked(lib.binary(e.compound.value, Find(r.value.scopes, n).value.value, r.value.value));
          if v.Ok? {
            GoodUpdate(r.value.scopes, n, v.value);
          }
        }
      } else {
        EvalFine(lib, e.target, r.value.scopes, depth, l, f);
      }
    }
  }

  lemma {:induction false} IfFine(lib: Library, e: Expr, s: Scopes, depth: nat, l: bool, f: bool)
    requires GoodLibrary(lib) && GoodScopes(s) && e.If? && Placed(e, l, f)
    ensures Fine(Eval(lib, e, s, depth))
    decreases depth, e, 1, 0
  {
    EvalFine(lib, e.cond, s, depth, l, f);
    var c := Eval(lib, e.cond, s, depth);
    if c.Ok? && c.value.value.BoolVal? {
      var branch := if c.value.value.b then Some(e.thn) else e.els;
      if branch.Some? {
        EvalFine(lib, branch.value, c.value.scopes, depth, l, f);
      }
    }
  }

  lemma {:induction false} ForLoopFine(lib: Library, e: Expr, s: Scopes, depth: nat, l: bool, f: bool)
    requires GoodLibrary(lib) && GoodScopes(s) && e.For? && Placed(e, l, f)
    ensures Fine(Eval(lib, e, s, depth))
    decreases depth, e, 1, 0
  {
    EvalFine(lib, e.iterable, s, depth, l, f);
    var c := Eval(lib, e.iterable, s, depth);
    if c.Ok? {
      GoodElements(lib, e.pattern, c.value.value);
      var vs := Elements(lib, e.pattern, c.value.value);
      if vs.Ok? {
        ForFine(lib, e, vs.value, c.value.event, NoneVal, c.value.scopes + [map[]], depth, l, f);
      }
    }
  }

  /** A call whose callee completed as `c`. */
  ghost function Called(lib: Library, e: Expr, c: Completion, depth: nat): Result<Completion>
    requires e.Call? && depth > 0 && c.value.FuncVal?
  {
    var a :- EvalItems(lib, CallItems, e.items, [], c.scopes, depth);
    var v :- Invoke(lib, c.value.closure, a.value.args, depth - 1);
    Ok(Then(c, a).(value := v))
  }

  lemma {:induction false} CalledFine(lib: Library, e: Expr, c: Completion, depth: nat, l: bool, f: bool)
    requires GoodLibrary(lib) && e.Call? && depth > 0 && PlacedItems(e.items, l, f)
    requires Fine(Ok(c)) && c.value.FuncVal?
    ensures Fine(Called(lib, e, c, depth))
    decreases depth, e, 0, 0
  {
    ItemsFine(lib, CallItems, e.items, [], c.scopes, depth, l, f);
    var a := EvalItems(lib, CallItems, e.items, [], c.scopes, depth);
    if a.Ok? {
      InvokeFine(lib, c.value.closure, a.value.value.args, depth - 1);
    }
  }

  lemma {:induction false} CallFine(lib: Library, e: Expr, s: Scopes, depth: nat, l: bool, f: bool)
    requires GoodLibrary(lib) && GoodScopes(s) && e.Call? && Placed(e, l, f)
    ensures Fine(Eval(lib, e, s, depth))
    decreases depth, e, 1, 0
  {
    if depth > 0 {
      EvalFine(lib, e.callee, s, depth, l, f);
      var c := Eval(lib, e.callee, s, depth);
      if c.Ok? && c.value.value.FuncVal? {
        CalledFine(lib, e, c.value, depth, l, f);
      }
    }
  }

  /** A called function has its own control flow: its events are returns, and those are honoured. */
  lemma {:induction false} InvokeFine(lib: Library, g: Closure, args: seq<Arg>, depth: nat)
    requires GoodLibrary(lib) && GoodClosure(g) && GoodArgs(args)
    ensures match Invoke(lib, g, args, depth) case Err(x) => x != Forbidden case Ok(v) => Good(v)
    decreases depth
  {
    GoodCall(g, args);
    var bs := BindCall(g, args);
    if bs.Ok? {
      var frame := DefineAll([CapturedFrame(g.captured)], bs.value);
      GoodDefines([CapturedFrame(g.captured)], bs.value);
      EvalFine(lib, g.code, frame, depth, false, true);
      EvalEmits(lib, g.code, frame, depth);
      PlacedEmits(g.code, false, true);
    }
  }

  lemma {:induction false} ItemsFine(lib: Library, mode: Mode, items: seq<Item>, acc: seq<Arg>, s: Scopes, depth: nat,
                                     l: bool, f: bool)
    requires GoodLibrary(lib) && GoodScopes(s) && GoodArgs(acc) && PlacedItems(items, l, f)
    ensures Fine(EvalItems(lib, mode, items, acc, s, depth))
    decreases depth, items, 0, 0
  {
    if items != [] {
      assert items[0].expr < items[0];
      EvalFine(lib, items[0].expr, s, depth, l, f);
      var c := Eval(lib, items[0].expr, s, depth);
      if c.Ok? {
        GoodItem(mode, items[0].marker, c.value.value);
        var more := AddItem(mode, items[0].marker, c.value.value);
        if more.Ok? {
          GoodMore(acc, more.value);
          ItemsFine(lib, mode, items[1..], acc + more.value, c.value.scopes, depth, l, f);
        }
      }
    }
  }

  lemma {:induction false} DefaultsFine(lib: Library, ps: seq<Param>, acc: seq<Arg>, s: Scopes, depth: nat,
                                        l: bool, f: bool)
    requires GoodLibrary(lib) && GoodScopes(s) && GoodArgs(acc) && PlacedDefaults(ps, l, f)
    ensures Fine(EvalDefaults(lib, ps, acc, s, depth))
    decreases depth, ps, 0, 0
  {
    if ps != [] {
      if ps[0].NamedParam? {
        assert ps[0].default < ps[0];
        EvalFine(lib, ps[0].default, s, depth, l, f);
        var c := Eval(lib, ps[0].default, s, depth);
        if c.Ok? {
          DefaultsFine(lib, ps[1..], acc + [Arg(None, c.value.value)], c.value.scopes, depth, l, f);
        }
      } else {
        DefaultsFine(lib, ps[1..], acc, s, depth, l, f);
      }
    }
  }

  lemma {:induction false} StmtsFine(lib: Library, ss: seq<Stmt>, out: Value, s: Scopes, depth: nat, l: bool, f: bool)
    requires s != [] && GoodLibrary(lib) && GoodScopes(s) && Good(out) && PlacedStmts(ss, l, f)
    ensures Fine(EvalStmts(lib, ss, out, s, depth))
    decreases depth, ss, 0, 0
  {
    if ss != [] {
      StmtFine(lib, ss[0], s, depth, l, f);
      var c := EvalStmt(lib, ss[0], s, depth);
      if c.Ok? {
        GoodJoin(out, c.value.value);
        var out' := Join(out, c.value.value);
        if out'.Ok? && c.value.event.None? {
          StmtsFine(lib, ss[1..], out'.value, c.value.scopes, depth, l, f);
        }
      }
    }
  }

  lemma {:induction false} StmtFine(lib: Library, st: Stmt, s: Scopes, depth: nat, l: bool, f: bool)
    requires s != [] && GoodLibrary(lib) && GoodScopes(s) && PlacedStmts([st], l, f)
    ensures Fine(EvalStmt(lib, st, s, depth))
    decreases depth, st, 0, 0
  {
    match st {
      case Do(e) => EvalFine(lib, e, s, depth, l, f);
      case Let(p, init) =>
        var c := Quiet(NoneVal, s);
        if init.Some? {
          assert init < st;
          EvalFine(lib, init.value, s, depth, l, f);
          var r := Eval(lib, init.value, s, depth);
          if r.Err? {
            return;
          }
          c := r.value;
        }
        GoodMatch(p, c.value);
        GoodDefines(c.scopes, Match(p, c.value).binds);
    }
  }

  lemma AfterBodyFine(out: Value, pending: Option<Event>, b: Completion)
    requires Good(out) && GoodEvent(pending) && Fine(Ok(b))
    ensures match AfterBody(out, pending, b) case Stop(r) => Fine(r) case Go(u, t) => Good(u) && GoodScopes(t)
  {
    GoodJoin(out, b.value);
  }

  lemma {:induction false} WhileFine(lib: Library, w: Expr, i: nat, out: Value, s: Scopes, depth: nat, l: bool, f: bool)
    requires w.While? && i <= MAX_ITERATIONS && Placed(w, l, f)
    requires GoodLibrary(lib) && GoodScopes(s) && Good(out)
    ensures Fine(EvalWhile(lib, w, i, out, s, depth))
    decreases depth, w, 0, MAX_ITERATIONS - i
  {
    EvalFine(lib, w.cond, s, depth, l, f);
    var c := Eval(lib, w.cond, s, depth);
    if c.Ok? && Guard(w, i, c.value.value) == Ok(true) {
      EvalFine(lib, w.loop, c.value.scopes, depth, true, f);
      var b := Eval(lib, w.loop, c.value.scopes, depth);
      if b.Ok? {
        AfterBodyFine(out, c.value.event, b.value);
        var step := AfterBody(out, c.value.event, b.value);
        if step.Go? {
          WhileFine(lib, w, i + 1, step.out, step.scopes, depth, l, f);
        }
      }
    }
  }

  lemma {:induction false} ForFine(lib: Library, e: Expr, vs: seq<Value>, pending: Option<Event>, out: Value,
                                   s: Scopes, depth: nat, l: bool, f: bool)
    requires e.For? && s != [] && Placed(e, l, f)
    requires GoodLibrary(lib) && GoodScopes(s) && Good(out) && GoodEvent(pending) && forall v <- vs :: Good(v)
    ensures Fine(EvalFor(lib, e, vs, pending, out, s, depth))
    decreases depth, e, 0, |vs|
  {
    if vs != [] && Match(e.pattern, vs[0]).ok {
      var bs := Match(e.pattern, vs[0]).binds;
      GoodMatch(e.pattern, vs[0]);
      GoodDefines(s, bs);
      EvalFine(lib, e.loop, DefineAll(s, bs), depth, true, f);
      var b := Eval(lib, e.loop, DefineAll(s, bs), depth);
      if b.Ok? {
        AfterBodyFine(out, pending, b.value);
        var step := AfterBody(out, pending, b.value);
        if step.Go? {
          ForFine(lib, e, vs[1..], None, step.out, step.scopes, depth, l, f);
        }
      }
    }
  }

  /** A well-placed program never ends in, nor fails with, forbidden control flow. */
  lemma WellPlacedProgramsAreNeverForbidden(lib: Library, scope: Frame, ss: seq<Stmt>, depth: nat)
    requires GoodLibrary(lib) && GoodScopes([scope]) && PlacedStmts(ss, false, false)
    ensures Program(lib, scope, ss, depth) != Err(Forbidden)
  {
    var s: Scopes := [scope, map[]];
    StmtsFine(lib, ss, NoneVal, s, depth, false, false);
    StmtsEmit(lib, ss, NoneVal, s, depth);
    StmtsPlaced(ss, false, false);
  }
}
