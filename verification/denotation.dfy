/**
 Expressions that neither assign, call, loop nor leave denote values in an environment of names: the
 evaluator finds exactly these values, left operand first, and leaves the scopes as they are.
 */
module Denotation {
  import opened Options
  import opened Values
  import opened Scoping
  import opened Patterns
  import opened Reference
  import Listing

  type Env = map<string, Value>

  // ----- Values of expressions -----

  predicate Pure(e: Expr)
    decreases e, 1
  {
    match e
    case Literal(_) | Ident(_) => true
    case ArrayLit(items) => PureItems(items)
    case DictLit(items) => PureItems(items)
    case Unary(_, a) => Pure(a)
    case Binary(_, l, r) => Pure(l) && Pure(r)
    case If(c, t, f) => Pure(c) && Pure(t) && (f.Some? ==> Pure(f.value))
    case Block(body) => PureBody(body)
    case _ => false
  }

  predicate PureItems(items: seq<Item>)
    decreases items, 0
  {
    items != [] ==> (assert items[0].expr < items[0]; Pure(items[0].expr)) && PureItems(items[1..])
  }

  predicate PureBody(ss: seq<Stmt>)
    decreases ss, 0
  {
    ss != [] ==>
      && (match ss[0]
          case Do(e) => assert e < ss[0]; Pure(e)
          case Let(_, init) => init.Some? ==> assert init < ss[0]; Pure(init.value))
      && PureBody(ss[1..])
  }

  /** `None` for an error of any kind. */
  function Denote(lib: Library, env: Env, e: Expr): Option<Value>
    requires Pure(e)
    decreases e, 1
  {
    match e
    case Literal(c) =>
      (match c
       case CNone => Some(NoneVal)
       case CAuto => Some(AutoVal)
       case CBool(b) => Some(BoolVal(b))
       case CInt(i) => Some(IntVal(i))
       case CStr(t) => Some(StrVal(t)))
    case Ident(n) => if n in env then Some(env[n]) else None
    case ArrayLit(items) =>
      var d :- DenoteItems(lib, env, ArrayItems, items);
      Some(ArrayVal(d.0))
    case DictLit(items) =>
      var d :- DenoteItems(lib, env, DictItems, items);
      Some(DictVal(InsertAll([], d.1)))
    case Unary(op, a) =>
      var v :- Denote(lib, env, a);
      lib.unary(op, v)
    case Binary(op, l, r) =>
      var v :- Denote(lib, env, l);
      if (op.And? && v == BoolVal(false)) || (op.Or? && v == BoolVal(true)) then Some(v)
      else
        var w :- Denote(lib, env, r);
        lib.binary(op, v, w)
    case If(c, t, f) =>
      var v :- Denote(lib, env, c);
      if v == BoolVal(true) then Denote(lib, env, t)
      else if v == BoolVal(false) then if f.Some? then Denote(lib, env, f.value) else Some(NoneVal)
      else None
    case Block(body) => DenoteBody(lib, env, body, NoneVal)
  }

  /** The elements and the entries that an item stands for. */
  function Contributed(mode: Mode, marker: Marker, v: Value): Option<(seq<Value>, seq<Entry>)> {
    match marker
    case Plain => if mode.ArrayItems? then Some(([v], [])) else None
    case Key(n) => if mode.DictItems? then Some(([], [Entry(n, v)])) else None
    case Spread =>
      if v.NoneVal? then Some(([], []))
      else if v.ArrayVal? && mode.ArrayItems? then Some((v.elems, []))
      else if v.DictVal? && mode.DictItems? then Some(([], v.entries))
      else None
  }

  function DenoteItems(lib: Library, env: Env, mode: Mode, items: seq<Item>): Option<(seq<Value>, seq<Entry>)>
    requires PureItems(items)
    decreases items, 0
  {
    if items == [] then Some(([], []))
    else
      assert items[0].expr < items[0];
      var v :- Denote(lib, env, items[0].expr);
      var first :- Contributed(mode, items[0].marker, v);
      var rest :- DenoteItems(lib, env, mode, items[1..]);
      Some((first.0 + rest.0, first.1 + rest.1))
  }

  /** The environment with the bindings, of which later ones count. */
  function Bound(env: Env, bs: seq<Entry>): Env {
    if bs == [] then env else Bound(env, bs[..|bs| - 1])[bs[|bs| - 1].key := bs[|bs| - 1].value]
  }

  /** The joined values of the statements; a `let` binds in what follows. */
  function DenoteBody(lib: Library, env: Env, ss: seq<Stmt>, out: Value): Option<Value>
    requires PureBody(ss)
    decreases ss, 0
  {
    if ss == [] then Some(out)
    else match ss[0]
      case Do(e) =>
        assert e < ss[0];
        var v :- Denote(lib, env, e);
        var joined := Join(out, v);
        if joined.Ok? then DenoteBody(lib, env, ss[1..], joined.value) else None
      case Let(p, init) =>
        var v :- if init.None? then Some(NoneVal) else assert init < ss[0]; Denote(lib, env, init.value);
        var m := Match(p, v);
        if m.ok then DenoteBody(lib, Bound(env, m.binds), ss[1..], out) else None
  }

  // ----- The evaluator finds these values -----

  /** The environment shows what is visible in the scopes. */
  ghost predicate Shows(env: Env, s: Scopes) {
    forall n :: if n in env then Find(s, n).Some? && Find(s, n).value.value == env[n] else Find(s, n).None?
  }

  /** `r` is the completion of an expression that denotes `v`. */
  predicate Finds(r: Result<Completion>, v: Option<Value>, s: Scopes) {
    match v
    case None => r.Err?
    case Some(x) => r.Ok? && r.value.value == x && r.value.event.None? && r.value.scopes == s
  }

  lemma {:induction false} EvalFinds(lib: Library, e: Expr, env: Env, s: Scopes, depth: nat)
    requires Pure(e) && Shows(env, s)
    ensures Finds(Eval(lib, e, s, depth), Denote(lib, env, e), s)
    decreases e, 1
  {
    match e
    case Literal(_) =>
    case Ident(n) =>
    case ArrayLit(items) => ArrayFinds(lib, items, env, s, depth);
    case DictLit(items) => DictFinds(lib, items, env, s, depth);
    case Unary(_, a) => EvalFinds(lib, a, env, s, depth);
    case Binary(_, l, r) => BinaryFinds(lib, e, env, s, depth);
    case If(_, _, _) => IfFinds(lib, e, env, s, depth);
    case Block(body) => BlockFinds(lib, body, env, s, depth);
  }

  lemma {:induction false} BinaryFinds(lib: Library, e: Expr, env: Env, s: Scopes, depth: nat)
    requires e.Binary? && Pure(e) && Shows(env, s)
    ensures Finds(Eval(lib, e, s, depth), Denote(lib, env, e), s)
    decreases e, 0
  {
    EvalFinds(lib, e.lhs, env, s, depth);
    EvalFinds(lib, e.rhs, env, s, depth);
  }

  lemma {:induction false} IfFinds(lib: Library, e: Expr, env: Env, s: Scopes, depth: nat)
    requires e.If? && Pure(e) && Shows(env, s)
    ensures Finds(Eval(lib, e, s, depth), Denote(lib, env, e), s)
    decreases e, 0
  {
    EvalFinds(lib, e.cond, env, s, depth);
    EvalFinds(lib, e.thn, env, s, depth);
    if e.els.Some? {
      EvalFinds(lib, e.els.value, env, s, depth);
    }
  }

  // ----- Arrays and dictionaries -----

  lemma {:induction false} UnnamedValues(xs: seq<Value>)
    ensures ValuesOf(Unnamed(xs)) == xs
  {
    if xs != [] {
      UnnamedValues(xs[1..]);
    }
  }

  lemma {:induction false} NamedEntries(es: seq<Entry>)
    ensures EntriesOf(Named(es)) == es
  {
    if es != [] {
      NamedEntries(es[1..]);
    }
  }

  lemma Contribution(mode: Mode, marker: Marker, v: Value, acc: seq<Arg>)
    requires !mode.CallItems?
    ensures var r := AddItem(mode, marker, v);
      var first := Contributed(mode, marker, v);
      && (r.Ok? <==> first.Some?)
      && (r.Ok? && mode.ArrayItems? ==> ValuesOf(acc + r.value) == ValuesOf(acc) + first.value.0)
      && (r.Ok? && mode.DictItems? ==> EntriesOf(acc + r.value) == EntriesOf(acc) + first.value.1)
  {
    var r := AddItem(mode, marker, v);
    if r.Ok? {
      Listing.ValuesOfAppend(acc, r.value);
      Listing.EntriesOfAppend(acc, r.value);
      match marker {
        case Spread =>
          if v.ArrayVal? {
            UnnamedValues(v.elems);
          } else if v.DictVal? {
            NamedEntries(v.entries);
          }
        case _ => assert r.value[1..] == [];
      }
    }
  }

  /** `r` is the outcome of items after `acc` that denote `d`. */
  predicate ItemsFound(r: Result<Completion>, mode: Mode, acc: seq<Arg>, d: Option<(seq<Value>, seq<Entry>)>, s: Scopes)
  {
    match d
    case None => r.Err?
    case Some(x) =>
      && r.Ok? && r.value.value.ArgsVal? && r.value.event.None? && r.value.scopes == s
      && (mode.ArrayItems? ==> ValuesOf(r.value.value.args) == ValuesOf(acc) + x.0)
      && (mode.DictItems? ==> EntriesOf(r.value.value.args) == EntriesOf(acc) + x.1)
  }

  lemma ItemsNext(mode: Mode, marker: Marker, v: Value, acc: seq<Arg>, rest: Result<Completion>,
                  d: Option<(seq<Value>, seq<Entry>)>, s: Scopes)
    requires !mode.CallItems? && AddItem(mode, marker, v).Ok?
    requires ItemsFound(rest, mode, acc + AddItem(mode, marker, v).value, d, s)
    ensures Contributed(mode, marker, v).Some?
    ensures var first := Contributed(mode, marker, v).value;
      ItemsFound(rest, mode, acc, if d.None? then None else Some((first.0 + d.value.0, first.1 + d.value.1)), s)
  {
    Contribution(mode, marker, v, acc);
  }

  lemma {:induction false} ItemsFind(lib: Library, mode: Mode, items: seq<Item>, acc: seq<Arg>, env: Env, s: Scopes,
                                     depth: nat)
    requires PureItems(items) && Shows(env, s) && !mode.CallItems?
    ensures ItemsFound(EvalItems(lib, mode, items, acc, s, depth), mode, acc, DenoteItems(lib, env, mode, items), s)
    decreases items, 0
  {
    if items != [] {
      assert items[0].expr < items[0];
      EvalFinds(lib, items[0].expr, env, s, depth);
      var v := Denote(lib, env, items[0].expr);
      if v.Some? {
        Contribution(mode, items[0].marker, v.value, acc);
        var more := AddItem(mode, items[0].marker, v.value);
        if more.Ok? {
          ItemsFind(lib, mode, items[1..], acc + more.value, env, s, depth);
          ItemsNext(mode, items[0].marker, v.value, acc, EvalItems(lib, mode, items[1..], acc + more.value, s, depth),
                    DenoteItems(lib, env, mode, items[1..]), s);
        }
      }
    }
  }

  lemma {:induction false} ArrayFinds(lib: Library, items: seq<Item>, env: Env, s: Scopes, depth: nat)
    requires PureItems(items) && Shows(env, s)
    ensures Finds(Eval(lib, ArrayLit(items), s, depth), Denote(lib, env, ArrayLit(items)), s)
    decreases items, 1
  {
    ItemsFind(lib, ArrayItems, items, [], env, s, depth);
    var d := DenoteItems(lib, env, ArrayItems, items);
    if d.Some? {
      assert ValuesOf([]) + d.value.0 == d.value.0;
    }
  }

  lemma {:induction false} DictFinds(lib: Library, items: seq<Item>, env: Env, s: Scopes, depth: nat)
    requires PureItems(items) && Shows(env, s)
    ensures Finds(Eval(lib, DictLit(items), s, depth), Denote(lib, env, DictLit(items)), s)
    decreases items, 1
  {
    ItemsFind(lib, DictItems, items, [], env, s, depth);
    var d := DenoteItems(lib, env, DictItems, items);
    if d.Some? {
      assert EntriesOf([]) + d.value.1 == d.value.1;
    }
  }

  // ----- Blocks -----

  lemma {:induction false} DefineAllSnoc(s: Scopes, bs: seq<Entry>)
    requires s != [] && bs != []
    ensures var e := bs[|bs| - 1];
      DefineAll(s, bs) == Define(DefineAll(s, bs[..|bs| - 1]), e.key, e.value)
    decreases |bs|
  {
    if |bs| == 1 {
      assert bs[1..] == [] && bs[..0] == [];
    } else {
      var s' := Define(s, bs[0].key, bs[0].value);
      DefineAllSnoc(s', bs[1..]);
      assert bs[1..][..|bs| - 2] == bs[..|bs| - 1][1..];
    }
  }

  lemma {:induction false} BoundShows(env: Env, s: Scopes, bs: seq<Entry>)
    requires s != [] && Shows(env, s)
    ensures Shows(Bound(env, bs), DefineAll(s, bs))
    decreases |bs|
  {
    if bs != [] {
      var front, e := bs[..|bs| - 1], bs[|bs| - 1];
      BoundShows(env, s, front);
      DefineAllSnoc(s, bs);
      forall n ensures Find(DefineAll(s, bs), n)
        == if n == e.key then Some(Binding(e.value, false)) else Find(DefineAll(s, front), n)
      {
        FindAfterDefine(DefineAll(s, front), e.key, e.value, n);
      }
    }
  }

  /** `r` is the outcome of statements in a block on top of `base`. */
  predicate BodyFound(r: Result<Completion>, v: Option<Value>, base: Scopes) {
    match v
    case None => r.Err?
    case Some(x) =>
      && r.Ok? && r.value.value == x && r.value.event.None?
      && |r.value.scopes| == |base| + 1 && r.value.scopes[..|base|] == base
  }

  lemma {:induction false} BodyFinds(lib: Library, ss: seq<Stmt>, out: Value, env: Env, base: Scopes, s: Scopes,
                                     depth: nat)
    requires PureBody(ss) && Shows(env, s) && |s| == |base| + 1 && s[..|base|] == base
    ensures BodyFound(EvalStmts(lib, ss, out, s, depth), DenoteBody(lib, env, ss, out), base)
    decreases ss, 0
  {
    if ss != [] {
      match ss[0] {
        case Do(_) => DoFinds(lib, ss, out, env, base, s, depth);
        case Let(_, _) => LetFinds(lib, ss, out, env, base, s, depth);
      }
    }
  }

  lemma {:induction false} DoFinds(lib: Library, ss: seq<Stmt>, out: Value, env: Env, base: Scopes, s: Scopes,
                                      depth: nat)
    requires ss != [] && ss[0].Do? && PureBody(ss) && Shows(env, s) && |s| == |base| + 1 && s[..|base|] == base
    ensures BodyFound(EvalStmts(lib, ss, out, s, depth), DenoteBody(lib, env, ss, out), base)
    decreases ss, 0, 0
  {
    var e := ss[0].expr;
    assert e < ss[0];
    EvalFinds(lib, e, env, s, depth);
    var v := Denote(lib, env, e);
    if v.Some? {
      var joined := Join(out, v.value);
      if joined.Ok? {
        BodyFinds(lib, ss[1..], joined.value, env, base, s, depth);
      }
    }
  }

  /** The value that a `let` matches. */
  function DenoteInit(lib: Library, env: Env, st: Stmt): Option<Value>
    requires st.Let? && PureBody([st])
    decreases st
  {
    if st.init.None? then Some(NoneVal) else assert st.init < st && [st][0] == st; Denote(lib, env, st.init.value)
  }

  lemma {:induction false} LetRuns(lib: Library, st: Stmt, env: Env, s: Scopes, depth: nat)
    requires s != [] && st.Let? && PureBody([st]) && Shows(env, s)
    ensures var r, v := EvalStmt(lib, st, s, depth), DenoteInit(lib, env, st);
      if v.None? || !Match(st.pattern, v.value).ok then r.Err?
      else
        && r.Ok? && r.value.value == NoneVal && r.value.event.None?
        && r.value.scopes == DefineAll(s, Match(st.pattern, v.value).binds)
    decreases st, 0
  {
    assert [st][0] == st;
    if st.init.Some? {
      assert st.init < st;
      EvalFinds(lib, st.init.value, env, s, depth);
    }
  }

  lemma {:induction false} LetFinds(lib: Library, ss: seq<Stmt>, out: Value, env: Env, base: Scopes, s: Scopes,
                                       depth: nat)
    requires ss != [] && ss[0].Let? && PureBody(ss) && Shows(env, s) && |s| == |base| + 1 && s[..|base|] == base
    ensures BodyFound(EvalStmts(lib, ss, out, s, depth), DenoteBody(lib, env, ss, out), base)
    decreases ss, 0, 0
  {
    assert PureBody([ss[0]]) by { assert PureBody([ss[0]][1..]); }
    LetRuns(lib, ss[0], env, s, depth);
    var v := DenoteInit(lib, env, ss[0]);
    var d: Option<Value> := None;
    if v.Some? && Match(ss[0].pattern, v.value).ok {
      var binds := Match(ss[0].pattern, v.value).binds;
      BoundShows(env, s, binds);
      BodyFinds(lib, ss[1..], out, Bound(env, binds), base, DefineAll(s, binds), depth);
      d := DenoteBody(lib, Bound(env, binds), ss[1..], out);
    }
    LetNext(lib, ss, out, base, s, depth, v, d);
  }

  lemma LetNext(lib: Library, ss: seq<Stmt>, out: Value, base: Scopes, s: Scopes, depth: nat, v: Option<Value>,
                d: Option<Value>)
    requires ss != [] && ss[0].Let? && s != []
    requires var r := EvalStmt(lib, ss[0], s, depth);
      if v.None? || !Match(ss[0].pattern, v.value).ok then r.Err? && d.None?
      else
        && r.Ok? && r.value.value == NoneVal && r.value.event.None?
        && r.value.scopes == DefineAll(s, Match(ss[0].pattern, v.value).binds)
        && BodyFound(EvalStmts(lib, ss[1..], out, r.value.scopes, depth), d, base)
    ensures BodyFound(EvalStmts(lib, ss, out, s, depth), d, base)
  {
    assert Join(out, NoneVal) == Ok(out);
  }

  lemma {:induction false} BlockFinds(lib: Library, body: seq<Stmt>, env: Env, s: Scopes, depth: nat)
    requires PureBody(body) && Shows(env, s)
    ensures Finds(Eval(lib, Block(body), s, depth), Denote(lib, env, Block(body)), s)
    decreases body, 1
  {
    var t := s + [map[]];
    assert t[..|t| - 1] == s && t[..|s|] == s;
    assert forall n :: Find(t, n) == Find(s, n);
    BodyFinds(lib, body, NoneVal, env, s, t, depth);
  }
}
