/** What every successful evaluation keeps: the shape of the scope stack and the read-only variables. */
module Context {
  import opened Options
  import opened Values
  import opened Scoping
  import opened Patterns
  import opened Reference

  /** The same variables; captured ones have kept their values. */
  ghost predicate SameVars(f: Frame, g: Frame) {
    && f.Keys == g.Keys
    && forall n <- f :: g[n].captured == f[n].captured && (f[n].captured ==> g[n] == f[n])
  }

  ghost predicate Kept(s: Scopes, t: Scopes) {
    |s| == |t| && forall i :: 0 <= i < |s| ==> SameVars(s[i], t[i])
  }

  /** Kept below the active scope, which may have gained variables. */
  ghost predicate Extended(s: Scopes, t: Scopes) {
    && |s| == |t| != 0
    && Kept(s[..|s| - 1], t[..|t| - 1])
    && s[|s| - 1].Keys <= t[|t| - 1].Keys
  }

  lemma KeptTwice(s: Scopes, t: Scopes, u: Scopes)
    requires Kept(s, t) && Kept(t, u)
    ensures Kept(s, u)
  {
    forall i | 0 <= i < |s| ensures SameVars(s[i], u[i]) {
      assert SameVars(s[i], t[i]) && SameVars(t[i], u[i]);
    }
  }

  lemma KeptExtends(s: Scopes, t: Scopes)
    requires Kept(s, t) && s != []
    ensures Extended(s, t)
  {
    assert SameVars(s[|s| - 1], t[|s| - 1]);
  }

  lemma ExtendedTwice(s: Scopes, t: Scopes, u: Scopes)
    requires Extended(s, t) && Extended(t, u)
    ensures Extended(s, u)
  {
    KeptTwice(s[..|s| - 1], t[..|t| - 1], u[..|u| - 1]);
  }

  /** Leaving the scope that was entered on top of `s`. */
  lemma ExitKeeps(s: Scopes, u: Scopes)
    requires Extended(s + [map[]], u)
    ensures Kept(s, u[..|s|])
  {
    assert (s + [map[]])[..|s|] == s;
  }

  lemma {:induction false} WriteKeeps(s: Scopes, n: string, v: Value)
    requires Find(s, n).Some? && !Find(s, n).value.captured
    ensures Kept(s, Update(s, n, v))
  {
    var top := |s| - 1;
    if n !in s[top] {
      WriteKeeps(s[..top], n, v);
      forall i | 0 <= i < |s| ensures SameVars(s[i], Update(s, n, v)[i]) {
        if i < top {
          assert s[..top][i] == s[i] && Update(s, n, v)[i] == Update(s[..top], n, v)[i];
        }
      }
    }
  }

  lemma {:induction false} WritesKeep(s: Scopes, bs: seq<Entry>)
    ensures WriteAll(s, bs).Ok? ==> Kept(s, WriteAll(s, bs).value)
    decreases bs
  {
    if bs != [] && Write(s, bs[0].key, bs[0].value).Ok? {
      var t := Write(s, bs[0].key, bs[0].value).value;
      WriteKeeps(s, bs[0].key, bs[0].value);
      WritesKeep(t, bs[1..]);
      if WriteAll(t, bs[1..]).Ok? {
        KeptTwice(s, t, WriteAll(t, bs[1..]).value);
      }
    }
  }

  lemma {:induction false} DefinesExtend(s: Scopes, bs: seq<Entry>)
    requires s != []
    ensures Extended(s, DefineAll(s, bs))
    ensures DefineAll(s, bs)[|s| - 1].Keys == s[|s| - 1].Keys + (set b <- bs :: b.key)
    decreases bs
  {
    if bs != [] {
      var t := Define(s, bs[0].key, bs[0].value);
      assert bs == [bs[0]] + bs[1..];
      DefinesExtend(t, bs[1..]);
      ExtendedTwice(s, t, DefineAll(t, bs[1..]));
    }
  }

  ghost predicate Keeps(s: Scopes, r: Result<Completion>) {
    r.Ok? ==> Kept(s, r.value.scopes)
  }

  /** Evaluation leaves all scopes with the variables they had, and never changes a captured one. */
  lemma {:induction false} EvalKeeps(lib: Library, e: Expr, s: Scopes, depth: nat)
    ensures Keeps(s, Eval(lib, e, s, depth))
    decreases depth, e, 2, 0
  {
    match e {
      case Literal(_) =>
      case Ident(_) =>
      case ArrayLit(items) => ItemsKeep(lib, ArrayItems, items, [], s, depth);
      case DictLit(items) => ItemsKeep(lib, DictItems, items, [], s, depth);
      case Unary(_, a) => EvalKeeps(lib, a, s, depth);
      case Binary(_, _, _) => BinaryKeeps(lib, e, s, depth);
      case Assign(_, _, _) => AssignKeeps(lib, e, s, depth);
      case DestructAssign(p, rhs) =>
        EvalKeeps(lib, rhs, s, depth);
        var r := Eval(lib, rhs, s, depth);
        if r.Ok? {
          WritesKeep(r.value.scopes, Match(p, r.value.value).binds);
        }
      case Block(body) =>
        StmtsKeep(lib, body, NoneVal, s + [map[]], depth);
        var c := EvalStmts(lib, body, NoneVal, s + [map[]], depth);
        if c.Ok? {
          ExitKeeps(s, c.value.scopes);
        }
      case If(_, _, _) => IfKeeps(lib, e, s, depth);
      case While(_, _) => WhileKeeps(lib, e, 0, NoneVal, s, depth);
      case For(_, _, _) => ForLoopKeeps(lib, e, s, depth);
      case Break =>
      case Continue =>
      case Return(result) =>
        if result.Some? {
          EvalKeeps(lib, result.value, s, depth);
        }
      case Lambda(_, ps, _) => DefaultsKeep(lib, ps, [], s, depth);
      case Call(_, _) => CallKeeps(lib, e, s, depth);
    }
  }

  lemma {:induction false} BinaryKeeps(lib: Library, e: Expr, s: Scopes, depth: nat)
    requires e.Binary?
    ensures Keeps(s, Eval(lib, e, s, depth))
    decreases depth, e, 0, 0
  {
    EvalKeeps(lib, e.lhs, s, depth);
    var l := Eval(lib, e.lhs, s, depth);
    if l.Ok? {
      EvalKeeps(lib, e.rhs, l.value.scopes, depth);
      var r := Eval(lib, e.rhs, l.value.scopes, depth);
      if r.Ok? {
        KeptTwice(s, l.value.scopes, r.value.scopes);
      }
    }
  }

  lemma {:induction false} AssignKeeps(lib: Library, e: Expr, s: Scopes, depth: nat)
    requires e.Assign?
    ensures Keeps(s, Eval(lib, e, s, depth))
    decreases depth, e, 0, 0
  {
    EvalKeeps(lib, e.rhs, s, depth);
    var r := Eval(lib, e.rhs, s, depth);
    var q := Eval(lib, e, s, depth);
    if q.Ok? {
      var t, n := r.value.scopes, e.target.name;
      var u := if e.compound.None? then r.value.value
               else Checked(lib.binary(e.compound.value, Find(t, n).value.value, r.value.value)).value;
      WriteKeeps(t, n, u);
      KeptTwice(s, t, q.value.scopes);
    }
  }

  lemma {:induction false} IfKeeps(lib: Library, e: Expr, s: Scopes, depth: nat)
    requires e.If?
    ensures Keeps(s, Eval(lib, e, s, depth))
    decreases depth, e, 0, 0
  {
    EvalKeeps(lib, e.cond, s, depth);
    var c := Eval(lib, e.cond, s, depth);
    if c.Ok? && c.value.value.BoolVal? {
      var branch := if c.value.value.b then Some(e.thn) else e.els;
      if branch.Some? {
        EvalKeeps(lib, branch.value, c.value.scopes, depth);
        var r := Eval(lib, branch.value, c.value.scopes, depth);
        if r.Ok? {
          KeptTwice(s, c.value.scopes, r.value.scopes);
        }
      }
    }
  }

  lemma {:induction false} ForLoopKeeps(lib: Library, e: Expr, s: Scopes, depth: nat)
    requires e.For?
    ensures Keeps(s, Eval(lib, e, s, depth))
    decreases depth, e, 1, 0
  {
    EvalKeeps(lib, e.iterable, s, depth);
    var c := Eval(lib, e.iterable, s, depth);
    if c.Ok? && Elements(lib, e.pattern, c.value.value).Ok? {
      var vs := Elements(lib, e.pattern, c.value.value).value;
      var t := c.value.scopes;
      ForKeeps(lib, e, vs, c.value.event, NoneVal, t + [map[]], depth);
      var r := EvalFor(lib, e, vs, c.value.event, NoneVal, t + [map[]], depth);
      if r.Ok? {
        ExitKeeps(t, r.value.scopes);
        KeptTwice(s, t, r.value.scopes[..|t|]);
      }
    }
  }

  lemma {:induction false} CallKeeps(lib: Library, e: Expr, s: Scopes, depth: nat)
    requires e.Call?
    ensures Keeps(s, Eval(lib, e, s, depth))
    decreases depth, e, 0, 0
  {
    if depth > 0 {
      EvalKeeps(lib, e.callee, s, depth);
      var f := Eval(lib, e.callee, s, depth);
      if f.Ok? {
        ItemsKeep(lib, CallItems, e.items, [], f.value.scopes, depth);
        var a := EvalItems(lib, CallItems, e.items, [], f.value.scopes, depth);
        if a.Ok? {
          KeptTwice(s, f.value.scopes, a.value.scopes);
        }
      }
    }
  }

  lemma {:induction false} ItemsKeep(lib: Library, mode: Mode, items: seq<Item>, acc: seq<Arg>, s: Scopes, depth: nat)
    ensures Keeps(s, EvalItems(lib, mode, items, acc, s, depth))
    decreases depth, items, 0, 0
  {
    if items != [] {
      assert items[0].expr < items[0];
      EvalKeeps(lib, items[0].expr, s, depth);
      var c := Eval(lib, items[0].expr, s, depth);
      if c.Ok? && AddItem(mode, items[0].marker, c.value.value).Ok? {
        ItemsKeep(lib, mode, items[1..], acc + AddItem(mode, items[0].marker, c.value.value).value,
          c.value.scopes, depth);
      }
    }
  }

  lemma {:induction false} DefaultsKeep(lib: Library, ps: seq<Param>, acc: seq<Arg>, s: Scopes, depth: nat)
    ensures Keeps(s, EvalDefaults(lib, ps, acc, s, depth))
    decreases depth, ps, 0, 0
  {
    if ps != [] {
      if ps[0].NamedParam? {
        assert ps[0].default < ps[0];
        EvalKeeps(lib, ps[0].default, s, depth);
        var c := Eval(lib, ps[0].default, s, depth);
        if c.Ok? {
          DefaultsKeep(lib, ps[1..], acc + [Arg(None, c.value.value)], c.value.scopes, depth);
        }
      } else {
        DefaultsKeep(lib, ps[1..], acc, s, depth);
      }
    }
  }

  lemma {:induction false} StmtsKeep(lib: Library, ss: seq<Stmt>, out: Value, s: Scopes, depth: nat)
    requires s != []
    ensures var r := EvalStmts(lib, ss, out, s, depth); r.Ok? ==> Extended(s, r.value.scopes)
    decreases depth, ss, 0, 0
  {
    if ss == [] {
      KeptExtends(s, s);
    } else {
      StmtKeeps(lib, ss[0], s, depth);
      var c := EvalStmt(lib, ss[0], s, depth);
      if c.Ok? && Join(out, c.value.value).Ok? && c.value.event.None? {
        var out' := Join(out, c.value.value).value;
        StmtsKeep(lib, ss[1..], out', c.value.scopes, depth);
        var r := EvalStmts(lib, ss[1..], out', c.value.scopes, depth);
        if r.Ok? {
          ExtendedTwice(s, c.value.scopes, r.value.scopes);
        }
      }
    }
  }

  lemma {:induction false} StmtKeeps(lib: Library, st: Stmt, s: Scopes, depth: nat)
    requires s != []
    ensures var r := EvalStmt(lib, st, s, depth); r.Ok? ==> Extended(s, r.value.scopes)
    decreases depth, st, 0, 0
  {
    match st {
      case Do(e) =>
        EvalKeeps(lib, e, s, depth);
        var c := Eval(lib, e, s, depth);
        if c.Ok? {
          KeptExtends(s, c.value.scopes);
        }
      case Let(p, init) =>
        var c := Quiet(NoneVal, s);
        if init.Some? {
          assert init < st;
          EvalKeeps(lib, init.value, s, depth);
          var r := Eval(lib, init.value, s, depth);
          if r.Err? {
            return;
          }
          c := r.value;
        }
        KeptExtends(s, c.scopes);
        DefinesExtend(c.scopes, Match(p, c.value).binds);
        ExtendedTwice(s, c.scopes, DefineAll(c.scopes, Match(p, c.value).binds));
    }
  }

  lemma {:induction false} WhileKeeps(lib: Library, w: Expr, i: nat, out: Value, s: Scopes, depth: nat)
    requires w.While? && i <= MAX_ITERATIONS
    ensures Keeps(s, EvalWhile(lib, w, i, out, s, depth))
    decreases depth, w, 0, MAX_ITERATIONS - i
  {
    EvalKeeps(lib, w.cond, s, depth);
    var c := Eval(lib, w.cond, s, depth);
    if c.Ok? && Guard(w, i, c.value.value) == Ok(true) {
      EvalKeeps(lib, w.loop, c.value.scopes, depth);
      var b := Eval(lib, w.loop, c.value.scopes, depth);
      if b.Ok? && AfterBody(out, c.value.event, b.value).Go? {
        WhileKeeps(lib, w, i + 1, AfterBody(out, c.value.event, b.value).out, b.value.scopes, depth);
      }
    }
  }

  lemma {:induction false} ForKeeps(lib: Library, f: Expr, vs: seq<Value>, pending: Option<Event>, out: Value,
                                    s: Scopes, depth: nat)
    requires f.For? && s != []
    ensures var r := EvalFor(lib, f, vs, pending, out, s, depth); r.Ok? ==> Extended(s, r.value.scopes)
    decreases depth, f, 0, |vs|
  {
    if vs == [] {
      KeptExtends(s, s);
    } else {
      var t := DefineAll(s, Match(f.pattern, vs[0]).binds);
      DefinesExtend(s, Match(f.pattern, vs[0]).binds);
      EvalKeeps(lib, f.loop, t, depth);
      var b := Eval(lib, f.loop, t, depth);
      if b.Ok? {
        KeptExtends(t, b.value.scopes);
        ExtendedTwice(s, t, b.value.scopes);
        if AfterBody(out, pending, b.value).Go? {
          var out' := AfterBody(out, pending, b.value).out;
          ForKeeps(lib, f, vs[1..], None, out', b.value.scopes, depth);
          var r := EvalFor(lib, f, vs[1..], None, out', b.value.scopes, depth);
          if r.Ok? {
            ExtendedTwice(s, b.value.scopes, r.value.scopes);
          }
        }
      }
    }
  }
}
