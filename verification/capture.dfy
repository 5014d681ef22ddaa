/**
 Capture soundness: running a closure in the variables its creation captured is the same as running
 it on top of everything that was in scope there, read-only.
 */
module CaptureSoundness {
  import opened Options
  import opened Values
  import opened Scoping
  import opened Patterns
  import opened Arguments
  import opened Static
  import opened Reference
  import opened Context

  // ----- Stacks that agree on some names at the bottom and are equal above -----

  ghost predicate Agree(N: set<string>, g: Scopes, h: Scopes) {
    forall n <- N :: Find(g, n) == Find(h, n)
  }

  ghost predicate Alike(N: set<string>, s: Scopes, t: Scopes, a: nat, b: nat) {
    a <= |s| && b <= |t| && s[a..] == t[b..] && Agree(N, s[..a], t[..b])
  }

  /** The names in `I` are bound in the upper scopes. */
  ghost predicate Covers(I: set<string>, s: Scopes, a: nat)
    requires a <= |s|
  {
    forall n <- I :: Find(s[a..], n).Some?
  }

  ghost predicate Ready(N: set<string>, I: set<string>, s: Scopes, t: Scopes, a: nat, b: nat) {
    Alike(N, s, t, a, b) && Covers(I, s, a)
  }

  ghost predicate Same(N: set<string>, r: Result<Completion>, q: Result<Completion>, a: nat, b: nat) {
    match (r, q)
    case (Err(x), Err(y)) => x == y
    case (Ok(c), Ok(d)) =>
      c.value == d.value && c.event == d.event && c.marks == d.marks && Alike(N, c.scopes, d.scopes, a, b)
    case _ => false
  }

  lemma AlikeFind(N: set<string>, s: Scopes, t: Scopes, a: nat, b: nat, n: string)
    requires Alike(N, s, t, a, b) && (n in N || Find(s[a..], n).Some?)
    ensures Find(s, n) == Find(t, n)
  {
    assert s == s[..a] + s[a..] && t == t[..b] + t[b..];
    FindAppend(s[..a], s[a..], n);
    FindAppend(t[..b], t[b..], n);
  }

  lemma AlikeUpdate(N: set<string>, s: Scopes, t: Scopes, a: nat, b: nat, n: string, v: Value)
    requires Alike(N, s, t, a, b) && (n in N || Find(s[a..], n).Some?)
    ensures Alike(N, Update(s, n, v), Update(t, n, v), a, b)
  {
    var g, f, h := s[..a], s[a..], t[..b];
    assert s == g + f && t == h + f;
    UpdateAppend(g, f, n, v);
    UpdateAppend(h, f, n, v);
    if Find(f, n).Some? {
      var f' := Update(f, n, v);
      assert (g + f')[..a] == g && (g + f')[a..] == f' && (h + f')[..b] == h && (h + f')[b..] == f';
    } else {
      var g', h' := Update(g, n, v), Update(h, n, v);
      assert (g' + f)[..a] == g' && (g' + f)[a..] == f && (h' + f)[..b] == h' && (h' + f)[b..] == f;
      forall m <- N ensures Find(g', m) == Find(h', m) {
        FindAfterUpdate(g, n, v, m);
        FindAfterUpdate(h, n, v, m);
      }
    }
  }

  lemma {:induction false} AlikeWrites(N: set<string>, s: Scopes, t: Scopes, a: nat, b: nat,
                                       I: set<string>, bs: seq<Entry>)
    requires Ready(N, I, s, t, a, b) && forall e <- bs :: e.key in N || e.key in I
    ensures match (WriteAll(s, bs), WriteAll(t, bs))
            case (Err(x), Err(y)) => x == y
            case (Ok(u), Ok(w)) => Alike(N, u, w, a, b)
            case _ => false
    decreases bs
  {
    if bs != [] {
      var n, v := bs[0].key, bs[0].value;
      AlikeFind(N, s, t, a, b, n);
      if Write(s, n, v).Ok? {
        AlikeUpdate(N, s, t, a, b, n, v);
        WriteKeeps(s, n, v);
        ReadyAfter(N, I, s, t, a, b, Update(s, n, v), Update(t, n, v));
        AlikeWrites(N, Update(s, n, v), Update(t, n, v), a, b, I, bs[1..]);
      }
    }
  }

  lemma {:induction false} FindKept(s: Scopes, t: Scopes, n: string)
    requires Kept(s, t)
    ensures Find(s, n).Some? == Find(t, n).Some?
  {
    if s != [] {
      assert SameVars(s[|s| - 1], t[|s| - 1]);
      FindKept(s[..|s| - 1], t[..|s| - 1], n);
    }
  }

  lemma ReadyAfter(N: set<string>, I: set<string>, s: Scopes, t: Scopes, a: nat, b: nat, s': Scopes, t': Scopes)
    requires Ready(N, I, s, t, a, b) && Kept(s, s') && Alike(N, s', t', a, b)
    ensures Ready(N, I, s', t', a, b)
  {
    forall n <- I ensures Find(s'[a..], n).Some? {
      FindKept(s[a..], s'[a..], n);
    }
  }

  /** Entering a scope. */
  lemma ReadyEnter(N: set<string>, I: set<string>, s: Scopes, t: Scopes, a: nat, b: nat)
    requires Ready(N, I, s, t, a, b)
    ensures Ready(N, I, s + [map[]], t + [map[]], a, b)
  {
    var e: Scopes := [map[]];
    assert (s + e)[..a] == s[..a] && (t + e)[..b] == t[..b];
    assert (s + e)[a..] == s[a..] + e && (t + e)[b..] == t[b..] + e;
    forall n <- I ensures Find((s + e)[a..], n).Some? {
      FindAppend(s[a..], e, n);
    }
  }

  lemma AlikeExit(N: set<string>, s: Scopes, t: Scopes, a: nat, b: nat)
    requires Alike(N, s, t, a, b) && a < |s|
    ensures Alike(N, s[..|s| - 1], t[..|t| - 1], a, b)
  {
    assert s[..|s| - 1][..a] == s[..a] && t[..|t| - 1][..b] == t[..b];
    assert s[..|s| - 1][a..] == s[a..][..|s| - a - 1] && t[..|t| - 1][b..] == t[b..][..|t| - b - 1];
  }

  ghost function Keys(bs: seq<Entry>): set<string> {
    set e <- bs :: e.key
  }

  lemma {:induction false} DefinesFind(s: Scopes, bs: seq<Entry>, n: string)
    requires s != []
    ensures Find(DefineAll(s, bs), n) == if n in Keys(bs) then Find(DefineAll([map[]], bs), n) else Find(s, n)
    decreases bs
  {
    DefinesFindAny(s, [map[]], bs, n);
  }

  lemma {:induction false} DefinesFindAny(s: Scopes, t: Scopes, bs: seq<Entry>, n: string)
    requires s != [] && t != []
    ensures n in Keys(bs) ==> Find(DefineAll(s, bs), n) == Find(DefineAll(t, bs), n)
    ensures n in Keys(bs) ==> Find(DefineAll(s, bs), n).Some?
    ensures n !in Keys(bs) ==> Find(DefineAll(s, bs), n) == Find(s, n)
    decreases bs
  {
    if bs != [] {
      var s', t' := Define(s, bs[0].key, bs[0].value), Define(t, bs[0].key, bs[0].value);
      assert bs == [bs[0]] + bs[1..];
      assert s'[..|s| - 1] == s[..|s| - 1];
      DefinesFindAny(s', t', bs[1..], n);
      DefinesFindAny(t', s', bs[1..], n);
    }
  }

  lemma {:induction false} DefinesAlike(N: set<string>, s: Scopes, t: Scopes, a: nat, b: nat, bs: seq<Entry>)
    requires Alike(N, s, t, a, b) && a < |s|
    ensures Alike(N, DefineAll(s, bs), DefineAll(t, bs), a, b)
    decreases bs
  {
    if bs != [] {
      var s', t' := Define(s, bs[0].key, bs[0].value), Define(t, bs[0].key, bs[0].value);
      assert s[a..][|s| - 1 - a] == s[|s| - 1] && t[b..][|t| - 1 - b] == t[|t| - 1];
      assert s'[..a] == s[..a] && t'[..b] == t[..b] && s'[a..] == t'[b..];
      DefinesAlike(N, s', t', a, b, bs[1..]);
    }
  }

  /** Defining the names of a pattern above the bottom. */
  lemma ReadyDefine(N: set<string>, I: set<string>, s: Scopes, t: Scopes, a: nat, b: nat, bs: seq<Entry>)
    requires Ready(N, I, s, t, a, b) && a < |s|
    ensures Ready(N, I + Keys(bs), DefineAll(s, bs), DefineAll(t, bs), a, b)
  {
    DefinesAlike(N, s, t, a, b, bs);
    DefinesInUpper(s, a, bs);
    forall n <- I + Keys(bs) ensures Find(DefineAll(s, bs)[a..], n).Some? {
      DefinesFindAny(s[a..], s[a..], bs, n);
    }
  }

  lemma {:induction false} DefinesInUpper(s: Scopes, a: nat, bs: seq<Entry>)
    requires a < |s|
    ensures DefineAll(s, bs)[a..] == DefineAll(s[a..], bs)
    decreases bs
  {
    if bs != [] {
      var s' := Define(s, bs[0].key, bs[0].value);
      assert s'[a..] == Define(s[a..], bs[0].key, bs[0].value);
      DefinesInUpper(s', a, bs[1..]);
    }
  }

  // ----- Patterns bind exactly their names -----

  lemma {:induction false} MatchNames(p: Pattern, v: Value)
    ensures Keys(Match(p, v).binds) <= PatternNames(p)
    ensures WellPattern(p) && Match(p, v).ok ==> PatternNames(p) <= Keys(Match(p, v).binds)
    decreases p, 0
  {
    match p
    case Destructuring(items) =>
      if v.ArrayVal? {
        ArrayNames(items, |items|, v.elems, 0);
      } else if v.DictVal? {
        DictNames(items, v.entries, {}, None);
      }
    case _ =>
  }

  lemma {:induction false} ArrayNames(items: seq<PatternItem>, count: nat, xs: seq<Value>, i: nat)
    ensures Keys(MatchArray(items, count, xs, i).binds) <= ItemNames(items)
    ensures WellSlots(items) && MatchArray(items, count, xs, i).ok
            ==> ItemNames(items) <= Keys(MatchArray(items, count, xs, i).binds)
    decreases items, 0
  {
    if items != [] {
      var m := MatchItem(items[0], count, xs, i);
      var rest := MatchArray(items[1..], count, xs, i + Width(items[0], count, xs));
      ArrayNames(items[1..], count, xs, i + Width(items[0], count, xs));
      if items[0].Slot? && i < |xs| {
        assert items[0].pattern < items[0];
        MatchNames(items[0].pattern, xs[i]);
      }
      KeysAppend(m.binds, rest.binds);
    }
  }

  lemma {:induction false} DictNames(items: seq<PatternItem>, d: seq<Entry>, used: set<string>, sink: Option<string>)
    ensures Keys(MatchDict(items, d, used, sink).binds) <= ItemNames(items) + OptName(sink)
    ensures WellSlots(items) && SpreadCount(items) <= (if sink.Some? then 0 else 1)
            && MatchDict(items, d, used, sink).ok
            ==> ItemNames(items) + OptName(sink) <= Keys(MatchDict(items, d, used, sink).binds)
    decreases items, 0
  {
    if items == [] {
    } else if items[0].Rest? {
      DictNames(items[1..], d, used, items[0].sink);
    } else {
      var p := items[0].pattern;
      var k := if items[0].Field? then items[0].key else if p.Bind? then p.name else "";
      DictNames(items[1..], d, used + {k}, sink);
      if Get(d, k).Some? {
        assert p < items[0];
        MatchNames(p, Get(d, k).value);
        KeysAppend(Match(p, Get(d, k).value).binds, MatchDict(items[1..], d, used + {k}, sink).binds);
      }
    }
  }

  lemma KeysAppend(xs: seq<Entry>, ys: seq<Entry>)
    ensures Keys(xs + ys) == Keys(xs) + Keys(ys)
  {
    forall k ensures k in Keys(xs + ys) <==> k in Keys(xs) + Keys(ys) {
      if k in Keys(xs + ys) {
        var e :| e in xs + ys && e.key == k;
        assert e in xs || e in ys;
      }
      if k in Keys(xs) {
        var e :| e in xs && e.key == k;
        assert e in xs + ys;
      }
      if k in Keys(ys) {
        var e :| e in ys && e.key == k;
        assert e in xs + ys;
      }
    }
  }

  // ----- Free names with more names bound -----

  lemma {:induction false} FreeShift(e: Expr, I: set<string>, J: set<string>)
    ensures Free(e, I) - J <= Free(e, I + J)
    decreases e, 1
  {
    match e {
      case ArrayLit(items) => ItemsShift(items, I, J);
      case DictLit(items) => ItemsShift(items, I, J);
      case Unary(_, a) => FreeShift(a, I, J);
      case Binary(_, l, r) => FreeShift(l, I, J); FreeShift(r, I, J);
      case Assign(_, l, r) => FreeShift(l, I, J); FreeShift(r, I, J);
      case DestructAssign(_, r) => FreeShift(r, I, J);
      case Block(body) => StmtsShift(body, I, J);
      case If(c, t, f) =>
        FreeShift(c, I, J);
        FreeShift(t, I, J);
        if f.Some? {
          FreeShift(f.value, I, J);
        }
      case While(c, b) => FreeShift(c, I, J); FreeShift(b, I, J);
      case For(p, i, b) =>
        FreeShift(i, I, J);
        FreeShift(b, I + PatternNames(p), J);
        assert I + PatternNames(p) + J == I + J + PatternNames(p);
      case Return(r) =>
        if r.Some? {
          FreeShift(r.value, I, J);
        }
      case Lambda(self, ps, code) =>
        DefaultsShift(ps, I, J);
        var own := OptName(self) + ParamNames(ps);
        FreeShift(code, I + OptName(self) + ParamNames(ps), J);
        assert I + OptName(self) + ParamNames(ps) + J == I + J + OptName(self) + ParamNames(ps);
      case Call(f, items) => FreeShift(f, I, J); ItemsShift(items, I, J);
      case _ =>
    }
  }

  lemma {:induction false} ItemsShift(items: seq<Item>, I: set<string>, J: set<string>)
    ensures FreeItems(items, I) - J <= FreeItems(items, I + J)
    decreases items, 0
  {
    if items != [] {
      assert items[0].expr < items[0];
      FreeShift(items[0].expr, I, J);
      ItemsShift(items[1..], I, J);
    }
  }

  lemma {:induction false} DefaultsShift(ps: seq<Param>, I: set<string>, J: set<string>)
    ensures FreeDefaults(ps, I) - J <= FreeDefaults(ps, I + J)
    decreases ps, 0
  {
    if ps != [] {
      if ps[0].NamedParam? {
        assert ps[0].default < ps[0];
        FreeShift(ps[0].default, I, J);
      }
      DefaultsShift(ps[1..], I, J);
    }
  }

  lemma {:induction false} StmtsShift(ss: seq<Stmt>, I: set<string>, J: set<string>)
    ensures FreeStmts(ss, I) - J <= FreeStmts(ss, I + J)
    decreases ss, 0
  {
    if ss != [] {
      match ss[0]
      case Do(e) =>
        assert e < ss[0];
        FreeShift(e, I, J);
        StmtsShift(ss[1..], I, J);
      case Let(p, init) =>
        if init.Some? {
          assert init < ss[0];
          FreeShift(init.value, I, J);
        }
        StmtsShift(ss[1..], I + PatternNames(p), J);
        assert I + PatternNames(p) + J == I + J + PatternNames(p);
    }
  }

  // ----- Evaluation depends on the bottom only through the free names -----

  /** The induction hypothesis, with the side conditions for what is evaluated next. */
  lemma {:induction false} EvalReady(lib: Library, e: Expr, N: set<string>, I: set<string>,
                                     s: Scopes, t: Scopes, a: nat, b: nat, depth: nat)
    requires Ready(N, I, s, t, a, b) && Free(e, I) <= N && WellFormed(e)
    ensures Same(N, Eval(lib, e, s, depth), Eval(lib, e, t, depth), a, b)
    ensures Eval(lib, e, s, depth).Ok? ==>
              Ready(N, I, Eval(lib, e, s, depth).value.scopes, Eval(lib, e, t, depth).value.scopes, a, b)
    decreases depth, e, 3, 0
  {
    EvalSame(lib, e, N, I, s, t, a, b, depth);
    EvalKeeps(lib, e, s, depth);
    var r, q := Eval(lib, e, s, depth), Eval(lib, e, t, depth);
    if r.Ok? {
      ReadyAfter(N, I, s, t, a, b, r.value.scopes, q.value.scopes);
    }
  }

  lemma {:induction false} EvalSame(lib: Library, e: Expr, N: set<string>, I: set<string>,
                                    s: Scopes, t: Scopes, a: nat, b: nat, depth: nat)
    requires Ready(N, I, s, t, a, b) && Free(e, I) <= N && WellFormed(e)
    ensures Same(N, Eval(lib, e, s, depth), Eval(lib, e, t, depth), a, b)
    decreases depth, e, 2, 0
  {
    match e {
      case Literal(_) =>
      case Ident(n) => AlikeFind(N, s, t, a, b, n);
      case ArrayLit(items) => ItemsSame(lib, ArrayItems, items, [], N, I, s, t, a, b, depth);
      case DictLit(items) => ItemsSame(lib, DictItems, items, [], N, I, s, t, a, b, depth);
      case Unary(_, arg) => EvalReady(lib, arg, N, I, s, t, a, b, depth);
      case Binary(_, _, _) => BinarySame(lib, e, N, I, s, t, a, b, depth);
      case Assign(_, _, _) => AssignSame(lib, e, N, I, s, t, a, b, depth);
      case DestructAssign(_, _) => DestructSame(lib, e, N, I, s, t, a, b, depth);
      case Block(body) => BlockSame(lib, e, N, I, s, t, a, b, depth);
      case If(_, _, _) => IfSame(lib, e, N, I, s, t, a, b, depth);
      case While(_, _) => WhileSame(lib, e, 0, NoneVal, N, I, s, t, a, b, depth);
      case For(_, _, _) => ForLoopSame(lib, e, N, I, s, t, a, b, depth);
      case Break =>
      case Continue =>
      case Return(result) =>
        if result.Some? {
          EvalReady(lib, result.value, N, I, s, t, a, b, depth);
        }
      case Lambda(_, _, _) => LambdaSame(lib, e, N, I, s, t, a, b, depth);
      case Call(_, _) => CallSame(lib, e, N, I, s, t, a, b, depth);
    }
  }

  lemma {:induction false} BinarySame(lib: Library, e: Expr, N: set<string>, I: set<string>,
                                      s: Scopes, t: Scopes, a: nat, b: nat, depth: nat)
    requires e.Binary? && Ready(N, I, s, t, a, b) && Free(e, I) <= N && WellFormed(e)
    ensures Same(N, Eval(lib, e, s, depth), Eval(lib, e, t, depth), a, b)
    decreases depth, e, 1, 0
  {
    EvalReady(lib, e.lhs, N, I, s, t, a, b, depth);
    var r, q := Eval(lib, e.lhs, s, depth), Eval(lib, e.lhs, t, depth);
    if r.Ok? {
      EvalReady(lib, e.rhs, N, I, r.value.scopes, q.value.scopes, a, b, depth);
    }
  }

  lemma {:induction false} AssignSame(lib: Library, e: Expr, N: set<string>, I: set<string>,
                                      s: Scopes, t: Scopes, a: nat, b: nat, depth: nat)
    requires e.Assign? && Ready(N, I, s, t, a, b) && Free(e, I) <= N && WellFormed(e)
    ensures Same(N, Eval(lib, e, s, depth), Eval(lib, e, t, depth), a, b)
    decreases depth, e, 1, 0
  {
    EvalReady(lib, e.rhs, N, I, s, t, a, b, depth);
    var r, q := Eval(lib, e.rhs, s, depth), Eval(lib, e.rhs, t, depth);
    if r.Ok? {
      var s', t' := r.value.scopes, q.value.scopes;
      if e.target.Ident? {
        var n := e.target.name;
        AlikeFind(N, s', t', a, b, n);
        if Find(s', n).Some? {
          var v := if e.compound.None? then Ok(r.value.value)
                   else Checked(lib.binary(e.compound.value, Find(s', n).value.value, r.value.value));
          if v.Ok? {
            AlikeUpdate(N, s', t', a, b, n, v.value);
          }
        }
      } else {
        EvalReady(lib, e.target, N, I, s', t', a, b, depth);
      }
    }
  }

  lemma {:induction false} DestructSame(lib: Library, e: Expr, N: set<string>, I: set<string>,
                                        s: Scopes, t: Scopes, a: nat, b: nat, depth: nat)
    requires e.DestructAssign? && Ready(N, I, s, t, a, b) && Free(e, I) <= N && WellFormed(e)
    ensures Same(N, Eval(lib, e, s, depth), Eval(lib, e, t, depth), a, b)
    decreases depth, e, 1, 0
  {
    EvalReady(lib, e.rhs, N, I, s, t, a, b, depth);
    var r, q := Eval(lib, e.rhs, s, depth), Eval(lib, e.rhs, t, depth);
    if r.Ok? {
      var m := Match(e.pattern, r.value.value);
      MatchNames(e.pattern, r.value.value);
      forall x <- m.binds ensures x.key in N || x.key in I {
        assert x.key in Keys(m.binds);
      }
      AlikeWrites(N, r.value.scopes, q.value.scopes, a, b, I, m.binds);
    }
  }

  lemma {:induction false} BlockSame(lib: Library, e: Expr, N: set<string>, I: set<string>,
                                     s: Scopes, t: Scopes, a: nat, b: nat, depth: nat)
    requires e.Block? && Ready(N, I, s, t, a, b) && Free(e, I) <= N && WellFormed(e)
    ensures Same(N, Eval(lib, e, s, depth), Eval(lib, e, t, depth), a, b)
    decreases depth, e, 1, 0
  {
    ReadyEnter(N, I, s, t, a, b);
    StmtsSame(lib, e.body, NoneVal, N, I, s + [map[]], t + [map[]], a, b, depth);
    var r := EvalStmts(lib, e.body, NoneVal, s + [map[]], depth);
    var q := EvalStmts(lib, e.body, NoneVal, t + [map[]], depth);
    if r.Ok? {
      AlikeExit(N, r.value.scopes, q.value.scopes, a, b);
    }
  }

  lemma {:induction false} IfSame(lib: Library, e: Expr, N: set<string>, I: set<string>,
                                  s: Scopes, t: Scopes, a: nat, b: nat, depth: nat)
    requires e.If? && Ready(N, I, s, t, a, b) && Free(e, I) <= N && WellFormed(e)
    ensures Same(N, Eval(lib, e, s, depth), Eval(lib, e, t, depth), a, b)
    decreases depth, e, 1, 0
  {
    EvalReady(lib, e.cond, N, I, s, t, a, b, depth);
    var r, q := Eval(lib, e.cond, s, depth), Eval(lib, e.cond, t, depth);
    if r.Ok? && r.value.value.BoolVal? {
      var branch := if r.value.value.b then Some(e.thn) else e.els;
      if branch.Some? {
        EvalReady(lib, branch.value, N, I, r.value.scopes, q.value.scopes, a, b, depth);
      }
    }
  }

  /** A for loop over `vs`, the values of an iterable that completed as `c`. */
  ghost function Visits(lib: Library, e: Expr, vs: seq<Value>, c: Completion, depth: nat): Result<Completion>
    requires e.For?
  {
    var r :- EvalFor(lib, e, vs, c.event, NoneVal, c.scopes + [map[]], depth);
    Ok(Conditionally(r.(scopes := r.scopes[..|c.scopes|])))
  }

  lemma {:induction false} VisitsSame(lib: Library, e: Expr, vs: seq<Value>, c: Completion, d: Completion,
                                      N: set<string>, I: set<string>, a: nat, b: nat, depth: nat)
    requires e.For? && Free(e, I) <= N && WellFormed(e)
    requires Ready(N, I, c.scopes, d.scopes, a, b) && c.event == d.event
    ensures Same(N, Visits(lib, e, vs, c, depth), Visits(lib, e, vs, d, depth), a, b)
    decreases depth, e, 1, 0
  {
    ReadyEnter(N, I, c.scopes, d.scopes, a, b);
    ForSame(lib, e, vs, c.event, NoneVal, N, I, c.scopes + [map[]], d.scopes + [map[]], a, b, depth);
    var x := EvalFor(lib, e, vs, c.event, NoneVal, c.scopes + [map[]], depth);
    var y := EvalFor(lib, e, vs, c.event, NoneVal, d.scopes + [map[]], depth);
    if x.Ok? {
      LoopExitSame(N, x.value, y.value, a, b);
    }
  }

  lemma LoopExitSame(N: set<string>, x: Completion, y: Completion, a: nat, b: nat)
    requires Same(N, Ok(x), Ok(y), a, b) && a < |x.scopes|
    ensures Same(N, Ok(Conditionally(x.(scopes := x.scopes[..|x.scopes| - 1]))),
                 Ok(Conditionally(y.(scopes := y.scopes[..|y.scopes| - 1]))), a, b)
  {
    AlikeExit(N, x.scopes, y.scopes, a, b);
  }

  lemma {:induction false} ForLoopSame(lib: Library, e: Expr, N: set<string>, I: set<string>,
                                       s: Scopes, t: Scopes, a: nat, b: nat, depth: nat)
    requires e.For? && Ready(N, I, s, t, a, b) && Free(e, I) <= N && WellFormed(e)
    ensures Same(N, Eval(lib, e, s, depth), Eval(lib, e, t, depth), a, b)
    decreases depth, e, 1, 1
  {
    EvalReady(lib, e.iterable, N, I, s, t, a, b, depth);
    var r, q := Eval(lib, e.iterable, s, depth), Eval(lib, e.iterable, t, depth);
    if r.Ok? && Elements(lib, e.pattern, r.value.value).Ok? {
      VisitsSame(lib, e, Elements(lib, e.pattern, r.value.value).value, r.value, q.value, N, I, a, b, depth);
    }
  }

  lemma {:induction false} LambdaSame(lib: Library, e: Expr, N: set<string>, I: set<string>,
                                      s: Scopes, t: Scopes, a: nat, b: nat, depth: nat)
    requires e.Lambda? && Ready(N, I, s, t, a, b) && Free(e, I) <= N && WellFormed(e)
    ensures Same(N, Eval(lib, e, s, depth), Eval(lib, e, t, depth), a, b)
    decreases depth, e, 1, 0
  {
    DefaultsSame(lib, e.params, [], N, I, s, t, a, b, depth);
    var r, q := EvalDefaults(lib, e.params, [], s, depth), EvalDefaults(lib, e.params, [], t, depth);
    if r.Ok? {
      var s', t' := r.value.scopes, q.value.scopes;
      DefaultsKeep(lib, e.params, [], s, depth);
      ReadyAfter(N, I, s, t, a, b, s', t');
      FreeShift(e, {}, I);
      assert {} + I == I;
      forall n | n in Free(e, {}) ensures Find(s', n) == Find(t', n) {
        AlikeFind(N, s', t', a, b, n);
      }
      assert Capture(s', Free(e, {})) == Capture(t', Free(e, {}));
    }
  }

  lemma {:induction false} CallSame(lib: Library, e: Expr, N: set<string>, I: set<string>,
                                    s: Scopes, t: Scopes, a: nat, b: nat, depth: nat)
    requires e.Call? && Ready(N, I, s, t, a, b) && Free(e, I) <= N && WellFormed(e)
    ensures Same(N, Eval(lib, e, s, depth), Eval(lib, e, t, depth), a, b)
    decreases depth, e, 1, 0
  {
    if depth > 0 {
      EvalReady(lib, e.callee, N, I, s, t, a, b, depth);
      var r, q := Eval(lib, e.callee, s, depth), Eval(lib, e.callee, t, depth);
      if r.Ok? {
        ItemsSame(lib, CallItems, e.items, [], N, I, r.value.scopes, q.value.scopes, a, b, depth);
      }
    }
  }

  lemma {:induction false} ItemsSame(lib: Library, mode: Mode, items: seq<Item>, acc: seq<Arg>,
                                     N: set<string>, I: set<string>, s: Scopes, t: Scopes, a: nat, b: nat, depth: nat)
    requires Ready(N, I, s, t, a, b) && FreeItems(items, I) <= N && WellItems(items)
    ensures Same(N, EvalItems(lib, mode, items, acc, s, depth), EvalItems(lib, mode, items, acc, t, depth), a, b)
    decreases depth, items, 0, 0
  {
    if items != [] {
      assert items[0].expr < items[0];
      EvalReady(lib, items[0].expr, N, I, s, t, a, b, depth);
      var r, q := Eval(lib, items[0].expr, s, depth), Eval(lib, items[0].expr, t, depth);
      if r.Ok? && AddItem(mode, items[0].marker, r.value.value).Ok? {
        ItemsSame(lib, mode, items[1..], acc + AddItem(mode, items[0].marker, r.value.value).value,
          N, I, r.value.scopes, q.value.scopes, a, b, depth);
      }
    }
  }

  lemma {:induction false} DefaultsSame(lib: Library, ps: seq<Param>, acc: seq<Arg>,
                                        N: set<string>, I: set<string>, s: Scopes, t: Scopes, a: nat, b: nat, depth: nat)
    requires Ready(N, I, s, t, a, b) && FreeDefaults(ps, I) <= N && WellParams(ps)
    ensures Same(N, EvalDefaults(lib, ps, acc, s, depth), EvalDefaults(lib, ps, acc, t, depth), a, b)
    decreases depth, ps, 0, 0
  {
    if ps != [] {
      if ps[0].NamedParam? {
        assert ps[0].default < ps[0];
        EvalReady(lib, ps[0].default, N, I, s, t, a, b, depth);
        var r, q := Eval(lib, ps[0].default, s, depth), Eval(lib, ps[0].default, t, depth);
        if r.Ok? {
          DefaultsSame(lib, ps[1..], acc + [Arg(None, r.value.value)],
            N, I, r.value.scopes, q.value.scopes, a, b, depth);
        }
      } else {
        DefaultsSame(lib, ps[1..], acc, N, I, s, t, a, b, depth);
      }
    }
  }

  /** The statements `ss` after one that completed as `c`. */
  ghost function AfterStmt(lib: Library, ss: seq<Stmt>, out: Value, c: Completion, depth: nat): Result<Completion>
    requires c.scopes != []
  {
    var out' :- Join(out, c.value);
    if c.event.Some? then Ok(Completion(out', c.event, false, c.scopes)) else EvalStmts(lib, ss, out', c.scopes, depth)
  }

  lemma {:induction false} AfterStmtSame(lib: Library, ss: seq<Stmt>, out: Value, c: Completion, d: Completion,
                                         N: set<string>, J: set<string>, a: nat, b: nat, depth: nat)
    requires Same(N, Ok(c), Ok(d), a, b) && a < |c.scopes|
    requires c.event.None? ==> Ready(N, J, c.scopes, d.scopes, a, b) && FreeStmts(ss, J) <= N && WellStmts(ss)
    ensures Same(N, AfterStmt(lib, ss, out, c, depth), AfterStmt(lib, ss, out, d, depth), a, b)
    decreases depth, ss, 0, 1
  {
    if Join(out, c.value).Ok? && c.event.None? {
      StmtsSame(lib, ss, Join(out, c.value).value, N, J, c.scopes, d.scopes, a, b, depth);
    }
  }

  lemma {:induction false} StmtsSame(lib: Library, ss: seq<Stmt>, out: Value,
                                     N: set<string>, I: set<string>, s: Scopes, t: Scopes, a: nat, b: nat, depth: nat)
    requires Ready(N, I, s, t, a, b) && a < |s| && FreeStmts(ss, I) <= N && WellStmts(ss)
    ensures Same(N, EvalStmts(lib, ss, out, s, depth), EvalStmts(lib, ss, out, t, depth), a, b)
    decreases depth, ss, 0, 0
  {
    if ss != [] {
      var J := StmtReady(lib, ss[0], N, I, s, t, a, b, depth);
      var r, q := EvalStmt(lib, ss[0], s, depth), EvalStmt(lib, ss[0], t, depth);
      if r.Ok? {
        AfterStmtSame(lib, ss[1..], out, r.value, q.value, N, J, a, b, depth);
      }
    }
  }

  /** A statement that completes without an event has bound the names it introduces. */
  lemma {:induction false} StmtReady(lib: Library, st: Stmt, N: set<string>, I: set<string>,
                                     s: Scopes, t: Scopes, a: nat, b: nat, depth: nat)
    returns (J: set<string>)
    requires Ready(N, I, s, t, a, b) && a < |s| && FreeStmts([st], I) <= N && WellStmts([st])
    ensures J == if st.Let? then I + PatternNames(st.pattern) else I
    ensures Same(N, EvalStmt(lib, st, s, depth), EvalStmt(lib, st, t, depth), a, b)
    ensures var r, q := EvalStmt(lib, st, s, depth), EvalStmt(lib, st, t, depth);
            r.Ok? && r.value.event.None? ==> Ready(N, J, r.value.scopes, q.value.scopes, a, b)
    decreases depth, st, 0, 0
  {
    match st {
      case Do(e) =>
        J := I;
        EvalReady(lib, e, N, I, s, t, a, b, depth);
      case Let(p, init) =>
        J := I + PatternNames(p);
        var c, d := Quiet(NoneVal, s), Quiet(NoneVal, t);
        if init.Some? {
          assert init < st;
          EvalReady(lib, init.value, N, I, s, t, a, b, depth);
          var r, q := Eval(lib, init.value, s, depth), Eval(lib, init.value, t, depth);
          if r.Err? {
            return;
          }
          c, d := r.value, q.value;
        }
        var m := Match(p, c.value);
        MatchNames(p, c.value);
        ReadyDefine(N, I, c.scopes, d.scopes, a, b, m.binds);
        if m.ok {
          assert Keys(m.binds) == PatternNames(p);
        }
    }
  }

  lemma AfterBodySame(N: set<string>, out: Value, pending: Option<Event>, x: Completion, y: Completion, a: nat, b: nat)
    requires Same(N, Ok(x), Ok(y), a, b)
    ensures match (AfterBody(out, pending, x), AfterBody(out, pending, y))
            case (Stop(r), Stop(q)) => Same(N, r, q, a, b)
            case (Go(u, _), Go(w, _)) => u == w
            case _ => false
  {
  }

  /** An iteration whose condition was true and completed as `c`. */
  ghost function Round(lib: Library, w: Expr, i: nat, out: Value, c: Completion, depth: nat): Result<Completion>
    requires w.While? && i < MAX_ITERATIONS
  {
    var b :- Eval(lib, w.loop, c.scopes, depth);
    var step := AfterBody(out, c.event, b);
    if step.Stop? then step.result else EvalWhile(lib, w, i + 1, step.out, step.scopes, depth)
  }

  lemma {:induction false} RoundSame(lib: Library, w: Expr, i: nat, out: Value, c: Completion, d: Completion,
                                     N: set<string>, I: set<string>, a: nat, b: nat, depth: nat)
    requires w.While? && i < MAX_ITERATIONS && Free(w, I) <= N && WellFormed(w)
    requires Ready(N, I, c.scopes, d.scopes, a, b) && c.event == d.event
    ensures Same(N, Round(lib, w, i, out, c, depth), Round(lib, w, i, out, d, depth), a, b)
    decreases depth, w, 0, 2 * (MAX_ITERATIONS - i)
  {
    EvalReady(lib, w.loop, N, I, c.scopes, d.scopes, a, b, depth);
    var x, y := Eval(lib, w.loop, c.scopes, depth), Eval(lib, w.loop, d.scopes, depth);
    if x.Ok? {
      AfterBodySame(N, out, c.event, x.value, y.value, a, b);
      var step := AfterBody(out, c.event, x.value);
      if step.Go? {
        WhileSame(lib, w, i + 1, step.out, N, I, x.value.scopes, y.value.scopes, a, b, depth);
      }
    }
  }

  lemma {:induction false} WhileSame(lib: Library, w: Expr, i: nat, out: Value,
                                     N: set<string>, I: set<string>, s: Scopes, t: Scopes, a: nat, b: nat, depth: nat)
    requires w.While? && i <= MAX_ITERATIONS && Ready(N, I, s, t, a, b) && Free(w, I) <= N && WellFormed(w)
    ensures Same(N, EvalWhile(lib, w, i, out, s, depth), EvalWhile(lib, w, i, out, t, depth), a, b)
    decreases depth, w, 0, 2 * (MAX_ITERATIONS - i) + 1
  {
    EvalReady(lib, w.cond, N, I, s, t, a, b, depth);
    var c, d := Eval(lib, w.cond, s, depth), Eval(lib, w.cond, t, depth);
    if c.Ok? && Guard(w, i, c.value.value) == Ok(true) {
      RoundSame(lib, w, i, out, c.value, d.value, N, I, a, b, depth);
    }
  }

  lemma {:induction false} ForSame(lib: Library, f: Expr, vs: seq<Value>, pending: Option<Event>, out: Value,
                                   N: set<string>, I: set<string>, s: Scopes, t: Scopes, a: nat, b: nat, depth: nat)
    requires f.For? && Ready(N, I, s, t, a, b) && a < |s| && Free(f, I) <= N && WellFormed(f)
    ensures Same(N, EvalFor(lib, f, vs, pending, out, s, depth), EvalFor(lib, f, vs, pending, out, t, depth), a, b)
    decreases depth, f, 0, 2 * |vs|
  {
    if vs != [] && Match(f.pattern, vs[0]).ok {
      var bs := Match(f.pattern, vs[0]).binds;
      MatchNames(f.pattern, vs[0]);
      ReadyDefine(N, I, s, t, a, b, bs);
      assert Keys(bs) == PatternNames(f.pattern);
      EvalReady(lib, f.loop, N, I + Keys(bs), DefineAll(s, bs), DefineAll(t, bs), a, b, depth);
      var x, y := Eval(lib, f.loop, DefineAll(s, bs), depth), Eval(lib, f.loop, DefineAll(t, bs), depth);
      if x.Ok? {
        AfterVisitSame(lib, f, vs[1..], pending, out, x.value, y.value, N, I, Keys(bs), a, b, depth);
      }
    }
  }

  /** A for loop with `vs` still to visit, whose body just completed as `b`. */
  ghost function AfterVisit(
    lib: Library, f: Expr, vs: seq<Value>, pending: Option<Event>, out: Value, b: Completion, depth: nat)
    : Result<Completion>
    requires f.For? && b.scopes != []
  {
    var step := AfterBody(out, pending, b);
    if step.Stop? then step.result else EvalFor(lib, f, vs, None, step.out, step.scopes, depth)
  }

  lemma {:induction false} AfterVisitSame(
    lib: Library, f: Expr, vs: seq<Value>, pending: Option<Event>, out: Value, x: Completion, y: Completion,
    N: set<string>, I: set<string>, J: set<string>, a: nat, b: nat, depth: nat)
    requires f.For? && a < |x.scopes| && Free(f, I) <= N && WellFormed(f)
    requires Ready(N, I + J, x.scopes, y.scopes, a, b) && Same(N, Ok(x), Ok(y), a, b)
    ensures Same(N, AfterVisit(lib, f, vs, pending, out, x, depth),
                 AfterVisit(lib, f, vs, pending, out, y, depth), a, b)
    decreases depth, f, 0, 2 * |vs| + 1
  {
    AfterBodySame(N, out, pending, x, y, a, b);
    var step := AfterBody(out, pending, x);
    if step.Go? {
      ForSame(lib, f, vs, None, step.out, N, I, x.scopes, y.scopes, a, b, depth);
    }
  }

  // ----- Calls bind every parameter -----

  lemma {:induction false} ParamsBound(ps: seq<Param>, st: Binder, size: Option<nat>)
    requires WellParams(ps) && SinkCount(ps) <= (if st.sink.Some? then 0 else 1)
    requires BindParams(ps, st, size).Ok?
    ensures var r := BindParams(ps, st, size).value;
            Keys(st.binds) + SinkName(st.sink) + ParamNames(ps) <= Keys(r.binds) + SinkName(r.sink)
  {
    if ps != [] {
      var next := BindParam(ps[0], st, size).value;
      ParamsBound(ps[1..], next, size);
      match ps[0]
      case PosParam(p) =>
        var v := Take(st.args, 1).value.0[0].value;
        MatchNames(p, v);
        KeysAppend(st.binds, Match(p, v).binds);
      case NamedParam(n, _) =>
        KeysAppend(st.binds, [next.binds[|st.binds|]]);
        assert next.binds == st.binds + [next.binds[|st.binds|]];
      case SinkParam(_) =>
    }
  }

  ghost function SinkName(sink: Option<Option<string>>): set<string> {
    if sink.Some? then OptName(sink.value) else {}
  }

  lemma CallBound(f: Closure, args: seq<Arg>)
    requires WellParams(f.params) && SinkCount(f.params) <= 1 && BindCall(f, args).Ok?
    ensures OptName(f.self) + ParamNames(f.params) <= Keys(BindCall(f, args).value)
  {
    var st := Binder(SelfBind(f), args, f.defaults, None, []);
    ParamsBound(f.params, st, SinkSize(f, args));
    var r := BindParams(f.params, st, SinkSize(f, args)).value;
    assert OptName(f.self) <= Keys(st.binds);
    if r.sink.Some? && r.sink.value.Some? {
      KeysAppend(r.binds, [Entry(r.sink.value.value, ArgsVal(r.args + r.sunk))]);
    }
  }

  // ----- The theorem -----

  /** Everything in scope, not to be modified. */
  ghost function ReadOnlyCopy(s: Scopes): Scopes {
    if s == [] then []
    else ReadOnlyCopy(s[..|s| - 1]) + [ReadOnlyFrame(s[|s| - 1])]
  }

  ghost function ReadOnlyFrame(f: Frame): Frame {
    map n | n in f :: Binding(f[n].value, true)
  }

  lemma {:induction false} FindReadOnly(s: Scopes, n: string)
    ensures Find(ReadOnlyCopy(s), n) ==
            if Find(s, n).Some? then Some(Binding(Find(s, n).value.value, true)) else None
  {
    if s != [] {
      FindReadOnly(s[..|s| - 1], n);
    }
  }

  /** A call that keeps the whole defining scope underneath instead of the captured variables. */
  ghost function InvokeInside(lib: Library, f: Closure, s: Scopes, args: seq<Arg>, depth: nat): Result<Value> {
    var bs :- BindCall(f, args);
    var c :- Eval(lib, f.code, ReadOnlyCopy(s) + DefineAll([map[]], bs), depth);
    Finish(c)
  }

  /**
   For every closure expression, wherever it is evaluated, and all arguments: calling the closure
   gives the value or error that it would give inside its whole defining scope.
   */
  lemma CaptureIsSound(lib: Library, e: Expr, s0: Scopes, depth0: nat, args: seq<Arg>, depth: nat)
    requires e.Lambda? && WellFormed(e) && Eval(lib, e, s0, depth0).Ok?
    ensures var c := Eval(lib, e, s0, depth0).value;
            c.value.FuncVal? &&
            Invoke(lib, c.value.closure, args, depth) == InvokeInside(lib, c.value.closure, c.scopes, args, depth)
  {
    var c := Eval(lib, e, s0, depth0).value;
    var f, s := c.value.closure, c.scopes;
    if BindCall(f, args).Ok? {
      var bs := BindCall(f, args).value;
      CallBound(f, args);
      var own := OptName(e.self) + ParamNames(e.params);
      var N := Free(e.code, {});
      var bottom, inner := [CapturedFrame(f.captured)], DefineAll([map[]], bs);
      var x, y := DefineAll(bottom, bs), ReadOnlyCopy(s) + inner;
      FreeShift(e.code, {}, own);
      assert {} + own == own && {} + OptName(e.self) + ParamNames(e.params) == own;
      forall n <- N ensures Find(x, n) == Find(y, n) {
        DefinesFind(bottom, bs, n);
        DefinesFindAny([map[]], [map[]], bs, n);
        FindAppend(ReadOnlyCopy(s), inner, n);
        FindReadOnly(s, n);
        if n !in Keys(bs) {
          assert n in Free(e, {});
          assert Find(inner, n) == None;
        }
      }
      assert x[..|x|] == x && y[..|y|] == y;
      assert Ready(N, {}, x, y, |x|, |y|);
      EvalSame(lib, e.code, N, {}, x, y, |x|, |y|, depth);
    }
  }

  /** An expression without free names completes in the same way in all scopes. */
  lemma ClosedIsConstant(lib: Library, e: Expr, s: Scopes, t: Scopes, depth: nat)
    requires WellFormed(e) && Free(e, {}) == {}
    ensures match (Eval(lib, e, s, depth), Eval(lib, e, t, depth))
            case (Err(x), Err(y)) => x == y
            case (Ok(c), Ok(d)) => c.value == d.value && c.event == d.event && c.marks == d.marks
            case _ => false
  {
    assert Ready({}, {}, s, t, |s|, |t|);
    EvalSame(lib, e, {}, {}, s, t, |s|, |t|, depth);
  }
}
