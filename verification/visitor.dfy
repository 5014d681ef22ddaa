/** The visitor that collects the variables a closure captures. */
module Visitor {
  import opened Values
  import opened Scoping
  import opened Static
  import opened Reference

  class CapturesVisitor {
    const external: Scopes
    /** The names bound so far, per scope; the last scope is the active one. */
    var internal: seq<set<string>>
    var captures: map<string, Value>

    constructor (external: Scopes)
      ensures this.external == external && Valid() && |internal| == 1 && Bound() == {} && captures == map[]
    {
      this.external := external;
      internal := [{}];
      captures := map[];
    }

    /** Captured values are those of the external scopes. */
    ghost predicate Valid()
      reads this
    {
      internal != [] && forall n <- captures :: Find(external, n).Some? && captures[n] == Find(external, n).value.value
    }

    ghost function Bound(): set<string>
      reads this
    {
      set f <- internal, n <- f :: n
    }

    /** Those of the given names that exist outside. */
    ghost function Visible(names: set<string>): set<string> {
      set n <- names | Find(external, n).Some?
    }

    lemma BothVisible(a: set<string>, b: set<string>)
      ensures Visible(a + b) == Visible(a) + Visible(b)
    {
    }

    method Enter()
      requires Valid()
      modifies this`internal
      ensures Valid() && internal == old(internal) + [{}] && Bound() == old(Bound())
    {
      internal := internal + [{}];
    }

    method Exit()
      requires Valid() && |internal| > 1
      modifies this`internal
      ensures Valid() && internal == old(internal)[..|old(internal)| - 1]
    {
      internal := internal[..|internal| - 1];
    }

    method Bind(names: set<string>)
      requires Valid()
      modifies this`internal
      ensures Valid() && |internal| == |old(internal)|
      ensures internal[..|internal| - 1] == old(internal)[..|internal| - 1]
      ensures Bound() == old(Bound()) + names
    {
      var top := |internal| - 1;
      internal := internal[top := internal[top] + names];
      ghost var was := old(internal);
      assert forall i :: 0 <= i < |was| && i != top ==> internal[i] == was[i];
      forall n ensures n in Bound() <==> n in old(Bound()) + names {
        if n in old(Bound()) {
          var i :| 0 <= i < |was| && n in was[i];
          assert n in internal[i];
        }
        if n in names {
          assert n in internal[top];
        }
      }
    }

    /** Captures a name unless it is bound internally, captured already or unknown outside. */
    method Capture(n: string)
      requires Valid()
      modifies this`captures
      ensures Valid() && captures.Keys == old(captures).Keys + Visible({n} - Bound())
    {
      var inside := exists f <- internal :: n in f;
      if !inside && n !in captures {
        var b := Find(external, n);
        if b.Some? {
          captures := captures[n := b.value.value];
        }
      }
    }

    method CaptureAll(names: set<string>)
      requires Valid()
      modifies this`captures
      ensures Valid() && captures.Keys == old(captures).Keys + Visible(names - Bound())
    {
      var todo := names;
      while todo != {}
        invariant Valid() && todo <= names
        invariant captures.Keys + Visible(todo - Bound()) == old(captures).Keys + Visible(names - Bound())
      {
        var n :| n in todo;
        Capture(n);
        todo := todo - {n};
      }
    }

    /** Adds the free names of `e` that exist outside. */
    method Visit(e: Expr)
      requires Valid()
      modifies this
      ensures Valid() && internal == old(internal)
      ensures captures.Keys == old(captures).Keys + Visible(Free(e, old(Bound())))
      decreases e, 2
    {
      match e {
        case Ident(n) => Capture(n);
        case ArrayLit(items) => VisitItems(items);
        case DictLit(items) => VisitItems(items);
        case Unary(_, a) => Visit(a);
        case Binary(_, l, r) => VisitTwo(l, r, e);
        case Assign(_, l, r) => VisitTwo(l, r, e);
        case DestructAssign(p, r) => VisitDestruct(e);
        case Block(body) => VisitBlock(body);
        case If(_, _, _) => VisitConditional(e);
        case While(c, b) => VisitTwo(c, b, e);
        case For(_, _, _) => VisitFor(e);
        case Return(r) =>
          if r.Some? {
            Visit(r.value);
          }
        case Lambda(_, _, _) => VisitLambda(e);
        case Call(_, _) => VisitCall(e);
        case _ =>
      }
    }

    /** Everything else is traversed from left to right. */
    method VisitTwo(l: Expr, r: Expr, ghost parent: Expr)
      requires Valid() && l < parent && r < parent
      modifies this
      ensures Valid() && internal == old(internal)
      ensures captures.Keys == old(captures).Keys + Visible(Free(l, old(Bound())) + Free(r, old(Bound())))
      decreases parent, 0
    {
      Visit(l);
      Visit(r);
    }

    method VisitDestruct(e: Expr)
      requires Valid() && e.DestructAssign?
      modifies this
      ensures Valid() && internal == old(internal)
      ensures captures.Keys == old(captures).Keys + Visible(Free(e, old(Bound())))
      decreases e, 0
    {
      CaptureAll(PatternNames(e.pattern));
      Visit(e.rhs);
    }

    method VisitConditional(e: Expr)
      requires Valid() && e.If?
      modifies this
      ensures Valid() && internal == old(internal)
      ensures captures.Keys == old(captures).Keys + Visible(Free(e, old(Bound())))
      decreases e, 1
    {
      VisitTwo(e.cond, e.thn, e);
      if e.els.Some? {
        Visit(e.els.value);
      }
    }

    method VisitCall(e: Expr)
      requires Valid() && e.Call?
      modifies this
      ensures Valid() && internal == old(internal)
      ensures captures.Keys == old(captures).Keys + Visible(Free(e, old(Bound())))
      decreases e, 0
    {
      Visit(e.callee);
      VisitItems(e.items);
    }

    /** The pattern is bound after the iterable is visited and before the body is. */
    method VisitFor(e: Expr)
      requires Valid() && e.For?
      modifies this
      ensures Valid() && internal == old(internal)
      ensures captures.Keys == old(captures).Keys + Visible(Free(e, old(Bound())))
      decreases e, 0
    {
      Visit(e.iterable);
      Enter();
      Bind(PatternNames(e.pattern));
      Visit(e.loop);
      Exit();
    }

    /** Defaults cannot see the parameters; the body sees them and the closure's own name. */
    method VisitLambda(e: Expr)
      requires Valid() && e.Lambda?
      modifies this
      ensures Valid() && internal == old(internal)
      ensures captures.Keys == old(captures).Keys + Visible(Free(e, old(Bound())))
      decreases e, 1
    {
      ghost var bound := Bound();
      VisitDefaults(e.params);
      VisitBody(e);
      BothVisible(FreeDefaults(e.params, bound), Free(e.code, bound + OptName(e.self) + ParamNames(e.params)));
    }

    method VisitBody(e: Expr)
      requires Valid() && e.Lambda?
      modifies this
      ensures Valid() && internal == old(internal)
      ensures captures.Keys
           == old(captures).Keys + Visible(Free(e.code, old(Bound()) + OptName(e.self) + ParamNames(e.params)))
      decreases e, 0
    {
      Enter();
      Bind(OptName(e.self));
      Bind(ParamNames(e.params));
      Visit(e.code);
      Exit();
    }

    method VisitItems(items: seq<Item>)
      requires Valid()
      modifies this
      ensures Valid() && internal == old(internal)
      ensures captures.Keys == old(captures).Keys + Visible(FreeItems(items, old(Bound())))
      decreases items, 0
    {
      for k := 0 to |items|
        invariant Valid() && internal == old(internal)
        invariant captures.Keys + Visible(FreeItems(items[k..], Bound()))
               == old(captures).Keys + Visible(FreeItems(items, old(Bound())))
      {
        assert items[k..][0] == items[k] && items[k..][1..] == items[k + 1..];
        assert items[k].expr < items[k];
        Visit(items[k].expr);
      }
    }

    method VisitDefaults(ps: seq<Param>)
      requires Valid()
      modifies this
      ensures Valid() && internal == old(internal)
      ensures captures.Keys == old(captures).Keys + Visible(FreeDefaults(ps, old(Bound())))
      decreases ps, 0
    {
      for k := 0 to |ps|
        invariant Valid() && internal == old(internal)
        invariant captures.Keys + Visible(FreeDefaults(ps[k..], Bound()))
               == old(captures).Keys + Visible(FreeDefaults(ps, old(Bound())))
      {
        assert ps[k..][0] == ps[k] && ps[k..][1..] == ps[k + 1..];
        if ps[k].NamedParam? {
          assert ps[k].default < ps[k];
          Visit(ps[k].default);
        }
      }
    }

    method VisitBlock(ss: seq<Stmt>)
      requires Valid()
      modifies this
      ensures Valid() && internal == old(internal)
      ensures captures.Keys == old(captures).Keys + Visible(FreeStmts(ss, old(Bound())))
      decreases ss, 0
    {
      ghost var goal := captures.Keys + Visible(FreeStmts(ss, Bound()));
      Enter();
      for k := 0 to |ss|
        invariant Valid() && |internal| == |old(internal)| + 1 && internal[..|internal| - 1] == old(internal)
        invariant captures.Keys + Visible(FreeStmts(ss[k..], Bound())) == goal
      {
        NextFree(ss, k, Bound());
        BothVisible(FreeIn(ss[k], Bound()), FreeStmts(ss[k + 1..], Bound() + NamesOf(ss[k])));
        VisitStatement(ss[k]);
      }
      Exit();
    }

    /** A `let` binds its names for the statements that follow. */
    method VisitStatement(st: Stmt)
      requires Valid()
      modifies this
      ensures Valid() && |internal| == |old(internal)|
      ensures internal[..|internal| - 1] == old(internal)[..|internal| - 1]
      ensures captures.Keys == old(captures).Keys + Visible(FreeIn(st, old(Bound())))
      ensures Bound() == old(Bound()) + NamesOf(st)
      decreases st, 0
    {
      match st {
        case Do(e) => Visit(e);
        case Let(p, init) =>
          if init.Some? {
            assert init < st;
            Visit(init.value);
          }
          Bind(PatternNames(p));
      }
    }
  }

  /** The free names of one statement. */
  function FreeIn(st: Stmt, bound: set<string>): set<string> {
    match st
    case Do(e) => Free(e, bound)
    case Let(_, init) => if init.Some? then Free(init.value, bound) else {}
  }

  function NamesOf(st: Stmt): set<string> {
    if st.Let? then PatternNames(st.pattern) else {}
  }

  lemma NextFree(ss: seq<Stmt>, k: nat, bound: set<string>)
    requires k < |ss|
    ensures FreeStmts(ss[k..], bound) == FreeIn(ss[k], bound) + FreeStmts(ss[k + 1..], bound + NamesOf(ss[k]))
  {
    assert ss[k..][0] == ss[k] && ss[k..][1..] == ss[k + 1..];
    assert bound + {} == bound;
  }

  /** The captured variables of a closure expression. */
  method CollectCaptures(e: Expr, scopes: Scopes) returns (captured: map<string, Value>)
    ensures captured == Reference.Capture(scopes, Free(e, {}))
  {
    var visitor := new CapturesVisitor(scopes);
    visitor.Visit(e);
    captured := visitor.captures;
  }
}
