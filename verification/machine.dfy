/**
 The interpreter as it runs: one machine per function call, holding a stack of scopes and a flag
 with the control-flow event that is currently happening. Every method is shown to refine the
 completion semantics, whatever event is already pending when it is called.
 */
module Machine {
  import opened Options
  import opened Values
  import opened Scoping
  import opened Patterns
  import opened Arguments
  import opened Static
  import opened Reference
  import opened Visitor

  /** What remains to be said about `rest` when `done` has already completed before it. */
  ghost function Prefixed(done: Completion, rest: Result<Completion>): Result<Completion> {
    match rest
    case Err(x) => Err(x)
    case Ok(c) => Ok(Then(done, c))
  }

  lemma PrefixedTwice(a: Completion, b: Completion, r: Result<Completion>)
    ensures Prefixed(a, Prefixed(b, r)) == Prefixed(Then(a, b), r)
  {
  }

  /** A pending event meets a sequence of completions just as it meets them one by one. */
  lemma AfterThen(e: Option<Event>, a: Completion, b: Completion)
    ensures After(e, Then(a, b)) == After(After(e, a), b)
  {
  }

  /** Pattern bindings either define new variables or assign to existing ones. */
  function Apply(assign: bool, s: Scopes, bs: seq<Entry>): Result<Scopes>
    requires s != []
  {
    if assign then WriteAll(s, bs) else Ok(DefineAll(s, bs))
  }

  function Bound(assign: bool, s: Scopes, m: Matched): (r: Result<Scopes>)
    requires s != []
    ensures r.Ok? ==> |r.value| == |s|
  {
    var t :- Apply(assign, s, m.binds);
    if m.ok then Ok(t) else Err(Mismatch)
  }

  lemma BoundThen(assign: bool, s: Scopes, m: Matched, n: Matched)
    requires s != [] && m.ok
    ensures Bound(assign, s, m.Then(n)) ==
            match Bound(assign, s, m) case Err(x) => Err(x) case Ok(t) => Bound(assign, t, n)
  {
    ApplyAppend(assign, s, m.binds, n.binds);
  }

  lemma BoundOne(assign: bool, s: Scopes, n: string, v: Value)
    requires s != []
    ensures Bound(assign, s, One(n, v)) == if assign then Write(s, n, v) else Ok(Define(s, n, v))
  {
    var bs := One(n, v).binds;
    assert bs[1..] == [];
    if assign {
      assert WriteAll(s, bs) == match Write(s, n, v) case Ok(t) => WriteAll(t, []) case Err(x) => Err(x);
    } else {
      assert DefineAll(s, bs) == DefineAll(Define(s, n, v), []);
    }
  }

  lemma {:induction false} ApplyAppend(assign: bool, s: Scopes, xs: seq<Entry>, ys: seq<Entry>)
    requires s != []
    ensures Apply(assign, s, xs + ys) ==
            match Apply(assign, s, xs) case Err(x) => Err(x) case Ok(t) => Apply(assign, t, ys)
    decreases xs
  {
    if xs == [] {
      assert xs + ys == ys;
    } else {
      assert (xs + ys)[1..] == xs[1..] + ys;
      if assign {
        var t := Write(s, xs[0].key, xs[0].value);
        if t.Ok? {
          ApplyAppend(assign, t.value, xs[1..], ys);
        }
      } else {
        ApplyAppend(assign, Define(s, xs[0].key, xs[0].value), xs[1..], ys);
      }
    }
  }

  lemma ItemStep(assign: bool, s: Scopes, items: seq<PatternItem>, k: nat, xs: seq<Value>, i: nat)
    requires s != [] && k < |items|
    ensures Bound(assign, s, MatchArray(items[k..], |items|, xs, i)) ==
            match Bound(assign, s, MatchItem(items[k], |items|, xs, i))
            case Err(x) => Err(x)
            case Ok(t) => Bound(assign, t, MatchArray(items[k + 1..], |items|, xs, i + Width(items[k], |items|, xs)))
  {
    var m := MatchItem(items[k], |items|, xs, i);
    assert items[k..][0] == items[k] && items[k..][1..] == items[k + 1..];
    if m.ok {
      BoundThen(assign, s, m, MatchArray(items[k + 1..], |items|, xs, i + Width(items[k], |items|, xs)));
    }
  }

  lemma ItemsEnd(assign: bool, s: Scopes, items: seq<PatternItem>, count: nat, xs: seq<Value>, i: nat)
    requires s != [] && items == []
    ensures Bound(assign, s, MatchArray(items, count, xs, i)) == if i < |xs| then Err(Mismatch) else Ok(s)
  {
  }

  lemma ForStep(
    lib: Library, f: Expr, vs: seq<Value>, k: nat, pending: Option<Event>, out: Value, s: Scopes, depth: nat)
    requires f.For? && s != [] && k < |vs|
    ensures EvalFor(lib, f, vs[k..], pending, out, s, depth) ==
            (var t :- Bound(false, s, Match(f.pattern, vs[k]));
             var b :- Reference.Eval(lib, f.loop, t, depth);
             var step := AfterBody(out, pending, b);
             if step.Stop? then step.result else EvalFor(lib, f, vs[k + 1..], None, step.out, step.scopes, depth))
  {
    assert vs[k..][0] == vs[k] && vs[k..][1..] == vs[k + 1..];
  }

  /** How a run ends that started with the pending event `was`. */
  ghost predicate Finishes(ref: Result<Completion>, was: Option<Event>, r: Result<Value>, scopes: Scopes,
                           flow: Option<Event>)
  {
    match ref
    case Err(x) => r == Err(x)
    case Ok(c) => r == Ok(c.value) && scopes == c.scopes && flow == After(was, c)
  }

  /** Only the event that is left depends on the one that was pending. */
  lemma OutcomesAgree(ref: Result<Completion>, was: Event, r: Result<Value>, s: Scopes, flow: Option<Event>,
                      r': Result<Value>, s': Scopes, flow': Option<Event>)
    requires Finishes(ref, Some(was), r, s, flow) && Finishes(ref, None, r', s', flow')
    ensures r == r' && (r.Ok? ==> s == s')
    ensures r.Ok? ==> flow == Some(was) || (was.ReturnEvent? && flow == Some(ReturnEvent(was.result, true)))
  {
  }

  class Vm {
    const lib: Library
    const depth: nat
    var flow: Option<Event>
    var scopes: Scopes

    constructor (lib: Library, depth: nat, scopes: Scopes)
      ensures this.lib == lib && this.depth == depth && this.scopes == scopes && flow == None
    {
      this.lib := lib;
      this.depth := depth;
      this.scopes := scopes;
      flow := None;
    }

    ghost predicate Completes(ref: Result<Completion>, was: Option<Event>, r: Result<Value>)
      reads this
    {
      Finishes(ref, was, r, scopes, flow)
    }

    ghost predicate Binds(ref: Result<Scopes>, was: Option<Event>, r: Result<Value>)
      reads this
    {
      match ref
      case Err(x) => r == Err(x)
      case Ok(t) => r.Ok? && scopes == t && flow == was
    }

    method Enter()
      modifies this`scopes
      ensures scopes == old(scopes) + [map[]]
    {
      scopes := scopes + [map[]];
    }

    method Exit()
      requires scopes != []
      modifies this`scopes
      ensures scopes == old(scopes)[..|old(scopes)| - 1]
    {
      scopes := scopes[..|scopes| - 1];
    }

    method MarkReturn()
      modifies this`flow
      ensures flow == Mark(old(flow))
    {
      if flow.Some? && flow.value.ReturnEvent? {
        flow := Some(ReturnEvent(flow.value.result, true));
      }
    }

    // ----- Patterns -----

    method Bind(assign: bool, n: string, v: Value) returns (r: Result<Value>)
      requires scopes != []
      modifies this`scopes
      ensures Binds(Bound(assign, old(scopes), One(n, v)), flow, r)
    {
      BoundOne(assign, scopes, n, v);
      if assign {
        var t :- Write(scopes, n, v);
        scopes := t;
      } else {
        scopes := Define(scopes, n, v);
      }
      r := Ok(NoneVal);
    }

    method Destructure(assign: bool, p: Pattern, v: Value) returns (r: Result<Value>)
      requires scopes != []
      modifies this`scopes
      ensures Binds(Bound(assign, old(scopes), Match(p, v)), flow, r)
      decreases p, 0
    {
      match p {
        case Bind(n) => r := Bind(assign, n, v);
        case Placeholder => r := Ok(NoneVal);
        case Destructuring(items) =>
          if v.ArrayVal? {
            r := DestructureArray(assign, items, v.elems);
          } else if v.DictVal? {
            r := DestructureDict(assign, items, v.entries);
          } else {
            r := Err(Mismatch);
          }
      }
    }

    method DestructureArray(assign: bool, items: seq<PatternItem>, xs: seq<Value>) returns (r: Result<Value>)
      requires scopes != []
      modifies this`scopes
      ensures Binds(Bound(assign, old(scopes), MatchArray(items, |items|, xs, 0)), flow, r)
      decreases items, 0
    {
      ghost var goal := Bound(assign, scopes, MatchArray(items, |items|, xs, 0));
      var i: nat := 0;
      for k := 0 to |items|
        invariant scopes != []
        invariant goal == Bound(assign, scopes, MatchArray(items[k..], |items|, xs, i))
      {
        ItemStep(assign, scopes, items, k, xs, i);
        var _ :- DestructureItem(assign, items[k], |items|, xs, i);
        i := i + Width(items[k], |items|, xs);
      }
      ItemsEnd(assign, scopes, items[|items|..], |items|, xs, i);
      r := if i < |xs| then Err(Mismatch) else Ok(NoneVal);
    }

    method DestructureItem(assign: bool, item: PatternItem, count: nat, xs: seq<Value>, i: nat)
      returns (r: Result<Value>)
      requires scopes != []
      modifies this`scopes
      ensures Binds(Bound(assign, old(scopes), MatchItem(item, count, xs, i)), flow, r)
      decreases item, 0
    {
      match item {
        case Slot(p) =>
          if i < |xs| {
            r := Destructure(assign, p, xs[i]);
          } else {
            r := Err(Mismatch);
          }
        case Rest(sink) =>
          var size := 1 + |xs| - count;
          if size < 0 || |xs| < i + size {
            r := Err(Mismatch);
          } else if sink.Some? {
            r := Bind(assign, sink.value, ArrayVal(xs[i..i + size]));
          } else {
            r := Ok(NoneVal);
          }
        case Field(_, _) => r := Err(Mismatch);
      }
    }

    method DestructureDict(assign: bool, items: seq<PatternItem>, d: seq<Entry>) returns (r: Result<Value>)
      requires scopes != []
      modifies this`scopes
      ensures Binds(Bound(assign, old(scopes), MatchDict(items, d, {}, None)), flow, r)
      decreases items, 0
    {
      ghost var goal := Bound(assign, scopes, MatchDict(items, d, {}, None));
      var used: set<string> := {};
      var sink := None;
      for k := 0 to |items|
        invariant scopes != []
        invariant goal == Bound(assign, scopes, MatchDict(items[k..], d, used, sink))
      {
        assert items[k..][0] == items[k] && items[k..][1..] == items[k + 1..];
        var key, sub;
        match items[k] {
          case Slot(Bind(n)) => key, sub := n, Pattern.Bind(n);
          case Field(n, p) => key, sub := n, p;
          case Rest(s) =>
            sink := s;
            continue;
          case Slot(_) =>
            return Err(Mismatch);
        }
        var v := Get(d, key);
        if v.None? {
          return Err(Mismatch);
        }
        assert sub < items[k];
        if Match(sub, v.value).ok {
          BoundThen(assign, scopes, Match(sub, v.value), MatchDict(items[k + 1..], d, used + {key}, sink));
        }
        var _ :- Destructure(assign, sub, v.value);
        used := used + {key};
      }
      if sink.Some? {
        r := Bind(assign, sink.value, DictVal(Unused(d, used)));
      } else {
        r := Ok(NoneVal);
      }
    }

    // ----- Calls -----

    /** Binds the parameters of `c` to `args` in the active scope. */
    method BindArguments(c: Closure, args: ArgList) returns (r: Result<Value>)
      requires scopes != []
      modifies this`scopes, args
      ensures Binds(
        match BindCall(c, old(args.items)) case Err(x) => Err(x) case Ok(bs) => Ok(DefineAll(old(scopes), bs)),
        flow, r)
    {
      ghost var s0 := scopes;
      ghost var goal := BindCall(c, args.items);
      if c.self.Some? {
        scopes := Define(scopes, c.self.value, FuncVal(c));
      }
      var size := SinkSize(c, args.items);
      var sink, sunk, j := None, [], 0;
      ghost var st := Binder(SelfBind(c), args.items, c.defaults, None, []);
      BoundSelf(s0, c);
      for k := 0 to |c.params|
        invariant scopes != [] && scopes == DefineAll(s0, st.binds)
        invariant 0 <= j <= |c.defaults|
        invariant st == Binder(st.binds, args.items, c.defaults[j..], sink, sunk)
        invariant goal == match BindParams(c.params[k..], st, size) case Err(x) => Err(x) case Ok(t) => Collect(t)
      {
        assert c.params[k..][0] == c.params[k] && c.params[k..][1..] == c.params[k + 1..];
        ghost var next := BindParam(c.params[k], st, size);
        match c.params[k] {
          case PosParam(pattern) =>
            var _ :- BindPositional(pattern, args, s0, st, size);
          case NamedParam(n, _) =>
            if j == |c.defaults| {
              return Err(Mismatch);
            }
            var found := args.TakeNamed(n);
            var v := if found.Some? then found.value else c.defaults[j];
            j := j + 1;
            DefineOneMore(s0, st.binds, n, v);
            scopes := Define(scopes, n, v);
          case SinkParam(name) =>
            sink := Some(name);
            if size.Some? {
              sunk :- args.Consume(size.value);
            }
        }
        st := next.value;
      }
      if sink.Some? {
        var remaining := args.items;
        args.items := [];
        if sink.value.Some? {
          remaining := remaining + sunk;
          DefineOneMore(s0, st.binds, sink.value.value, ArgsVal(remaining));
          scopes := Define(scopes, sink.value.value, ArgsVal(remaining));
        }
      }
      if args.items != [] {
        return Err(Mismatch);
      }
      r := Ok(NoneVal);
    }

    method BindPositional(p: Pattern, args: ArgList, ghost s0: Scopes, ghost st: Binder, ghost size: Option<nat>)
      returns (r: Result<Value>)
      requires s0 != [] && scopes == DefineAll(s0, st.binds) && args.items == st.args
      modifies this`scopes, args
      ensures match BindParam(PosParam(p), st, size)
              case Err(x) => r == Err(x)
              case Ok(t) => r.Ok? && scopes == DefineAll(s0, t.binds) && args.items == t.args
    {
      var taken :- args.Consume(1);
      ghost var m := Match(p, taken[0].value);
      ApplyAppend(false, s0, st.binds, m.binds);
      r := Destructure(false, p, taken[0].value);
    }

    /** Runs a closure in a machine of its own. */
    method CallClosure(c: Closure, items: seq<Arg>) returns (r: Result<Value>)
      requires depth > 0
      ensures r == Invoke(lib, c, items, depth - 1)
      decreases depth, 0
    {
      var args := new ArgList(items);
      var vm := new Vm(lib, depth - 1, [CapturedFrame(c.captured)]);
      var _ :- vm.BindArguments(c, args);
      var output :- vm.Eval(c.code);
      match vm.flow
      case Some(ReturnEvent(Some(explicit), _)) => r := Ok(explicit);
      case Some(ReturnEvent(None, _)) => r := Ok(output);
      case Some(_) => r := Err(Forbidden);
      case None => r := Ok(output);
    }

    // ----- Expressions -----

    method Eval(e: Expr) returns (r: Result<Value>)
      requires scopes != []
      modifies this
      ensures Completes(Reference.Eval(lib, e, old(scopes), depth), old(flow), r)
      decreases depth, 1, e, 1
    {
      match e {
        case Literal(c) => r := Ok(Constant(c));
        case Ident(n) =>
          var b := Find(scopes, n);
          r := if b.Some? then Ok(b.value.value) else Err(UnknownVariable);
        case ArrayLit(items) =>
          var acc :- EvalList(ArrayItems, items);
          r := Ok(ArrayVal(ValuesOf(acc.args)));
        case DictLit(items) =>
          var acc :- EvalList(DictItems, items);
          r := Ok(DictVal(InsertAll([], EntriesOf(acc.args))));
        case Unary(op, a) =>
          var v :- Eval(a);
          r := Checked(lib.unary(op, v));
        case Binary(op, lhs, rhs) => r := EvalBinary(op, lhs, rhs);
        case Assign(op, target, rhs) => r := EvalAssignment(op, target, rhs);
        case DestructAssign(p, rhs) =>
          var v :- Eval(rhs);
          r := Destructure(true, p, v);
          if r.Ok? {
            r := Ok(NoneVal);
          }
        case Block(body) =>
          Enter();
          var output :- EvalCode(body);
          Exit();
          r := Ok(output);
        case If(cond, thn, els) => r := EvalConditional(cond, thn, els);
        case While(_, _) => r := EvalWhileLoop(e);
        case For(_, _, _) => r := EvalForLoop(e);
        case Break =>
          if flow.None? {
            flow := Some(BreakEvent);
          }
          r := Ok(NoneVal);
        case Continue =>
          if flow.None? {
            flow := Some(ContinueEvent);
          }
          r := Ok(NoneVal);
        case Return(result) => r := EvalReturn(result);
        case Lambda(self, ps, code) =>
          var defaults :- EvalParams(ps);
          var captured := CollectCaptures(e, scopes);
          r := Ok(FuncVal(Closure(self, ps, code, defaults, captured)));
        case Call(callee, items) => r := EvalCall(callee, items);
      }
    }

    method EvalBinary(op: BinOp, lhs: Expr, rhs: Expr) returns (r: Result<Value>)
      requires scopes != []
      modifies this
      ensures Completes(Reference.Eval(lib, Binary(op, lhs, rhs), old(scopes), depth), old(flow), r)
      decreases depth, 1, Binary(op, lhs, rhs), 0
    {
      var a :- Eval(lhs);
      if ShortCircuits(op, a) {
        return Ok(a);
      }
      var b :- Eval(rhs);
      r := Checked(lib.binary(op, a, b));
    }

    /** The result is evaluated even if an event is pending already. */
    method EvalReturn(result: Option<Expr>) returns (r: Result<Value>)
      requires scopes != []
      modifies this
      ensures Completes(Reference.Eval(lib, Return(result), old(scopes), depth), old(flow), r)
      decreases depth, 1, Return(result), 0
    {
      var value := None;
      if result.Some? {
        var v :- Eval(result.value);
        value := Some(v);
      }
      if flow.None? {
        flow := Some(ReturnEvent(value, false));
      }
      r := Ok(NoneVal);
    }

    method EvalCall(callee: Expr, items: seq<Item>) returns (r: Result<Value>)
      requires scopes != []
      modifies this
      ensures Completes(Reference.Eval(lib, Call(callee, items), old(scopes), depth), old(flow), r)
      decreases depth, 1, Call(callee, items), 0
    {
      if depth == 0 {
        return Err(TooDeep);
      }
      var f :- Eval(callee);
      if !f.FuncVal? {
        return Err(Mismatch);
      }
      var a :- EvalList(CallItems, items);
      r := CallClosure(f.closure, a.args);
    }

    /** The right side first, then the location; only variables are locations. */
    method EvalAssignment(op: Option<BinOp>, target: Expr, rhs: Expr) returns (r: Result<Value>)
      requires scopes != []
      modifies this
      ensures Completes(Reference.Eval(lib, Assign(op, target, rhs), old(scopes), depth), old(flow), r)
      decreases depth, 1, Assign(op, target, rhs), 0
    {
      var b :- Eval(rhs);
      if !target.Ident? {
        var _ :- Eval(target);
        return Err(Temporary);
      }
      var location := Find(scopes, target.name);
      if location.None? {
        return Err(UnknownVariable);
      }
      if location.value.captured {
        return Err(ReadOnly);
      }
      var v := b;
      if op.Some? {
        v :- Checked(lib.binary(op.value, location.value.value, b));
      }
      scopes := Update(scopes, target.name, v);
      r := Ok(NoneVal);
    }

    /** Items of an array, a dictionary or an argument list. */
    method EvalList(mode: Mode, items: seq<Item>) returns (r: Result<Value>)
      requires scopes != []
      modifies this
      ensures Completes(EvalItems(lib, mode, items, [], old(scopes), depth), old(flow), r)
      ensures r.Ok? ==> r.value.ArgsVal?
      decreases depth, 1, items, 0
    {
      ghost var goal := EvalItems(lib, mode, items, [], scopes, depth);
      ghost var done := Quiet(NoneVal, scopes);
      ghost var was := flow;
      var acc := [];
      for k := 0 to |items|
        invariant scopes != [] && scopes == done.scopes && flow == After(was, done)
        invariant goal == Prefixed(done, EvalItems(lib, mode, items[k..], acc, scopes, depth))
      {
        assert items[k..][0] == items[k] && items[k..][1..] == items[k + 1..];
        assert items[k].expr < items[k];
        ghost var c := Reference.Eval(lib, items[k].expr, scopes, depth);
        var v :- Eval(items[k].expr);
        var more :- AddItem(mode, items[k].marker, v);
        PrefixedTwice(done, c.value, EvalItems(lib, mode, items[k + 1..], acc + more, scopes, depth));
        AfterThen(was, done, c.value);
        done := Then(done, c.value);
        acc := acc + more;
      }
      r := Ok(ArgsVal(acc));
    }

    /** Default values of the named parameters. */
    method EvalParams(ps: seq<Param>) returns (r: Result<seq<Value>>)
      requires scopes != []
      modifies this
      ensures match EvalDefaults(lib, ps, [], old(scopes), depth)
              case Err(x) => r == Err(x)
              case Ok(c) => r == Ok(ValuesOf(c.value.args)) && scopes == c.scopes && flow == After(old(flow), c)
      decreases depth, 1, ps, 0
    {
      ghost var goal := EvalDefaults(lib, ps, [], scopes, depth);
      ghost var done := Quiet(NoneVal, scopes);
      ghost var was := flow;
      var acc := [];
      for k := 0 to |ps|
        invariant scopes != [] && scopes == done.scopes && flow == After(was, done)
        invariant goal == Prefixed(done, EvalDefaults(lib, ps[k..], acc, scopes, depth))
      {
        assert ps[k..][0] == ps[k] && ps[k..][1..] == ps[k + 1..];
        if ps[k].NamedParam? {
          ghost var c := Reference.Eval(lib, ps[k].default, scopes, depth);
          var v :- Eval(ps[k].default);
          PrefixedTwice(done, c.value, EvalDefaults(lib, ps[k + 1..], acc + [Arg(None, v)], scopes, depth));
          AfterThen(was, done, c.value);
          done := Then(done, c.value);
          acc := acc + [Arg(None, v)];
        }
      }
      r := Ok(ValuesOf(acc));
    }

    /** Statements; an event that was pending before is put aside meanwhile. */
    method EvalCode(ss: seq<Stmt>) returns (r: Result<Value>)
      requires scopes != []
      modifies this
      ensures Completes(EvalStmts(lib, ss, NoneVal, old(scopes), depth), old(flow), r)
      decreases depth, 1, ss, 0
    {
      ghost var goal := EvalStmts(lib, ss, NoneVal, scopes, depth);
      var pending := flow;
      flow := None;
      var output := NoneVal;
      var k := 0;
      while k < |ss|
        invariant 0 <= k <= |ss| && scopes != [] && flow == None
        invariant goal == EvalStmts(lib, ss[k..], output, scopes, depth)
      {
        assert ss[k..][0] == ss[k] && ss[k..][1..] == ss[k + 1..];
        var value :- EvalStatement(ss[k]);
        output :- Join(output, value);
        if flow.Some? {
          break;
        }
        k := k + 1;
      }
      if pending.Some? {
        flow := pending;
      }
      r := Ok(output);
    }

    method EvalStatement(st: Stmt) returns (r: Result<Value>)
      requires scopes != [] && flow == None
      modifies this
      ensures Completes(EvalStmt(lib, st, old(scopes), depth), None, r)
      decreases depth, 1, st, 0
    {
      match st {
        case Do(e) => r := Eval(e);
        case Let(p, init) =>
          var value := NoneVal;
          if init.Some? {
            assert init < st;
            value :- Eval(init.value);
          }
          if flow.Some? {
            return Ok(NoneVal);
          }
          r := Destructure(false, p, value);
          if r.Ok? {
            r := Ok(NoneVal);
          }
      }
    }

    method EvalConditional(cond: Expr, thn: Expr, els: Option<Expr>) returns (r: Result<Value>)
      requires scopes != []
      modifies this
      ensures Completes(Reference.Eval(lib, If(cond, thn, els), old(scopes), depth), old(flow), r)
      decreases depth, 1, If(cond, thn, els), 0
    {
      var c :- Eval(cond);
      if !c.BoolVal? {
        return Err(Mismatch);
      }
      var output := NoneVal;
      var branch := if c.b then Some(thn) else els;
      if branch.Some? {
        output :- Eval(branch.value);
      }
      MarkReturn();
      r := Ok(output);
    }

    method EvalWhileLoop(w: Expr) returns (r: Result<Value>)
      requires scopes != [] && w.While?
      modifies this
      ensures Completes(Reference.Eval(lib, w, old(scopes), depth), old(flow), r)
      decreases depth, 1, w, 0
    {
      ghost var goal := EvalWhile(lib, w, 0, NoneVal, scopes, depth);
      var pending := flow;
      flow := None;
      var output := NoneVal;
      var i: nat := 0;
      while true
        invariant scopes != [] && flow == None && i <= MAX_ITERATIONS
        invariant goal == EvalWhile(lib, w, i, output, scopes, depth)
        decreases MAX_ITERATIONS - i
      {
        var c :- Eval(w.cond);
        if !c.BoolVal? {
          return Err(Mismatch);
        }
        if !c.b {
          break;
        }
        if i == 0 && IsInvariant(w.cond) && !CanDiverge(w.loop) {
          return Err(AlwaysTrue);
        } else if i >= MAX_ITERATIONS {
          return Err(Infinite);
        }
        var value :- Eval(w.loop);
        output :- Join(output, value);
        match flow {
          case Some(BreakEvent) =>
            flow := None;
            break;
          case Some(ContinueEvent) => flow := None;
          case Some(ReturnEvent(_, _)) => break;
          case None =>
        }
        i := i + 1;
      }
      if pending.Some? {
        flow := pending;
      }
      MarkReturn();
      r := Ok(output);
    }

    method EvalForLoop(f: Expr) returns (r: Result<Value>)
      requires scopes != [] && f.For?
      modifies this
      ensures Completes(Reference.Eval(lib, f, old(scopes), depth), old(flow), r)
      decreases depth, 1, f, 0
    {
      var pending := flow;
      flow := None;
      var iterable :- Eval(f.iterable);
      var vs :- Elements(lib, f.pattern, iterable);
      var output :- Iterate(f, vs);
      if pending.Some? {
        flow := pending;
      }
      MarkReturn();
      r := Ok(output);
    }

    /** Runs the body of a for loop for every value, in a scope of its own. */
    method Iterate(f: Expr, vs: seq<Value>) returns (r: Result<Value>)
      requires scopes != [] && f.For?
      modifies this
      ensures match EvalFor(lib, f, vs, old(flow), NoneVal, old(scopes) + [map[]], depth)
              case Err(x) => r == Err(x)
              case Ok(c) => r == Ok(c.value) && scopes == c.scopes[..|old(scopes)|] && flow == c.event
      decreases depth, 1, f.loop, 2
    {
      var output := NoneVal;
      Enter();
      ghost var goal := EvalFor(lib, f, vs, flow, NoneVal, scopes, depth);
      var k := 0;
      while k < |vs|
        invariant 0 <= k <= |vs| && |scopes| == |old(scopes)| + 1
        invariant goal == EvalFor(lib, f, vs[k..], flow, output, scopes, depth)
      {
        ForStep(lib, f, vs, k, flow, output, scopes, depth);
        var _ :- Destructure(false, f.pattern, vs[k]);
        var value :- Eval(f.loop);
        output :- Join(output, value);
        match flow {
          case Some(BreakEvent) =>
            flow := None;
            break;
          case Some(ContinueEvent) => flow := None;
          case Some(ReturnEvent(_, _)) => break;
          case None =>
        }
        k := k + 1;
      }
      Exit();
      r := Ok(output);
    }
  }

  /**
   Of two runs of the same expression in the same scopes, one of them with a pending event, both give the same
   value and scopes or the same error, and the pending event is still there, at most marked as conditional.
   */
  method PendingEventStays(vm: Vm, quiet: Vm, e: Expr) returns (r: Result<Value>, r': Result<Value>)
    requires vm != quiet && vm.lib == quiet.lib && vm.depth == quiet.depth
    requires vm.scopes == quiet.scopes != [] && vm.flow.Some? && quiet.flow == None
    modifies vm, quiet
    ensures r == r' && (r.Ok? ==> vm.scopes == quiet.scopes)
    ensures var was := old(vm.flow).value;
      r.Ok? ==> vm.flow == Some(was) || (was.ReturnEvent? && vm.flow == Some(ReturnEvent(was.result, true)))
  {
    ghost var was, ref := vm.flow.value, Reference.Eval(vm.lib, e, vm.scopes, vm.depth);
    r := vm.Eval(e);
    r' := quiet.Eval(e);
    OutcomesAgree(ref, was, r, vm.scopes, vm.flow, r', quiet.scopes, quiet.flow);
  }

  /** Evaluates a program, as a call depth of 80 allows. */
  method RunProgram(lib: Library, scope: Frame, ss: seq<Stmt>) returns (r: Result<Value>)
    ensures r == Program(lib, scope, ss, MAX_CALL_DEPTH)
  {
    var vm := new Vm(lib, MAX_CALL_DEPTH, [scope, map[]]);
    var output :- vm.EvalCode(ss);
    r := if vm.flow.Some? then Err(Forbidden) else Ok(output);
  }

  function Removed(items: seq<Arg>, i: nat): (r: seq<Arg>)
    requires i < |items|
    ensures |r| == |items| - 1 && r[..i] == items[..i] && r[i..] == items[i..][1..]
  {
    items[..i] + items[i + 1..]
  }

  /** The arguments of a call, consumed while parameters are bound. */
  class ArgList {
    var items: seq<Arg>

    constructor (items: seq<Arg>)
      ensures this.items == items
    {
      this.items := items;
    }

    /** Removes the first `n` positional arguments. */
    method Consume(n: nat) returns (r: Result<seq<Arg>>)
      modifies this
      ensures match Take(old(items), n)
              case Err(x) => r == Err(x)
              case Ok((taken, rest)) => r == Ok(taken) && items == rest
    {
      ghost var goal := Take(items, n);
      var list := [];
      var i := 0;
      while i < |items| && |list| < n
        invariant 0 <= i <= |items| && |list| <= n
        invariant match Take(items[i..], n - |list|)
                  case Err(x) => goal == Err(x)
                  case Ok((taken, rest)) =>
                    goal.Ok? && goal.value.0 == list + taken && goal.value.1 == items[..i] + rest
        decreases |items| - i
      {
        assert items[i..][0] == items[i] && items[i..][1..] == items[i + 1..];
        if items[i].name.None? {
          list := list + [items[i]];
          items := Removed(items, i);
        } else {
          i := i + 1;
        }
      }
      if |list| < n {
        return Err(Mismatch);
      }
      assert items[..i] + items[i..] == items && list + [] == list;
      r := Ok(list);
    }

    /** Removes all arguments named `n` and returns the last one. */
    method TakeNamed(n: string) returns (found: Option<Value>)
      modifies this
      ensures found == Last(old(items), n) && items == Without(old(items), n)
    {
      found := None;
      var i := 0;
      ghost var j := 0;
      while i < |items|
        invariant 0 <= i <= |items| && 0 <= j <= |old(items)|
        invariant items[i..] == old(items)[j..]
        invariant items[..i] == Without(old(items)[..j], n)
        invariant found == Last(old(items)[..j], n)
        decreases |items| - i
      {
        ghost var a := items[i];
        assert items[i..][0] == a == old(items)[j];
        assert items[i..][1..] == items[i + 1..] && old(items)[j..][1..] == old(items)[j + 1..];
        WithoutSnoc(old(items)[..j], a, n);
        assert old(items)[..j + 1] == old(items)[..j] + [a];
        assert items[..i + 1] == items[..i] + [a];
        if items[i].name == Some(n) {
          found := Some(items[i].value);
          items := Removed(items, i);
        } else {
          i := i + 1;
        }
        j := j + 1;
      }
      assert old(items)[..j] == old(items);
    }
  }

  lemma BoundSelf(s: Scopes, c: Closure)
    requires s != []
    ensures DefineAll(s, SelfBind(c)) ==
            if c.self.Some? then Define(s, c.self.value, FuncVal(c)) else s
  {
    if c.self.Some? {
      BoundOne(false, s, c.self.value, FuncVal(c));
    }
  }

  lemma DefineOneMore(s: Scopes, bs: seq<Entry>, n: string, v: Value)
    requires s != []
    ensures DefineAll(s, bs + [Entry(n, v)]) == Define(DefineAll(s, bs), n, v)
  {
    ApplyAppend(false, s, bs, [Entry(n, v)]);
    BoundOne(false, DefineAll(s, bs), n, v);
  }
}
