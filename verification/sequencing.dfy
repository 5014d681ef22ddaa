/** The order in which effects take place, and what writes, definitions and returns leave behind. */
module Sequencing {
  import opened Options
  import opened Values
  import opened Scoping
  import opened Arguments
  import opened Reference
  import opened Listing

  // ----- Operands -----

  function Both(l: Expr, r: Expr): seq<Item> {
    [Item(Plain, l), Item(Plain, r)]
  }

  function RunBoth(lib: Library, l: Expr, r: Expr, s: Scopes, depth: nat): ItemsRun {
    match Eval(lib, l, s, depth)
    case Err(x) => ItemsRun([], Err(x))
    case Ok(c) =>
      match Eval(lib, r, c.scopes, depth)
      case Err(x) => ItemsRun([c.value], Err(x))
      case Ok(d) => ItemsRun([c.value, d.value], Ok(d.scopes))
  }

  lemma BothRun(lib: Library, l: Expr, r: Expr, s: Scopes, depth: nat)
    ensures RunItems(lib, Both(l, r), s, depth) == RunBoth(lib, l, r, s, depth)
  {
    assert Both(l, r)[1..] == [Item(Plain, r)] && [Item(Plain, r)][1..] == [];
    assert forall t :: RunItems(lib, [], t, depth) == ItemsRun([], Ok(t));
  }

  predicate Decides(op: BinOp, v: Value) {
    (op.And? && v == BoolVal(false)) || (op.Or? && v == BoolVal(true))
  }

  /** The left operand runs first; if it decides, the right one does not run at all. */
  lemma OperandsInOrder(lib: Library, op: BinOp, l: Expr, r: Expr, s: Scopes, depth: nat)
    ensures var e, t, first := Eval(lib, Binary(op, l, r), s, depth), RunItems(lib, Both(l, r), s, depth),
                               Eval(lib, l, s, depth);
      if first.Ok? && Decides(op, first.value.value)
      then e == first
      else
        && (e.Ok? <==> t.end.Ok? && lib.binary(op, t.values[0], t.values[1]).Some?)
        && (e.Ok? ==>
              e.value.scopes == t.end.value && lib.binary(op, t.values[0], t.values[1]) == Some(e.value.value))
  {
    BothRun(lib, l, r, s, depth);
  }

  /** Some list of arguments that the items contribute makes the call end with the value of `c`. */
  ghost predicate CalledWith(lib: Library, f: Closure, items: seq<Item>, t: ItemsRun, depth: nat, c: Completion) {
    && t.end.Ok? && c.scopes == t.end.value && |t.values| == |items|
    && exists args :: Lists(items, t.values, args) && Invoke(lib, f, args, depth) == Ok(c.value)
  }

  /** The callee runs before the arguments, and these before the body. */
  lemma CalleeFirst(lib: Library, callee: Expr, items: seq<Item>, s: Scopes, depth: nat)
    requires depth > 0
    ensures var e, f := Eval(lib, Call(callee, items), s, depth), Eval(lib, callee, s, depth);
      e.Ok? ==>
        && f.Ok? && f.value.value.FuncVal?
        && CalledWith(lib, f.value.value.closure, items, RunItems(lib, items, f.value.scopes, depth), depth - 1,
                      e.value)
  {
    var e, f := Eval(lib, Call(callee, items), s, depth), Eval(lib, callee, s, depth);
    if e.Ok? {
      ItemsContribute(lib, CallItems, items, [], f.value.scopes, depth);
      var args := EvalItems(lib, CallItems, items, [], f.value.scopes, depth).value.value.args;
      assert args[0..] == args;
      assert Lists(items, RunItems(lib, items, f.value.scopes, depth).values, args);
    }
  }

  // ----- Writes and definitions -----

  /** The right side runs first; then the variable has its value, and all others stay as they are. */
  lemma AssignmentSticks(lib: Library, op: Option<BinOp>, n: string, rhs: Expr, s: Scopes, depth: nat)
    ensures var e, r := Eval(lib, Assign(op, Ident(n), rhs), s, depth), Eval(lib, rhs, s, depth);
      e.Ok? ==>
        && r.Ok? && e.value.value == NoneVal
        && Find(r.value.scopes, n).Some? && !Find(r.value.scopes, n).value.captured && Find(e.value.scopes, n).Some?
        && Some(Find(e.value.scopes, n).value.value)
           == (if op.None? then Some(r.value.value)
               else lib.binary(op.value, Find(r.value.scopes, n).value.value, r.value.value))
        && forall m | m != n :: Find(e.value.scopes, m) == Find(r.value.scopes, m)
  {
    var e, r := Eval(lib, Assign(op, Ident(n), rhs), s, depth), Eval(lib, rhs, s, depth);
    if e.Ok? {
      var b := Find(r.value.scopes, n).value;
      var v := if op.None? then r.value.value else lib.binary(op.value, b.value, r.value.value).value;
      assert e.value.scopes == Update(r.value.scopes, n, v);
      forall m ensures Find(e.value.scopes, m)
        == if m == n then Some(b.(value := v)) else Find(r.value.scopes, m)
      {
        FindAfterUpdate(r.value.scopes, n, v, m);
      }
    }
  }

  /** The last binding of a name among several. */
  function LastOf(bs: seq<Entry>, n: string): Option<Value> {
    if bs == [] then None
    else if bs[|bs| - 1].key == n then Some(bs[|bs| - 1].value)
    else LastOf(bs[..|bs| - 1], n)
  }

  lemma {:induction false} LastOfCons(bs: seq<Entry>, n: string)
    requires bs != []
    ensures LastOf(bs, n)
         == if LastOf(bs[1..], n).Some? then LastOf(bs[1..], n)
            else if bs[0].key == n then Some(bs[0].value) else None
    decreases |bs|
  {
    if |bs| > 1 {
      var front := bs[..|bs| - 1];
      LastOfCons(front, n);
      assert front[1..] == bs[1..][..|bs| - 2];
    }
  }

  /** What a `let` binds is found with its last value; nothing else changes. */
  lemma {:induction false} DefinitionsStick(s: Scopes, bs: seq<Entry>, n: string)
    requires s != []
    ensures Find(DefineAll(s, bs), n)
         == match LastOf(bs, n) case None => Find(s, n) case Some(v) => Some(Binding(v, false))
    decreases |bs|
  {
    if bs != [] {
      var t := Define(s, bs[0].key, bs[0].value);
      FindAfterDefine(s, bs[0].key, bs[0].value, n);
      DefinitionsStick(t, bs[1..], n);
      LastOfCons(bs, n);
    }
  }

  /** A destructuring assignment writes every name that is bound. */
  lemma {:induction false} WritesStick(s: Scopes, bs: seq<Entry>, n: string)
    requires WriteAll(s, bs).Ok?
    ensures LastOf(bs, n).Some? ==> Find(s, n).Some? && !Find(s, n).value.captured
    ensures Find(WriteAll(s, bs).value, n)
         == match LastOf(bs, n) case None => Find(s, n) case Some(v) => Some(Binding(v, false))
    decreases |bs|
  {
    if bs != [] {
      var t := Write(s, bs[0].key, bs[0].value).value;
      FindAfterUpdate(s, bs[0].key, bs[0].value, n);
      WritesStick(t, bs[1..], n);
      LastOfCons(bs, n);
    }
  }

  /** Where the initialiser ends early, the pattern does not matter: nothing is matched or bound. */
  lemma ExitsSkipTheBinding(lib: Library, p: Pattern, q: Pattern, init: Expr, s: Scopes, depth: nat)
    requires s != [] && Eval(lib, init, s, depth).Ok? && Eval(lib, init, s, depth).value.event.Some?
    ensures var r, c := EvalStmt(lib, Let(p, Some(init)), s, depth), Eval(lib, init, s, depth).value;
      && r == EvalStmt(lib, Let(q, Some(init)), s, depth)
      && r.Ok? && r.value.event == c.event && r.value.scopes == c.scopes
  {
    assert Let(p, Some(init)).init == Let(q, Some(init)).init == Some(init);
  }

  // ----- Calls -----

  /** A captured variable cannot be written, whatever comes before it in the pattern. */
  lemma CapturedIsReadOnly(captured: map<string, Value>, n: string, v: Value)
    requires n in captured
    ensures Find([CapturedFrame(captured)], n) == Some(Binding(captured[n], true))
    ensures Write([CapturedFrame(captured)], n, v) == Err(ReadOnly)
  {
  }

  /** What a function returns whose body is `return` with this completion. */
  function Returned(r: Result<Completion>): Result<Value> {
    var c :- r;
    if c.event.None? then Ok(c.value)
    else if !c.event.value.ReturnEvent? then Err(Forbidden)
    else Ok(if c.event.value.result.Some? then c.event.value.result.value else NoneVal)
  }

  /** To return a value is to end with it; events of the value itself come first. */
  lemma ReturnIsResult(lib: Library, f: Closure, args: seq<Arg>, depth: nat)
    requires f.code.Return? && f.code.result.Some? && BindCall(f, args).Ok?
    ensures var frame := DefineAll([CapturedFrame(f.captured)], BindCall(f, args).value);
      Invoke(lib, f, args, depth) == Returned(Eval(lib, f.code.result.value, frame, depth))
  {
  }
}
