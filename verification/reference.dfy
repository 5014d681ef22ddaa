/**
 A big-step completion semantics of the language, without a pending-event flag: every expression
 completes with a value and at most one control-flow event, and the constructs say directly which
 events they pass on, stop at or consume.
 */
module Reference {
  import opened Options
  import opened Values
  import opened Scoping
  import opened Patterns
  import opened Arguments
  import opened Static

  const MAX_ITERATIONS: nat := 10_000

  const MAX_CALL_DEPTH: nat := 80

  /** Operators and grapheme segmentation come from libraries; `None` is their error. */
  datatype Library = Library(
    unary: (UnOp, Value) -> Option<Value>,
    binary: (BinOp, Value, Value) -> Option<Value>,
    graphemes: string -> seq<string>)

  datatype Event =
    | BreakEvent
    | ContinueEvent
    | ReturnEvent(result: Option<Value>, conditional: bool)

  function Mark(e: Option<Event>): Option<Event> {
    match e
    case Some(ReturnEvent(v, _)) => Some(ReturnEvent(v, true))
    case _ => e
  }

  /** `marks`: whether a return that was already pending turns into a conditional one. */
  datatype Completion = Completion(value: Value, event: Option<Event>, marks: bool, scopes: Scopes)

  /** The leftmost event survives. */
  function After(first: Option<Event>, c: Completion): Option<Event> {
    if first.None? then c.event else if c.marks then Mark(first) else first
  }

  function Then(c: Completion, next: Completion): Completion {
    Completion(next.value, After(c.event, next), c.marks || next.marks, next.scopes)
  }

  /** Conditionals and loops make a return conditional. */
  function Conditionally(c: Completion): Completion {
    c.(event := Mark(c.event), marks := true)
  }

  function Join(a: Value, b: Value): (r: Result<Value>)
    ensures r.Err? ==> r.error == Mismatch
  {
    match (a, b)
    case (_, NoneVal) => Ok(a)
    case (NoneVal, _) => Ok(b)
    case (StrVal(x), StrVal(y)) => Ok(StrVal(x + y))
    case (ArrayVal(x), ArrayVal(y)) => Ok(ArrayVal(x + y))
    case (DictVal(x), DictVal(y)) => Ok(DictVal(InsertAll(x, y)))
    case (ArgsVal(x), ArgsVal(y)) => Ok(ArgsVal(x + y))
    case _ => Err(Mismatch)
  }

  /** Dictionaries keep the position of a key that is inserted again. */
  function Insert(d: seq<Entry>, e: Entry): seq<Entry> {
    if d == [] then [e]
    else if d[0].key == e.key then [e] + d[1..]
    else [d[0]] + Insert(d[1..], e)
  }

  function InsertAll(d: seq<Entry>, es: seq<Entry>): seq<Entry>
    decreases es
  {
    if es == [] then d else InsertAll(Insert(d, es[0]), es[1..])
  }

  // ----- Items of arrays, dictionaries and argument lists -----

  datatype Mode = ArrayItems | DictItems | CallItems

  function Named(es: seq<Entry>): seq<Arg> {
    if es == [] then [] else [Arg(Some(es[0].key), es[0].value)] + Named(es[1..])
  }

  function Unnamed(vs: seq<Value>): seq<Arg> {
    if vs == [] then [] else [Arg(None, vs[0])] + Unnamed(vs[1..])
  }

  function ValuesOf(args: seq<Arg>): seq<Value> {
    if args == [] then [] else [args[0].value] + ValuesOf(args[1..])
  }

  function EntriesOf(args: seq<Arg>): seq<Entry> {
    if args == [] then []
    else (if args[0].name.Some? then [Entry(args[0].name.value, args[0].value)] else []) + EntriesOf(args[1..])
  }

  /** What one item contributes; a spread contributes the contents of its value. */
  function AddItem(mode: Mode, marker: Marker, v: Value): (r: Result<seq<Arg>>)
    ensures r.Err? ==> r.error == Mismatch
  {
    match marker
    case Plain => if mode.DictItems? then Err(Mismatch) else Ok([Arg(None, v)])
    case Key(n) => if mode.ArrayItems? then Err(Mismatch) else Ok([Arg(Some(n), v)])
    case Spread =>
      match v
      case NoneVal => Ok([])
      case ArrayVal(xs) => if mode.DictItems? then Err(Mismatch) else Ok(Unnamed(xs))
      case DictVal(es) => if mode.ArrayItems? then Err(Mismatch) else Ok(Named(es))
      case ArgsVal(args) => if mode.CallItems? then Ok(args) else Err(Mismatch)
      case _ => Err(Mismatch)
  }

  // ----- Evaluation -----

  function Quiet(v: Value, s: Scopes): Completion {
    Completion(v, None, false, s)
  }

  function Constant(c: Const): Value {
    match c
    case CNone => NoneVal
    case CAuto => AutoVal
    case CBool(b) => BoolVal(b)
    case CInt(i) => IntVal(i)
    case CStr(t) => StrVal(t)
  }

  function Checked(v: Option<Value>): (r: Result<Value>)
    ensures r.Err? ==> r.error == Mismatch
  {
    match v case None => Err(Mismatch) case Some(x) => Ok(x)
  }

  predicate ShortCircuits(op: BinOp, v: Value) {
    v.BoolVal? && ((op.And? && !v.b) || (op.Or? && v.b))
  }

  /** The values a for loop visits. */
  function Elements(lib: Library, p: Pattern, v: Value): (r: Result<seq<Value>>)
    ensures r.Err? ==> r.error == Mismatch
  {
    match v
    case ArrayVal(xs) => Ok(xs)
    case DictVal(es) => Ok(seq(|es|, i requires 0 <= i < |es| => ArrayVal([StrVal(es[i].key), es[i].value])))
    case StrVal(t) =>
      if p.Destructuring? then Err(Mismatch)
      else
        var gs := lib.graphemes(t);
        Ok(seq(|gs|, i requires 0 <= i < |gs| => StrVal(gs[i])))
    case _ => Err(Mismatch)
  }

  /** Copies the named variables that are visible. */
  function Capture(s: Scopes, names: set<string>): map<string, Value> {
    map n | n in names && Find(s, n).Some? :: Find(s, n).value.value
  }

  /** The scope of a call before its parameters are bound: captured variables are read-only. */
  function CapturedFrame(captured: map<string, Value>): Frame {
    map n | n in captured :: Binding(captured[n], true)
  }

  /** An event at the end of a function body: return is honoured, the rest is forbidden. */
  function Finish(c: Completion): (r: Result<Value>) {
    match c.event
    case None => Ok(c.value)
    case Some(ReturnEvent(None, _)) => Ok(c.value)
    case Some(ReturnEvent(Some(v), _)) => Ok(v)
    case Some(_) => Err(Forbidden)
  }

  /** Evaluates `e` where `depth` more nested calls are allowed. */
  function Eval(lib: Library, e: Expr, s: Scopes, depth: nat): (r: Result<Completion>)
    ensures r.Ok? ==> |r.value.scopes| == |s|
    decreases depth, e, 1, 0
  {
    match e
    case Literal(c) => Ok(Quiet(Constant(c), s))
    case Ident(n) =>
      (match Find(s, n)
       case None => Err(UnknownVariable)
       case Some(b) => Ok(Quiet(b.value, s)))
    case ArrayLit(items) =>
      var c :- EvalItems(lib, ArrayItems, items, [], s, depth);
      Ok(c.(value := ArrayVal(ValuesOf(c.value.args))))
    case DictLit(items) =>
      var c :- EvalItems(lib, DictItems, items, [], s, depth);
      Ok(c.(value := DictVal(InsertAll([], EntriesOf(c.value.args)))))
    case Unary(op, a) =>
      var c :- Eval(lib, a, s, depth);
      var v :- Checked(lib.unary(op, c.value));
      Ok(c.(value := v))
    case Binary(op, lhs, rhs) =>
      var l :- Eval(lib, lhs, s, depth);
      if ShortCircuits(op, l.value) then Ok(l)
      else
        var r :- Eval(lib, rhs, l.scopes, depth);
        var v :- Checked(lib.binary(op, l.value, r.value));
        Ok(Then(l, r).(value := v))
    case Assign(op, target, rhs) =>
      var r :- Eval(lib, rhs, s, depth);
      if target.Ident? then
        match Find(r.scopes, target.name)
        case None => Err(UnknownVariable)
        case Some(b) =>
          if b.captured then Err(ReadOnly)
          else
            var v :- if op.None? then Ok(r.value) else Checked(lib.binary(op.value, b.value, r.value));
            Ok(r.(value := NoneVal, scopes := Update(r.scopes, target.name, v)))
      else
        var _ :- Eval(lib, target, r.scopes, depth);
        Err(Temporary)
    case DestructAssign(p, rhs) =>
      var r :- Eval(lib, rhs, s, depth);
      var m := Match(p, r.value);
      var t :- WriteAll(r.scopes, m.binds);
      if m.ok then Ok(r.(value := NoneVal, scopes := t)) else Err(Mismatch)
    case Block(body) =>
      var c :- EvalStmts(lib, body, NoneVal, s + [map[]], depth);
      Ok(c.(scopes := c.scopes[..|s|]))
    case If(cond, thn, els) =>
      var c :- Eval(lib, cond, s, depth);
      if !c.value.BoolVal? then Err(Mismatch)
      else if c.value.b then
        var t :- Eval(lib, thn, c.scopes, depth);
        Ok(Conditionally(Then(c, t)))
      else if els.Some? then
        var f :- Eval(lib, els.value, c.scopes, depth);
        Ok(Conditionally(Then(c, f)))
      else Ok(Conditionally(c.(value := NoneVal)))
    case While(_, _) =>
      var c :- EvalWhile(lib, e, 0, NoneVal, s, depth);
      Ok(Conditionally(c))
    case For(p, iterable, _) =>
      var c :- Eval(lib, iterable, s, depth);
      var vs :- Elements(lib, p, c.value);
      var r :- EvalFor(lib, e, vs, c.event, NoneVal, c.scopes + [map[]], depth);
      Ok(Conditionally(r.(scopes := r.scopes[..|s|])))
    case Break => Ok(Completion(NoneVal, Some(BreakEvent), false, s))
    case Continue => Ok(Completion(NoneVal, Some(ContinueEvent), false, s))
    case Return(None) => Ok(Completion(NoneVal, Some(ReturnEvent(None, false)), false, s))
    case Return(Some(result)) =>
      var c :- Eval(lib, result, s, depth);
      Ok(Then(c, Completion(NoneVal, Some(ReturnEvent(Some(c.value), false)), false, c.scopes)))
    case Lambda(self, ps, code) =>
      var c :- EvalDefaults(lib, ps, [], s, depth);
      Ok(c.(value := FuncVal(
        Closure(self, ps, code, ValuesOf(c.value.args), Capture(c.scopes, Free(e, {}))))))
    case Call(callee, items) =>
      if depth == 0 then Err(TooDeep)
      else
        var f :- Eval(lib, callee, s, depth);
        if !f.value.FuncVal? then Err(Mismatch)
        else
          var a :- EvalItems(lib, CallItems, items, [], f.scopes, depth);
          var v :- Invoke(lib, f.value.closure, a.value.args, depth - 1);
          Ok(Then(f, a).(value := v))
  }

  /** A call runs in a single scope that holds the captured variables and then the parameters. */
  function Invoke(lib: Library, f: Closure, args: seq<Arg>, depth: nat): (r: Result<Value>)
    decreases depth
  {
    var binds :- BindCall(f, args);
    var c :- Eval(lib, f.code, DefineAll([CapturedFrame(f.captured)], binds), depth);
    Finish(c)
  }

  /** Items from left to right; the completion value is the list so far. */
  function EvalItems(lib: Library, mode: Mode, items: seq<Item>, acc: seq<Arg>, s: Scopes, depth: nat)
    : (r: Result<Completion>)
    ensures r.Ok? ==> |r.value.scopes| == |s| && r.value.value.ArgsVal?
    decreases depth, items, 0, 0
  {
    if items == [] then Ok(Quiet(ArgsVal(acc), s))
    else
      assert items[0].expr < items[0];
      var c :- Eval(lib, items[0].expr, s, depth);
      var more :- AddItem(mode, items[0].marker, c.value);
      var rest :- EvalItems(lib, mode, items[1..], acc + more, c.scopes, depth);
      Ok(Then(c, rest))
  }

  function EvalDefaults(lib: Library, ps: seq<Param>, acc: seq<Arg>, s: Scopes, depth: nat)
    : (r: Result<Completion>)
    ensures r.Ok? ==> |r.value.scopes| == |s| && r.value.value.ArgsVal?
    decreases depth, ps, 0, 0
  {
    if ps == [] then Ok(Quiet(ArgsVal(acc), s))
    else if ps[0].NamedParam? then
      assert ps[0].default < ps[0];
      var c :- Eval(lib, ps[0].default, s, depth);
      var rest :- EvalDefaults(lib, ps[1..], acc + [Arg(None, c.value)], c.scopes, depth);
      Ok(Then(c, rest))
    else EvalDefaults(lib, ps[1..], acc, s, depth)
  }

  /** Statements run up to and including the first one with an event. */
  function EvalStmts(lib: Library, ss: seq<Stmt>, out: Value, s: Scopes, depth: nat): (r: Result<Completion>)
    requires s != []
    ensures r.Ok? ==> |r.value.scopes| == |s| && !r.value.marks
    decreases depth, ss, 0, 0
  {
    if ss == [] then Ok(Quiet(out, s))
    else
      var c :- EvalStmt(lib, ss[0], s, depth);
      var out' :- Join(out, c.value);
      if c.event.Some? then Ok(Completion(out', c.event, false, c.scopes))
      else EvalStmts(lib, ss[1..], out', c.scopes, depth)
  }

  /** A `let` whose initialiser has an event binds nothing. */
  function EvalStmt(lib: Library, st: Stmt, s: Scopes, depth: nat): (r: Result<Completion>)
    requires s != []
    ensures r.Ok? ==> |r.value.scopes| == |s|
    decreases depth, st, 0, 0
  {
    match st
    case Do(e) => Eval(lib, e, s, depth)
    case Let(p, init) =>
      var c :- if init.None? then Ok(Quiet(NoneVal, s)) else assert init < st; Eval(lib, init.value, s, depth);
      if c.event.Some? then Ok(c.(value := NoneVal))
      else
        var m := Match(p, c.value);
        if m.ok then Ok(c.(value := NoneVal, scopes := DefineAll(c.scopes, m.binds))) else Err(Mismatch)
  }

  /** What a loop does after its body has completed. */
  datatype Step = Stop(result: Result<Completion>) | Go(out: Value, scopes: Scopes)

  /** Break and continue are consumed, return ends the loop; `pending` occurred before the body ran. */
  function AfterBody(out: Value, pending: Option<Event>, b: Completion): (step: Step)
    ensures step.Stop? && step.result.Ok? ==> step.result.value.scopes == b.scopes
    ensures step.Go? ==> step.scopes == b.scopes
  {
    match Join(out, b.value)
    case Err(x) => Stop(Err(x))
    case Ok(out') =>
      match After(pending, b)
      case Some(BreakEvent) => Stop(Ok(Quiet(out', b.scopes)))
      case Some(ReturnEvent(v, c)) => Stop(Ok(Completion(out', Some(ReturnEvent(v, c)), false, b.scopes)))
      case _ => Go(out', b.scopes)
  }

  /** Whether a while loop whose condition is `v` runs its body for the `i`th time. */
  function Guard(w: Expr, i: nat, v: Value): (r: Result<bool>)
    requires w.While?
    ensures r == Ok(true) ==> i < MAX_ITERATIONS
  {
    if !v.BoolVal? then Err(Mismatch)
    else if !v.b then Ok(false)
    else if i == 0 && IsInvariant(w.cond) && !CanDiverge(w.loop) then Err(AlwaysTrue)
    else if i >= MAX_ITERATIONS then Err(Infinite)
    else Ok(true)
  }

  /** Iteration `i` of the while loop `w`. */
  function EvalWhile(lib: Library, w: Expr, i: nat, out: Value, s: Scopes, depth: nat): (r: Result<Completion>)
    requires w.While? && i <= MAX_ITERATIONS
    ensures r.Ok? ==> |r.value.scopes| == |s|
    decreases depth, w, 0, MAX_ITERATIONS - i
  {
    var c :- Eval(lib, w.cond, s, depth);
    var enter :- Guard(w, i, c.value);
    if !enter then Ok(c.(value := out))
    else
      var b :- Eval(lib, w.loop, c.scopes, depth);
      match AfterBody(out, c.event, b)
      case Stop(r) => r
      case Go(out', t) => EvalWhile(lib, w, i + 1, out', t, depth)
  }

  /** The remaining iterations of the for loop `f`; an event of the iterable is pending in the first. */
  function EvalFor(lib: Library, f: Expr, vs: seq<Value>, pending: Option<Event>, out: Value, s: Scopes, depth: nat)
    : (r: Result<Completion>)
    requires f.For? && s != []
    ensures r.Ok? ==> |r.value.scopes| == |s|
    decreases depth, f, 0, |vs|
  {
    if vs == [] then Ok(Completion(out, pending, false, s))
    else
      var m := Match(f.pattern, vs[0]);
      if !m.ok then Err(Mismatch)
      else
        var b :- Eval(lib, f.loop, DefineAll(s, m.binds), depth);
        match AfterBody(out, pending, b)
        case Stop(r) => r
        case Go(out', t) => EvalFor(lib, f, vs[1..], None, out', t, depth)
  }

  /** A program in a given scope; no control flow may be left over at its end. */
  function Program(lib: Library, scope: Frame, ss: seq<Stmt>, depth: nat): (r: Result<Value>) {
    var c :- EvalStmts(lib, ss, NoneVal, [scope, map[]], depth);
    if c.event.Some? then Err(Forbidden) else Ok(c.value)
  }
}
