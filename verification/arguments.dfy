/** Argument lists, and how a call distributes them over the parameters of a closure. */
module Arguments {
  import opened Options
  import opened Values
  import opened Patterns

  function Positional(args: seq<Arg>): (r: seq<Arg>) {
    if args == [] then []
    else if args[0].name.None? then [args[0]] + Positional(args[1..])
    else Positional(args[1..])
  }

  function NamedArgs(args: seq<Arg>): (r: seq<Arg>) {
    if args == [] then []
    else if args[0].name.Some? then [args[0]] + NamedArgs(args[1..])
    else NamedArgs(args[1..])
  }

  /** The arguments whose name is not `n`. */
  function Without(args: seq<Arg>, n: string): seq<Arg> {
    if args == [] then []
    else if args[0].name == Some(n) then Without(args[1..], n)
    else [args[0]] + Without(args[1..], n)
  }

  lemma {:induction false} WithoutSnoc(args: seq<Arg>, a: Arg, n: string)
    ensures Without(args + [a], n) == Without(args, n) + if a.name == Some(n) then [] else [a]
  {
    if args != [] {
      assert (args + [a])[1..] == args[1..] + [a];
      WithoutSnoc(args[1..], a, n);
    }
  }

  /** The last argument named `n` wins. */
  function Last(args: seq<Arg>, n: string): Option<Value> {
    if args == [] then None
    else if args[|args| - 1].name == Some(n) then Some(args[|args| - 1].value)
    else Last(args[..|args| - 1], n)
  }

  lemma LastSnoc(args: seq<Arg>, a: Arg, n: string)
    ensures Last(args + [a], n) == if a.name == Some(n) then Some(a.value) else Last(args, n)
  {
    assert (args + [a])[..|args|] == args;
  }

  /** Splits off the first `n` positional arguments. */
  function Take(args: seq<Arg>, n: nat): (r: Result<(seq<Arg>, seq<Arg>)>)
    ensures r.Ok? ==> |r.value.0| == n
    ensures r.Err? ==> r.error == Mismatch
  {
    if n == 0 then Ok(([], args))
    else if args == [] then Err(Mismatch)
    else if args[0].name.None? then
      var (taken, rest) :- Take(args[1..], n - 1);
      Ok(([args[0]] + taken, rest))
    else
      var (taken, rest) :- Take(args[1..], n);
      Ok((taken, [args[0]] + rest))
  }

  /** What has been bound so far, and what is left to bind from. */
  datatype Binder = Binder(
    binds: seq<Entry>,
    args: seq<Arg>,
    defaults: seq<Value>,
    sink: Option<Option<string>>,
    sunk: seq<Arg>)

  /** Binds one parameter; `size` is the number of positionals for a sink, if they suffice. */
  function BindParam(p: Param, st: Binder, size: Option<nat>): (r: Result<Binder>)
    ensures r.Err? ==> r.error == Mismatch
  {
    match p
    case PosParam(pattern) =>
      var (taken, rest) :- Take(st.args, 1);
      var m := Match(pattern, taken[0].value);
      if m.ok then Ok(st.(binds := st.binds + m.binds, args := rest)) else Err(Mismatch)
    case NamedParam(n, _) =>
      if st.defaults == [] then Err(Mismatch)  // closures carry one default per named parameter
      else
        var v := match Last(st.args, n) case Some(v) => v case None => st.defaults[0];
        Ok(st.(binds := st.binds + [Entry(n, v)], args := Without(st.args, n), defaults := st.defaults[1..]))
    case SinkParam(sink) =>
      match size
      case None => Ok(st.(sink := Some(sink)))
      case Some(k) =>
        var (taken, rest) :- Take(st.args, k);
        Ok(st.(sink := Some(sink), sunk := taken, args := rest))
  }

  function BindParams(ps: seq<Param>, st: Binder, size: Option<nat>): (r: Result<Binder>)
    ensures r.Err? ==> r.error == Mismatch
  {
    if ps == [] then Ok(st)
    else
      var next :- BindParam(ps[0], st, size);
      BindParams(ps[1..], next, size)
  }

  /** Without a sink every argument must be used up; with one, it collects the rest. */
  function Collect(st: Binder): (r: Result<seq<Entry>>)
    ensures r.Err? ==> r.error == Mismatch
  {
    match st.sink
    case None => if st.args == [] then Ok(st.binds) else Err(Mismatch)
    case Some(None) => Ok(st.binds)
    case Some(Some(n)) => Ok(st.binds + [Entry(n, ArgsVal(st.args + st.sunk))])
  }

  function PosCount(ps: seq<Param>): nat {
    if ps == [] then 0 else (if ps[0].PosParam? then 1 else 0) + PosCount(ps[1..])
  }

  function SinkSize(c: Closure, args: seq<Arg>): Option<nat> {
    if |Positional(args)| < PosCount(c.params) then None else Some(|Positional(args)| - PosCount(c.params))
  }

  /** A named closure sees itself under its own name. */
  function SelfBind(c: Closure): seq<Entry> {
    match c.self
    case None => []
    case Some(n) => [Entry(n, FuncVal(c))]
  }

  /** The bindings a call of `c` with `args` makes, in order. */
  function BindCall(c: Closure, args: seq<Arg>): (r: Result<seq<Entry>>)
    ensures r.Err? ==> r.error == Mismatch
  {
    var st :- BindParams(c.params, Binder(SelfBind(c), args, c.defaults, None, []), SinkSize(c, args));
    Collect(st)
  }
}
