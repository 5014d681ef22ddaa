/** How a call distributes its arguments, stated without the order in which they are consumed. */
module BindingLaws {
  import opened Options
  import opened Values
  import opened Patterns
  import opened Arguments
  import opened Static

  function NamedCount(ps: seq<Param>): nat {
    if ps == [] then 0 else (if ps[0].NamedParam? then 1 else 0) + NamedCount(ps[1..])
  }

  /** The named arguments that no parameter asks for. */
  function Unclaimed(args: seq<Arg>, ps: seq<Param>): seq<Arg> {
    if args == [] then []
    else if args[0].name.Some? && !Claims(ps, args[0].name.value) then [args[0]] + Unclaimed(args[1..], ps)
    else Unclaimed(args[1..], ps)
  }

  predicate Claims(ps: seq<Param>, n: string) {
    exists i :: 0 <= i < |ps| && ps[i].NamedParam? && ps[i].name == n
  }

  /** What the parser and closure creation guarantee. */
  ghost predicate WellMade(f: Closure) {
    && SinkCount(f.params) <= 1
    && |f.defaults| == NamedCount(f.params)
    && forall i, j :: 0 <= i < j < |f.params| && f.params[i].NamedParam? && f.params[j].NamedParam?
                      ==> f.params[i].name != f.params[j].name
  }

  /** The positional argument for parameter `i`: a sink before it takes the surplus. */
  function PosIndex(f: Closure, args: seq<Arg>, i: nat): nat
    requires i <= |f.params| && PosCount(f.params) <= |Positional(args)|
  {
    PosCount(f.params[..i])
    + if SinkCount(f.params[..i]) > 0 then |Positional(args)| - PosCount(f.params) else 0
  }

  /** What parameter `i` binds. */
  function ParamBinds(f: Closure, args: seq<Arg>, i: nat): Matched
    requires i < |f.params| && PosCount(f.params) <= |Positional(args)|
  {
    match f.params[i]
    case PosParam(p) =>
      var j := PosIndex(f, args, i);
      if j < |Positional(args)| then Match(p, Positional(args)[j].value) else Failed
    case NamedParam(n, _) =>
      var d := NamedCount(f.params[..i]);
      One(n, match Last(args, n)
             case Some(v) => v
             case None => if d < |f.defaults| then f.defaults[d] else NoneVal)
    case SinkParam(_) => Matched([], true)
  }

  /** The bindings of the first `i` parameters. */
  function AllBinds(f: Closure, args: seq<Arg>, i: nat): Matched
    requires i <= |f.params| && PosCount(f.params) <= |Positional(args)|
  {
    if i == 0 then Matched(SelfBind(f), true)
    else
      var m := AllBinds(f, args, i - 1);
      Matched(m.binds + ParamBinds(f, args, i - 1).binds, m.ok && ParamBinds(f, args, i - 1).ok)
  }

  /** The sink's arguments: unclaimed named ones, then the surplus positionals. */
  function SinkArgs(f: Closure, args: seq<Arg>, i: nat): seq<Arg>
    requires i < |f.params| && PosCount(f.params) <= |Positional(args)|
  {
    var from := PosCount(f.params[..i]);
    var surplus := |Positional(args)| - PosCount(f.params);
    Unclaimed(args, f.params) +
    if from + surplus <= |Positional(args)| then Positional(args)[from..from + surplus] else []
  }

  // ----- The consuming operations, seen through the two projections -----

  lemma {:induction false} TakeSplits(args: seq<Arg>, n: nat)
    ensures Take(args, n).Ok? <==> n <= |Positional(args)|
    ensures match Take(args, n)
            case Err(_) => true
            case Ok((taken, rest)) =>
              && taken == Positional(args)[..n]
              && Positional(rest) == Positional(args)[n..]
              && NamedArgs(rest) == NamedArgs(args)
  {
    if n > 0 && args != [] {
      TakeSplits(args[1..], if args[0].name.None? then n - 1 else n);
      var t := Take(args, n);
      if t.Ok? && args[0].name.Some? {
        assert t.value.1[0] == args[0] && t.value.1[1..] == Take(args[1..], n).value.1;
      }
    }
  }

  lemma {:induction false} WithoutSplits(args: seq<Arg>, n: string)
    ensures Positional(Without(args, n)) == Positional(args)
    ensures NamedArgs(Without(args, n)) == Without(NamedArgs(args), n)
  {
    if args != [] {
      WithoutSplits(args[1..], n);
      if args[0].name != Some(n) {
        var w := Without(args, n);
        assert w[0] == args[0] && w[1..] == Without(args[1..], n);
      }
    }
  }

  lemma {:induction false} LastStays(args: seq<Arg>, m: string, n: string)
    requires m != n
    ensures Last(Without(args, m), n) == Last(args, n)
  {
    if args != [] {
      var front, a := args[..|args| - 1], args[|args| - 1];
      assert args == front + [a];
      LastStays(front, m, n);
      WithoutSnoc(front, a, m);
      assert Without(front, m) + [] == Without(front, m);
      LastSnoc(front, a, n);
      LastSnoc(Without(front, m), a, n);
    }
  }

  lemma {:induction false} LastOfNamed(args: seq<Arg>, n: string)
    ensures Last(NamedArgs(args), n) == Last(args, n)
  {
    if args != [] {
      var front, a := args[..|args| - 1], args[|args| - 1];
      assert args == front + [a];
      LastOfNamed(front, n);
      NamedLast(front, a);
      assert NamedArgs(front) + [] == NamedArgs(front);
      LastSnoc(front, a, n);
      LastSnoc(NamedArgs(front), a, n);
    }
  }

  lemma {:induction false} NamedLast(args: seq<Arg>, a: Arg)
    ensures NamedArgs(args + [a]) == NamedArgs(args) + if a.name.Some? then [a] else []
  {
    if args != [] {
      assert (args + [a])[1..] == args[1..] + [a];
      NamedLast(args[1..], a);
    }
  }

  /** The named arguments left after the first `i` parameters took theirs. */
  function LeftOver(args: seq<Arg>, ps: seq<Param>): seq<Arg> {
    if ps == [] then args
    else
      var l := LeftOver(args, ps[..|ps| - 1]);
      if ps[|ps| - 1].NamedParam? then Without(l, ps[|ps| - 1].name) else l
  }

  lemma {:induction false} LastOfLeftOver(args: seq<Arg>, ps: seq<Param>, n: string)
    requires !Claims(ps, n)
    ensures Last(LeftOver(args, ps), n) == Last(args, n)
  {
    if ps != [] {
      var front, p := ps[..|ps| - 1], ps[|ps| - 1];
      assert forall i :: 0 <= i < |front| ==> front[i] == ps[i];
      LastOfLeftOver(args, front, n);
      if p.NamedParam? {
        assert ps[|ps| - 1].name != n;
        LastStays(LeftOver(args, front), p.name, n);
      }
    }
  }

  lemma {:induction false} LeftOverIsUnclaimed(args: seq<Arg>, ps: seq<Param>)
    ensures LeftOver(NamedArgs(args), ps) == Unclaimed(args, ps)
  {
    if ps == [] {
      NoneClaimed(args);
    } else {
      var front, p := ps[..|ps| - 1], ps[|ps| - 1];
      LeftOverIsUnclaimed(args, front);
      UnclaimedOneMore(args, front, p);
      assert ps == front + [p];
    }
  }

  lemma {:induction false} NoneClaimed(args: seq<Arg>)
    ensures NamedArgs(args) == Unclaimed(args, [])
  {
    if args != [] {
      NoneClaimed(args[1..]);
    }
  }

  lemma {:induction false} UnclaimedOneMore(args: seq<Arg>, ps: seq<Param>, p: Param)
    ensures Unclaimed(args, ps + [p]) ==
            if p.NamedParam? then Without(Unclaimed(args, ps), p.name) else Unclaimed(args, ps)
  {
    if args != [] {
      UnclaimedOneMore(args[1..], ps, p);
      if args[0].name.Some? {
        var n := args[0].name.value;
        assert Claims(ps + [p], n) <==> Claims(ps, n) || (p.NamedParam? && p.name == n) by {
          if Claims(ps, n) {
            var i :| 0 <= i < |ps| && ps[i].NamedParam? && ps[i].name == n;
            assert (ps + [p])[i] == ps[i];
          }
          assert (ps + [p])[|ps|] == p;
        }
        if !Claims(ps, n) {
          var u := Unclaimed(args, ps);
          assert u[0] == args[0] && u[1..] == Unclaimed(args[1..], ps);
        }
      }
    }
  }

  lemma {:induction false} OnlyNamed(args: seq<Arg>)
    requires Positional(args) == []
    ensures NamedArgs(args) == args
  {
    if args != [] {
      OnlyNamed(args[1..]);
    }
  }

  // ----- Counting over prefixes -----

  lemma {:induction false} CountsOneMore(ps: seq<Param>, p: Param)
    ensures PosCount(ps + [p]) == PosCount(ps) + if p.PosParam? then 1 else 0
    ensures NamedCount(ps + [p]) == NamedCount(ps) + if p.NamedParam? then 1 else 0
    ensures SinkCount(ps + [p]) == SinkCount(ps) + if p.SinkParam? then 1 else 0
  {
    if ps != [] {
      assert (ps + [p])[1..] == ps[1..] + [p];
      CountsOneMore(ps[1..], p);
    }
  }

  lemma {:induction false} CountsSplit(ps: seq<Param>, i: nat)
    requires i <= |ps|
    ensures PosCount(ps) == PosCount(ps[..i]) + PosCount(ps[i..])
    ensures NamedCount(ps) == NamedCount(ps[..i]) + NamedCount(ps[i..])
    ensures SinkCount(ps) == SinkCount(ps[..i]) + SinkCount(ps[i..])
    decreases |ps| - i
  {
    if i == |ps| {
      assert ps[..i] == ps;
    } else {
      CountsSplit(ps, i + 1);
      assert ps[..i + 1] == ps[..i] + [ps[i]];
      CountsOneMore(ps[..i], ps[i]);
      assert ps[i..][1..] == ps[i + 1..];
    }
  }

  // ----- The state of the binder after `i` parameters -----

  ghost predicate At(f: Closure, args: seq<Arg>, i: nat, st: Binder)
    requires i <= |f.params| && PosCount(f.params) <= |Positional(args)|
  {
    AtArgs(f, args, i, st) && AtSink(f, args, i, st)
  }

  /** What is bound and what is left to bind from. */
  ghost predicate AtArgs(f: Closure, args: seq<Arg>, i: nat, st: Binder)
    requires i <= |f.params| && PosCount(f.params) <= |Positional(args)|
  {
    var ps := f.params;
    var P := Positional(args);
    && PosIndex(f, args, i) <= |P| && Positional(st.args) == P[PosIndex(f, args, i)..]
    && NamedArgs(st.args) == LeftOver(NamedArgs(args), ps[..i])
    && NamedCount(ps[..i]) <= |f.defaults| && st.defaults == f.defaults[NamedCount(ps[..i])..]
    && st.binds == AllBinds(f, args, i).binds
  }

  /** What the sink has, if it came already. */
  ghost predicate AtSink(f: Closure, args: seq<Arg>, i: nat, st: Binder)
    requires i <= |f.params| && PosCount(f.params) <= |Positional(args)|
  {
    && (SinkCount(f.params[..i]) == 0 ==> st.sink == None)
    && (forall j :: 0 <= j < i && f.params[j].SinkParam? ==>
          st.sink == Some(f.params[j].sink) && Unclaimed(args, f.params) + st.sunk == SinkArgs(f, args, j))
  }

  ghost function Surplus(f: Closure, args: seq<Arg>): nat
    requires PosCount(f.params) <= |Positional(args)|
  {
    |Positional(args)| - PosCount(f.params)
  }

  lemma PrefixCounts(f: Closure, i: nat)
    requires i < |f.params|
    ensures var ps := f.params;
            && ps[..i + 1] == ps[..i] + [ps[i]]
            && PosCount(ps[..i + 1]) == PosCount(ps[..i]) + (if ps[i].PosParam? then 1 else 0) <= PosCount(ps)
            && NamedCount(ps[..i + 1]) == NamedCount(ps[..i]) + (if ps[i].NamedParam? then 1 else 0) <= NamedCount(ps)
            && SinkCount(ps[..i + 1]) == SinkCount(ps[..i]) + (if ps[i].SinkParam? then 1 else 0) <= SinkCount(ps)
  {
    var ps := f.params;
    assert ps[..i + 1] == ps[..i] + [ps[i]];
    CountsOneMore(ps[..i], ps[i]);
    CountsSplit(ps, i + 1);
  }

  lemma AdvancePositional(f: Closure, args: seq<Arg>, i: nat, st: Binder)
    requires WellMade(f) && i < |f.params| && PosCount(f.params) <= |Positional(args)| && At(f, args, i, st)
    requires f.params[i].PosParam?
    ensures var r := BindParam(f.params[i], st, Some(Surplus(f, args)));
            (r.Ok? <==> ParamBinds(f, args, i).ok) && (r.Ok? ==> At(f, args, i + 1, r.value))
  {
    PrefixCounts(f, i);
    TakeSplits(st.args, 1);
    assert f.params[..i + 1][..i] == f.params[..i];
  }

  lemma AdvanceNamed(f: Closure, args: seq<Arg>, i: nat, st: Binder)
    requires WellMade(f) && i < |f.params| && PosCount(f.params) <= |Positional(args)| && At(f, args, i, st)
    requires f.params[i].NamedParam?
    ensures var r := BindParam(f.params[i], st, Some(Surplus(f, args)));
            (r.Ok? <==> ParamBinds(f, args, i).ok) && (r.Ok? ==> At(f, args, i + 1, r.value))
  {
    var n := f.params[i].name;
    PrefixCounts(f, i);
    WithoutSplits(st.args, n);
    assert !Claims(f.params[..i], n);
    LastOfLeftOver(NamedArgs(args), f.params[..i], n);
    LastOfNamed(st.args, n);
    LastOfNamed(args, n);
    assert f.params[..i + 1][..i] == f.params[..i];
  }

  lemma Slices(s: seq<Arg>, q: nat, k: nat)
    requires q + k <= |s|
    ensures s[q..][..k] == s[q..q + k] && s[q..][k..] == s[q + k..]
  {
  }

  /** A sink takes the first `k` of the positionals that are left. */
  lemma SinkTakes(p: Param, st: Binder, P: seq<Arg>, q: nat, k: nat)
    requires p.SinkParam? && q + k <= |P| && Positional(st.args) == P[q..]
    ensures var r := BindParam(p, st, Some(k));
            && r.Ok? && r.value == st.(sink := Some(p.sink), sunk := r.value.sunk, args := r.value.args)
            && r.value.sunk == P[q..q + k]
            && Positional(r.value.args) == P[q + k..] && NamedArgs(r.value.args) == NamedArgs(st.args)
  {
    TakeSplits(st.args, k);
    Slices(P, q, k);
  }

  lemma AdvanceSink(f: Closure, args: seq<Arg>, i: nat, st: Binder)
    requires WellMade(f) && i < |f.params| && PosCount(f.params) <= |Positional(args)| && At(f, args, i, st)
    requires f.params[i].SinkParam?
    ensures var r := BindParam(f.params[i], st, Some(Surplus(f, args)));
            r.Ok? && ParamBinds(f, args, i).ok && At(f, args, i + 1, r.value)
  {
    var k := Surplus(f, args);
    PrefixCounts(f, i);
    SinkTakes(f.params[i], st, Positional(args), PosCount(f.params[..i]), k);
    assert f.params[..i + 1][..i] == f.params[..i];
    assert AtArgs(f, args, i + 1, BindParam(f.params[i], st, Some(k)).value);
    SinkArrives(f, args, i, BindParam(f.params[i], st, Some(k)).value);
  }

  /** The sink, at `i`, has its arguments. */
  lemma SinkArrives(f: Closure, args: seq<Arg>, i: nat, st: Binder)
    requires WellMade(f) && i < |f.params| && PosCount(f.params) <= |Positional(args)| && f.params[i].SinkParam?
    requires var q, k := PosCount(f.params[..i]), Surplus(f, args);
             q + k <= |Positional(args)| && st.sunk == Positional(args)[q..q + k] && st.sink == Some(f.params[i].sink)
    ensures AtSink(f, args, i + 1, st)
  {
    PrefixCounts(f, i);
    NoEarlierSink(f.params, i);
  }

  lemma Advance(f: Closure, args: seq<Arg>, i: nat, st: Binder)
    requires WellMade(f) && i < |f.params| && PosCount(f.params) <= |Positional(args)| && At(f, args, i, st)
    ensures var r := BindParam(f.params[i], st, Some(Surplus(f, args)));
            (r.Ok? <==> ParamBinds(f, args, i).ok) && (r.Ok? ==> At(f, args, i + 1, r.value))
  {
    match f.params[i]
    case PosParam(_) => AdvancePositional(f, args, i, st);
    case NamedParam(_, _) => AdvanceNamed(f, args, i, st);
    case SinkParam(_) => AdvanceSink(f, args, i, st);
  }

  lemma {:induction false} NoEarlierSink(ps: seq<Param>, i: nat)
    requires i <= |ps| && SinkCount(ps[..i]) == 0
    ensures forall j :: 0 <= j < i ==> !ps[j].SinkParam?
  {
    if i > 0 {
      assert ps[..i] == ps[..i - 1] + [ps[i - 1]];
      CountsOneMore(ps[..i - 1], ps[i - 1]);
      NoEarlierSink(ps, i - 1);
    }
  }

  lemma {:induction false} Progress(f: Closure, args: seq<Arg>, i: nat, st: Binder)
    requires WellMade(f) && i <= |f.params| && PosCount(f.params) <= |Positional(args)|
    requires At(f, args, i, st) && AllBinds(f, args, i).ok
    ensures var r := BindParams(f.params[i..], st, Some(Surplus(f, args)));
            && (r.Ok? <==> AllBinds(f, args, |f.params|).ok)
            && (r.Ok? ==> At(f, args, |f.params|, r.value))
    decreases |f.params| - i
  {
    if i < |f.params| {
      assert f.params[i..][0] == f.params[i] && f.params[i..][1..] == f.params[i + 1..];
      Advance(f, args, i, st);
      var r := BindParam(f.params[i], st, Some(Surplus(f, args)));
      if r.Ok? {
        Progress(f, args, i + 1, r.value);
      } else {
        StaysBad(f, args, i + 1, |f.params|);
      }
    }
  }

  lemma {:induction false} StaysBad(f: Closure, args: seq<Arg>, i: nat, j: nat)
    requires i <= j <= |f.params| && PosCount(f.params) <= |Positional(args)| && !AllBinds(f, args, i).ok
    ensures !AllBinds(f, args, j).ok
  {
    if i < j {
      StaysBad(f, args, i, j - 1);
    }
  }

  lemma {:induction false} Shortage(ps: seq<Param>, st: Binder)
    requires |Positional(st.args)| < PosCount(ps)
    ensures BindParams(ps, st, None).Err?
  {
    var r := BindParam(ps[0], st, None);
    if r.Ok? {
      match ps[0] {
        case PosParam(_) => TakeSplits(st.args, 1);
        case NamedParam(n, _) => WithoutSplits(st.args, n);
        case SinkParam(_) =>
      }
      Shortage(ps[1..], r.value);
    }
  }

  lemma {:induction false} NothingLeft(args: seq<Arg>)
    ensures args == [] <==> Positional(args) == [] && NamedArgs(args) == []
  {
  }

  // ----- The laws -----

  /** When a call succeeds in binding its arguments. */
  ghost predicate Accepts(f: Closure, args: seq<Arg>) {
    && PosCount(f.params) <= |Positional(args)|
    && AllBinds(f, args, |f.params|).ok
    && (SinkCount(f.params) == 0 ==> |Positional(args)| == PosCount(f.params) && Unclaimed(args, f.params) == [])
  }

  /** The binder after all parameters. */
  lemma AfterAll(f: Closure, args: seq<Arg>)
    requires WellMade(f) && PosCount(f.params) <= |Positional(args)|
    ensures var r := BindParams(f.params, Binder(SelfBind(f), args, f.defaults, None, []), Some(Surplus(f, args)));
            && (r.Ok? <==> AllBinds(f, args, |f.params|).ok)
            && (r.Ok? ==> At(f, args, |f.params|, r.value))
  {
    var ps := f.params;
    assert ps[0..] == ps && ps[..0] == [];
    Progress(f, args, 0, Binder(SelfBind(f), args, f.defaults, None, []));
  }

  /** What is left after all parameters: nothing that a sink does not collect. */
  lemma LeftForSink(f: Closure, args: seq<Arg>, st: Binder)
    requires WellMade(f) && PosCount(f.params) <= |Positional(args)| && At(f, args, |f.params|, st)
    ensures st.binds == AllBinds(f, args, |f.params|).binds
    ensures SinkCount(f.params) == 0 ==>
              st.sink == None
              && (st.args == [] <==> |Positional(args)| == PosCount(f.params) && Unclaimed(args, f.params) == [])
    ensures SinkCount(f.params) == 1 ==> st.args == Unclaimed(args, f.params)
  {
    var ps := f.params;
    assert ps[..|ps|] == ps;
    LeftOverIsUnclaimed(args, ps);
    NothingLeft(st.args);
    if SinkCount(ps) == 1 {
      OnlyNamed(st.args);
    }
  }

  /** A call binds its arguments if and only if there are enough, every pattern matches and nothing is left. */
  lemma BindsIffAccepts(f: Closure, args: seq<Arg>)
    requires WellMade(f)
    ensures BindCall(f, args).Ok? <==> Accepts(f, args)
  {
    var ps := f.params;
    var st := Binder(SelfBind(f), args, f.defaults, None, []);
    if |Positional(args)| < PosCount(ps) {
      Shortage(ps, st);
    } else {
      AfterAll(f, args);
      var r := BindParams(ps, st, Some(Surplus(f, args)));
      if r.Ok? {
        LeftForSink(f, args, r.value);
        if SinkCount(ps) > 0 {
          var j := TheSink(ps);
        }
      }
    }
  }

  /**
   Parameters get the arguments at their own positions, the last argument of their name or their
   default, and the sink gets all the rest.
   */
  lemma BindingLaw(f: Closure, args: seq<Arg>)
    requires WellMade(f) && Accepts(f, args)
    ensures BindCall(f, args).Ok?
    ensures (forall j :: 0 <= j < |f.params| && f.params[j].SinkParam? ==> f.params[j].sink == None)
            ==> BindCall(f, args).value == AllBinds(f, args, |f.params|).binds
    ensures forall j :: 0 <= j < |f.params| && f.params[j].SinkParam? && f.params[j].sink.Some? ==>
              BindCall(f, args).value
              == AllBinds(f, args, |f.params|).binds + [Entry(f.params[j].sink.value, ArgsVal(SinkArgs(f, args, j)))]
  {
    var ps := f.params;
    AfterAll(f, args);
    var st := BindParams(ps, Binder(SelfBind(f), args, f.defaults, None, []), Some(Surplus(f, args))).value;
    LeftForSink(f, args, st);
    assert ps[..|ps|] == ps;
    if SinkCount(ps) == 0 {
      NoEarlierSink(ps, |ps|);
    } else {
      var j := TheSink(ps);
      SinkSplits(ps, j);
    }
  }

  lemma {:induction false} TheSink(ps: seq<Param>) returns (j: nat)
    requires SinkCount(ps) > 0
    ensures j < |ps| && ps[j].SinkParam?
  {
    if ps[0].SinkParam? {
      j := 0;
    } else {
      j := TheSink(ps[1..]);
      j := j + 1;
    }
  }

  /** Distinct positional parameters get distinct arguments, in order. */
  lemma PositionsIncrease(f: Closure, args: seq<Arg>, i: nat, j: nat)
    requires i < j < |f.params| && f.params[i].PosParam? && f.params[j].PosParam?
    requires WellMade(f) && PosCount(f.params) <= |Positional(args)|
    ensures PosIndex(f, args, i) < PosIndex(f, args, j)
  {
    var ps := f.params;
    CountsSplit(ps[..j], i);
    assert ps[..j][..i] == ps[..i] && ps[..j][i..][0] == ps[i];
  }

  /** What the sink takes is not given to a positional parameter as well. */
  lemma SinkIsApart(f: Closure, args: seq<Arg>, i: nat, j: nat)
    requires WellMade(f) && PosCount(f.params) <= |Positional(args)|
    requires i < |f.params| && f.params[i].PosParam? && j < |f.params| && f.params[j].SinkParam?
    ensures PosIndex(f, args, i) < PosCount(f.params[..j])
         || PosCount(f.params[..j]) + Surplus(f, args) <= PosIndex(f, args, i)
  {
    var ps := f.params;
    SinkSplits(ps, j);
    if i < j {
      CountsSplit(ps[..j], i);
      assert ps[..j][..i] == ps[..i] && ps[..j][i..][0] == ps[i];
    } else {
      CountsSplit(ps[..i], j);
      assert ps[..i][..j] == ps[..j];
    }
  }

  /** Every positional argument goes to a positional parameter or to the sink. */
  lemma NothingIsLost(f: Closure, args: seq<Arg>, q: nat)
    requires WellMade(f) && Accepts(f, args) && q < |Positional(args)|
    ensures (exists i :: 0 <= i < |f.params| && f.params[i].PosParam? && PosIndex(f, args, i) == q)
         || (exists j :: 0 <= j < |f.params| && f.params[j].SinkParam?
                         && 0 <= q - PosCount(f.params[..j]) < Surplus(f, args))
  {
    var ps := f.params;
    if SinkCount(ps) == 0 {
      var i := NthPos(ps, q);
      CountsSplit(ps, i);
      assert PosIndex(f, args, i) == q;
    } else {
      var j := TheSink(ps);
      var from, s := PosCount(ps[..j]), Surplus(f, args);
      CountsSplit(ps, j);
      if !(0 <= q - from < s) {
        var i := NthPos(ps, if q < from then q else q - s);
        SinkSplits(ps, j);
        SinkOrder(ps, i, j);
        assert PosIndex(f, args, i) == q;
      }
    }
  }

  lemma SinkOrder(ps: seq<Param>, i: nat, j: nat)
    requires i < |ps| && j < |ps| && ps[i].PosParam? && ps[j].SinkParam?
    ensures i < j <==> PosCount(ps[..i]) < PosCount(ps[..j])
  {
    if i < j {
      CountsSplit(ps[..j], i);
      assert ps[..j][..i] == ps[..i] && ps[..j][i..][0] == ps[i];
    } else {
      CountsSplit(ps[..i], j);
      assert ps[..i][..j] == ps[..j];
    }
  }

  /** With one sink, at `j`, prefixes contain it exactly when they are longer than `j`. */
  lemma SinkSplits(ps: seq<Param>, j: nat)
    requires j < |ps| && ps[j].SinkParam? && SinkCount(ps) <= 1
    ensures forall i :: 0 <= i <= |ps| ==> SinkCount(ps[..i]) == if j < i then 1 else 0
    ensures forall i :: 0 <= i < |ps| && ps[i].SinkParam? ==> i == j
  {
    forall i | 0 <= i <= |ps| ensures SinkCount(ps[..i]) == if j < i then 1 else 0 {
      CountsSplit(ps, i);
      if j < i {
        CountsSplit(ps[..i], j);
        assert ps[..i][j..][0] == ps[j];
      } else {
        CountsSplit(ps[i..], j - i);
        assert ps[i..][j - i..][0] == ps[j];
      }
    }
    forall i | 0 <= i < |ps| && ps[i].SinkParam? ensures i == j {
      assert ps[..i + 1] == ps[..i] + [ps[i]];
      CountsOneMore(ps[..i], ps[i]);
    }
  }

  lemma {:induction false} NthPos(ps: seq<Param>, q: nat) returns (i: nat)
    requires q < PosCount(ps)
    ensures i < |ps| && ps[i].PosParam? && PosCount(ps[..i]) == q
  {
    if ps[0].PosParam? && q == 0 {
      i := 0;
    } else {
      var k := NthPos(ps[1..], if ps[0].PosParam? then q - 1 else q);
      i := k + 1;
      assert ps[..i][1..] == ps[1..][..k];
    }
  }
}
