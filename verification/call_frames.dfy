/** What the body of a closure finds under each name when it is called. */
module CallFrames {
  import opened Options
  import opened Values
  import opened Scoping
  import opened Patterns
  import opened Arguments
  import opened Static
  import opened Reference
  import opened BindingLaws
  import opened Sequencing
  import FreeNames
  import CaptureSoundness

  // ----- Arguments by position and by name -----

  predicate LastNamed(args: seq<Arg>, n: string, v: Value) {
    exists i :: 0 <= i < |args| && args[i] == Arg(Some(n), v) && NotAfter(args, i, n)
  }

  predicate NotAfter(args: seq<Arg>, i: nat, n: string) {
    forall j :: i < j < |args| ==> args[j].name != Some(n)
  }

  /** The last of several arguments with a name counts. */
  lemma {:induction false} LastIs(args: seq<Arg>, n: string)
    ensures forall v :: Last(args, n) == Some(v) <==> LastNamed(args, n, v)
    ensures Last(args, n).None? <==> forall a <- args :: a.name != Some(n)
  {
    if args != [] {
      var k := |args| - 1;
      var front := args[..k];
      LastIs(front, n);
      assert forall a :: a in args <==> a in front || a == args[k];
      forall v ensures Last(args, n) == Some(v) <==> LastNamed(args, n, v) {
        LastNamedNext(args, n, v);
      }
    }
  }

  lemma LastNamedNext(args: seq<Arg>, n: string, v: Value)
    requires args != []
    ensures var k := |args| - 1;
      LastNamed(args, n, v) <==> if args[k].name == Some(n) then args[k].value == v else LastNamed(args[..k], n, v)
  {
    var k := |args| - 1;
    if args[k].name == Some(n) {
      assert NotAfter(args, k, n);
      assert args[k] == Arg(Some(n), args[k].value);
    } else {
      if i :| 0 <= i < k && args[..k][i] == Arg(Some(n), v) && NotAfter(args[..k], i, n) {
        assert NotAfter(args, i, n);
      }
      if i :| 0 <= i < |args| && args[i] == Arg(Some(n), v) && NotAfter(args, i, n) {
        assert args[..k][i] == args[i] && NotAfter(args[..k], i, n);
      }
    }
  }

  function UnnamedBefore(args: seq<Arg>, i: nat): nat
    requires i <= |args|
  {
    if i == 0 then 0 else UnnamedBefore(args, i - 1) + if args[i - 1].name.None? then 1 else 0
  }

  /** The positional arguments are the unnamed ones, in order. */
  lemma {:induction false} PositionalIs(args: seq<Arg>, i: nat)
    requires i < |args| && args[i].name.None?
    ensures UnnamedBefore(args, i) < |Positional(args)| && Positional(args)[UnnamedBefore(args, i)] == args[i]
    decreases |args|
  {
    if i > 0 {
      UnnamedNext(args, i);
      PositionalIs(args[1..], i - 1);
    }
  }

  lemma {:induction false} UnnamedNext(args: seq<Arg>, i: nat)
    requires 0 < i <= |args|
    ensures UnnamedBefore(args, i) == UnnamedBefore(args[1..], i - 1) + if args[0].name.None? then 1 else 0
    decreases i
  {
    if i > 1 {
      UnnamedNext(args, i - 1);
    }
  }

  lemma {:induction false} PositionalCount(args: seq<Arg>)
    ensures |Positional(args)| == UnnamedBefore(args, |args|)
  {
    if args != [] {
      UnnamedNext(args, |args|);
      PositionalCount(args[1..]);
    }
  }

  // ----- Names in the frame of a call -----

  /** No parameter from `i` on binds the name. */
  predicate FreeFrom(f: Closure, i: nat, n: string) {
    forall j :: i <= j < |f.params| ==> !FreeNames.ParamBinds(f.params[j], n)
  }

  lemma {:induction false} LastOfAppend(a: seq<Entry>, b: seq<Entry>, n: string)
    ensures LastOf(a + b, n) == if LastOf(b, n).Some? then LastOf(b, n) else LastOf(a, n)
    decreases |b|
  {
    if b == [] {
      assert a + b == a;
    } else {
      assert (a + b)[..|a + b| - 1] == a + b[..|b| - 1];
      LastOfAppend(a, b[..|b| - 1], n);
    }
  }

  lemma {:induction false} NotAKey(bs: seq<Entry>, n: string)
    requires n !in CaptureSoundness.Keys(bs)
    ensures LastOf(bs, n).None?
    decreases |bs|
  {
    if bs != [] {
      var front := bs[..|bs| - 1];
      assert bs[|bs| - 1] in bs && forall b <- front :: b in bs;
      NotAKey(front, n);
    }
  }

  /** A parameter that does not bind the name leaves what is found under it. */
  lemma ParamLeaves(f: Closure, args: seq<Arg>, i: nat, n: string)
    requires i < |f.params| && PosCount(f.params) <= |Positional(args)|
    requires !FreeNames.ParamBinds(f.params[i], n)
    ensures LastOf(ParamBinds(f, args, i).binds, n).None?
  {
    match f.params[i]
    case PosParam(p) =>
      var j := PosIndex(f, args, i);
      if j < |Positional(args)| {
        FreeNames.PatternNamesAre(p, n);
        CaptureSoundness.MatchNames(p, Positional(args)[j].value);
        NotAKey(Match(p, Positional(args)[j].value).binds, n);
      }
    case NamedParam(_, _) => assert ParamBinds(f, args, i).binds[..0] == [];
    case SinkParam(_) =>
  }

  lemma {:induction false} OthersLeave(f: Closure, args: seq<Arg>, i: nat, k: nat, n: string)
    requires i <= k <= |f.params| && PosCount(f.params) <= |Positional(args)| && FreeFrom(f, i, n)
    ensures LastOf(AllBinds(f, args, k).binds, n) == LastOf(AllBinds(f, args, i).binds, n)
    decreases k
  {
    if i < k {
      OthersLeave(f, args, i, k - 1, n);
      ParamLeaves(f, args, k - 1, n);
      LastOfAppend(AllBinds(f, args, k - 1).binds, ParamBinds(f, args, k - 1).binds, n);
    }
  }

  /** The scope in which the body runs. */
  function Frame(f: Closure, args: seq<Arg>): Scopes
    requires BindCall(f, args).Ok?
  {
    DefineAll([CapturedFrame(f.captured)], BindCall(f, args).value)
  }

  /** The sink is defined last, and no other parameter touches it or is touched by it. */
  lemma SinkAside(f: Closure, args: seq<Arg>, n: string)
    requires WellMade(f) && BindCall(f, args).Ok?
    requires forall j :: 0 <= j < |f.params| && f.params[j].SinkParam? ==> f.params[j].sink != Some(n)
    ensures Accepts(f, args)
    ensures LastOf(BindCall(f, args).value, n) == LastOf(AllBinds(f, args, |f.params|).binds, n)
  {
    BindsIffAccepts(f, args);
    BindingLaw(f, args);
    if j :| 0 <= j < |f.params| && f.params[j].SinkParam? && f.params[j].sink.Some? {
      var e := Entry(f.params[j].sink.value, ArgsVal(SinkArgs(f, args, j)));
      LastOfAppend(AllBinds(f, args, |f.params|).binds, [e], n);
      assert [e][..0] == [];
    }
  }

  /** A parameter is found with its argument unless a later parameter binds the name again. */
  lemma ParameterFinds(f: Closure, args: seq<Arg>, i: nat, n: string)
    requires WellMade(f) && BindCall(f, args).Ok? && i < |f.params| && FreeFrom(f, i + 1, n)
    requires f.params[i] == PosParam(Bind(n)) || (f.params[i].NamedParam? && f.params[i].name == n)
    requires forall j :: 0 <= j < i && f.params[j].SinkParam? ==> f.params[j].sink != Some(n)
    ensures PosCount(f.params) <= |Positional(args)|
    ensures f.params[i].PosParam? ==>
      var k := PosIndex(f, args, i);
      k < |Positional(args)| && Find(Frame(f, args), n) == Some(Binding(Positional(args)[k].value, false))
    ensures f.params[i].NamedParam? ==>
      var k := NamedCount(f.params[..i]);
      if exists v :: LastNamed(args, n, v) then
        exists v :: LastNamed(args, n, v) && Find(Frame(f, args), n) == Some(Binding(v, false))
      else k < |f.defaults| && Find(Frame(f, args), n) == Some(Binding(f.defaults[k], false))
  {
    SinkAside(f, args, n);
    OthersLeave(f, args, i + 1, |f.params|, n);
    var m := ParamBinds(f, args, i);
    LastOfAppend(AllBinds(f, args, i).binds, m.binds, n);
    DefinitionsStick([CapturedFrame(f.captured)], BindCall(f, args).value, n);
    AllOk(f, args, i + 1, |f.params|);
    if f.params[i].NamedParam? {
      LastIs(args, n);
      NamedFits(f.params, i);
    }
  }

  lemma {:induction false} AllOk(f: Closure, args: seq<Arg>, i: nat, k: nat)
    requires i <= k <= |f.params| && PosCount(f.params) <= |Positional(args)| && AllBinds(f, args, k).ok
    ensures AllBinds(f, args, i).ok
    decreases k
  {
    if i < k {
      AllOk(f, args, i, k - 1);
    }
  }

  lemma {:induction false} NamedFits(ps: seq<Param>, i: nat)
    requires i < |ps| && ps[i].NamedParam?
    ensures NamedCount(ps[..i]) < NamedCount(ps)
  {
    if i == 0 {
      assert ps[..0] == [];
    } else {
      assert ps[..i][1..] == ps[1..][..i - 1];
      NamedFits(ps[1..], i - 1);
    }
  }

  /** The sink is found with the unclaimed named arguments and the surplus positional ones. */
  lemma SinkFinds(f: Closure, args: seq<Arg>, i: nat, n: string)
    requires WellMade(f) && BindCall(f, args).Ok? && i < |f.params| && f.params[i] == SinkParam(Some(n))
    ensures PosCount(f.params) <= |Positional(args)|
    ensures Find(Frame(f, args), n) == Some(Binding(ArgsVal(SinkArgs(f, args, i)), false))
  {
    BindsIffAccepts(f, args);
    BindingLaw(f, args);
    var e := Entry(n, ArgsVal(SinkArgs(f, args, i)));
    LastOfAppend(AllBinds(f, args, |f.params|).binds, [e], n);
    DefinitionsStick([CapturedFrame(f.captured)], BindCall(f, args).value, n);
  }

  /** Any other name is that of the closure itself, or captured, or unknown. */
  lemma OuterFinds(f: Closure, args: seq<Arg>, n: string)
    requires WellMade(f) && BindCall(f, args).Ok? && FreeFrom(f, 0, n)
    ensures Find(Frame(f, args), n)
         == if f.self == Some(n) then Some(Binding(FuncVal(f), false))
            else if n in f.captured then Some(Binding(f.captured[n], true))
            else None
  {
    forall j | 0 <= j < |f.params| && f.params[j].SinkParam? ensures f.params[j].sink != Some(n) {
      assert !FreeNames.ParamBinds(f.params[j], n);
    }
    SinkAside(f, args, n);
    OthersLeave(f, args, 0, |f.params|, n);
    DefinitionsStick([CapturedFrame(f.captured)], BindCall(f, args).value, n);
    assert SelfBind(f) != [] ==> SelfBind(f)[..0] == [];
  }
}
