/** What the items of arrays, dictionaries and argument lists contribute, in the order in which they stand. */
module Listing {
  import opened Options
  import opened Values
  import opened Scoping
  import opened Reference
  import opened Joining

  /** The values of the items, and the scopes in the end. */
  datatype ItemsRun = ItemsRun(values: seq<Value>, end: Result<Scopes>)

  function RunItems(lib: Library, items: seq<Item>, s: Scopes, depth: nat): (t: ItemsRun)
    ensures t.end.Ok? ==> |t.values| == |items|
  {
    if items == [] then ItemsRun([], Ok(s))
    else match Eval(lib, items[0].expr, s, depth)
      case Err(x) => ItemsRun([], Err(x))
      case Ok(c) =>
        var rest := RunItems(lib, items[1..], c.scopes, depth);
        ItemsRun([c.value] + rest.values, rest.end)
  }

  predicate Allowed(mode: Mode, marker: Marker, v: Value) {
    match marker
    case Plain => !mode.DictItems?
    case Key(_) => !mode.ArrayItems?
    case Spread =>
      || v.NoneVal? || (v.ArrayVal? && !mode.DictItems?) || (v.DictVal? && !mode.ArrayItems?)
      || (v.ArgsVal? && mode.CallItems?)
  }

  ghost predicate AllAllowed(mode: Mode, items: seq<Item>, vs: seq<Value>) {
    |vs| == |items| && forall i :: 0 <= i < |vs| ==> Allowed(mode, items[i].marker, vs[i])
  }

  /** An argument each for the elements of an array and the entries of a dictionary; arguments as they are. */
  ghost predicate Contributes(marker: Marker, v: Value, args: seq<Arg>) {
    match marker
    case Plain => args == [Arg(None, v)]
    case Key(n) => args == [Arg(Some(n), v)]
    case Spread =>
      match v
      case ArrayVal(xs) => |args| == |xs| && forall i :: 0 <= i < |xs| ==> args[i] == Arg(None, xs[i])
      case DictVal(es) => |args| == |es| && forall i :: 0 <= i < |es| ==> args[i] == Arg(Some(es[i].key), es[i].value)
      case ArgsVal(xs) => args == xs
      case _ => args == []
  }

  /** `args` are the contributions of the items, one after the other. */
  ghost predicate Lists(items: seq<Item>, vs: seq<Value>, args: seq<Arg>)
    requires |vs| == |items|
    decreases |items|
  {
    if items == [] then args == []
    else exists n: nat ::
      n <= |args| && Contributes(items[0].marker, vs[0], args[..n]) && Lists(items[1..], vs[1..], args[n..])
  }

  lemma {:induction false} UnnamedAt(xs: seq<Value>)
    ensures |Unnamed(xs)| == |xs| && forall i :: 0 <= i < |xs| ==> Unnamed(xs)[i] == Arg(None, xs[i])
  {
    if xs != [] {
      UnnamedAt(xs[1..]);
    }
  }

  lemma {:induction false} NamedAt(es: seq<Entry>)
    ensures |Named(es)| == |es| && forall i :: 0 <= i < |es| ==> Named(es)[i] == Arg(Some(es[i].key), es[i].value)
  {
    if es != [] {
      NamedAt(es[1..]);
    }
  }

  lemma OneItem(mode: Mode, marker: Marker, v: Value)
    ensures AddItem(mode, marker, v).Ok? <==> Allowed(mode, marker, v)
    ensures AddItem(mode, marker, v).Ok? ==> Contributes(marker, v, AddItem(mode, marker, v).value)
  {
    if v.ArrayVal? {
      UnnamedAt(v.elems);
    } else if v.DictVal? {
      NamedAt(v.entries);
    }
  }

  lemma AllowedNext(mode: Mode, items: seq<Item>, v: Value, vs: seq<Value>)
    requires items != []
    ensures AllAllowed(mode, items, [v] + vs) <==> Allowed(mode, items[0].marker, v) && AllAllowed(mode, items[1..], vs)
  {
    if AllAllowed(mode, items, [v] + vs) {
      assert ([v] + vs)[0] == v;
      forall i | 0 <= i < |vs| ensures Allowed(mode, items[1..][i].marker, vs[i]) {
        assert ([v] + vs)[i + 1] == vs[i];
      }
    }
    if Allowed(mode, items[0].marker, v) && AllAllowed(mode, items[1..], vs) {
      forall i | 0 <= i < |vs| + 1 ensures Allowed(mode, items[i].marker, ([v] + vs)[i]) {
        assert i > 0 ==> ([v] + vs)[i] == vs[i - 1] && items[i] == items[1..][i - 1];
      }
    }
  }

  lemma {:induction false} ListsNext(items: seq<Item>, v: Value, vs: seq<Value>, first: seq<Arg>, acc: seq<Arg>,
                                     args: seq<Arg>)
    requires items != [] && |vs| == |items| - 1 && Contributes(items[0].marker, v, first)
    requires acc + first <= args && Lists(items[1..], vs, args[|acc + first|..])
    ensures acc <= args && Lists(items, [v] + vs, args[|acc|..])
  {
    assert acc <= args;
    var own := args[|acc|..];
    assert own[..|first|] == first && own[|first|..] == args[|acc + first|..];
    assert ([v] + vs)[0] == v && ([v] + vs)[1..] == vs;
  }

  /** `r` is the outcome of a list after `acc`, and `t` the run of its items. */
  ghost predicate Outcome(mode: Mode, items: seq<Item>, acc: seq<Arg>, t: ItemsRun, r: Result<Completion>)
    requires t.end.Ok? ==> |t.values| == |items|
  {
    && (r.Ok? <==> t.end.Ok? && AllAllowed(mode, items, t.values))
    && (r.Ok? ==>
          && r.value.scopes == t.end.value && r.value.value.ArgsVal? && acc <= r.value.value.args
          && Lists(items, t.values, r.value.value.args[|acc|..]))
  }

  lemma OutcomeNext(mode: Mode, items: seq<Item>, v: Value, acc: seq<Arg>, rest: ItemsRun, r: Result<Completion>)
    requires items != [] && (rest.end.Ok? ==> |rest.values| == |items| - 1)
    requires match AddItem(mode, items[0].marker, v)
             case Ok(more) => Outcome(mode, items[1..], acc + more, rest, r)
             case Err(_) => r.Err?
    ensures Outcome(mode, items, acc, ItemsRun([v] + rest.values, rest.end), r)
  {
    OneItem(mode, items[0].marker, v);
    if rest.end.Ok? {
      AllowedNext(mode, items, v, rest.values);
      if r.Ok? {
        ListsNext(items, v, rest.values, AddItem(mode, items[0].marker, v).value, acc, r.value.value.args);
      }
    }
  }

  /** A list succeeds if its items run and are allowed in it; they contribute to it in order. */
  lemma {:induction false} ItemsContribute(lib: Library, mode: Mode, items: seq<Item>, acc: seq<Arg>, s: Scopes,
                                           depth: nat)
    ensures Outcome(mode, items, acc, RunItems(lib, items, s, depth), EvalItems(lib, mode, items, acc, s, depth))
    decreases |items|
  {
    if items == [] {
      assert acc[|acc|..] == [];
    } else {
      assert items[0].expr < items[0];
      var c := Eval(lib, items[0].expr, s, depth);
      if c.Ok? {
        var v, s' := c.value.value, c.value.scopes;
        var more := AddItem(mode, items[0].marker, v);
        if more.Ok? {
          ItemsContribute(lib, mode, items[1..], acc + more.value, s', depth);
        }
        OutcomeNext(mode, items, v, acc, RunItems(lib, items[1..], s', depth),
                    EvalItems(lib, mode, items, acc, s, depth));
      }
    }
  }

  // ----- Array and dictionary literals -----

  /** What one item of an array or of a dictionary stands for. */
  function Elements(marker: Marker, v: Value): seq<Value> {
    if !marker.Spread? then [v] else if v.ArrayVal? then v.elems else []
  }

  function Fields(marker: Marker, v: Value): seq<Entry> {
    match marker
    case Key(n) => [Entry(n, v)]
    case _ => if v.DictVal? then v.entries else []
  }

  /** The elements that the items of an array stand for. */
  function ArrayPieces(items: seq<Item>, vs: seq<Value>): seq<Value>
    requires |vs| == |items|
  {
    if items == [] then [] else Elements(items[0].marker, vs[0]) + ArrayPieces(items[1..], vs[1..])
  }

  /** The entries that the items of a dictionary stand for. */
  function DictPieces(items: seq<Item>, vs: seq<Value>): seq<Entry>
    requires |vs| == |items|
  {
    if items == [] then [] else Fields(items[0].marker, vs[0]) + DictPieces(items[1..], vs[1..])
  }

  lemma {:induction false} ValuesOfAppend(a: seq<Arg>, b: seq<Arg>)
    ensures ValuesOf(a + b) == ValuesOf(a) + ValuesOf(b)
  {
    if a == [] {
      assert a + b == b;
    } else {
      assert (a + b)[1..] == a[1..] + b;
      ValuesOfAppend(a[1..], b);
    }
  }

  lemma {:induction false} EntriesOfAppend(a: seq<Arg>, b: seq<Arg>)
    ensures EntriesOf(a + b) == EntriesOf(a) + EntriesOf(b)
  {
    if a == [] {
      assert a + b == b;
    } else {
      assert (a + b)[1..] == a[1..] + b;
      EntriesOfAppend(a[1..], b);
    }
  }

  lemma {:induction false} ValuesOfAll(args: seq<Arg>, xs: seq<Value>)
    requires |args| == |xs| && forall i :: 0 <= i < |xs| ==> args[i].value == xs[i]
    ensures ValuesOf(args) == xs
  {
    if xs != [] {
      ValuesOfAll(args[1..], xs[1..]);
      assert xs == [xs[0]] + xs[1..];
    }
  }

  lemma {:induction false} EntriesOfAll(args: seq<Arg>, es: seq<Entry>)
    requires |args| == |es| && forall i :: 0 <= i < |es| ==> args[i] == Arg(Some(es[i].key), es[i].value)
    ensures EntriesOf(args) == es
  {
    if es != [] {
      EntriesOfAll(args[1..], es[1..]);
      assert es == [es[0]] + es[1..];
    }
  }

  lemma OneListed(marker: Marker, v: Value, args: seq<Arg>)
    requires Contributes(marker, v, args)
    ensures Allowed(ArrayItems, marker, v) ==> ValuesOf(args) == Elements(marker, v)
    ensures Allowed(DictItems, marker, v) ==> EntriesOf(args) == Fields(marker, v)
  {
    if Allowed(ArrayItems, marker, v) {
      ValuesOfAll(args, Elements(marker, v));
    }
    if Allowed(DictItems, marker, v) {
      EntriesOfAll(args, Fields(marker, v));
    }
  }

  lemma {:induction false} SplitArgs(args: seq<Arg>, n: nat)
    requires n <= |args|
    ensures ValuesOf(args) == ValuesOf(args[..n]) + ValuesOf(args[n..])
    ensures EntriesOf(args) == EntriesOf(args[..n]) + EntriesOf(args[n..])
  {
    assert args[..n] + args[n..] == args;
    ValuesOfAppend(args[..n], args[n..]);
    EntriesOfAppend(args[..n], args[n..]);
  }

  lemma {:induction false} Listed(mode: Mode, items: seq<Item>, vs: seq<Value>, args: seq<Arg>)
    requires AllAllowed(mode, items, vs) && Lists(items, vs, args)
    ensures mode.ArrayItems? ==> ValuesOf(args) == ArrayPieces(items, vs)
    ensures mode.DictItems? ==> EntriesOf(args) == DictPieces(items, vs)
    decreases |items|
  {
    if items != [] {
      var n: nat :|
        n <= |args| && Contributes(items[0].marker, vs[0], args[..n]) && Lists(items[1..], vs[1..], args[n..]);
      assert [vs[0]] + vs[1..] == vs;
      AllowedNext(mode, items, vs[0], vs[1..]);
      Listed(mode, items[1..], vs[1..], args[n..]);
      OneListed(items[0].marker, vs[0], args[..n]);
      SplitArgs(args, n);
    }
  }

  lemma ListedCollects(items: seq<Item>, vs: seq<Value>, args: seq<Arg>)
    requires AllAllowed(DictItems, items, vs) && Lists(items, vs, args)
    ensures Collects(InsertAll([], EntriesOf(args)), DictPieces(items, vs))
  {
    Listed(DictItems, items, vs, args);
    InsertAllCollects([], [], EntriesOf(args));
    assert [] + EntriesOf(args) == EntriesOf(args);
  }

  /** An array literal holds the values of its items and the elements of spread arrays, in order. */
  lemma ArrayHoldsItsItems(lib: Library, items: seq<Item>, s: Scopes, depth: nat)
    ensures var r, t := Eval(lib, ArrayLit(items), s, depth), RunItems(lib, items, s, depth);
      && (r.Ok? <==> t.end.Ok? && AllAllowed(ArrayItems, items, t.values))
      && (r.Ok? ==> r.value.value == ArrayVal(ArrayPieces(items, t.values)))
  {
    var r, t := EvalItems(lib, ArrayItems, items, [], s, depth), RunItems(lib, items, s, depth);
    ItemsContribute(lib, ArrayItems, items, [], s, depth);
    if r.Ok? {
      assert r.value.value.args[0..] == r.value.value.args;
      Listed(ArrayItems, items, t.values, r.value.value.args);
    }
  }

  /** A dictionary literal collects the entries of its items: a key keeps its first position and has its last value. */
  lemma DictCollectsItsItems(lib: Library, items: seq<Item>, s: Scopes, depth: nat)
    ensures var r, t := Eval(lib, DictLit(items), s, depth), RunItems(lib, items, s, depth);
      && (r.Ok? <==> t.end.Ok? && AllAllowed(DictItems, items, t.values))
      && (r.Ok? ==> r.value.value.DictVal? && Collects(r.value.value.entries, DictPieces(items, t.values)))
  {
    var r, t := EvalItems(lib, DictItems, items, [], s, depth), RunItems(lib, items, s, depth);
    ItemsContribute(lib, DictItems, items, [], s, depth);
    if r.Ok? {
      assert r.value.value.args[0..] == r.value.value.args;
      ListedCollects(items, t.values, r.value.value.args);
    }
  }
}
