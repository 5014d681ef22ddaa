/**
 What blocks, loops and lists make of the values they produce, stated by the pieces of these values: characters
 of strings, elements of arrays, arguments, and entries of dictionaries.
 */
module Joining {
  import opened Options
  import opened Values
  import opened Scoping
  import opened Patterns
  import opened Reference
  import opened DictionaryLaws

  // ----- Dictionaries collect entries -----

  ghost predicate HasKey(d: seq<Entry>, k: string) {
    exists i :: 0 <= i < |d| && d[i].key == k
  }

  /** The entry at `i` is the last one with its key. */
  ghost predicate LastWithKey(all: seq<Entry>, i: nat) {
    i < |all| && forall j :: i < j < |all| ==> all[j].key != all[i].key
  }

  ghost predicate IsLast(all: seq<Entry>, e: Entry) {
    exists i: nat :: LastWithKey(all, i) && all[i] == e
  }

  /** The keys of `all` in the order in which they come first. */
  function FirstKeys(all: seq<Entry>): seq<string> {
    if all == [] then []
    else
      var n := |all| - 1;
      var keys := FirstKeys(all[..n]);
      if all[n].key in keys then keys else keys + [all[n].key]
  }

  function KeysOf(d: seq<Entry>): (keys: seq<string>)
    ensures |keys| == |d| && forall i :: 0 <= i < |d| ==> keys[i] == d[i].key
  {
    seq(|d|, i requires 0 <= i < |d| => d[i].key)
  }

  /** Every key keeps its first position and has its last value. */
  ghost predicate Collects(d: seq<Entry>, all: seq<Entry>) {
    && KeysOf(d) == FirstKeys(all)
    && forall e <- d :: IsLast(all, e)
  }

  lemma {:induction false} FirstKeysAreDistinct(all: seq<Entry>)
    ensures forall i, j :: 0 <= i < j < |FirstKeys(all)| ==> FirstKeys(all)[i] != FirstKeys(all)[j]
    ensures forall k :: k in FirstKeys(all) <==> HasKey(all, k)
  {
    if all != [] {
      var n := |all| - 1;
      FirstKeysAreDistinct(all[..n]);
      forall k ensures k in FirstKeys(all) <==> HasKey(all, k) {
        if HasKey(all[..n], k) {
          var i :| 0 <= i < n && all[..n][i].key == k;
          assert all[i].key == k;
        }
        if HasKey(all, k) {
          var i :| 0 <= i < |all| && all[i].key == k;
          assert i < n ==> all[..n][i].key == k;
        }
        assert all[n].key == k ==> HasKey(all, k);
      }
    }
  }

  lemma {:induction false} DistinctCollects(d: seq<Entry>)
    requires DistinctKeys(d)
    ensures Collects(d, d)
  {
    DistinctKeysAreFirst(d);
    forall e <- d ensures IsLast(d, e) {
      var i :| 0 <= i < |d| && d[i] == e;
      assert LastWithKey(d, i);
    }
  }

  lemma {:induction false} DistinctKeysAreFirst(d: seq<Entry>)
    requires DistinctKeys(d)
    ensures FirstKeys(d) == KeysOf(d)
  {
    if d != [] {
      var n := |d| - 1;
      DistinctKeysAreFirst(d[..n]);
      assert KeysOf(d) == KeysOf(d[..n]) + [d[n].key];
    }
  }

  lemma CollectsDistinct(d: seq<Entry>, all: seq<Entry>)
    requires Collects(d, all)
    ensures DistinctKeys(d)
  {
    FirstKeysAreDistinct(all);
    forall i, j | 0 <= i < j < |d| ensures d[i].key != d[j].key {
      assert KeysOf(d)[i] != KeysOf(d)[j];
    }
  }

  lemma KeysOfCons(e: Entry, d: seq<Entry>)
    ensures KeysOf([e] + d) == [e.key] + KeysOf(d)
  {
  }

  /** The entry with a key, if there is one, is replaced; else the entry is added at the end. */
  lemma {:induction false} InsertKeys(d: seq<Entry>, e: Entry)
    ensures KeysOf(Insert(d, e)) == if e.key in KeysOf(d) then KeysOf(d) else KeysOf(d) + [e.key]
  {
    if d == [] {
      KeysOfCons(e, []);
    } else {
      assert d == [d[0]] + d[1..];
      KeysOfCons(d[0], d[1..]);
      if d[0].key == e.key {
        KeysOfCons(e, d[1..]);
      } else {
        InsertKeys(d[1..], e);
        KeysOfCons(d[0], Insert(d[1..], e));
      }
    }
  }

  lemma {:induction false} InsertReplaces(d: seq<Entry>, e: Entry, x: Entry)
    requires DistinctKeys(d) && x in Insert(d, e)
    ensures x == e || (x in d && x.key != e.key)
  {
    if d != [] {
      TailIsDistinct(d);
      if d[0].key != e.key && x != d[0] {
        assert x in Insert(d[1..], e);
        InsertReplaces(d[1..], e, x);
      }
    }
  }

  lemma TailIsDistinct(d: seq<Entry>)
    requires DistinctKeys(d) && d != []
    ensures DistinctKeys(d[1..]) && forall x <- d[1..] :: x in d && x.key != d[0].key
  {
    assert forall i :: 0 <= i < |d| - 1 ==> d[1..][i] == d[i + 1];
  }

  lemma LastStays(all: seq<Entry>, e: Entry, x: Entry)
    requires IsLast(all, x) && x.key != e.key
    ensures IsLast(all + [e], x)
  {
    var i: nat :| LastWithKey(all, i) && all[i] == x;
    assert LastWithKey(all + [e], i);
  }

  lemma NewIsLast(all: seq<Entry>, e: Entry)
    ensures IsLast(all + [e], e)
  {
    assert LastWithKey(all + [e], |all|);
  }

  lemma InsertCollects(d: seq<Entry>, all: seq<Entry>, e: Entry)
    requires Collects(d, all)
    ensures Collects(Insert(d, e), all + [e])
  {
    CollectsDistinct(d, all);
    InsertKeys(d, e);
    assert (all + [e])[..|all|] == all;
    forall x <- Insert(d, e) ensures IsLast(all + [e], x) {
      InsertReplaces(d, e, x);
      if x == e {
        NewIsLast(all, e);
      } else {
        LastStays(all, e, x);
      }
    }
  }

  lemma {:induction false} InsertAllCollects(d: seq<Entry>, all: seq<Entry>, es: seq<Entry>)
    requires Collects(d, all)
    ensures Collects(InsertAll(d, es), all + es)
    decreases |es|
  {
    if es == [] {
      assert all + es == all;
    } else {
      InsertCollects(d, all, es[0]);
      InsertAllCollects(Insert(d, es[0]), all + [es[0]], es[1..]);
      assert all + [es[0]] + es[1..] == all + es;
    }
  }

  // ----- What values join to -----

  datatype Kind = Nothing | Text | List | Table | Arguments | Other

  function KindOf(v: Value): Kind {
    match v
    case NoneVal => Nothing
    case StrVal(_) => Text
    case ArrayVal(_) => List
    case DictVal(_) => Table
    case ArgsVal(_) => Arguments
    case _ => Other
  }

  function Present(vs: seq<Value>): seq<Value> {
    if vs == [] then [] else var v := vs[|vs| - 1]; Present(vs[..|vs| - 1]) + if v.NoneVal? then [] else [v]
  }

  /** All but `none` are of one kind that has pieces, or there is at most one of them. */
  ghost predicate Joinable(vs: seq<Value>) { OneKind(Present(vs)) }

  ghost predicate OneKind(ps: seq<Value>) {
    |ps| > 1 ==> !KindOf(ps[0]).Other? && forall i :: 0 <= i < |ps| ==> KindOf(ps[i]) == KindOf(ps[0])
  }

  function Chars(vs: seq<Value>): string {
    if vs == [] then [] else var v := vs[|vs| - 1]; Chars(vs[..|vs| - 1]) + if v.StrVal? then v.s else []
  }

  function Elems(vs: seq<Value>): seq<Value> {
    if vs == [] then [] else var v := vs[|vs| - 1]; Elems(vs[..|vs| - 1]) + if v.ArrayVal? then v.elems else []
  }

  function Entries(vs: seq<Value>): seq<Entry> {
    if vs == [] then [] else var v := vs[|vs| - 1]; Entries(vs[..|vs| - 1]) + if v.DictVal? then v.entries else []
  }

  function ArgsIn(vs: seq<Value>): seq<Arg> {
    if vs == [] then [] else var v := vs[|vs| - 1]; ArgsIn(vs[..|vs| - 1]) + if v.ArgsVal? then v.args else []
  }

  /** Dictionaries as the language has them. */
  ghost predicate ProperDicts(vs: seq<Value>) {
    forall v <- vs :: v.DictVal? ==> DistinctKeys(v.entries)
  }

  /** The pieces of `v` are those of `vs`, in order; `none` adds nothing, and a value alone stays as it is. */
  ghost predicate Joins(vs: seq<Value>, v: Value) {
    var ps := Present(vs);
    && (ps == [] ==> v == NoneVal)
    && (|ps| == 1 ==> v == ps[0])
    && (|ps| > 1 ==>
          match KindOf(ps[0])
          case Text => v == StrVal(Chars(vs))
          case List => v == ArrayVal(Elems(vs))
          case Arguments => v == ArgsVal(ArgsIn(vs))
          case Table => v.DictVal? && (ProperDicts(vs) ==> Collects(v.entries, Entries(vs)))
          case _ => false)
  }

  // ----- One more value -----

  lemma {:induction false} PresentAppend(vs: seq<Value>, ws: seq<Value>)
    ensures Present(vs + ws) == Present(vs) + Present(ws)
    decreases |ws|
  {
    if ws == [] {
      assert vs + ws == vs;
    } else {
      assert (vs + ws)[..|vs + ws| - 1] == vs + ws[..|ws| - 1];
      PresentAppend(vs, ws[..|ws| - 1]);
    }
  }

  lemma PiecesAppend(vs: seq<Value>, v: Value)
    ensures Chars(vs + [v]) == Chars(vs) + if v.StrVal? then v.s else []
    ensures Elems(vs + [v]) == Elems(vs) + if v.ArrayVal? then v.elems else []
    ensures ArgsIn(vs + [v]) == ArgsIn(vs) + if v.ArgsVal? then v.args else []
    ensures Entries(vs + [v]) == Entries(vs) + if v.DictVal? then v.entries else []
  {
    assert (vs + [v])[..|vs|] == vs;
  }

  /** Of a single value that is there, the pieces are its own. */
  lemma {:induction false} OnePresent(vs: seq<Value>)
    requires |Present(vs)| <= 1
    ensures var none := Present(vs) == [];
      && Chars(vs) == (if !none && Present(vs)[0].StrVal? then Present(vs)[0].s else [])
      && Elems(vs) == (if !none && Present(vs)[0].ArrayVal? then Present(vs)[0].elems else [])
      && ArgsIn(vs) == (if !none && Present(vs)[0].ArgsVal? then Present(vs)[0].args else [])
      && Entries(vs) == (if !none && Present(vs)[0].DictVal? then Present(vs)[0].entries else [])
  {
    if vs != [] {
      OnePresent(vs[..|vs| - 1]);
    }
  }

  lemma PresentOne(vs: seq<Value>, v: Value)
    ensures Present(vs + [v]) == Present(vs) + if v.NoneVal? then [] else [v]
  {
    assert (vs + [v])[..|vs|] == vs;
  }

  /** Joining one more value succeeds exactly if the kinds allow it, and adds its pieces. */
  lemma JoinOne(vs: seq<Value>, out: Value, v: Value)
    requires Joinable(vs) && Joins(vs, out)
    ensures Join(out, v).Ok? <==> Joinable(vs + [v])
    ensures Join(out, v).Ok? ==> Joins(vs + [v], Join(out, v).value)
  {
    PresentOne(vs, v);
    if v.NoneVal? {
      JoinNothing(vs, out);
    } else if Present(vs) != [] {
      JoinableOne(vs, v);
      KindOfJoined(vs, out);
      if KindOf(v) == KindOf(out) && !KindOf(v).Other? {
        JoinMore(vs, out, v);
      }
    }
  }

  lemma JoinNothing(vs: seq<Value>, out: Value)
    requires Joins(vs, out)
    ensures Joins(vs + [NoneVal], out) && Join(out, NoneVal) == Ok(out)
  {
    PresentOne(vs, NoneVal);
    PiecesAppend(vs, NoneVal);
    assert Entries(vs + [NoneVal]) == Entries(vs) && ArgsIn(vs + [NoneVal]) == ArgsIn(vs);
    assert Chars(vs + [NoneVal]) == Chars(vs) && Elems(vs + [NoneVal]) == Elems(vs);
    if ProperDicts(vs + [NoneVal]) {
      assert ProperDicts(vs) by {
        assert forall w <- vs :: w in vs + [NoneVal];
      }
    }
  }

  lemma JoinableOne(vs: seq<Value>, v: Value)
    requires Joinable(vs) && Present(vs) != [] && !v.NoneVal?
    ensures Joinable(vs + [v]) <==> KindOf(v) == KindOf(Present(vs)[0]) && !KindOf(v).Other?
  {
    PresentOne(vs, v);
    OneKindMore(Present(vs), v);
  }

  lemma OneKindMore(ps: seq<Value>, v: Value)
    requires OneKind(ps) && ps != []
    ensures OneKind(ps + [v]) <==> KindOf(v) == KindOf(ps[0]) && !KindOf(v).Other?
  {
    var qs := ps + [v];
    assert qs[|ps|] == v && qs[0] == ps[0];
    forall i | 0 <= i < |ps| ensures KindOf(qs[i]) == KindOf(ps[0]) {
      assert qs[i] == ps[i];
    }
  }

  lemma KindOfJoined(vs: seq<Value>, out: Value)
    requires Joinable(vs) && Joins(vs, out) && Present(vs) != []
    ensures KindOf(out) == KindOf(Present(vs)[0]) && !out.NoneVal?
  {
    PresentIn(vs, 0);
  }

  lemma JoinMore(vs: seq<Value>, out: Value, v: Value)
    requires Joinable(vs) && Joins(vs, out) && Present(vs) != [] && !v.NoneVal?
    requires KindOf(v) == KindOf(out) == KindOf(Present(vs)[0]) && !KindOf(v).Other?
    ensures Join(out, v).Ok? && Joins(vs + [v], Join(out, v).value)
  {
    PresentOne(vs, v);
    PiecesAppend(vs, v);
    PiecesOfJoined(vs, out);
    if out.DictVal? {
      DictsJoin(vs, out, v);
    }
  }

  /** What has been joined holds the pieces. */
  lemma PiecesOfJoined(vs: seq<Value>, out: Value)
    requires Joinable(vs) && Joins(vs, out) && Present(vs) != []
    ensures out.StrVal? ==> out.s == Chars(vs)
    ensures out.ArrayVal? ==> out.elems == Elems(vs)
    ensures out.ArgsVal? ==> out.args == ArgsIn(vs)
  {
    if |Present(vs)| == 1 {
      OnePresent(vs);
    }
  }

  lemma DictsJoin(vs: seq<Value>, out: Value, v: Value)
    requires Joinable(vs) && Joins(vs, out) && out.DictVal? && v.DictVal?
    ensures ProperDicts(vs + [v]) ==> Collects(InsertAll(out.entries, v.entries), Entries(vs) + v.entries)
  {
    if ProperDicts(vs + [v]) {
      assert ProperDicts(vs) by {
        assert forall w <- vs :: w in vs + [v];
      }
      if |Present(vs)| == 1 {
        OnePresent(vs);
        PresentIn(vs, 0);
        DistinctCollects(out.entries);
      }
      InsertAllCollects(out.entries, Entries(vs), v.entries);
    }
  }

  lemma {:induction false} PresentIn(vs: seq<Value>, i: nat)
    requires i < |Present(vs)|
    ensures Present(vs)[i] in vs && !Present(vs)[i].NoneVal?
  {
    var front := vs[..|vs| - 1];
    if i < |Present(front)| {
      PresentIn(front, i);
    }
  }

  lemma StaysUnjoinable(vs: seq<Value>, ws: seq<Value>)
    ensures Joinable(vs + ws) ==> Joinable(vs)
  {
    PresentAppend(vs, ws);
    var ps, qs := Present(vs), Present(vs) + Present(ws);
    assert forall i :: 0 <= i < |ps| ==> qs[i] == ps[i];
  }

  // ----- Blocks -----

  /** The values that statements produced, and how they ended. */
  datatype Trace = Trace(values: seq<Value>, end: Result<Ending>) {
    function After(v: Value): Trace { this.(values := [v] + values) }
  }

  datatype Ending = Ending(event: Option<Event>, scopes: Scopes)

  /** Statements run up to and including the first one with an event, whatever their values are. */
  function BlockTrace(lib: Library, ss: seq<Stmt>, s: Scopes, depth: nat): Trace
    requires s != []
  {
    if ss == [] then Trace([], Ok(Ending(None, s)))
    else match EvalStmt(lib, ss[0], s, depth)
      case Err(x) => Trace([], Err(x))
      case Ok(c) =>
        if c.event.Some? then Trace([c.value], Ok(Ending(c.event, c.scopes)))
        else BlockTrace(lib, ss[1..], c.scopes, depth).After(c.value)
  }

  /** A run succeeds if the trace does and the values can be joined, and gives what they join to. */
  ghost predicate Yields(r: Result<Completion>, before: seq<Value>, t: Trace) {
    && (r.Ok? <==> t.end.Ok? && Joinable(before + t.values))
    && (r.Ok? ==>
          && Joins(before + t.values, r.value.value)
          && r.value.event == t.end.value.event && r.value.scopes == t.end.value.scopes)
  }

  lemma YieldsEarlier(r: Result<Completion>, before: seq<Value>, v: Value, t: Trace)
    requires Yields(r, before + [v], t)
    ensures Yields(r, before, t.After(v))
  {
    assert before + [v] + t.values == before + t.After(v).values;
  }

  lemma Unjoined(x: Error, before: seq<Value>, v: Value, t: Trace)
    requires !Joinable(before + [v])
    ensures Yields(Err(x), before, t.After(v))
  {
    assert before + [v] + t.values == before + t.After(v).values;
    StaysUnjoinable(before + [v], t.values);
  }

  lemma {:induction false} BlockYields(lib: Library, ss: seq<Stmt>, before: seq<Value>, out: Value, s: Scopes,
                                       depth: nat)
    requires s != [] && Joinable(before) && Joins(before, out)
    ensures Yields(EvalStmts(lib, ss, out, s, depth), before, BlockTrace(lib, ss, s, depth))
    decreases |ss|
  {
    if ss == [] {
      assert before + [] == before;
    } else {
      var c := EvalStmt(lib, ss[0], s, depth);
      if c.Ok? {
        var v := c.value.value;
        JoinOne(before, out, v);
        if c.value.event.Some? {
          assert before + [v] == before + BlockTrace(lib, ss, s, depth).values;
        } else if Join(out, v).Ok? {
          BlockYields(lib, ss[1..], before + [v], Join(out, v).value, c.value.scopes, depth);
          YieldsEarlier(EvalStmts(lib, ss, out, s, depth), before, v, BlockTrace(lib, ss[1..], c.value.scopes, depth));
        } else {
          Unjoined(Mismatch, before, v, BlockTrace(lib, ss[1..], c.value.scopes, depth));
        }
      }
    }
  }

  /** A block gives what the values of its statements join to. */
  lemma BlockJoinsItsStatements(lib: Library, body: seq<Stmt>, s: Scopes, depth: nat)
    ensures var t := BlockTrace(lib, body, s + [map[]], depth);
      var r := Eval(lib, Block(body), s, depth);
      && (r.Ok? <==> t.end.Ok? && Joinable(t.values))
      && (r.Ok? ==> Joins(t.values, r.value.value))
  {
    BlockYields(lib, body, [], NoneVal, s + [map[]], depth);
    var t := BlockTrace(lib, body, s + [map[]], depth);
    assert [] + t.values == t.values;
  }

  /** So does a whole program, unless an event is left over at its end. */
  lemma ProgramJoinsItsStatements(lib: Library, scope: Frame, ss: seq<Stmt>, depth: nat)
    ensures var t := BlockTrace(lib, ss, [scope, map[]], depth);
      var r := Program(lib, scope, ss, depth);
      && (r.Ok? <==> t.end.Ok? && t.end.value.event.None? && Joinable(t.values))
      && (r.Ok? ==> Joins(t.values, r.value))
  {
    BlockYields(lib, ss, [], NoneVal, [scope, map[]], depth);
    var t := BlockTrace(lib, ss, [scope, map[]], depth);
    assert [] + t.values == t.values;
  }

  // ----- Loops -----

  /** What is left of an event when the body of a loop has run. */
  function LoopEvent(pending: Option<Event>, b: Completion): Option<Event> {
    if pending.None? then b.event
    else if b.marks && pending.value.ReturnEvent? then Some(ReturnEvent(pending.value.result, true))
    else pending
  }

  /** One body, and what follows it unless it breaks or returns. */
  function BodyTrace(pending: Option<Event>, b: Completion, rest: Trace): Trace {
    var e := LoopEvent(pending, b);
    if e == Some(BreakEvent) then Trace([b.value], Ok(Ending(None, b.scopes)))
    else if e.Some? && e.value.ReturnEvent? then Trace([b.value], Ok(Ending(e, b.scopes)))
    else rest.After(b.value)
  }

  function WhileTrace(lib: Library, w: Expr, i: nat, s: Scopes, depth: nat): Trace
    requires w.While? && i <= MAX_ITERATIONS
    decreases MAX_ITERATIONS - i
  {
    match Eval(lib, w.cond, s, depth)
    case Err(x) => Trace([], Err(x))
    case Ok(c) =>
      match Guard(w, i, c.value)
      case Err(x) => Trace([], Err(x))
      case Ok(false) => Trace([], Ok(Ending(c.event, c.scopes)))
      case Ok(true) =>
        match Eval(lib, w.loop, c.scopes, depth)
        case Err(x) => Trace([], Err(x))
        case Ok(b) => BodyTrace(c.event, b, WhileTrace(lib, w, i + 1, b.scopes, depth))
  }

  function ForTrace(lib: Library, f: Expr, vs: seq<Value>, pending: Option<Event>, s: Scopes, depth: nat): Trace
    requires f.For? && s != []
    decreases |vs|
  {
    if vs == [] then Trace([], Ok(Ending(pending, s)))
    else if !Match(f.pattern, vs[0]).ok then Trace([], Err(Mismatch))
    else match Eval(lib, f.loop, DefineAll(s, Match(f.pattern, vs[0]).binds), depth)
      case Err(x) => Trace([], Err(x))
      case Ok(b) => BodyTrace(pending, b, ForTrace(lib, f, vs[1..], None, b.scopes, depth))
  }

  /** A body that ends the loop, or whose value cannot be joined. */
  lemma BodyEnds(before: seq<Value>, out: Value, pending: Option<Event>, b: Completion, rest: Trace)
    requires Joinable(before) && Joins(before, out)
    ensures match AfterBody(out, pending, b)
      case Stop(r) => Yields(r, before, BodyTrace(pending, b, rest))
      case Go(out', t) =>
        && Joinable(before + [b.value]) && Joins(before + [b.value], out') && t == b.scopes
        && BodyTrace(pending, b, rest) == rest.After(b.value)
  {
    JoinOne(before, out, b.value);
    if Join(out, b.value).Err? {
      BodyUnjoined(before, pending, b, rest);
    } else if AfterBody(out, pending, b).Stop? {
      BodyStops(before, out, pending, b, rest);
    } else {
      assert LoopEvent(pending, b) == After(pending, b);
    }
  }

  lemma BodyStops(before: seq<Value>, out: Value, pending: Option<Event>, b: Completion, rest: Trace)
    requires Joinable(before + [b.value])
    requires Join(out, b.value).Ok? && Joins(before + [b.value], Join(out, b.value).value)
    requires AfterBody(out, pending, b).Stop?
    ensures Yields(AfterBody(out, pending, b).result, before, BodyTrace(pending, b, rest))
  {
    assert LoopEvent(pending, b) == After(pending, b);
  }

  lemma BodyUnjoined(before: seq<Value>, pending: Option<Event>, b: Completion, rest: Trace)
    requires !Joinable(before + [b.value])
    ensures Yields(Err(Mismatch), before, BodyTrace(pending, b, rest))
  {
    var t := BodyTrace(pending, b, rest);
    assert t.values[0] == b.value;
    Unjoined(Mismatch, before, b.value, Trace(t.values[1..], t.end));
  }

  /** One iteration, when the rest of the loop is known. */
  lemma WhileGoes(lib: Library, w: Expr, i: nat, before: seq<Value>, out: Value, s: Scopes, depth: nat, c: Completion,
                  b: Completion)
    requires w.While? && i < MAX_ITERATIONS && Joinable(before) && Joins(before, out)
    requires Eval(lib, w.cond, s, depth) == Ok(c) && Guard(w, i, c.value) == Ok(true)
    requires Eval(lib, w.loop, c.scopes, depth) == Ok(b)
    requires var step := AfterBody(out, c.event, b);
      step.Go? ==> Yields(EvalWhile(lib, w, i + 1, step.out, step.scopes, depth), before + [b.value],
                          WhileTrace(lib, w, i + 1, b.scopes, depth))
    ensures Yields(EvalWhile(lib, w, i, out, s, depth), before, WhileTrace(lib, w, i, s, depth))
  {
    var rest, step := WhileTrace(lib, w, i + 1, b.scopes, depth), AfterBody(out, c.event, b);
    BodyEnds(before, out, c.event, b, rest);
    if step.Go? {
      YieldsEarlier(EvalWhile(lib, w, i + 1, step.out, step.scopes, depth), before, b.value, rest);
    }
  }

  lemma GoesOn(before: seq<Value>, out: Value, pending: Option<Event>, b: Completion)
    requires Joinable(before) && Joins(before, out) && AfterBody(out, pending, b).Go?
    ensures Joinable(before + [b.value]) && Joins(before + [b.value], AfterBody(out, pending, b).out)
  {
    JoinOne(before, out, b.value);
  }

  predicate RunsBody(lib: Library, w: Expr, i: nat, s: Scopes, depth: nat)
    requires w.While?
  {
    var c := Eval(lib, w.cond, s, depth);
    c.Ok? && Guard(w, i, c.value.value) == Ok(true) && Eval(lib, w.loop, c.value.scopes, depth).Ok?
  }

  lemma WhileStops(lib: Library, w: Expr, i: nat, before: seq<Value>, out: Value, s: Scopes, depth: nat)
    requires w.While? && i <= MAX_ITERATIONS && Joinable(before) && Joins(before, out) && !RunsBody(lib, w, i, s, depth)
    ensures Yields(EvalWhile(lib, w, i, out, s, depth), before, WhileTrace(lib, w, i, s, depth))
  {
    assert before + [] == before;
  }

  lemma {:induction false} WhileYields(lib: Library, w: Expr, i: nat, before: seq<Value>, out: Value, s: Scopes,
                                       depth: nat)
    requires w.While? && i <= MAX_ITERATIONS && Joinable(before) && Joins(before, out)
    ensures Yields(EvalWhile(lib, w, i, out, s, depth), before, WhileTrace(lib, w, i, s, depth))
    decreases MAX_ITERATIONS - i, 1
  {
    if RunsBody(lib, w, i, s, depth) {
      var c := Eval(lib, w.cond, s, depth).value;
      var b := Eval(lib, w.loop, c.scopes, depth).value;
      if AfterBody(out, c.event, b).Go? {
        WhileRest(lib, w, i, before, out, c.event, b, depth);
      }
      WhileGoes(lib, w, i, before, out, s, depth, c, b);
    } else {
      WhileStops(lib, w, i, before, out, s, depth);
    }
  }

  lemma {:induction false} WhileRest(lib: Library, w: Expr, i: nat, before: seq<Value>, out: Value, pending: Option<Event>,
                                     b: Completion, depth: nat)
    requires w.While? && i < MAX_ITERATIONS && Joinable(before) && Joins(before, out) && AfterBody(out, pending, b).Go?
    ensures var step := AfterBody(out, pending, b);
      Yields(EvalWhile(lib, w, i + 1, step.out, step.scopes, depth), before + [b.value],
             WhileTrace(lib, w, i + 1, b.scopes, depth))
    decreases MAX_ITERATIONS - i, 0
  {
    var step := AfterBody(out, pending, b);
    GoesOn(before, out, pending, b);
    WhileYields(lib, w, i + 1, before + [b.value], step.out, step.scopes, depth);
  }

  /** One iteration, when the rest of the loop is known. */
  lemma ForGoes(lib: Library, f: Expr, vs: seq<Value>, pending: Option<Event>, before: seq<Value>, out: Value, s: Scopes,
                depth: nat, b: Completion)
    requires f.For? && s != [] && vs != [] && Match(f.pattern, vs[0]).ok && Joinable(before) && Joins(before, out)
    requires Eval(lib, f.loop, DefineAll(s, Match(f.pattern, vs[0]).binds), depth) == Ok(b)
    requires var step := AfterBody(out, pending, b);
      step.Go? ==> Yields(EvalFor(lib, f, vs[1..], None, step.out, step.scopes, depth), before + [b.value],
                          ForTrace(lib, f, vs[1..], None, b.scopes, depth))
    ensures Yields(EvalFor(lib, f, vs, pending, out, s, depth), before, ForTrace(lib, f, vs, pending, s, depth))
  {
    var rest, step := ForTrace(lib, f, vs[1..], None, b.scopes, depth), AfterBody(out, pending, b);
    BodyEnds(before, out, pending, b, rest);
    if step.Go? {
      YieldsEarlier(EvalFor(lib, f, vs[1..], None, step.out, step.scopes, depth), before, b.value, rest);
    }
  }

  lemma {:induction false} ForYields(lib: Library, f: Expr, vs: seq<Value>, pending: Option<Event>, before: seq<Value>,
                                     out: Value, s: Scopes, depth: nat)
    requires f.For? && s != [] && Joinable(before) && Joins(before, out)
    ensures Yields(EvalFor(lib, f, vs, pending, out, s, depth), before, ForTrace(lib, f, vs, pending, s, depth))
    decreases |vs|, 1
  {
    assert before + [] == before;
    if vs != [] && Match(f.pattern, vs[0]).ok {
      var b := Eval(lib, f.loop, DefineAll(s, Match(f.pattern, vs[0]).binds), depth);
      if b.Ok? {
        if AfterBody(out, pending, b.value).Go? {
          ForRest(lib, f, vs, pending, before, out, b.value, depth);
        }
        ForGoes(lib, f, vs, pending, before, out, s, depth, b.value);
      }
    }
  }

  lemma {:induction false} ForRest(lib: Library, f: Expr, vs: seq<Value>, pending: Option<Event>, before: seq<Value>,
                                   out: Value, b: Completion, depth: nat)
    requires f.For? && b.scopes != [] && vs != [] && Joinable(before) && Joins(before, out)
    requires AfterBody(out, pending, b).Go?
    ensures var step := AfterBody(out, pending, b);
      Yields(EvalFor(lib, f, vs[1..], None, step.out, step.scopes, depth), before + [b.value],
             ForTrace(lib, f, vs[1..], None, b.scopes, depth))
    decreases |vs|, 0
  {
    var step := AfterBody(out, pending, b);
    GoesOn(before, out, pending, b);
    ForYields(lib, f, vs[1..], None, before + [b.value], step.out, step.scopes, depth);
  }

  /** A while loop gives what the values of its bodies join to. */
  lemma WhileJoinsItsBodies(lib: Library, w: Expr, s: Scopes, depth: nat)
    requires w.While?
    ensures var t := WhileTrace(lib, w, 0, s, depth);
      var r := Eval(lib, w, s, depth);
      && (r.Ok? <==> t.end.Ok? && Joinable(t.values))
      && (r.Ok? ==> Joins(t.values, r.value.value))
  {
    WhileYields(lib, w, 0, [], NoneVal, s, depth);
    assert [] + WhileTrace(lib, w, 0, s, depth).values == WhileTrace(lib, w, 0, s, depth).values;
  }

  /** The values a for loop visits: elements, pairs of key and value, or graphemes. */
  ghost predicate Visits(lib: Library, p: Pattern, v: Value, vs: seq<Value>) {
    match v
    case ArrayVal(xs) => vs == xs
    case DictVal(es) =>
      |vs| == |es| && forall i :: 0 <= i < |es| ==> vs[i] == ArrayVal([StrVal(es[i].key), es[i].value])
    case StrVal(t) =>
      && !p.Destructuring? && |vs| == |lib.graphemes(t)|
      && forall i :: 0 <= i < |vs| ==> vs[i] == StrVal(lib.graphemes(t)[i])
    case _ => false
  }

  /** A for loop gives what the values of its bodies join to, one body for each value it visits. */
  lemma ForJoinsItsBodies(lib: Library, f: Expr, c: Completion, vs: seq<Value>, s: Scopes, depth: nat)
    requires f.For? && Eval(lib, f.iterable, s, depth) == Ok(c) && Visits(lib, f.pattern, c.value, vs)
    ensures var t := ForTrace(lib, f, vs, c.event, c.scopes + [map[]], depth);
      var r := Eval(lib, f, s, depth);
      && (r.Ok? <==> t.end.Ok? && Joinable(t.values))
      && (r.Ok? ==> Joins(t.values, r.value.value))
  {
    var t := ForTrace(lib, f, vs, c.event, c.scopes + [map[]], depth);
    VisitsElements(lib, f.pattern, c.value, vs);
    ForYields(lib, f, vs, c.event, [], NoneVal, c.scopes + [map[]], depth);
    assert [] + t.values == t.values;
  }

  lemma VisitsElements(lib: Library, p: Pattern, v: Value, vs: seq<Value>)
    requires Visits(lib, p, v, vs)
    ensures Elements(lib, p, v) == Ok(vs)
  {
    assert Elements(lib, p, v).value == vs;
  }

  /** Nothing else can be visited. */
  lemma OnlyVisitable(lib: Library, f: Expr, c: Completion, s: Scopes, depth: nat)
    requires f.For? && Eval(lib, f.iterable, s, depth) == Ok(c) && forall vs :: !Visits(lib, f.pattern, c.value, vs)
    ensures Eval(lib, f, s, depth) == Err(Mismatch)
  {
    if Elements(lib, f.pattern, c.value).Ok? {
      assert Visits(lib, f.pattern, c.value, Elements(lib, f.pattern, c.value).value);
    }
  }
}
