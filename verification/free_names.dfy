/** Free names are what the textbook says: names that occur where nothing around them binds them. */
module FreeNames {
  import opened Options
  import opened Values
  import opened Static

  predicate PatternBinds(p: Pattern, n: string) {
    match p
    case Bind(m) => m == n
    case Placeholder => false
    case Destructuring(items) => exists i :: 0 <= i < |items| && SlotBinds(items[i], n)
  }

  predicate SlotBinds(item: PatternItem, n: string) {
    match item
    case Slot(p) => PatternBinds(p, n)
    case Field(_, p) => PatternBinds(p, n)
    case Rest(sink) => sink == Some(n)
  }

  predicate ParamBinds(p: Param, n: string) {
    match p
    case PosParam(pattern) => PatternBinds(pattern, n)
    case NamedParam(m, _) => m == n
    case SinkParam(sink) => sink == Some(n)
  }

  /** `n` occurs in `e`, and nothing around the occurrence binds it. */
  predicate OccursFree(e: Expr, n: string)
    decreases e, 1
  {
    match e
    case Literal(_) | Break | Continue => false
    case Ident(m) => m == n
    case ArrayLit(items) => exists i :: 0 <= i < |items| && OccursInItem(items[i], n)
    case DictLit(items) => exists i :: 0 <= i < |items| && OccursInItem(items[i], n)
    case Unary(_, a) => OccursFree(a, n)
    case Binary(_, l, r) => OccursFree(l, n) || OccursFree(r, n)
    case Assign(_, l, r) => OccursFree(l, n) || OccursFree(r, n)
    case DestructAssign(p, r) => PatternBinds(p, n) || OccursFree(r, n)
    case Block(body) => exists i :: 0 <= i < |body| && OccursInStmt(body[i], n) && !BoundBefore(body, i, n)
    case If(c, t, f) => OccursFree(c, n) || OccursFree(t, n) || (f.Some? && OccursFree(f.value, n))
    case While(c, b) => OccursFree(c, n) || OccursFree(b, n)
    case For(p, iterable, b) => OccursFree(iterable, n) || (OccursFree(b, n) && !PatternBinds(p, n))
    case Return(r) => r.Some? && OccursFree(r.value, n)
    case Lambda(self, ps, code) =>
      || (exists i :: 0 <= i < |ps| && OccursInDefault(ps[i], n))
      || (OccursFree(code, n) && self != Some(n) && !exists i :: 0 <= i < |ps| && ParamBinds(ps[i], n))
    case Call(f, items) => OccursFree(f, n) || exists i :: 0 <= i < |items| && OccursInItem(items[i], n)
  }

  predicate OccursInItem(item: Item, n: string)
    decreases item, 0
  {
    OccursFree(item.expr, n)
  }

  predicate OccursInDefault(p: Param, n: string)
    decreases p, 0
  {
    p.NamedParam? && OccursFree(p.default, n)
  }

  /** A `let` binds for the statements after it, not for its initialiser. */
  predicate OccursInStmt(st: Stmt, n: string)
    decreases st, 0
  {
    match st
    case Do(e) => OccursFree(e, n)
    case Let(_, init) => init.Some? && OccursFree(init.value, n)
  }

  predicate BoundBefore(ss: seq<Stmt>, i: nat, n: string)
    requires i <= |ss|
  {
    exists j :: 0 <= j < i && ss[j].Let? && PatternBinds(ss[j].pattern, n)
  }

  // ----- Bound names -----

  lemma {:induction false} PatternNamesAre(p: Pattern, n: string)
    ensures n in PatternNames(p) <==> PatternBinds(p, n)
    decreases p, 0
  {
    if p.Destructuring? {
      SlotNamesAre(p.items, n);
    }
  }

  lemma {:induction false} SlotNamesAre(items: seq<PatternItem>, n: string)
    ensures n in ItemNames(items) <==> exists i :: 0 <= i < |items| && SlotBinds(items[i], n)
    decreases items, 0
  {
    if items != [] {
      if !items[0].Rest? {
        assert items[0].pattern < items[0];
        PatternNamesAre(items[0].pattern, n);
      }
      SlotNamesAre(items[1..], n);
      HeadOrTail(items, (item: PatternItem) => SlotBinds(item, n));
    }
  }

  lemma {:induction false} ParamNamesAre(ps: seq<Param>, n: string)
    ensures n in ParamNames(ps) <==> exists i :: 0 <= i < |ps| && ParamBinds(ps[i], n)
  {
    if ps != [] {
      if ps[0].PosParam? {
        PatternNamesAre(ps[0].pattern, n);
      }
      ParamNamesAre(ps[1..], n);
      HeadOrTail(ps, (p: Param) => ParamBinds(p, n));
    }
  }

  lemma HeadOrTail<T>(xs: seq<T>, p: T -> bool)
    requires xs != []
    ensures (exists i :: 0 <= i < |xs| && p(xs[i])) <==> p(xs[0]) || exists i :: 0 <= i < |xs[1..]| && p(xs[1..][i])
  {
    if i :| 0 <= i < |xs[1..]| && p(xs[1..][i]) {
      assert p(xs[i + 1]);
    }
    if i :| 0 <= i < |xs| && p(xs[i]) && i > 0 {
      assert p(xs[1..][i - 1]);
    }
  }

  // ----- Free names -----

  /** The free names are those that occur free and are not bound outside. */
  lemma {:induction false} FreeIff(e: Expr, bound: set<string>, n: string)
    ensures n in Free(e, bound) <==> OccursFree(e, n) && n !in bound
    decreases e, 1
  {
    match e
    case Literal(_) | Break | Continue | Ident(_) =>
    case ArrayLit(items) => ItemsFreeIff(items, bound, n);
    case DictLit(items) => ItemsFreeIff(items, bound, n);
    case Unary(_, a) => FreeIff(a, bound, n);
    case Binary(_, l, r) =>
      FreeIff(l, bound, n);
      FreeIff(r, bound, n);
    case Assign(_, l, r) =>
      FreeIff(l, bound, n);
      FreeIff(r, bound, n);
    case DestructAssign(p, r) =>
      PatternNamesAre(p, n);
      FreeIff(r, bound, n);
    case Block(body) => BodyFreeIff(body, bound, n);
    case If(c, t, f) =>
      FreeIff(c, bound, n);
      FreeIff(t, bound, n);
      if f.Some? {
        FreeIff(f.value, bound, n);
      }
    case While(c, b) =>
      FreeIff(c, bound, n);
      FreeIff(b, bound, n);
    case For(p, iterable, b) =>
      FreeIff(iterable, bound, n);
      FreeIff(b, bound + PatternNames(p), n);
      PatternNamesAre(p, n);
    case Return(r) =>
      if r.Some? {
        FreeIff(r.value, bound, n);
      }
    case Lambda(_, _, _) => LambdaFreeIff(e, bound, n);
    case Call(f, items) =>
      FreeIff(f, bound, n);
      ItemsFreeIff(items, bound, n);
  }

  lemma {:induction false} LambdaFreeIff(e: Expr, bound: set<string>, n: string)
    requires e.Lambda?
    ensures n in Free(e, bound) <==> OccursFree(e, n) && n !in bound
    decreases e, 0
  {
    DefaultsFreeIff(e.params, bound, n);
    FreeIff(e.code, bound + OptName(e.self) + ParamNames(e.params), n);
    ParamNamesAre(e.params, n);
  }

  lemma {:induction false} ItemsFreeIff(items: seq<Item>, bound: set<string>, n: string)
    ensures n in FreeItems(items, bound)
      <==> (exists i :: 0 <= i < |items| && OccursInItem(items[i], n)) && n !in bound
    decreases items, 0
  {
    if items != [] {
      assert items[0].expr < items[0];
      FreeIff(items[0].expr, bound, n);
      ItemsFreeIff(items[1..], bound, n);
      HeadOrTail(items, (item: Item) => OccursInItem(item, n));
    }
  }

  lemma {:induction false} DefaultsFreeIff(ps: seq<Param>, bound: set<string>, n: string)
    ensures n in FreeDefaults(ps, bound)
      <==> (exists i :: 0 <= i < |ps| && OccursInDefault(ps[i], n)) && n !in bound
    decreases ps, 0
  {
    if ps != [] {
      if ps[0].NamedParam? {
        assert ps[0].default < ps[0];
        FreeIff(ps[0].default, bound, n);
      }
      DefaultsFreeIff(ps[1..], bound, n);
      HeadOrTail(ps, (p: Param) => OccursInDefault(p, n));
    }
  }

  predicate OccursInBody(ss: seq<Stmt>, n: string) {
    exists i :: 0 <= i < |ss| && OccursInStmt(ss[i], n) && !BoundBefore(ss, i, n)
  }

  lemma BodyNext(ss: seq<Stmt>, n: string)
    requires ss != []
    ensures OccursInBody(ss, n) <==>
      OccursInStmt(ss[0], n) || (OccursInBody(ss[1..], n) && !(ss[0].Let? && PatternBinds(ss[0].pattern, n)))
  {
    forall i | 0 <= i < |ss| - 1
      ensures BoundBefore(ss, i + 1, n)
        <==> (ss[0].Let? && PatternBinds(ss[0].pattern, n)) || BoundBefore(ss[1..], i, n)
    {
      BoundNext(ss, i, n);
    }
    if i :| 0 <= i < |ss[1..]| && OccursInStmt(ss[1..][i], n) && !BoundBefore(ss[1..], i, n) {
      assert ss[i + 1] == ss[1..][i];
    }
    if i :| 0 <= i < |ss| && OccursInStmt(ss[i], n) && !BoundBefore(ss, i, n) && i > 0 {
      assert ss[i] == ss[1..][i - 1];
    }
    assert !BoundBefore(ss, 0, n);
  }

  lemma BoundNext(ss: seq<Stmt>, i: nat, n: string)
    requires i < |ss|
    ensures BoundBefore(ss, i + 1, n) <==>
      (ss[0].Let? && PatternBinds(ss[0].pattern, n)) || BoundBefore(ss[1..], i, n)
  {
    if j :| 0 <= j < i && ss[1..][j].Let? && PatternBinds(ss[1..][j].pattern, n) {
      assert ss[j + 1] == ss[1..][j];
    }
    if j :| 0 <= j < i + 1 && ss[j].Let? && PatternBinds(ss[j].pattern, n) && j > 0 {
      assert ss[j] == ss[1..][j - 1];
    }
  }

  lemma {:induction false} BodyFreeIff(ss: seq<Stmt>, bound: set<string>, n: string)
    ensures n in FreeStmts(ss, bound) <==> OccursInBody(ss, n) && n !in bound
    decreases ss, 0
  {
    if ss != [] {
      match ss[0] {
        case Do(e) =>
          assert e < ss[0];
          FreeIff(e, bound, n);
          BodyFreeIff(ss[1..], bound, n);
        case Let(p, init) =>
          if init.Some? {
            assert init < ss[0];
            FreeIff(init.value, bound, n);
          }
          PatternNamesAre(p, n);
          BodyFreeIff(ss[1..], bound + PatternNames(p), n);
      }
      BodyNext(ss, n);
    }
  }
}
