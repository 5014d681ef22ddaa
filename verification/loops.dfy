/** When the early rejection "condition is always true" is right. */
module EarlyCheck {
  import opened Options
  import opened Values
  import opened Scoping
  import opened Static
  import opened Reference
  import opened CaptureSoundness
  import opened Events

  /** The loop without the early check, given up after `fuel` iterations. */
  ghost function Unchecked(lib: Library, w: Expr, out: Value, s: Scopes, depth: nat, fuel: nat): Result<Completion>
    requires w.While?
    decreases fuel
  {
    var c :- Eval(lib, w.cond, s, depth);
    if !c.value.BoolVal? then Err(Mismatch)
    else if !c.value.b then Ok(c.(value := out))
    else if fuel == 0 then Err(Infinite)
    else
      var b :- Eval(lib, w.loop, c.scopes, depth);
      match AfterBody(out, c.event, b)
      case Stop(r) => r
      case Go(out', t) => Unchecked(lib, w, out', t, depth, fuel - 1)
  }

  /**
   A loop that the check lets pass is the unchecked loop given up after 10 000 iterations, so no
   loop runs its body more often than that.
   */
  lemma {:induction false} AcceptedLoopIsUnchecked(lib: Library, w: Expr, i: nat, out: Value, s: Scopes, depth: nat)
    requires w.While? && i <= MAX_ITERATIONS
    requires i == 0 ==> !IsInvariant(w.cond) || CanDiverge(w.loop)
    ensures EvalWhile(lib, w, i, out, s, depth) == Unchecked(lib, w, out, s, depth, MAX_ITERATIONS - i)
    decreases MAX_ITERATIONS - i
  {
    var c := Eval(lib, w.cond, s, depth);
    if c.Ok? && Guard(w, i, c.value.value) == Ok(true) {
      var b := Eval(lib, w.loop, c.value.scopes, depth);
      if b.Ok? {
        var step := AfterBody(out, c.value.event, b.value);
        if step.Go? {
          AcceptedLoopIsUnchecked(lib, w, i + 1, step.out, step.scopes, depth);
        }
      }
    }
  }

  /** The loop comes to an end after some number of iterations. */
  ghost predicate Finishes(lib: Library, w: Expr, s: Scopes, depth: nat)
    requires w.While?
  {
    exists fuel: nat :: Unchecked(lib, w, NoneVal, s, depth, fuel).Ok?
  }

  // ----- Invariant conditions are closed -----

  lemma {:induction false} InvariantIsClosed(e: Expr, I: set<string>)
    requires IsInvariant(e)
    ensures Free(e, I) == {}
    decreases e, 1
  {
    match e {
      case ArrayLit(items) => ClosedItems(items, I);
      case DictLit(items) => ClosedItems(items, I);
      case Unary(_, a) => InvariantIsClosed(a, I);
      case Binary(_, l, r) => InvariantIsClosed(l, I); InvariantIsClosed(r, I);
      case Assign(_, l, r) => InvariantIsClosed(l, I); InvariantIsClosed(r, I);
      case DestructAssign(p, r) => ClosedPattern(p); InvariantIsClosed(r, I);
      case Block(body) => ClosedStmts(body, I);
      case If(c, t, f) =>
        InvariantIsClosed(c, I);
        InvariantIsClosed(t, I);
        if f.Some? {
          InvariantIsClosed(f.value, I);
        }
      case While(c, b) => InvariantIsClosed(c, I); InvariantIsClosed(b, I);
      case For(p, i, b) => InvariantIsClosed(i, I); InvariantIsClosed(b, I + PatternNames(p));
      case Return(r) =>
        if r.Some? {
          InvariantIsClosed(r.value, I);
        }
      case Lambda(self, ps, code) =>
        ClosedDefaults(ps, I);
        InvariantIsClosed(code, I + OptName(self) + ParamNames(ps));
      case Call(f, items) => InvariantIsClosed(f, I); ClosedItems(items, I);
      case _ =>
    }
  }

  lemma {:induction false} ClosedItems(items: seq<Item>, I: set<string>)
    requires InvariantItems(items)
    ensures FreeItems(items, I) == {}
    decreases items, 0
  {
    if items != [] {
      assert items[0].expr < items[0];
      InvariantIsClosed(items[0].expr, I);
      ClosedItems(items[1..], I);
    }
  }

  lemma {:induction false} ClosedDefaults(ps: seq<Param>, I: set<string>)
    requires InvariantParams(ps)
    ensures FreeDefaults(ps, I) == {}
  {
    if ps != [] {
      ClosedDefaults(ps[1..], I);
    }
  }

  lemma {:induction false} ClosedStmts(ss: seq<Stmt>, I: set<string>)
    requires InvariantStmts(ss)
    ensures FreeStmts(ss, I) == {}
    decreases ss, 0
  {
    if ss != [] {
      match ss[0]
      case Do(e) =>
        assert e < ss[0];
        InvariantIsClosed(e, I);
        ClosedStmts(ss[1..], I);
      case Let(p, init) =>
        if init.Some? {
          assert init < ss[0];
          InvariantIsClosed(init.value, I);
        }
        ClosedStmts(ss[1..], I + PatternNames(p));
    }
  }

  lemma {:induction false} ClosedPattern(p: Pattern)
    requires InvariantPattern(p)
    ensures PatternNames(p) == {}
    decreases p, 1
  {
    if p.Destructuring? {
      ClosedSlots(p.items);
    }
  }

  lemma {:induction false} ClosedSlots(items: seq<PatternItem>)
    requires InvariantSlots(items)
    ensures ItemNames(items) == {}
    decreases items, 0
  {
    if items != [] {
      if items[0].Slot? {
        assert items[0].pattern < items[0];
        ClosedPattern(items[0].pattern);
      }
      ClosedSlots(items[1..]);
    }
  }

  // ----- The early check -----

  /** A condition that stays true and a body that only continues: the loop cannot come to an end. */
  lemma {:induction false} NeverFinishes(lib: Library, w: Expr, out: Value, s: Scopes, depth: nat, fuel: nat)
    requires w.While? && WellFormed(w.cond) && IsInvariant(w.cond) && !CanDiverge(w.loop)
    requires var c := Eval(lib, w.cond, s, depth);
             c.Ok? && c.value.value == BoolVal(true) && Allowed(c.value.event, {ContinueKind})
    ensures Unchecked(lib, w, out, s, depth, fuel).Err?
    decreases fuel
  {
    var c := Eval(lib, w.cond, s, depth).value;
    if fuel > 0 {
      var b := Eval(lib, w.loop, c.scopes, depth);
      EvalEmits(lib, w.loop, c.scopes, depth);
      UndivergingEmits(w.loop);
      if b.Ok? {
        var step := AfterBody(out, c.event, b.value);
        if step.Go? {
          InvariantIsClosed(w.cond, {});
          ClosedIsConstant(lib, w.cond, s, step.scopes, depth);
          NeverFinishes(lib, w, step.out, step.scopes, depth, fuel - 1);
        }
      }
    }
  }

  /**
   The check only asks whether the body can diverge. Where it strikes, the loop it rejects could
   have finished exactly when the condition itself breaks or returns (and the first body succeeds).
   */
  lemma RejectedLoopFinishes(lib: Library, w: Expr, s: Scopes, depth: nat)
    requires w.While? && WellFormed(w.cond)
    requires Eval(lib, w.cond, s, depth).Ok?
    requires Guard(w, 0, Eval(lib, w.cond, s, depth).value.value) == Err(AlwaysTrue)
    ensures var c := Eval(lib, w.cond, s, depth).value;
            Finishes(lib, w, s, depth) <==>
            !Allowed(c.event, {ContinueKind}) && Eval(lib, w.loop, c.scopes, depth).Ok?
  {
    var c := Eval(lib, w.cond, s, depth).value;
    if Allowed(c.event, {ContinueKind}) {
      forall fuel: nat ensures Unchecked(lib, w, NoneVal, s, depth, fuel).Err? {
        NeverFinishes(lib, w, NoneVal, s, depth, fuel);
      }
    } else if Eval(lib, w.loop, c.scopes, depth).Ok? {
      assert Unchecked(lib, w, NoneVal, s, depth, 1).Ok?;
    }
  }

  /** With a condition free of breaks and returns, only loops without end are rejected. */
  lemma RejectionIsSound(lib: Library, w: Expr, s: Scopes, depth: nat)
    requires w.While? && WellFormed(w.cond) && !CanDiverge(w.cond)
    requires Eval(lib, w.cond, s, depth).Ok?
    requires Guard(w, 0, Eval(lib, w.cond, s, depth).value.value) == Err(AlwaysTrue)
    ensures !Finishes(lib, w, s, depth)
  {
    EvalEmits(lib, w.cond, s, depth);
    UndivergingEmits(w.cond);
    RejectedLoopFinishes(lib, w, s, depth);
  }

  /** `true; break` is a condition that is true once and then leaves the loop. */
  lemma TrueThenBreak(lib: Library, ss: seq<Stmt>, s: Scopes)
    requires ss == [Do(Literal(CBool(true))), Do(Break)]
    ensures Eval(lib, Block(ss), s, 0) == Ok(Completion(BoolVal(true), Some(BreakEvent), false, s))
  {
    var t: Scopes := s + [map[]];
    assert ss[1..] == [Do(Break)] && ss[1..][1..] == [];
    assert EvalStmts(lib, ss[1..], BoolVal(true), t, 0) == Ok(Completion(BoolVal(true), Some(BreakEvent), false, t));
    assert EvalStmt(lib, ss[0], t, 0) == Ok(Quiet(BoolVal(true), t));
    assert EvalStmts(lib, ss, NoneVal, t, 0) == Ok(Completion(BoolVal(true), Some(BreakEvent), false, t));
    assert t[..|s|] == s;
  }

  /** `while { true; break } {}` */
  ghost function LeavingLoop(): Expr {
    While(Block([Do(Literal(CBool(true))), Do(Break)]), Block([]))
  }

  lemma LeavingLoopFinishes(lib: Library)
    ensures WellFormed(LeavingLoop().cond) && Finishes(lib, LeavingLoop(), [], 0)
    ensures Guard(LeavingLoop(), 0, BoolVal(true)) == Err(AlwaysTrue)
  {
    var ss := [Do(Literal(CBool(true))), Do(Break)];
    assert ss[1..] == [Do(Break)] && ss[1..][1..] == [];
    assert WellStmts(ss) && InvariantStmts(ss);
    TrueThenBreak(lib, ss, []);
    EmptyBlock(lib, []);
    RejectedLoopFinishes(lib, LeavingLoop(), [], 0);
  }

  /** The loop is rejected although it would stop after one iteration. */
  lemma RejectionMayBeWrong(lib: Library)
    ensures exists w: Expr ::
      w.While? && WellFormed(w.cond) && Eval(lib, w, [], 0) == Err(AlwaysTrue) && Finishes(lib, w, [], 0)
  {
    var w := LeavingLoop();
    LeavingLoopFinishes(lib);
    TrueThenBreak(lib, w.cond.body, []);
    assert EvalWhile(lib, w, 0, NoneVal, [], 0) == Err(AlwaysTrue);
  }

  lemma EmptyBlock(lib: Library, s: Scopes)
    ensures Eval(lib, Block([]), s, 0) == Ok(Quiet(NoneVal, s))
  {
    assert (s + [map[]])[..|s|] == s;
  }
}
