/** Destructuring takes values apart without losing or inventing anything. */
module PatternLaws {
  import opened Options
  import opened Values
  import opened Patterns
  import opened Static

  // ----- When an array fits, at one level -----

  /** The element that item `j` of a pattern starts at: a spread before it takes up the surplus. */
  function Start(items: seq<PatternItem>, xs: seq<Value>, j: nat): int
    requires j <= |items|
  {
    if SpreadCount(items[..j]) == 0 then j else j + |xs| - |items|
  }

  /** The right number of elements, and every element fits the pattern at its place. */
  ghost predicate Fits(items: seq<PatternItem>, xs: seq<Value>) {
    LengthFits(items, xs) && FitsFrom(items, xs, 0)
  }

  ghost predicate FitsFrom(items: seq<PatternItem>, xs: seq<Value>, j: nat) {
    forall i :: j <= i < |items| ==> ItemFits(items, xs, i)
  }

  ghost predicate ItemFits(items: seq<PatternItem>, xs: seq<Value>, j: nat)
    requires j < |items|
  {
    var k := Start(items, xs, j);
    && !items[j].Field?
    && (items[j].Slot? ==> 0 <= k < |xs| && Match(items[j].pattern, xs[k]).ok)
  }

  lemma {:induction false} SpreadsSplit(items: seq<PatternItem>, j: nat)
    requires j <= |items|
    ensures SpreadCount(items) == SpreadCount(items[..j]) + SpreadCount(items[j..])
  {
    if j > 0 {
      SpreadsSplit(items[1..], j - 1);
      assert items[..j][1..] == items[1..][..j - 1] && items[j..] == items[1..][j - 1..];
    }
  }

  lemma SpreadStep(items: seq<PatternItem>, j: nat)
    requires j < |items|
    ensures SpreadCount(items[..j + 1]) == SpreadCount(items[..j]) + if items[j].Rest? then 1 else 0
  {
    SpreadsSplit(items[..j + 1], j);
    assert items[..j + 1][..j] == items[..j] && items[..j + 1][j..] == [items[j]];
  }

  lemma FitsStep(items: seq<PatternItem>, xs: seq<Value>, j: nat)
    requires j < |items|
    ensures FitsFrom(items, xs, j) <==> ItemFits(items, xs, j) && FitsFrom(items, xs, j + 1)
  {
  }

  /** Item `j` starts within the array, and a spread before it has room. */
  predicate InRange(items: seq<PatternItem>, xs: seq<Value>, j: nat) {
    && j <= |items| && SpreadCount(items) <= 1 && 0 <= Start(items, xs, j) <= |xs|
    && (SpreadCount(items[..j]) > 0 ==> |items| <= 1 + |xs|)
  }

  /** The elements that a spread takes up; any other item takes up one. */
  function Size(items: seq<PatternItem>, xs: seq<Value>, j: nat): int
    requires j < |items|
  {
    if items[j].Rest? then 1 + |xs| - |items| else 1
  }

  /** The next item starts where this one ends. */
  lemma StartStep(items: seq<PatternItem>, xs: seq<Value>, j: nat)
    requires InRange(items, xs, j) && j < |items|
    ensures Start(items, xs, j + 1) == Start(items, xs, j) + Size(items, xs, j)
    ensures items[j].Rest? && |items| <= 1 + |xs| ==> Start(items, xs, j + 1) <= |xs|
    ensures SpreadCount(items[..j + 1]) > 0 <==> SpreadCount(items[..j]) > 0 || items[j].Rest?
  {
    SpreadStep(items, j);
    SpreadsSplit(items, j + 1);
  }

  /** What item `j` binds. */
  function ItemBinds(items: seq<PatternItem>, xs: seq<Value>, j: nat): seq<Entry>
    requires j < |items|
  {
    var k, n := Start(items, xs, j), Size(items, xs, j);
    if k < 0 || n < 0 || |xs| < k + n then []
    else match items[j]
      case Slot(p) => Match(p, xs[k]).binds
      case Rest(sink) => if sink.Some? then [Entry(sink.value, ArrayVal(xs[k..k + n]))] else []
      case Field(_, _) => []
  }

  function BindsFrom(items: seq<PatternItem>, xs: seq<Value>, j: nat): seq<Entry>
    requires j <= |items|
    decreases |items| - j
  {
    if j == |items| then [] else ItemBinds(items, xs, j) + BindsFrom(items, xs, j + 1)
  }

  /** The spread has room, or the item fits the element at its place. */
  ghost predicate ItemMatches(items: seq<PatternItem>, xs: seq<Value>, j: nat)
    requires j < |items|
  {
    ItemFits(items, xs, j) && (items[j].Rest? ==> |items| <= 1 + |xs|)
  }

  lemma ItemAt(items: seq<PatternItem>, xs: seq<Value>, j: nat)
    requires InRange(items, xs, j) && j < |items|
    ensures var m := MatchItem(items[j], |items|, xs, Start(items, xs, j));
      && (m.ok <==> ItemMatches(items, xs, j))
      && (m.ok ==> m.binds == ItemBinds(items, xs, j) && InRange(items, xs, j + 1))
      && (m.ok ==> Start(items, xs, j + 1) == Start(items, xs, j) + Width(items[j], |items|, xs))
  {
    StartStep(items, xs, j);
  }

  lemma ArrayAt(items: seq<PatternItem>, count: nat, xs: seq<Value>, j: nat, i: nat)
    requires j < |items|
    ensures MatchArray(items[j..], count, xs, i) ==
      var m := MatchItem(items[j], count, xs, i);
      if m.ok then m.Then(MatchArray(items[j + 1..], count, xs, i + Width(items[j], count, xs))) else m
  {
    assert items[j..][0] == items[j] && items[j..][1..] == items[j + 1..];
  }

  ghost predicate LengthFits(items: seq<PatternItem>, xs: seq<Value>) {
    if SpreadCount(items) == 0 then |xs| == |items| else |items| - 1 <= |xs|
  }

  /** From item `j` on, matching succeeds when the length is right and the items fit, and binds what they bind. */
  lemma {:induction false} MatchFrom(items: seq<PatternItem>, xs: seq<Value>, j: nat)
    requires InRange(items, xs, j)
    ensures var m := MatchArray(items[j..], |items|, xs, Start(items, xs, j));
      && (m.ok <==> LengthFits(items, xs) && FitsFrom(items, xs, j))
      && (m.ok ==> m.binds == BindsFrom(items, xs, j))
    decreases |items| - j
  {
    if j == |items| {
      assert items[..j] == items;
    } else {
      ArrayAt(items, |items|, xs, j, Start(items, xs, j));
      ItemAt(items, xs, j);
      FitsStep(items, xs, j);
      if ItemMatches(items, xs, j) {
        MatchFrom(items, xs, j + 1);
      } else {
        SpreadHasRoom(items, xs, j);
      }
    }
  }

  lemma SpreadHasRoom(items: seq<PatternItem>, xs: seq<Value>, j: nat)
    requires j < |items|
    ensures items[j].Rest? && LengthFits(items, xs) ==> |items| <= 1 + |xs|
  {
    SpreadStep(items, j);
    SpreadsSplit(items, j + 1);
  }

  /** With at most one spread, an array matches exactly when it fits, and every item binds its own part of it. */
  lemma ArrayMatchesIffItFits(items: seq<PatternItem>, xs: seq<Value>)
    requires SpreadCount(items) <= 1
    ensures Match(Destructuring(items), ArrayVal(xs)).ok <==> Fits(items, xs)
    ensures Fits(items, xs) ==> Match(Destructuring(items), ArrayVal(xs)).binds == BindsFrom(items, xs, 0)
  {
    assert items[0..] == items && items[..0] == [];
    MatchFrom(items, xs, 0);
  }

  // ----- The bindings hold the whole array -----

  /** Nothing is thrown away: no placeholders, no anonymous spreads. */
  predicate Keeps(p: Pattern) {
    match p
    case Bind(_) => true
    case Placeholder => false
    case Destructuring(items) => KeepsItems(items)
  }

  predicate KeepsItems(items: seq<PatternItem>) {
    items != [] ==>
      && (match items[0]
          case Slot(p) => assert p < items[0]; Keeps(p)
          case Field(_, _) => false
          case Rest(sink) => sink.Some?)
      && KeepsItems(items[1..])
  }

  /** Only arrays are taken apart; dictionaries may be bound whole. */
  predicate TakesArrays(p: Pattern, v: Value)
    decreases p, 1
  {
    p.Destructuring? ==> !v.DictVal? && (v.ArrayVal? ==> ItemsTakeArrays(p.items, |p.items|, v.elems, 0))
  }

  predicate ItemsTakeArrays(items: seq<PatternItem>, count: nat, xs: seq<Value>, i: nat)
    decreases items, 0
  {
    items != [] ==>
      && (items[0].Slot? && i < |xs| ==> assert items[0].pattern < items[0]; TakesArrays(items[0].pattern, xs[i]))
      && ItemsTakeArrays(items[1..], count, xs, i + Width(items[0], count, xs))
  }

  /** Puts a value together again from the bindings of its pattern; also returns those not used. */
  function Rebuild(p: Pattern, bs: seq<Entry>): (Value, seq<Entry>)
    decreases p, 1
  {
    match p
    case Destructuring(items) =>
      var (xs, rest) := RebuildItems(items, bs);
      (ArrayVal(xs), rest)
    case _ => if bs == [] then (NoneVal, []) else (bs[0].value, bs[1..])
  }

  function RebuildItems(items: seq<PatternItem>, bs: seq<Entry>): (seq<Value>, seq<Entry>)
    decreases items, 0
  {
    if items == [] then ([], bs)
    else
      var (xs, rest) :=
        if !items[0].Rest? then
          assert items[0].pattern < items[0];
          var (v, rest) := Rebuild(items[0].pattern, bs);
          ([v], rest)
        else if bs != [] && bs[0].value.ArrayVal? then (bs[0].value.elems, bs[1..])
        else ([], bs);
      var (ys, unused) := RebuildItems(items[1..], rest);
      (xs + ys, unused)
  }

  /** The bound pieces, in pattern order and at every level, make up the value again. */
  lemma {:induction false} PiecesRebuildTheValue(p: Pattern, v: Value, tail: seq<Entry>)
    requires Keeps(p) && TakesArrays(p, v) && Match(p, v).ok
    ensures Rebuild(p, Match(p, v).binds + tail) == (v, tail)
    decreases p, 1
  {
    match p
    case Bind(n) => assert (Match(p, v).binds + tail)[1..] == tail;
    case Destructuring(items) =>
      ItemsRebuild(items, |items|, v.elems, 0, tail);
      assert v.elems[0..] == v.elems;
  }

  lemma {:induction false} ItemsRebuild(items: seq<PatternItem>, count: nat, xs: seq<Value>, i: nat, tail: seq<Entry>)
    requires KeepsItems(items) && i <= |xs| && ItemsTakeArrays(items, count, xs, i)
    requires MatchArray(items, count, xs, i).ok
    ensures RebuildItems(items, MatchArray(items, count, xs, i).binds + tail) == (xs[i..], tail)
    decreases items, 0
  {
    if items == [] {
      assert Matched([], |xs| <= i).binds + tail == tail;
    } else {
      var m := MatchItem(items[0], count, xs, i);
      var w := Width(items[0], count, xs);
      var rest := MatchArray(items[1..], count, xs, i + w);
      assert m.binds + rest.binds + tail == m.binds + (rest.binds + tail);
      ItemsRebuild(items[1..], count, xs, i + w, tail);
      assert xs[i..] == xs[i..i + w] + xs[i + w..];
      if items[0].Slot? {
        assert items[0].pattern < items[0];
        PiecesRebuildTheValue(items[0].pattern, xs[i], rest.binds + tail);
        SlotRebuilds(items, m.binds + (rest.binds + tail), xs[i], rest.binds + tail);
        assert xs[i..i + 1] == [xs[i]];
      } else {
        RestRebuilds(items, Entry(items[0].sink.value, ArrayVal(xs[i..i + w])), rest.binds + tail);
      }
    }
  }

  lemma SlotRebuilds(items: seq<PatternItem>, bs: seq<Entry>, v: Value, rest: seq<Entry>)
    requires items != [] && items[0].Slot? && Rebuild(items[0].pattern, bs) == (v, rest)
    ensures RebuildItems(items, bs) == ([v] + RebuildItems(items[1..], rest).0, RebuildItems(items[1..], rest).1)
  {
  }

  lemma RestRebuilds(items: seq<PatternItem>, e: Entry, rest: seq<Entry>)
    requires items != [] && items[0].Rest? && e.value.ArrayVal?
    ensures RebuildItems(items, [e] + rest)
         == (e.value.elems + RebuildItems(items[1..], rest).0, RebuildItems(items[1..], rest).1)
  {
    assert ([e] + rest)[1..] == rest;
  }

  // ----- Dictionaries -----

  /** The keys a dictionary pattern names. */
  function NamedKeys(items: seq<PatternItem>): set<string> {
    if items == [] then {}
    else (match items[0]
          case Slot(Bind(n)) => {n}
          case Field(k, _) => {k}
          case _ => {}) + NamedKeys(items[1..])
  }

  function LastSink(items: seq<PatternItem>, sink: Option<string>): Option<string> {
    if items == [] then sink
    else LastSink(items[1..], if items[0].Rest? then items[0].sink else sink)
  }

  lemma {:induction false} UnusedLaw(d: seq<Entry>, used: set<string>, e: Entry)
    ensures e in Unused(d, used) <==> e in d && e.key !in used
  {
    if d != [] {
      UnusedLaw(d[1..], used, e);
      assert d == [d[0]] + d[1..];
    }
  }

  ghost predicate EndsWith(bs: seq<Entry>, tail: seq<Entry>) {
    |tail| <= |bs| && bs[|bs| - |tail|..] == tail
  }

  lemma EndsWithMore(front: seq<Entry>, bs: seq<Entry>, tail: seq<Entry>)
    requires EndsWith(bs, tail)
    ensures EndsWith(front + bs, tail)
  {
  }

  lemma {:induction false} SinkIsLast(items: seq<PatternItem>, d: seq<Entry>, used: set<string>, sink: Option<string>)
    requires MatchDict(items, d, used, sink).ok
    ensures var m := MatchDict(items, d, used, sink);
            var tail := SinkBind(LastSink(items, sink), DictVal(Unused(d, used + NamedKeys(items)))).binds;
            EndsWith(m.binds, tail)
  {
    if items == [] {
      assert used + NamedKeys(items) == used;
    } else if items[0].Rest? {
      SinkIsLast(items[1..], d, used, items[0].sink);
      assert used + NamedKeys(items) == used + NamedKeys(items[1..]);
    } else {
      var k := KeyOf(items[0]);
      var front := KeyStep(items, d, used, sink);
      SinkIsLast(items[1..], d, used + {k}, sink);
      assert used + NamedKeys(items) == used + {k} + NamedKeys(items[1..]);
      EndsWithMore(front, MatchDict(items[1..], d, used + {k}, sink).binds,
        SinkBind(LastSink(items, sink), DictVal(Unused(d, used + NamedKeys(items)))).binds);
    }
  }

  function KeyOf(item: PatternItem): string {
    match item
    case Slot(Bind(n)) => n
    case Field(k, _) => k
    case _ => ""
  }

  lemma KeyStep(items: seq<PatternItem>, d: seq<Entry>, used: set<string>, sink: Option<string>)
    returns (front: seq<Entry>)
    requires items != [] && !items[0].Rest? && MatchDict(items, d, used, sink).ok
    ensures NamedKeys(items) == {KeyOf(items[0])} + NamedKeys(items[1..])
    ensures var rest := MatchDict(items[1..], d, used + {KeyOf(items[0])}, sink);
            rest.ok && MatchDict(items, d, used, sink).binds == front + rest.binds
  {
    front := Match(items[0].pattern, Get(d, KeyOf(items[0])).value).binds;
  }

  /** The spread of a dictionary pattern gets exactly the entries whose keys are not named. */
  lemma DictSinkGetsTheRest(items: seq<PatternItem>, d: seq<Entry>, n: string, e: Entry)
    requires Match(Destructuring(items), DictVal(d)).ok && LastSink(items, None) == Some(n)
    ensures var binds := Match(Destructuring(items), DictVal(d)).binds;
            && binds != [] && binds[|binds| - 1].key == n && binds[|binds| - 1].value.DictVal?
            && (e in binds[|binds| - 1].value.entries <==> e in d && e.key !in NamedKeys(items))
  {
    SinkIsLast(items, d, {}, None);
    assert {} + NamedKeys(items) == NamedKeys(items);
    UnusedLaw(d, NamedKeys(items), e);
  }
}
