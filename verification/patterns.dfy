/** Destructuring of values by patterns. */
module Patterns {
  import opened Options
  import opened Values

  /** The bindings a pattern makes, in order, up to the first failure if any. */
  datatype Matched = Matched(binds: seq<Entry>, ok: bool) {
    function Then(next: Matched): Matched {
      Matched(binds + next.binds, next.ok)
    }
  }

  const Failed := Matched([], false)

  function One(n: string, v: Value): Matched {
    Matched([Entry(n, v)], true)
  }

  function SinkBind(sink: Option<string>, v: Value): Matched {
    match sink
    case None => Matched([], true)
    case Some(n) => One(n, v)
  }

  function Get(d: seq<Entry>, k: string): Option<Value> {
    if d == [] then None else if d[0].key == k then Some(d[0].value) else Get(d[1..], k)
  }

  function Unused(d: seq<Entry>, used: set<string>): seq<Entry> {
    if d == [] then []
    else if d[0].key in used then Unused(d[1..], used)
    else [d[0]] + Unused(d[1..], used)
  }

  function Match(p: Pattern, v: Value): Matched
    decreases p, 0
  {
    match p
    case Bind(n) => One(n, v)
    case Placeholder => Matched([], true)
    case Destructuring(items) =>
      match v
      case ArrayVal(xs) => MatchArray(items, |items|, xs, 0)
      case DictVal(d) => MatchDict(items, d, {}, None)
      case _ => Failed
  }

  /** `count` is the number of items of the whole pattern, `i` the next element. */
  function MatchArray(items: seq<PatternItem>, count: nat, xs: seq<Value>, i: nat): Matched
    decreases items, 1
  {
    if items == [] then Matched([], |xs| <= i)
    else
      var m := MatchItem(items[0], count, xs, i);
      if m.ok then m.Then(MatchArray(items[1..], count, xs, i + Width(items[0], count, xs))) else m
  }

  function MatchItem(item: PatternItem, count: nat, xs: seq<Value>, i: nat): Matched
    decreases item, 0
  {
    match item
    case Slot(p) => if |xs| <= i then Failed else Match(p, xs[i])
    case Rest(sink) =>
      if 1 + |xs| < count || |xs| < i + Width(item, count, xs) then Failed
      else SinkBind(sink, ArrayVal(xs[i..i + Width(item, count, xs)]))
    case Field(_, _) => Failed
  }

  /** The number of elements an item of an array pattern takes up. */
  function Width(item: PatternItem, count: nat, xs: seq<Value>): nat {
    if item.Rest? && count <= 1 + |xs| then 1 + |xs| - count else 1
  }

  function MatchDict(items: seq<PatternItem>, d: seq<Entry>, used: set<string>, sink: Option<string>): Matched
    decreases items, 1
  {
    if items == [] then SinkBind(sink, DictVal(Unused(d, used)))
    else match items[0]
      case Slot(Bind(n)) => MatchKey(items, n, Bind(n), d, used, sink)
      case Field(k, p) => MatchKey(items, k, p, d, used, sink)
      case Rest(s) => MatchDict(items[1..], d, used, s)
      case Slot(_) => Failed
  }

  function MatchKey(items: seq<PatternItem>, k: string, p: Pattern, d: seq<Entry>, used: set<string>,
                    sink: Option<string>): Matched
    requires items != [] && !items[0].Rest? && items[0].pattern == p
    decreases items, 0
  {
    match Get(d, k)
    case None => Failed
    case Some(v) =>
      assert p < items[0];
      var m := Match(p, v);
      if m.ok then m.Then(MatchDict(items[1..], d, used + {k}, sink)) else m
  }
}
