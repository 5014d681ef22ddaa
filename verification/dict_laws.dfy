/** What a dictionary pattern binds, stated by the entries of the dictionary. */
module DictionaryLaws {
  import opened Options
  import opened Values
  import opened Patterns
  import opened PatternLaws

  ghost predicate DistinctKeys(d: seq<Entry>) {
    forall i, j :: 0 <= i < j < |d| ==> d[i].key != d[j].key
  }

  /** A dictionary pattern has plain names, fields and spreads. */
  predicate DictItem(item: PatternItem) {
    item.Slot? ==> item.pattern.Bind?
  }

  ghost predicate HasEntry(d: seq<Entry>, item: PatternItem, v: Value)
    requires !item.Rest?
  {
    Entry(KeyOf(item), v) in d && Match(item.pattern, v).ok
  }

  /** The key is there, and its value fits the sub-pattern. */
  ghost predicate DictItemFits(item: PatternItem, d: seq<Entry>) {
    DictItem(item) && (!item.Rest? ==> exists v :: HasEntry(d, item, v))
  }

  ghost predicate DictFits(items: seq<PatternItem>, d: seq<Entry>) {
    forall j :: 0 <= j < |items| ==> DictItemFits(items[j], d)
  }

  /** What one item binds: its sub-pattern against the value of its key. Spreads are bound at the end. */
  ghost function DictItemBinds(item: PatternItem, d: seq<Entry>): seq<Entry>
    requires DictItemFits(item, d)
  {
    if item.Rest? then [] else var v :| HasEntry(d, item, v); Match(item.pattern, v).binds
  }

  ghost function DictBinds(items: seq<PatternItem>, d: seq<Entry>): seq<Entry>
    requires DictFits(items, d)
  {
    if items == [] then []
    else
      assert forall j :: 0 <= j < |items[1..]| ==> items[1..][j] == items[j + 1];
      DictItemBinds(items[0], d) + DictBinds(items[1..], d)
  }

  /** The entries whose keys are not named, in the order of the dictionary. */
  function Others(d: seq<Entry>, named: set<string>): seq<Entry> {
    if d == [] then []
    else
      var n := |d| - 1;
      Others(d[..n], named) + if d[n].key in named then [] else [d[n]]
  }

  function SinkEntry(sink: Option<string>, others: seq<Entry>): seq<Entry> {
    match sink
    case None => []
    case Some(n) => [Entry(n, DictVal(others))]
  }

  // ----- Lookup -----

  lemma {:induction false} GetIsEntry(d: seq<Entry>, k: string, v: Value)
    requires DistinctKeys(d)
    ensures Get(d, k) == Some(v) <==> Entry(k, v) in d
  {
    if d != [] {
      assert d == [d[0]] + d[1..];
      assert DistinctKeys(d[1..]) by {
        assert forall i :: 0 <= i < |d| - 1 ==> d[1..][i] == d[i + 1];
      }
      GetIsEntry(d[1..], k, v);
      assert d[0].key == k ==> Entry(k, v) !in d[1..];
    }
  }

  lemma {:induction false} OthersAreUnused(d: seq<Entry>, named: set<string>)
    ensures Unused(d, named) == Others(d, named)
    decreases |d|
  {
    if d != [] {
      var n := |d| - 1;
      OthersAreUnused(d[..n], named);
      UnusedSnoc(d[..n], d[n], named);
      assert d == d[..n] + [d[n]];
    }
  }

  lemma {:induction false} UnusedSnoc(d: seq<Entry>, e: Entry, named: set<string>)
    ensures Unused(d + [e], named) == Unused(d, named) + if e.key in named then [] else [e]
  {
    if d == [] {
      assert [] + [e] == [e] && [e][1..] == [];
    } else {
      assert (d + [e])[1..] == d[1..] + [e];
      UnusedSnoc(d[1..], e, named);
    }
  }

  // ----- Matching -----

  lemma KeyedMatch(items: seq<PatternItem>, d: seq<Entry>, used: set<string>, sink: Option<string>)
    requires items != [] && !items[0].Rest? && DistinctKeys(d)
    ensures var k := KeyOf(items[0]);
      var rest := MatchDict(items[1..], d, used + {k}, sink);
      var m := MatchDict(items, d, used, sink);
      && (m.ok <==> DictItemFits(items[0], d) && rest.ok)
      && (m.ok ==> m.binds == DictItemBinds(items[0], d) + rest.binds)
  {
    var item, k := items[0], KeyOf(items[0]);
    if DictItem(item) {
      var g := Get(d, k);
      if g.Some? {
        GetIsEntry(d, k, g.value);
      }
      if v :| HasEntry(d, item, v) {
        GetIsEntry(d, k, v);
      }
      forall v | HasEntry(d, item, v) ensures g == Some(v) {
        GetIsEntry(d, k, v);
      }
      if g.Some? && Match(item.pattern, g.value).ok {
        assert HasEntry(d, item, g.value);
      }
    }
  }

  lemma FitsTail(items: seq<PatternItem>, d: seq<Entry>)
    requires items != []
    ensures DictFits(items, d) <==> DictItemFits(items[0], d) && DictFits(items[1..], d)
  {
    assert items == [items[0]] + items[1..];
    if DictFits(items, d) {
      assert forall j :: 0 <= j < |items[1..]| ==> items[1..][j] == items[j + 1];
    }
  }

  lemma NamedNext(items: seq<PatternItem>, used: set<string>)
    requires items != [] && !items[0].Rest?
    ensures DictItem(items[0]) ==> used + NamedKeys(items) == used + {KeyOf(items[0])} + NamedKeys(items[1..])
  {
  }

  ghost predicate MatchesFrom(
    m: Matched, items: seq<PatternItem>, d: seq<Entry>, used: set<string>, sink: Option<string>)
  {
    && (m.ok <==> DictFits(items, d))
    && (m.ok ==>
          m.binds == DictBinds(items, d) + SinkEntry(LastSink(items, sink), Others(d, used + NamedKeys(items))))
  }

  lemma KeyedFrom(items: seq<PatternItem>, d: seq<Entry>, used: set<string>, sink: Option<string>)
    requires items != [] && !items[0].Rest? && DistinctKeys(d)
    requires var k := KeyOf(items[0]);
      MatchesFrom(MatchDict(items[1..], d, used + {k}, sink), items[1..], d, used + {k}, sink)
    ensures MatchesFrom(MatchDict(items, d, used, sink), items, d, used, sink)
  {
    FitsTail(items, d);
    KeyedMatch(items, d, used, sink);
    if MatchDict(items, d, used, sink).ok {
      NamedNext(items, used);
      var sunk := SinkEntry(LastSink(items, sink), Others(d, used + NamedKeys(items)));
      Regrouped(DictItemBinds(items[0], d), DictBinds(items[1..], d), sunk);
    }
  }

  lemma Regrouped(x: seq<Entry>, y: seq<Entry>, z: seq<Entry>)
    ensures x + (y + z) == x + y + z
  {
  }

  lemma {:induction false} MatchDictFrom(
    items: seq<PatternItem>, d: seq<Entry>, used: set<string>, sink: Option<string>)
    requires DistinctKeys(d)
    ensures MatchesFrom(MatchDict(items, d, used, sink), items, d, used, sink)
  {
    if items == [] {
      OthersAreUnused(d, used);
      assert used + NamedKeys(items) == used;
    } else if items[0].Rest? {
      FitsTail(items, d);
      MatchDictFrom(items[1..], d, used, items[0].sink);
      assert used + NamedKeys(items) == used + NamedKeys(items[1..]);
    } else {
      MatchDictFrom(items[1..], d, used + {KeyOf(items[0])}, sink);
      KeyedFrom(items, d, used, sink);
    }
  }

  /**
   A dictionary matches exactly when each named key is there with a value that fits; each item then binds the value
   of its own key, in order, and the last spread gets the entries whose keys are not named.
   */
  lemma DictMatchesIffItFits(items: seq<PatternItem>, d: seq<Entry>)
    requires DistinctKeys(d)
    ensures Match(Destructuring(items), DictVal(d)).ok <==> DictFits(items, d)
    ensures DictFits(items, d) ==>
      Match(Destructuring(items), DictVal(d)).binds
      == DictBinds(items, d) + SinkEntry(LastSink(items, None), Others(d, NamedKeys(items)))
  {
    MatchDictFrom(items, d, {}, None);
    assert {} + NamedKeys(items) == NamedKeys(items);
  }
}
