/** Names for link targets: a usable label that is alone, or a label or `loc` with a number. */
module Anchors {
  import opened Options

  function Digits(n: nat): string {
    var digit := [('0' as int + n % 10) as char];
    if n < 10 then digit else Digits(n / 10) + digit
  }

  function Numbered(text: string, n: nat): string { text + "-" + Digits(n) }

  /** How often each label occurs, and which labels can be names. */
  datatype Labels = Labels(counts: map<string, nat>, usable: string -> bool) {
    predicate Occurs(name: string) { name in counts && counts[name] > 0 }
    predicate Alone(name: string) { name in counts && counts[name] == 1 }
  }

  datatype Counters = Counters(locations: nat, labels: map<string, nat>) {
    function Of(key: string): nat { if key in labels then labels[key] else 0 }
  }

  // ----- Numbers in names -----

  lemma {:induction false} DigitsAreDigits(n: nat, i: nat)
    requires i < |Digits(n)|
    ensures '0' <= Digits(n)[i] <= '9'
  {
    if n >= 10 && i < |Digits(n / 10)| {
      DigitsAreDigits(n / 10, i);
    }
  }

  lemma {:induction false} DigitsDiffer(m: nat, n: nat)
    requires Digits(m) == Digits(n)
    ensures m == n
  {
    var s := Digits(m);
    assert s[|s| - 1] as int - '0' as int == m % 10;
    assert s[|s| - 1] as int - '0' as int == n % 10;
    if m >= 10 && n >= 10 {
      assert Digits(m / 10) == s[..|s| - 1] == Digits(n / 10);
      DigitsDiffer(m / 10, n / 10);
    } else if m >= 10 {
      DigitsNonempty(m / 10);
    } else if n >= 10 {
      DigitsNonempty(n / 10);
    }
  }

  lemma DigitsNonempty(n: nat)
    ensures |Digits(n)| > 0
  {
  }

  /** The last dash separates text and number. */
  lemma NumberedIsInjective(s: string, m: nat, t: string, n: nat)
    requires Numbered(s, m) == Numbered(t, n)
    ensures s == t && m == n
  {
    var u := Numbered(s, m);
    assert u[|s|] == '-' && u[|t|] == '-';
    if |s| < |t| {
      DigitsAreDigits(m, |t| - |s| - 1);
    } else if |t| < |s| {
      DigitsAreDigits(n, |s| - |t| - 1);
    }
    assert s == u[..|s|] == t;
    assert Digits(m) == u[|s| + 1..] == Digits(n);
    DigitsDiffer(m, n);
  }

  // ----- Identification -----

  /** Labels that would clash with a number from `counter` on. */
  ghost function Ahead(labels: Labels, text: string, counter: nat): set<string> {
    set l | l in labels.counts && exists n: nat :: n >= counter && l == Numbered(text, n)
  }

  lemma AheadShrinks(labels: Labels, text: string, counter: nat)
    requires labels.Occurs(Numbered(text, counter))
    ensures Ahead(labels, text, counter + 1) < Ahead(labels, text, counter)
  {
    var l := Numbered(text, counter);
    assert l in Ahead(labels, text, counter);
    if n: nat :| n >= counter + 1 && l == Numbered(text, n) {
      NumberedIsInjective(text, counter, text, n);
    }
    forall k | k in Ahead(labels, text, counter + 1)
      ensures k in Ahead(labels, text, counter)
    {
      var n: nat :| n >= counter + 1 && k == Numbered(text, n);
    }
  }

  /** The first number from `counter` on that makes no existing label. */
  function FreeFrom(labels: Labels, text: string, counter: nat): (n: nat)
    ensures n >= counter && !labels.Occurs(Numbered(text, n))
    ensures forall k: nat :: counter <= k < n ==> labels.Occurs(Numbered(text, k))
    decreases Ahead(labels, text, counter)
  {
    if labels.Occurs(Numbered(text, counter)) then
      AheadShrinks(labels, text, counter);
      FreeFrom(labels, text, counter + 1)
    else counter
  }

  /** Where the name for a label comes from. */
  datatype Source = Own(key: string) | Shared(key: string) | Anonymous

  function SourceOf(labels: Labels, key: Option<string>): Source {
    if key.Some? && labels.usable(key.value) then
      if labels.Alone(key.value) then Own(key.value) else Shared(key.value)
    else Anonymous
  }

  function Identified(labels: Labels, g: Counters, key: Option<string>): (string, Counters) {
    match SourceOf(labels, key)
    case Own(l) => (l, g)
    case Shared(l) =>
      var n := FreeFrom(labels, l, g.Of(l) + 1);
      (Numbered(l, n), g.(labels := g.labels[l := n]))
    case Anonymous =>
      var n := FreeFrom(labels, "loc", g.locations + 1);
      (Numbered("loc", n), g.(locations := n))
  }

  class AnchorGenerator {
    const labels: Labels
    var locations: nat
    var labelCounter: map<string, nat>

    function State(): Counters
      reads this
    {
      Counters(locations, labelCounter)
    }

    constructor (labels: Labels)
      ensures this.labels == labels && State() == Counters(0, map[])
    {
      this.labels := labels;
      locations := 0;
      labelCounter := map[];
    }

    /** Steps the counter until the name is free. */
    method Disambiguate(text: string, counter: nat) returns (name: string, next: nat)
      ensures next == FreeFrom(labels, text, counter) && name == Numbered(text, next)
    {
      next := counter;
      while true
        invariant FreeFrom(labels, text, next) == FreeFrom(labels, text, counter)
        decreases Ahead(labels, text, next)
      {
        name := Numbered(text, next);
        if !labels.Occurs(name) {
          return;
        }
        AheadShrinks(labels, text, next);
        next := next + 1;
      }
    }

    method Identify(key: Option<string>) returns (name: string)
      modifies this
      ensures (name, State()) == Identified(labels, old(State()), key)
    {
      if key.Some? && labels.usable(key.value) {
        if labels.Alone(key.value) {
          return key.value;
        }
        var counter := if key.value in labelCounter then labelCounter[key.value] else 0;
        var next;
        name, next := Disambiguate(key.value, counter + 1);
        labelCounter := labelCounter[key.value := next];
        return;
      }
      name, locations := Disambiguate("loc", locations + 1);
    }
  }

  // ----- Distinct names -----

  datatype Run = Run(names: seq<string>, g: Counters)

  function IdentifyAll(labels: Labels, requests: seq<Option<string>>): (r: Run)
    ensures |r.names| == |requests|
  {
    if requests == [] then Run([], Counters(0, map[]))
    else
      var prev := IdentifyAll(labels, requests[..|requests| - 1]);
      var (name, g) := Identified(labels, prev.g, requests[|requests| - 1]);
      Run(prev.names + [name], g)
  }

  /** An element is identified once, so a label that occurs once is asked for at most once. */
  predicate EachOnce(labels: Labels, requests: seq<Option<string>>) {
    forall i, j :: 0 <= i < j < |requests| && SourceOf(labels, requests[i]).Own? ==> requests[i] != requests[j]
  }

  /** Where a name can come from, given the counters. */
  ghost predicate Explains(labels: Labels, g: Counters, source: Source, name: string) {
    match source
    case Own(l) => name == l
    case Shared(l) => exists n: nat :: n <= g.Of(l) && name == Numbered(l, n) && !labels.Occurs(name)
    case Anonymous => exists n: nat :: n <= g.locations && name == Numbered("loc", n) && !labels.Occurs(name)
  }

  lemma {:induction false} NamesAreExplained(labels: Labels, requests: seq<Option<string>>, i: nat)
    requires i < |requests|
    ensures var r := IdentifyAll(labels, requests);
            Explains(labels, r.g, SourceOf(labels, requests[i]), r.names[i])
    decreases |requests|
  {
    var front := requests[..|requests| - 1];
    var prev, r := IdentifyAll(labels, front), IdentifyAll(labels, requests);
    assert prev.g.locations <= r.g.locations && forall l :: prev.g.Of(l) <= r.g.Of(l);
    if i < |front| {
      NamesAreExplained(labels, front, i);
      assert front[i] == requests[i] && prev.names[i] == r.names[i];
    } else {
      match SourceOf(labels, requests[i]) {
        case Own(l) =>
        case Shared(l) => assert r.names[i] == Numbered(l, r.g.Of(l));
        case Anonymous => assert r.names[i] == Numbered("loc", r.g.locations);
      }
    }
  }

  predicate Clash(a: Source, b: Source) {
    a == Shared("loc") && b.Anonymous?
  }

  /** A new name differs from an earlier one, unless a label `loc` meets an unlabelled target. */
  lemma NewNameDiffers(labels: Labels, requests: seq<Option<string>>, i: nat)
    requires EachOnce(labels, requests) && i < |requests| - 1
    requires var a, b := SourceOf(labels, requests[i]), SourceOf(labels, requests[|requests| - 1]);
             !Clash(a, b) && !Clash(b, a)
    ensures IdentifyAll(labels, requests).names[i] != IdentifyAll(labels, requests).names[|requests| - 1]
  {
    var front := requests[..|requests| - 1];
    var prev, r := IdentifyAll(labels, front), IdentifyAll(labels, requests);
    NamesAreExplained(labels, front, i);
    NamesAreExplained(labels, requests, |requests| - 1);
    var a, b := SourceOf(labels, requests[i]), SourceOf(labels, requests[|requests| - 1]);
    if r.names[i] == r.names[|requests| - 1] {
      Meet(labels, prev.g, a, r.g, b, r.names[i]);
      match b {
        case Own(l) =>
        case Shared(l) => FreshOverPrevious(labels, prev.g, l, r.names[i]);
        case Anonymous =>
          var n: nat :| n <= prev.g.locations && r.names[i] == Numbered("loc", n);
          NumberedIsInjective("loc", n, "loc", r.g.locations);
      }
    }
  }

  lemma FreshOverPrevious(labels: Labels, g: Counters, l: string, name: string)
    requires Explains(labels, g, Shared(l), name)
    ensures name != Numbered(l, FreeFrom(labels, l, g.Of(l) + 1))
  {
    var n: nat :| n <= g.Of(l) && name == Numbered(l, n);
    if name == Numbered(l, FreeFrom(labels, l, g.Of(l) + 1)) {
      NumberedIsInjective(l, n, l, FreeFrom(labels, l, g.Of(l) + 1));
    }
  }

  /** Names from different sources differ, but for the clash. */
  lemma Meet(labels: Labels, g: Counters, a: Source, h: Counters, b: Source, name: string)
    requires Explains(labels, g, a, name) && Explains(labels, h, b, name)
    requires a.Own? ==> labels.Alone(a.key)
    requires b.Own? ==> labels.Alone(b.key)
    ensures a == b || Clash(a, b) || Clash(b, a)
  {
    if a.Own? || b.Own? {
      return;
    }
    var s, t := if a.Shared? then a.key else "loc", if b.Shared? then b.key else "loc";
    var m: nat :| name == Numbered(s, m);
    var n: nat :| name == Numbered(t, n);
    NumberedIsInjective(s, m, t, n);
  }

  ghost predicate Distinct(names: seq<string>) {
    forall i, j :: 0 <= i < j < |names| ==> names[i] != names[j]
  }

  ghost predicate HasClash(labels: Labels, requests: seq<Option<string>>) {
    exists i, j :: 0 <= i < |requests| && 0 <= j < |requests|
      && Clash(SourceOf(labels, requests[i]), SourceOf(labels, requests[j]))
  }

  /** Without the clash all names differ. */
  lemma {:induction false} NamesDiffer(labels: Labels, requests: seq<Option<string>>)
    requires EachOnce(labels, requests) && !HasClash(labels, requests)
    ensures Distinct(IdentifyAll(labels, requests).names)
    decreases |requests|
  {
    if requests != [] {
      var front := requests[..|requests| - 1];
      assert forall i :: 0 <= i < |front| ==> front[i] == requests[i];
      NamesDiffer(labels, front);
      var prev, r := IdentifyAll(labels, front), IdentifyAll(labels, requests);
      forall i | 0 <= i < |requests| - 1
        ensures r.names[i] != r.names[|requests| - 1]
      {
        NewNameDiffers(labels, requests, i);
      }
      assert r.names[..|r.names| - 1] == prev.names;
    }
  }

  predicate Asks(labels: Labels, requests: seq<Option<string>>, i: nat, source: Source)
    requires i < |requests|
  {
    SourceOf(labels, requests[i]) == source
  }

  /** A counter is at zero until its source is asked for. */
  lemma {:induction false} NoNumberYet(labels: Labels, requests: seq<Option<string>>, source: Source)
    requires source == Shared("loc") || source.Anonymous?
    requires forall i :: 0 <= i < |requests| ==> !Asks(labels, requests, i, source)
    ensures var g := IdentifyAll(labels, requests).g; (if source.Anonymous? then g.locations else g.Of("loc")) == 0
    decreases |requests|
  {
    if requests != [] {
      var front := requests[..|requests| - 1];
      forall i | 0 <= i < |front| ensures !Asks(labels, front, i, source) {
        assert !Asks(labels, requests, i, source);
      }
      assert !Asks(labels, requests, |requests| - 1, source);
      NoNumberYet(labels, front, source);
    }
  }

  /** The first request of a source gets the first free number. */
  lemma {:induction false} FirstNumber(labels: Labels, requests: seq<Option<string>>, source: Source) returns (i: nat)
    requires source == Shared("loc") || source.Anonymous?
    requires exists k :: 0 <= k < |requests| && Asks(labels, requests, k, source)
    ensures i < |requests| && Asks(labels, requests, i, source)
    ensures IdentifyAll(labels, requests).names[i] == Numbered("loc", FreeFrom(labels, "loc", 1))
    decreases |requests|
  {
    var last := |requests| - 1;
    var front := requests[..last];
    if k :| 0 <= k < last && Asks(labels, front, k, source) {
      i := FirstNumber(labels, front, source);
      assert front[i] == requests[i];
    } else {
      forall k | 0 <= k < last ensures !Asks(labels, requests, k, source) {
        assert !Asks(labels, front, k, source);
      }
      i := last;
      FirstAsked(labels, requests, source);
    }
  }

  lemma FirstAsked(labels: Labels, requests: seq<Option<string>>, source: Source)
    requires source == Shared("loc") || source.Anonymous?
    requires requests != [] && Asks(labels, requests, |requests| - 1, source)
    requires forall i :: 0 <= i < |requests| - 1 ==> !Asks(labels, requests, i, source)
    ensures IdentifyAll(labels, requests).names[|requests| - 1] == Numbered("loc", FreeFrom(labels, "loc", 1))
  {
    var front := requests[..|requests| - 1];
    forall i | 0 <= i < |front| ensures !Asks(labels, front, i, source) {
      assert !Asks(labels, requests, i, source);
    }
    NoNumberYet(labels, front, source);
  }

  /** Names are distinct exactly when no repeated label `loc` meets a target without a usable label. */
  lemma DistinctIffNoClash(labels: Labels, requests: seq<Option<string>>)
    requires EachOnce(labels, requests)
    ensures Distinct(IdentifyAll(labels, requests).names) <==> !HasClash(labels, requests)
  {
    if HasClash(labels, requests) {
      var m, n :| 0 <= m < |requests| && 0 <= n < |requests|
        && Clash(SourceOf(labels, requests[m]), SourceOf(labels, requests[n]));
      assert Asks(labels, requests, m, Shared("loc")) && Asks(labels, requests, n, Anonymous);
      var i := FirstNumber(labels, requests, Shared("loc"));
      var j := FirstNumber(labels, requests, Anonymous);
      assert i < j || j < i;
    } else {
      NamesDiffer(labels, requests);
    }
  }

  /** Two targets with the label `loc` and one without a label: the first and the last get the same name. */
  lemma LabelsNamedLocClash(usable: string -> bool)
    requires usable("loc")
    ensures var labels := Labels(map["loc" := 2], usable);
            var requests := [Some("loc"), Some("loc"), None];
            EachOnce(labels, requests) && !Distinct(IdentifyAll(labels, requests).names)
  {
    var labels := Labels(map["loc" := 2], usable);
    var requests := [Some("loc"), Some("loc"), None];
    assert SourceOf(labels, requests[0]) == Shared("loc") && SourceOf(labels, requests[2]) == Anonymous;
    assert Clash(SourceOf(labels, requests[0]), SourceOf(labels, requests[2]));
    DistinctIffNoClash(labels, requests);
  }
}
