/** What the names for a sequence of labels are, told without the counters that produce them. */
module AnchorNames {
  import opened Options
  import opened Anchors

  // ----- Numbers -----

  function DecimalValue(s: string): int {
    if s == [] then 0 else 10 * DecimalValue(s[..|s| - 1]) + (s[|s| - 1] as int - '0' as int)
  }

  /** Numbers are written in decimal notation, without zeros in front. */
  lemma {:induction false} DigitsAreDecimal(n: nat)
    ensures DecimalValue(Digits(n)) == n
    ensures Digits(n) != [] && (Digits(n)[0] == '0' ==> n == 0)
  {
    if n >= 10 {
      DigitsAreDecimal(n / 10);
      assert Digits(n)[..|Digits(n)| - 1] == Digits(n / 10);
    } else {
      assert Digits(n)[..0] == [];
    }
  }

  // ----- Series of names -----

  /** The label can be a name. */
  predicate Named(labels: Labels, key: Option<string>) {
    key.Some? && labels.usable(key.value)
  }

  predicate Unique(labels: Labels, key: Option<string>) {
    Named(labels, key) && key.value in labels.counts && labels.counts[key.value] == 1
  }

  function Stem(labels: Labels, key: Option<string>): string {
    if Named(labels, key) then key.value else "loc"
  }

  /** The same usable label, or no usable label at all. */
  predicate SameSeries(labels: Labels, a: Option<string>, b: Option<string>) {
    if Named(labels, a) then a == b else !Named(labels, b)
  }

  /** The name is a label of the document, or was given before in the same series. */
  predicate Taken(labels: Labels, requests: seq<Option<string>>, names: seq<string>, key: Option<string>, name: string)
    requires |names| == |requests|
  {
    || (name in labels.counts && labels.counts[name] > 0)
    || Given(labels, requests, names, key, name)
  }

  predicate Given(labels: Labels, requests: seq<Option<string>>, names: seq<string>, key: Option<string>, name: string)
    requires |names| == |requests|
  {
    exists j :: 0 <= j < |requests| && SameSeries(labels, key, requests[j]) && names[j] == name
  }

  /** The first name of the series that is not taken. */
  ghost predicate FirstFree(labels: Labels, requests: seq<Option<string>>, names: seq<string>, key: Option<string>,
                            name: string, n: nat)
    requires |names| == |requests|
  {
    && n >= 1 && name == Numbered(Stem(labels, key), n)
    && !Taken(labels, requests, names, key, name)
    && forall m | 1 <= m < n :: Taken(labels, requests, names, key, Numbered(Stem(labels, key), m))
  }

  function Counter(labels: Labels, g: Counters, key: Option<string>): nat {
    if Named(labels, key) then g.Of(key.value) else g.locations
  }

  /** The counter of a series is at the last number that was given. */
  ghost predicate CounterFits(labels: Labels, requests: seq<Option<string>>, r: Run, key: Option<string>)
    requires |r.names| == |requests|
  {
    forall m: nat | m >= 1 :: NumberFits(labels, requests, r, key, m)
  }

  predicate NumberFits(labels: Labels, requests: seq<Option<string>>, r: Run, key: Option<string>, m: nat)
    requires |r.names| == |requests|
  {
    var name := Numbered(Stem(labels, key), m);
    if m <= Counter(labels, r.g, key) then Taken(labels, requests, r.names, key, name)
    else !Given(labels, requests, r.names, key, name)
  }

  lemma GivenNext(labels: Labels, requests: seq<Option<string>>, names: seq<string>, key: Option<string>, name: string)
    requires requests != [] && |names| == |requests|
    ensures var n := |requests| - 1;
      Given(labels, requests, names, key, name)
      <==> Given(labels, requests[..n], names[..n], key, name)
           || (SameSeries(labels, key, requests[n]) && names[n] == name)
  {
    var n := |requests| - 1;
    if j :| 0 <= j < n && SameSeries(labels, key, requests[..n][j]) && names[..n][j] == name {
      assert requests[j] == requests[..n][j] && names[j] == names[..n][j];
    }
    if j :| 0 <= j < |requests| && SameSeries(labels, key, requests[j]) && names[j] == name && j < n {
      assert requests[j] == requests[..n][j] && names[j] == names[..n][j];
    }
  }

  /** The counter fits before and after every request. */
  lemma {:induction false} CountersFit(labels: Labels, requests: seq<Option<string>>, key: Option<string>)
    requires !Unique(labels, key)
    ensures CounterFits(labels, requests, IdentifyAll(labels, requests), key)
    decreases |requests|
  {
    if requests != [] {
      var n := |requests| - 1;
      CountersFit(labels, requests[..n], key);
      CounterNext(labels, requests, key);
    }
  }

  lemma CounterNext(labels: Labels, requests: seq<Option<string>>, key: Option<string>)
    requires requests != [] && !Unique(labels, key)
    requires CounterFits(labels, requests[..|requests| - 1], IdentifyAll(labels, requests[..|requests| - 1]), key)
    ensures CounterFits(labels, requests, IdentifyAll(labels, requests), key)
  {
    var n := |requests| - 1;
    var prev, r := IdentifyAll(labels, requests[..n]), IdentifyAll(labels, requests);
    assert r.names[..n] == prev.names && r.names[n] == Identified(labels, prev.g, requests[n]).0;
    forall m: nat | m >= 1 ensures NumberFits(labels, requests, r, key, m) {
      assert NumberFits(labels, requests[..n], prev, key, m);
      if SameSeries(labels, key, requests[n]) {
        NumberAdvances(labels, requests, prev, r, key, m);
      } else {
        NumberStays(labels, requests, prev, r, key, m);
      }
    }
  }

  lemma NumberStays(labels: Labels, requests: seq<Option<string>>, prev: Run, r: Run, key: Option<string>, m: nat)
    requires requests != [] && |r.names| == |requests| && prev.names == r.names[..|requests| - 1]
    requires (r.names[|requests| - 1], r.g) == Identified(labels, prev.g, requests[|requests| - 1])
    requires !SameSeries(labels, key, requests[|requests| - 1])
    requires NumberFits(labels, requests[..|requests| - 1], prev, key, m)
    ensures NumberFits(labels, requests, r, key, m)
  {
    GivenNext(labels, requests, r.names, key, Numbered(Stem(labels, key), m));
    OthersStay(labels, prev.g, requests[|requests| - 1], key);
  }

  lemma NumberAdvances(labels: Labels, requests: seq<Option<string>>, prev: Run, r: Run, key: Option<string>, m: nat)
    requires requests != [] && |r.names| == |requests| && prev.names == r.names[..|requests| - 1]
    requires (r.names[|requests| - 1], r.g) == Identified(labels, prev.g, requests[|requests| - 1])
    requires SameSeries(labels, key, requests[|requests| - 1]) && !Unique(labels, key)
    requires NumberFits(labels, requests[..|requests| - 1], prev, key, m)
    ensures NumberFits(labels, requests, r, key, m)
  {
    GivenNext(labels, requests, r.names, key, Numbered(Stem(labels, key), m));
    SeriesAdvances(labels, prev.g, requests[|requests| - 1], r, Stem(labels, key), m);
  }

  lemma OthersStay(labels: Labels, g: Counters, key: Option<string>, other: Option<string>)
    requires !SameSeries(labels, other, key)
    ensures Counter(labels, Identified(labels, g, key).1, other) == Counter(labels, g, other)
  {
  }

  /** A new number is behind the counter, and all between them are labels of the document. */
  lemma SeriesAdvances(labels: Labels, g: Counters, key: Option<string>, r: Run, stem: string, m: nat)
    requires !Unique(labels, key) && r.names != [] && stem == Stem(labels, key)
    requires (r.names[|r.names| - 1], r.g) == Identified(labels, g, key)
    ensures var c, d := Counter(labels, g, key), Counter(labels, r.g, key);
      && d > c && r.names[|r.names| - 1] == Numbered(stem, d) && !labels.Occurs(Numbered(stem, d))
      && (c < m < d ==> labels.Occurs(Numbered(stem, m)))
      && (m != d ==> Numbered(stem, m) != Numbered(stem, d))
  {
    var d := Counter(labels, r.g, key);
    if Numbered(stem, m) == Numbered(stem, d) {
      NumberedIsInjective(stem, m, stem, d);
    }
  }

  lemma {:induction false} NamesPrefix(labels: Labels, requests: seq<Option<string>>, i: nat)
    requires i <= |requests|
    ensures IdentifyAll(labels, requests).names[..i] == IdentifyAll(labels, requests[..i]).names
    decreases |requests|
  {
    if i == |requests| {
      assert requests[..i] == requests;
    } else {
      var front := requests[..|requests| - 1];
      NamesPrefix(labels, front, i);
      assert front[..i] == requests[..i];
      assert IdentifyAll(labels, requests).names[..i] == IdentifyAll(labels, front).names[..i];
    }
  }

  /**
   A usable label that occurs once is its own name. Every other name is the label, or `loc`, with the first
   number that makes no label of the document and was not given before in the series.
   */
  lemma NameIs(labels: Labels, requests: seq<Option<string>>, i: nat)
    requires i < |requests|
    ensures var names := IdentifyAll(labels, requests).names;
      if Unique(labels, requests[i]) then names[i] == requests[i].value
      else exists n: nat :: FirstFree(labels, requests[..i], names[..i], requests[i], names[i], n)
  {
    NamesPrefix(labels, requests, i);
    NamesPrefix(labels, requests, i + 1);
    assert requests[..i + 1][..i] == requests[..i];
    var names := IdentifyAll(labels, requests).names;
    assert names[i] == names[..i + 1][i];
    var key := requests[i];
    if !Unique(labels, key) {
      CountersFit(labels, requests[..i], key);
      NextIsFree(labels, requests[..i], key, IdentifyAll(labels, requests[..i + 1]));
    }
  }

  lemma NextIsFree(labels: Labels, requests: seq<Option<string>>, key: Option<string>, r: Run)
    requires !Unique(labels, key) && |r.names| == |requests| + 1
    requires var prev := IdentifyAll(labels, requests);
      CounterFits(labels, requests, prev, key) && (r.names[|requests|], r.g) == Identified(labels, prev.g, key)
    ensures exists n: nat ::
      FirstFree(labels, requests, IdentifyAll(labels, requests).names, key, r.names[|requests|], n)
  {
    var prev, stem := IdentifyAll(labels, requests), Stem(labels, key);
    var n := Counter(labels, r.g, key);
    SeriesAdvances(labels, prev.g, key, r, stem, n);
    assert NumberFits(labels, requests, prev, key, n);
    forall m | 1 <= m < n ensures Taken(labels, requests, prev.names, key, Numbered(stem, m)) {
      assert NumberFits(labels, requests, prev, key, m);
      SeriesAdvances(labels, prev.g, key, r, stem, m);
    }
    assert FirstFree(labels, requests, prev.names, key, r.names[|requests|], n);
  }
}
