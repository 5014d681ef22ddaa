/** The stack of scopes a program runs in, and the patterns that bind names in it. */
module Scoping {
  import opened Options
  import opened Values

  /** A variable; captured variables are read-only. */
  datatype Binding = Binding(value: Value, captured: bool)

  type Frame = map<string, Binding>

  /** The active scope is the last one. */
  type Scopes = seq<Frame>

  function Find(s: Scopes, n: string): Option<Binding> {
    if s == [] then None
    else if n in s[|s| - 1] then Some(s[|s| - 1][n])
    else Find(s[..|s| - 1], n)
  }

  function Define(s: Scopes, n: string, v: Value): (t: Scopes)
    requires s != []
  {
    s[|s| - 1 := s[|s| - 1][n := Binding(v, false)]]
  }

  function DefineAll(s: Scopes, bs: seq<Entry>): (t: Scopes)
    requires s != []
    ensures |t| == |s| && t[..|s| - 1] == s[..|s| - 1]
    decreases bs
  {
    if bs == [] then s else DefineAll(Define(s, bs[0].key, bs[0].value), bs[1..])
  }

  /** Overwrites the variable that `Find` sees. */
  function Update(s: Scopes, n: string, v: Value): (t: Scopes)
    ensures |t| == |s|
  {
    if s == [] then []
    else if n in s[|s| - 1] then s[|s| - 1 := s[|s| - 1][n := s[|s| - 1][n].(value := v)]]
    else Update(s[..|s| - 1], n, v) + [s[|s| - 1]]
  }

  /** A write fails on unknown names and on captured variables. */
  function Write(s: Scopes, n: string, v: Value): (r: Result<Scopes>)
    ensures r.Ok? ==> |r.value| == |s|
  {
    match Find(s, n)
    case None => Err(UnknownVariable)
    case Some(b) => if b.captured then Err(ReadOnly) else Ok(Update(s, n, v))
  }

  function WriteAll(s: Scopes, bs: seq<Entry>): (r: Result<Scopes>)
    ensures r.Ok? ==> |r.value| == |s|
    decreases bs
  {
    if bs == [] then Ok(s)
    else
      var t :- Write(s, bs[0].key, bs[0].value);
      WriteAll(t, bs[1..])
  }

  lemma FindAfterUpdate(s: Scopes, n: string, v: Value, m: string)
    ensures Find(Update(s, n, v), m) ==
            if m == n && Find(s, n).Some? then Some(Find(s, n).value.(value := v)) else Find(s, m)
  {
    if s != [] && n !in s[|s| - 1] {
      FindAfterUpdate(s[..|s| - 1], n, v, m);
      assert (Update(s[..|s| - 1], n, v) + [s[|s| - 1]])[..|s| - 1] == Update(s[..|s| - 1], n, v);
    }
  }

  /** A definition is found under its name, and hides what was found there. */
  lemma FindAfterDefine(s: Scopes, n: string, v: Value, m: string)
    requires s != []
    ensures Find(Define(s, n, v), m) == if m == n then Some(Binding(v, false)) else Find(s, m)
  {
    assert Define(s, n, v)[..|s| - 1] == s[..|s| - 1];
  }

  /** Lookup goes through the upper scopes first. */
  lemma FindAppend(g: Scopes, f: Scopes, n: string)
    ensures Find(g + f, n) == if Find(f, n).Some? then Find(f, n) else Find(g, n)
  {
    if f == [] {
      assert g + f == g;
    } else {
      assert (g + f)[..|g + f| - 1] == g + f[..|f| - 1];
      FindAppend(g, f[..|f| - 1], n);
    }
  }

  lemma UpdateAppend(g: Scopes, f: Scopes, n: string, v: Value)
    ensures Update(g + f, n, v) == if Find(f, n).Some? then g + Update(f, n, v) else Update(g, n, v) + f
  {
    if f == [] {
      assert g + f == g;
      assert Update(g, n, v) + f == Update(g, n, v);
    } else if n in f[|f| - 1] {
      assert (g + f)[|g + f| - 1] == f[|f| - 1];
      assert Update(g + f, n, v) == g + Update(f, n, v);
    } else {
      var h := f[..|f| - 1];
      assert (g + f)[..|g + f| - 1] == g + h;
      assert f == h + [f[|f| - 1]];
      UpdateAppend(g, h, n, v);
    }
  }
}
