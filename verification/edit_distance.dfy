/**
 The asymmetric edit distance of the documentation search: two rows of the Wagner-Fischer table,
 against the cheapest script of insertions and deletions. Numbers are exact reals.
 */
module EditDistance {

  /** A UTF-16 code unit; strings are indexed by units but measured in code points. */
  type Unit = bv16

  const INSERTION_COST := 0.7
  const DELETION_COST := 1.0

  // ----- Scripts -----

  datatype Op = Keep | Insert(u: Unit) | Delete

  function Cost(ops: seq<Op>): real {
    if ops == [] then 0.0
    else
      Cost(ops[..|ops| - 1])
      + (match ops[|ops| - 1] case Keep => 0.0 case Insert(_) => INSERTION_COST case Delete => DELETION_COST)
  }

  /** Whether the script turns `a` into `b`, its operations taken left to right. */
  predicate Turns(ops: seq<Op>, a: seq<Unit>, b: seq<Unit>)
    decreases |ops|
  {
    if ops == [] then a == [] && b == []
    else
      var front := ops[..|ops| - 1];
      match ops[|ops| - 1]
      case Keep => a != [] && b != [] && a[|a| - 1] == b[|b| - 1] && Turns(front, Init(a), Init(b))
      case Insert(u) => b != [] && b[|b| - 1] == u && Turns(front, a, Init(b))
      case Delete => a != [] && Turns(front, Init(a), b)
  }

  function Init(a: seq<Unit>): seq<Unit>
    requires a != []
  {
    a[..|a| - 1]
  }

  function Min(x: real, y: real): real { if x <= y then x else y }

  /** The full table of the algorithm. */
  function Distance(a: seq<Unit>, b: seq<Unit>): (d: real)
    decreases |a| + |b|
  {
    if a == [] then |b| as real * INSERTION_COST
    else if b == [] then |a| as real * DELETION_COST
    else Cell(Distance(a, Init(b)), Distance(Init(a), b), Distance(Init(a), Init(b)), a[|a| - 1] == b[|b| - 1])
  }

  /** An infinite cost of substitution leaves only equal units to keep. */
  function Cell(left: real, up: real, diagonal: real, same: bool): real {
    var edit := Min(left + INSERTION_COST, up + DELETION_COST);
    if same then Min(edit, diagonal) else edit
  }

  /** No script is cheaper. */
  lemma {:induction false} DistanceIsLeast(ops: seq<Op>, a: seq<Unit>, b: seq<Unit>)
    requires Turns(ops, a, b)
    ensures Distance(a, b) <= Cost(ops)
    decreases |ops|
  {
    if ops != [] {
      var front := ops[..|ops| - 1];
      match ops[|ops| - 1] {
        case Keep => DistanceIsLeast(front, Init(a), Init(b));
        case Insert(_) => DistanceIsLeast(front, a, Init(b));
        case Delete => DistanceIsLeast(front, Init(a), b);
      }
    }
  }

  /** Some script is that cheap. */
  lemma {:induction false} DistanceIsReached(a: seq<Unit>, b: seq<Unit>) returns (ops: seq<Op>)
    ensures Turns(ops, a, b) && Cost(ops) == Distance(a, b)
    decreases |a| + |b|
  {
    if a == [] && b == [] {
      return [];
    }
    var front, last;
    if a == [] || (b != [] && Distance(a, b) == Distance(a, Init(b)) + INSERTION_COST) {
      front := DistanceIsReached(a, Init(b));
      last := Insert(b[|b| - 1]);
    } else if b == [] || Distance(a, b) == Distance(Init(a), b) + DELETION_COST {
      front := DistanceIsReached(Init(a), b);
      last := Delete;
    } else {
      front := DistanceIsReached(Init(a), Init(b));
      last := Keep;
    }
    ops := front + [last];
    assert ops[..|ops| - 1] == front;
  }

  // ----- Common subsequences -----

  function Kept(ops: seq<Op>): nat {
    if ops == [] then 0 else Kept(ops[..|ops| - 1]) + (if ops[|ops| - 1].Keep? then 1 else 0)
  }

  /** What a script keeps, it neither inserts nor deletes. */
  lemma {:induction false} CostByKept(ops: seq<Op>, a: seq<Unit>, b: seq<Unit>)
    requires Turns(ops, a, b)
    ensures Kept(ops) <= |a| && Kept(ops) <= |b|
    ensures Cost(ops) == (|a| - Kept(ops)) as real * DELETION_COST + (|b| - Kept(ops)) as real * INSERTION_COST
    decreases |ops|
  {
    if ops != [] {
      var front := ops[..|ops| - 1];
      match ops[|ops| - 1] {
        case Keep => CostByKept(front, Init(a), Init(b));
        case Insert(_) => CostByKept(front, a, Init(b));
        case Delete => CostByKept(front, Init(a), b);
      }
    }
  }

  /** `c` is what remains of `a` after deleting some units. */
  predicate Subsequence(c: seq<Unit>, a: seq<Unit>)
    decreases |a|
  {
    if c == [] then true
    else a != [] && (Subsequence(c, Init(a)) || (c[|c| - 1] == a[|a| - 1] && Subsequence(Init(c), Init(a))))
  }

  /** The units that a script keeps are a common subsequence. */
  lemma {:induction false} KeptIsCommon(ops: seq<Op>, a: seq<Unit>, b: seq<Unit>) returns (c: seq<Unit>)
    requires Turns(ops, a, b)
    ensures |c| == Kept(ops) && Subsequence(c, a) && Subsequence(c, b)
    decreases |ops|
  {
    c := [];
    if ops != [] {
      var front := ops[..|ops| - 1];
      match ops[|ops| - 1] {
        case Keep =>
          var d := KeptIsCommon(front, Init(a), Init(b));
          c := d + [a[|a| - 1]];
          assert Init(c) == d;
        case Insert(_) => c := KeptIsCommon(front, a, Init(b));
        case Delete => c := KeptIsCommon(front, Init(a), b);
      }
    }
  }

  /** Any common subsequence can be kept by a script. */
  lemma {:induction false} CommonCanBeKept(c: seq<Unit>, a: seq<Unit>, b: seq<Unit>) returns (ops: seq<Op>)
    requires Subsequence(c, a) && Subsequence(c, b)
    ensures Turns(ops, a, b) && Kept(ops) == |c|
    decreases |a| + |b|
  {
    if a == [] && b == [] {
      return [];
    }
    var front, last;
    if b != [] && Subsequence(c, Init(b)) {
      front := CommonCanBeKept(c, a, Init(b));
      last := Insert(b[|b| - 1]);
    } else if a != [] && Subsequence(c, Init(a)) {
      front := CommonCanBeKept(c, Init(a), b);
      last := Delete;
    } else {
      front := CommonCanBeKept(Init(c), Init(a), Init(b));
      last := Keep;
    }
    ops := front + [last];
    assert ops[..|ops| - 1] == front;
  }

  /** `c` is a longest common subsequence. */
  ghost predicate Longest(c: seq<Unit>, a: seq<Unit>, b: seq<Unit>) {
    && Subsequence(c, a) && Subsequence(c, b)
    && forall d :: Subsequence(d, a) && Subsequence(d, b) ==> |d| <= |c|
  }

  function ByKept(a: seq<Unit>, b: seq<Unit>, k: nat): real {
    (|a| - k) as real * DELETION_COST + (|b| - k) as real * INSERTION_COST
  }

  /** The distance deletes and inserts all but a longest common subsequence. */
  lemma DistanceByCommon(a: seq<Unit>, b: seq<Unit>, c: seq<Unit>)
    requires Longest(c, a, b)
    ensures Distance(a, b) == ByKept(a, b, |c|)
  {
    var ops := CommonCanBeKept(c, a, b);
    CostByKept(ops, a, b);
    DistanceIsLeast(ops, a, b);
    var best := DistanceIsReached(a, b);
    CostByKept(best, a, b);
    var d := KeptIsCommon(best, a, b);
    assert |d| <= |c|;
  }

  /** Between zero, for equal strings only, and everything deleted and inserted. */
  lemma DistanceBounds(a: seq<Unit>, b: seq<Unit>)
    ensures 0.0 <= Distance(a, b) <= |a| as real * DELETION_COST + |b| as real * INSERTION_COST
    ensures Distance(a, b) == 0.0 <==> a == b
  {
    var best := DistanceIsReached(a, b);
    CostByKept(best, a, b);
    if a == b {
      WholeIsSubsequence(a);
      var ops := CommonCanBeKept(a, a, a);
      CostByKept(ops, a, a);
      DistanceIsLeast(ops, a, a);
    } else if Distance(a, b) == 0.0 {
      KeepingAllIsEqual(best, a, b);
    }
  }

  lemma WholeIsSubsequence(a: seq<Unit>)
    ensures Subsequence(a, a)
    decreases |a|
  {
    if a != [] {
      WholeIsSubsequence(Init(a));
    }
  }

  lemma {:induction false} KeepingAllIsEqual(ops: seq<Op>, a: seq<Unit>, b: seq<Unit>)
    requires Turns(ops, a, b) && Cost(ops) == 0.0
    ensures a == b
    decreases |ops|
  {
    if ops != [] {
      var front := ops[..|ops| - 1];
      match ops[|ops| - 1] {
        case Keep =>
          KeepingAllIsEqual(front, Init(a), Init(b));
          assert a == Init(a) + [a[|a| - 1]] && b == Init(b) + [b[|b| - 1]];
        case Insert(_) => CostByKept(front, a, Init(b));
        case Delete => CostByKept(front, Init(a), b);
      }
    }
  }

  // ----- Two rows -----

  predicate HighSurrogate(u: Unit) { 0xD800 <= u <= 0xDBFF }

  predicate LowSurrogate(u: Unit) { 0xDC00 <= u <= 0xDFFF }

  /** A surrogate pair is one code point. */
  function CodePoints(s: seq<Unit>): (n: nat)
    ensures n <= |s|
  {
    if s == [] then 0
    else if |s| > 1 && HighSurrogate(s[0]) && LowSurrogate(s[1]) then 1 + CodePoints(s[2..])
    else 1 + CodePoints(s[1..])
  }

  /** As many units as there are code points. */
  function Measured(s: seq<Unit>): seq<Unit> { s[..CodePoints(s)] }

  ghost predicate RowOf(row: seq<real>, a: seq<Unit>, b: seq<Unit>) {
    |row| == |b| + 1 && forall j :: 0 <= j < |row| ==> row[j] == Distance(a, b[..j])
  }

  /** Fills one row from the one above, in place. */
  method FillRow(previous: array<real>, current: array<real>, a: seq<Unit>, b: seq<Unit>)
    requires a != [] && previous != current && current.Length == |b| + 1
    requires RowOf(previous[..], Init(a), b)
    modifies current
    ensures RowOf(current[..], a, b) && previous[..] == old(previous[..])
  {
    current[0] := |a| as real * DELETION_COST;
    var j := 1;
    while j <= |b|
      invariant 1 <= j <= |b| + 1
      invariant forall k :: 0 <= k < j ==> current[k] == Distance(a, b[..k])
      invariant previous[..] == old(previous[..])
    {
      assert Init(b[..j]) == b[..j - 1];
      assert previous[..][j] == Distance(Init(a), b[..j]) && previous[..][j - 1] == Distance(Init(a), b[..j - 1]);
      var least := Min(current[j - 1] + INSERTION_COST, previous[j] + DELETION_COST);
      if a[|a| - 1] == b[j - 1] {
        least := Min(least, previous[j - 1]);
      }
      current[j] := least;
      j := j + 1;
    }
  }

  /** The normalized distance, with only two rows of the table. */
  method NormalizedEditDistance(left: seq<Unit>, right: seq<Unit>) returns (d: real)
    ensures var a, b := Measured(left), Measured(right);
            d == if a == [] && b == [] then 0.0 else Distance(a, b) / (|a| + |b|) as real
    ensures !HasPair(left) && !HasPair(right) && left + right != [] ==>
              d == Distance(left, right) / (|left| + |right|) as real
    ensures 0.0 <= d <= 1.0
    ensures d == 0.0 <==> Measured(left) == Measured(right)
  {
    WholeIsMeasured(left);
    WholeIsMeasured(right);
    var leftLength, rightLength := CodePoints(left), CodePoints(right);
    if leftLength + rightLength == 0 {
      return 0.0;
    }
    var distance := TwoRows(left[..leftLength], right[..rightLength]);
    d := distance / (leftLength + rightLength) as real;
    DistanceBounds(Measured(left), Measured(right));
    Quotient(distance, (leftLength + rightLength) as real);
  }

  /** The last entry of the table, of which only two rows are kept. */
  method TwoRows(a: seq<Unit>, b: seq<Unit>) returns (distance: real)
    ensures distance == Distance(a, b)
  {
    var previous := new real[|b| + 1](_ => 0.0);
    var current := new real[|b| + 1](_ => 0.0);
    var j := 0;
    while j <= |b|
      invariant 0 <= j <= |b| + 1 && current.Length == |b| + 1
      invariant forall k :: 0 <= k < j ==> current[k] == k as real * INSERTION_COST
    {
      current[j] := j as real * INSERTION_COST;
      j := j + 1;
    }
    var i := 0;
    while i < |a|
      invariant 0 <= i <= |a|
      invariant fresh(previous) && fresh(current) && previous != current
      invariant previous.Length == current.Length == |b| + 1
      invariant RowOf(current[..], a[..i], b)
    {
      i := i + 1;
      assert Init(a[..i]) == a[..i - 1];
      previous, current := current, previous;
      FillRow(previous, current, a[..i], b);
    }
    assert a[..i] == a && b[..|b|] == b;
    distance := current[|b|];
    assert current[..][|b|] == distance;
  }

  lemma Quotient(x: real, n: real)
    requires 0.0 <= x <= n && n > 0.0
    ensures 0.0 <= x / n <= 1.0 && (x / n == 0.0 <==> x == 0.0)
  {
  }

  // ----- Units and code points -----

  predicate HasPair(s: seq<Unit>) {
    exists i :: 0 <= i < |s| - 1 && HighSurrogate(s[i]) && LowSurrogate(s[i + 1])
  }

  /** The whole string is compared exactly when it has no surrogate pair. */
  lemma {:induction false} WholeIsMeasured(s: seq<Unit>)
    ensures Measured(s) == s <==> !HasPair(s)
    decreases |s|
  {
    if |s| > 1 && HighSurrogate(s[0]) && LowSurrogate(s[1]) {
      assert CodePoints(s) <= 1 + |s[2..]|;
    } else if s != [] {
      WholeIsMeasured(s[1..]);
      if HasPair(s[1..]) {
        var i :| 0 <= i < |s[1..]| - 1 && HighSurrogate(s[1..][i]) && LowSurrogate(s[1..][i + 1]);
        assert HighSurrogate(s[i + 1]) && LowSurrogate(s[i + 2]);
      }
      if HasPair(s) {
        var i :| 0 <= i < |s| - 1 && HighSurrogate(s[i]) && LowSurrogate(s[i + 1]);
        assert HighSurrogate(s[1..][i - 1]) && LowSurrogate(s[1..][i]);
      }
      MeasuredLength(s);
      MeasuredLength(s[1..]);
    }
  }

  lemma MeasuredLength(s: seq<Unit>)
    ensures Measured(s) == s <==> CodePoints(s) == |s|
  {
    if CodePoints(s) < |s| {
      assert |Measured(s)| < |s|;
    }
  }

  /** With a pair, the end of a string is not looked at: other letters there cost nothing. */
  lemma PairHidesTheEnd(high: Unit, low: Unit, x: Unit, y: Unit)
    requires HighSurrogate(high) && LowSurrogate(low)
    ensures Measured([high, low, x]) == Measured([high, low, y])
  {
    var s, t := [high, low, x], [high, low, y];
    assert s[2..] == [x] && t[2..] == [y];
    assert CodePoints([x]) == 1 && CodePoints([y]) == 1;
    assert s[..2] == t[..2];
  }
}
