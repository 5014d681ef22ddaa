/** Two-dimensional arguments of math calls: semicolons group the positional arguments into rows. */
module MathArguments {
  import opened Options
  import opened Values
  import opened Arguments
  import opened Reference

  /** An argument with the value of its expression. */
  datatype MathArg = MathArg(marker: Marker, value: Value, endsInSemicolon: bool)

  /** What an argument contributes to the list. */
  datatype Part = Part(args: seq<Arg>, semicolon: bool) {
    function Vals(): seq<Value> { ValuesOf(Positional(args)) }
  }

  function PartsOf(items: seq<MathArg>): Result<seq<Part>> {
    if items == [] then Ok([])
    else
      var front :- PartsOf(items[..|items| - 1]);
      var last := items[|items| - 1];
      var args :- AddItem(CallItems, last.marker, last.value);
      Ok(front + [Part(args, last.endsInSemicolon)])
  }

  // ----- Rows by splitting -----

  /** The rows between semicolons; the last one is what follows the last semicolon. */
  function Split(parts: seq<Part>): (rows: seq<seq<Value>>)
    ensures |rows| > 0
  {
    if parts == [] then [[]]
    else
      var rows := Split(parts[1..]);
      if parts[0].semicolon then [parts[0].Vals()] + rows else [parts[0].Vals() + rows[0]] + rows[1..]
  }

  function Arrays(rows: seq<seq<Value>>): (vs: seq<Value>)
    ensures |vs| == |rows| && forall i :: 0 <= i < |rows| ==> vs[i] == ArrayVal(rows[i])
  {
    seq(|rows|, i requires 0 <= i < |rows| => ArrayVal(rows[i]))
  }

  function Init<T>(s: seq<T>): seq<T> requires s != [] { s[..|s| - 1] }

  function Final<T>(s: seq<T>): T requires s != [] { s[|s| - 1] }

  /** One row stays flat; otherwise each row is an array, unless nothing follows the last semicolon. */
  function Grid(parts: seq<Part>): seq<Value> {
    var rows := Split(parts);
    if |rows| == 1 then rows[0]
    else if Final(rows) == [] then Arrays(Init(rows)) else Arrays(rows)
  }

  function AllNamed(parts: seq<Part>): seq<Arg> {
    if parts == [] then [] else AllNamed(Init(parts)) + NamedArgs(Final(parts).args)
  }

  function AllValues(parts: seq<Part>): seq<Value> {
    if parts == [] then [] else parts[0].Vals() + AllValues(parts[1..])
  }

  /** The argument list: named arguments in order, then the grid. */
  function ArgumentsOf(parts: seq<Part>): seq<Arg> { AllNamed(parts) + Unnamed(Grid(parts)) }

  // ----- Rows in a single buffer -----

  /** The buffer of positional arguments: finished rows as arrays, the current one flat. */
  function Buffer(rows: seq<seq<Value>>): seq<Value>
    requires rows != []
  {
    Arrays(Init(rows)) + Final(rows)
  }

  /** The last row continues. */
  function Extended(rows: seq<seq<Value>>, vs: seq<Value>): (r: seq<seq<Value>>)
    requires rows != []
    ensures |r| == |rows|
  {
    Init(rows) + [Final(rows) + vs]
  }

  lemma ExtendedCons(h: seq<Value>, rows: seq<seq<Value>>, vs: seq<Value>)
    requires rows != []
    ensures Extended([h] + rows, vs) == [h] + Extended(rows, vs)
    ensures Extended([h + rows[0]] + rows[1..], vs) == [h + Extended(rows, vs)[0]] + Extended(rows, vs)[1..]
  {
    assert Init([h] + rows) == [h] + Init(rows);
    if |rows| == 1 {
      assert (h + rows[0]) + vs == h + (rows[0] + vs);
    } else {
      assert Init([h + rows[0]] + rows[1..]) == [h + rows[0]] + Init(rows)[1..];
    }
  }

  lemma AppendRows(h: seq<Value>, rows: seq<seq<Value>>, more: seq<seq<Value>>)
    requires rows != []
    ensures ([h] + rows) + more == [h] + (rows + more)
    ensures ([h + rows[0]] + rows[1..]) + more == [h + (rows + more)[0]] + (rows + more)[1..]
  {
  }

  lemma {:induction false} SplitSnoc(parts: seq<Part>, p: Part)
    ensures Split(parts + [p]) == Extended(Split(parts), p.Vals()) + (if p.semicolon then [[]] else [])
  {
    var more: seq<seq<Value>> := if p.semicolon then [[]] else [];
    if parts == [] {
      assert ([] + [p])[1..] == [];
      assert [] + p.Vals() == p.Vals() + [] == p.Vals();
    } else {
      assert (parts + [p])[1..] == parts[1..] + [p];
      SplitSnoc(parts[1..], p);
      var h, rows := parts[0].Vals(), Split(parts[1..]);
      ExtendedCons(h, rows, p.Vals());
      AppendRows(h, Extended(rows, p.Vals()), more);
    }
  }

  lemma {:induction false} UnnamedAppend(a: seq<Value>, b: seq<Value>)
    ensures Unnamed(a + b) == Unnamed(a) + Unnamed(b)
  {
    if a == [] {
      assert a + b == b;
    } else {
      assert (a + b)[1..] == a[1..] + b;
      UnnamedAppend(a[1..], b);
    }
  }

  lemma {:induction false} UnnamedIs(vs: seq<Value>)
    ensures |Unnamed(vs)| == |vs| && ValuesOf(Unnamed(vs)) == vs && Positional(Unnamed(vs)) == Unnamed(vs)
  {
    if vs != [] {
      UnnamedIs(vs[1..]);
    }
  }

  lemma {:induction false} PositionalIsUnnamed(args: seq<Arg>)
    ensures Positional(args) == Unnamed(ValuesOf(Positional(args)))
  {
    if args != [] {
      PositionalIsUnnamed(args[1..]);
    }
  }

  lemma {:induction false} Separated(args: seq<Arg>, more: Arg)
    ensures Positional(args + [more]) == Positional(args) + (if more.name.None? then [more] else [])
    ensures NamedArgs(args + [more]) == NamedArgs(args) + (if more.name.Some? then [more] else [])
  {
    if args == [] {
      assert ([] + [more])[1..] == [];
    } else {
      assert (args + [more])[1..] == args[1..] + [more];
      Separated(args[1..], more);
    }
  }

  /** Extending the buffer extends the current row. */
  lemma BufferExtended(rows: seq<seq<Value>>, args: seq<Arg>)
    requires rows != []
    ensures Unnamed(Buffer(rows)) + Positional(args) == Unnamed(Buffer(Extended(rows, ValuesOf(Positional(args)))))
  {
    var vs := ValuesOf(Positional(args));
    PositionalIsUnnamed(args);
    UnnamedAppend(Buffer(rows), vs);
    assert Init(Extended(rows, vs)) == Init(rows);
    assert Buffer(rows) + vs == Buffer(Extended(rows, vs));
  }

  /** The current row is what follows the finished ones; draining it finishes it. */
  lemma BufferDrained(rows: seq<seq<Value>>)
    requires rows != []
    ensures var pos, start := Unnamed(Buffer(rows)), |rows| - 1;
            && |pos| == start + |Final(rows)|
            && pos[..start] + [Arg(None, ArrayVal(ValuesOf(pos[start..])))] == Unnamed(Arrays(rows))
    ensures |Unnamed(Arrays(rows))| == |rows|
    ensures Unnamed(Buffer(rows + [[]])) == Unnamed(Arrays(rows))
  {
    var done, last := Arrays(Init(rows)), Final(rows);
    UnnamedAppend(done, last);
    UnnamedIs(done);
    UnnamedIs(last);
    assert Unnamed(Buffer(rows))[|done|..] == Unnamed(last);
    UnnamedAppend(done, [ArrayVal(last)]);
    assert Arrays(rows) == done + [ArrayVal(last)];
    UnnamedIs(Arrays(rows));
    assert Init(rows + [[]]) == rows;
    assert Buffer(rows + [[]]) == Arrays(rows);
  }

  /** The positional and named buffers of the evaluation. */
  class Buffers {
    var pos: seq<Arg>
    var named: seq<Arg>

    constructor ()
      ensures pos == [] && named == []
    {
      pos, named := [], [];
    }

    /** Groups what follows `start` into one array. */
    method DrainIntoArray(start: nat)
      requires start <= |pos|
      modifies this`pos
      ensures pos == old(pos)[..start] + [Arg(None, ArrayVal(ValuesOf(old(pos)[start..])))]
    {
      var row := ValuesOf(pos[start..]);
      pos := pos[..start];
      pos := pos + [Arg(None, ArrayVal(row))];
    }

    /** Separates arguments into positional and named ones. */
    method Extend(args: seq<Arg>)
      modifies this
      ensures pos == old(pos) + Positional(args) && named == old(named) + NamedArgs(args)
    {
      var i := 0;
      while i < |args|
        invariant 0 <= i <= |args|
        invariant pos == old(pos) + Positional(args[..i]) && named == old(named) + NamedArgs(args[..i])
      {
        Separated(args[..i], args[i]);
        assert args[..i] + [args[i]] == args[..i + 1];
        if args[i].name.None? {
          pos := pos + [args[i]];
        } else {
          named := named + [args[i]];
        }
        i := i + 1;
      }
      assert args[..i] == args;
    }

    /** The buffer after one more part, the current row starting at `start`. */
    method AddPart(ghost parts: seq<Part>, p: Part, start: Option<nat>) returns (next: Option<nat>)
      requires pos == Unnamed(Buffer(Split(parts))) && Starts(parts, start)
      modifies this
      ensures pos == Unnamed(Buffer(Split(parts + [p]))) && Starts(parts + [p], next)
      ensures old(named) == AllNamed(parts) ==> named == AllNamed(parts + [p])
    {
      assert Init(parts + [p]) == parts;
      SplitSnoc(parts, p);
      BufferExtended(Split(parts), p.args);
      ghost var rows := Extended(Split(parts), p.Vals());
      Extend(p.args);
      next := start;
      if p.semicolon {
        next := EndRow(rows, start);
      } else {
        assert rows + [] == rows;
      }
    }

    /** A semicolon turns the current row into an array. */
    method EndRow(ghost rows: seq<seq<Value>>, start: Option<nat>) returns (next: Option<nat>)
      requires rows != [] && pos == Unnamed(Buffer(rows)) && start == (if |rows| == 1 then None else Some(|rows| - 1))
      modifies this`pos
      ensures pos == Unnamed(Buffer(rows + [[]])) && next == Some(|rows|)
    {
      BufferDrained(rows);
      DrainIntoArray(if start.Some? then start.value else 0);
      next := Some(|pos|);
    }

    /** Groups what follows the last semicolon, if anything does. */
    method Finish(ghost parts: seq<Part>, start: Option<nat>)
      requires pos == Unnamed(Buffer(Split(parts))) && Starts(parts, start)
      modifies this`pos
      ensures pos == Unnamed(Grid(parts))
    {
      BufferDrained(Split(parts));
      if start.Some? && start.value != |pos| {
        DrainIntoArray(start.value);
      } else if start.Some? {
        NothingAfter(Split(parts));
      } else {
        OneRow(Split(parts));
      }
    }
  }

  lemma OneRow(rows: seq<seq<Value>>)
    requires |rows| == 1
    ensures Buffer(rows) == rows[0]
  {
    assert Arrays(Init(rows)) == [];
  }

  /** Where the current row starts, once there has been a semicolon. */
  ghost predicate Starts(parts: seq<Part>, start: Option<nat>) {
    start == if |Split(parts)| == 1 then None else Some(|Split(parts)| - 1)
  }

  /** The arguments of a math call, grouped as they come. */
  method EvalMathArgs(items: seq<MathArg>) returns (r: Result<seq<Arg>>)
    ensures PartsOf(items).Err? ==> r == Err(PartsOf(items).error)
    ensures PartsOf(items).Ok? ==> r == Ok(ArgumentsOf(PartsOf(items).value))
  {
    var buffers := new Buffers();
    var twoDimStart: Option<nat> := None;
    ghost var parts: seq<Part> := [];
    var i := 0;
    while i < |items|
      invariant 0 <= i <= |items|
      invariant PartsOf(items[..i]) == Ok(parts)
      invariant buffers.pos == Unnamed(Buffer(Split(parts))) && buffers.named == AllNamed(parts)
      invariant Starts(parts, twoDimStart)
      invariant fresh(buffers)
    {
      var added := AddItem(CallItems, items[i].marker, items[i].value);
      NextPart(items, i, parts);
      if added.Err? {
        return Err(added.error);
      }
      var p := Part(added.value, items[i].endsInSemicolon);
      twoDimStart := buffers.AddPart(parts, p, twoDimStart);
      parts := parts + [p];
      i := i + 1;
    }
    assert items[..i] == items;
    buffers.Finish(parts, twoDimStart);
    r := Ok(buffers.named + buffers.pos);
  }

  /** One more argument is added to the parts, or is the first error. */
  lemma NextPart(items: seq<MathArg>, i: nat, parts: seq<Part>)
    requires i < |items| && PartsOf(items[..i]) == Ok(parts)
    ensures var added := AddItem(CallItems, items[i].marker, items[i].value);
      if added.Err? then PartsOf(items) == Err(added.error)
      else PartsOf(items[..i + 1]) == Ok(parts + [Part(added.value, items[i].endsInSemicolon)])
  {
    assert items[..i + 1][..i] == items[..i];
    if AddItem(CallItems, items[i].marker, items[i].value).Err? {
      FirstError(items, i + 1);
    }
  }

  lemma NothingAfter(rows: seq<seq<Value>>)
    requires rows != [] && Final(rows) == []
    ensures Buffer(rows) == Arrays(Init(rows))
  {
  }

  lemma {:induction false} FirstError(items: seq<MathArg>, n: nat)
    requires n <= |items| && PartsOf(items[..n]).Err?
    ensures PartsOf(items) == PartsOf(items[..n])
    decreases |items|
  {
    if n == |items| {
      assert items[..n] == items;
    } else {
      assert items[..|items| - 1][..n] == items[..n];
      FirstError(items[..|items| - 1], n);
    }
  }

  // ----- What splitting means -----

  function Concat(rows: seq<seq<Value>>): seq<Value> {
    if rows == [] then [] else rows[0] + Concat(rows[1..])
  }

  function Semicolons(parts: seq<Part>): nat {
    if parts == [] then 0 else (if parts[0].semicolon then 1 else 0) + Semicolons(parts[1..])
  }

  /** Every positional value is in exactly one row, in order, and each semicolon ends a row, even an empty one. */
  lemma {:induction false} RowsPartition(parts: seq<Part>)
    ensures Concat(Split(parts)) == AllValues(parts)
    ensures |Split(parts)| == Semicolons(parts) + 1
  {
    if parts != [] {
      RowsPartition(parts[1..]);
      var rows := Split(parts[1..]);
      if parts[0].semicolon {
        assert Split(parts)[1..] == rows;
      } else {
        assert Split(parts)[1..] == rows[1..];
        assert (parts[0].Vals() + rows[0]) + Concat(rows[1..]) == parts[0].Vals() + (rows[0] + Concat(rows[1..]));
      }
    }
  }

  /** The values of an argument list, arrays of rows opened up. */
  function Opened(grid: seq<Value>): seq<Value>
    requires forall i :: 0 <= i < |grid| ==> grid[i].ArrayVal?
  {
    if grid == [] then [] else grid[0].elems + Opened(grid[1..])
  }

  lemma {:induction false} OpenedArrays(rows: seq<seq<Value>>)
    ensures Opened(Arrays(rows)) == Concat(rows)
  {
    if rows != [] {
      assert Arrays(rows)[1..] == Arrays(rows[1..]);
      OpenedArrays(rows[1..]);
    }
  }

  lemma {:induction false} ConcatInit(rows: seq<seq<Value>>)
    requires rows != []
    ensures Concat(rows) == Concat(Init(rows)) + Final(rows)
  {
    if |rows| > 1 {
      ConcatInit(rows[1..]);
      assert Init(rows)[1..] == Init(rows[1..]) && Init(rows)[0] == rows[0];
    }
  }

  /** Nothing is lost or duplicated: flat without semicolons, and row by row otherwise. */
  lemma NothingIsLost(parts: seq<Part>)
    ensures Semicolons(parts) == 0 ==> Grid(parts) == AllValues(parts)
    ensures Semicolons(parts) > 0 ==>
              && (forall i :: 0 <= i < |Grid(parts)| ==> Grid(parts)[i].ArrayVal?)
              && Opened(Grid(parts)) == AllValues(parts)
              && |Grid(parts)| == Semicolons(parts) + (if Final(Split(parts)) == [] then 0 else 1)
  {
    RowsPartition(parts);
    var rows := Split(parts);
    if |rows| == 1 {
      assert rows[1..] == [] && Concat(rows) == rows[0] + [] == rows[0];
    } else {
      OpenedArrays(rows);
      OpenedArrays(Init(rows));
      ConcatInit(rows);
    }
  }
}
