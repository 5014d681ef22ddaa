/** The packages that depend on a package, directly or through others. */
module Dependents {

  /** For each package, what depends on it directly. */
  type Graph = map<string, set<string>>

  function Direct(g: Graph, p: string): set<string> { if p in g then g[p] else {} }

  /** Each package of the path depends on the one before. */
  predicate Path(g: Graph, path: seq<string>) {
    |path| > 0 && forall i :: 0 <= i < |path| - 1 ==> path[i + 1] in Direct(g, path[i])
  }

  /** Reached from `start` by one or more edges. */
  ghost predicate Reaches(g: Graph, start: string, p: string) {
    exists path :: Path(g, path) && |path| > 1 && path[0] == start && path[|path| - 1] == p
  }

  lemma ReachesDirect(g: Graph, start: string, p: string)
    requires p in Direct(g, start)
    ensures Reaches(g, start, p)
  {
    assert Path(g, [start, p]);
  }

  lemma ReachesOn(g: Graph, start: string, q: string, p: string)
    requires (q == start || Reaches(g, start, q)) && p in Direct(g, q)
    ensures Reaches(g, start, p)
  {
    if q == start {
      ReachesDirect(g, start, p);
    } else {
      var path :| Path(g, path) && |path| > 1 && path[0] == start && path[|path| - 1] == q;
      assert Path(g, path + [p]);
    }
  }

  /** A set that contains everything next to it and to the start contains what is reached. */
  lemma {:induction false} ClosedContains(g: Graph, start: string, s: set<string>, path: seq<string>, n: nat)
    requires Direct(g, start) <= s && forall q :: q in s ==> Direct(g, q) <= s
    requires Path(g, path) && path[0] == start && 0 < n < |path|
    ensures path[n] in s
  {
    if n > 1 {
      ClosedContains(g, start, s, path, n - 1);
    }
    assert path[n - 1 + 1] in Direct(g, path[n - 1]);
  }

  /** Everything that occurs as a dependent. */
  ghost function Nodes(g: Graph): set<string> {
    set p, d | p in g && d in g[p] :: d
  }

  /** The dependents found so far, with the packages whose own dependents are still to be looked up. */
  ghost predicate Invariant(g: Graph, start: string, found: set<string>, queue: seq<string>) {
    && found <= Nodes(g)
    && (forall p :: p in found ==> Reaches(g, start, p))
    && (forall p :: p in queue ==> p == start || p in found)
    && (forall p :: (p == start || p in found) && p !in queue ==> Direct(g, p) <= found)
  }

  /** The same while the dependents `todo` of `name` are still to be looked at. */
  ghost predicate Looking(
    g: Graph, start: string, found: set<string>, queue: seq<string>, name: string, todo: set<string>)
  {
    && (name == start || name in found)
    && todo <= Direct(g, name) && Direct(g, name) - todo <= found <= Nodes(g)
    && (forall p :: p in found ==> Reaches(g, start, p))
    && (forall p :: p in queue ==> p == start || p in found)
    && (forall p :: (p == start || p in found) && p !in queue && p != name ==> Direct(g, p) <= found)
  }

  lemma Popped(g: Graph, start: string, found: set<string>, queue: seq<string>, name: string)
    requires Invariant(g, start, found, queue + [name])
    ensures Looking(g, start, found, queue, name, Direct(g, name))
  {
  }

  /** A dependent that is new is queued as well. */
  lemma LookedAt(
    g: Graph, start: string, found: set<string>, queue: seq<string>, name: string, todo: set<string>, d: string)
    requires Looking(g, start, found, queue, name, todo) && d in todo
    ensures d in found ==> Looking(g, start, found, queue, name, todo - {d})
    ensures d !in found ==> Looking(g, start, found + {d}, queue + [d], name, todo - {d})
  {
    ReachesOn(g, start, name, d);
    assert d in Nodes(g);
  }

  lemma AllLookedAt(g: Graph, start: string, found: set<string>, queue: seq<string>, name: string)
    requires Looking(g, start, found, queue, name, {})
    ensures Invariant(g, start, found, queue)
  {
    assert Direct(g, name) - {} == Direct(g, name);
  }

  /** All packages other than the start that are reached from it. */
  method TransitiveDependents(start: string, g: Graph) returns (dependents: set<string>)
    ensures forall p :: p in dependents <==> p != start && Reaches(g, start, p)
  {
    dependents := {};
    var queue := [start];
    while queue != []
      invariant Invariant(g, start, dependents, queue)
      decreases |Nodes(g) - dependents|, |queue|
    {
      var name := queue[|queue| - 1];
      ghost var before := dependents;
      ghost var shorter := queue[..|queue| - 1];
      assert queue == shorter + [name];
      queue := queue[..|queue| - 1];
      Popped(g, start, dependents, queue, name);
      var todo := Direct(g, name);
      while todo != {}
        invariant Looking(g, start, dependents, queue, name, todo)
        invariant before <= dependents && (dependents == before ==> queue == shorter)
        decreases todo
      {
        var dependent :| dependent in todo;
        LookedAt(g, start, dependents, queue, name, todo, dependent);
        todo := todo - {dependent};
        if dependent !in dependents {
          dependents := dependents + {dependent};
          queue := queue + [dependent];
        }
      }
      AllLookedAt(g, start, dependents, queue, name);
      if dependents != before {
        Smaller(Nodes(g) - dependents, Nodes(g) - before);
      }
    }
    forall p
      ensures p in dependents <==> Reaches(g, start, p)
    {
      if path :| Path(g, path) && |path| > 1 && path[0] == start && path[|path| - 1] == p {
        ClosedContains(g, start, dependents, path, |path| - 1);
      }
    }
    dependents := dependents - {start};
  }

  lemma Smaller(a: set<string>, b: set<string>)
    requires a < b
    ensures |a| < |b|
  {
    assert b == a + (b - a);
  }
}
