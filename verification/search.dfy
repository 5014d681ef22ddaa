/** The documentation search keeps the ten best hits while hits come in, some of them repeatedly. */
module Search {

  const LIMIT := 10

  /** The first of the worst matches. */
  predicate IsWorst(matches: seq<nat>, score: nat -> real, w: nat) {
    && w < |matches|
    && (forall i :: 0 <= i < |matches| ==> score(matches[w]) <= score(matches[i]))
    && (forall i :: 0 <= i < w ==> score(matches[w]) < score(matches[i]))
  }

  /** The matches after one hit: a new hit fills a free place or replaces a worse match. */
  ghost predicate Registers(before: seq<nat>, score: nat -> real, hit: nat, after: seq<nat>) {
    if hit in before then after == before
    else if |before| < LIMIT then after == before + [hit]
    else
      exists w: nat :: IsWorst(before, score, w)
        && after == if score(hit) > score(before[w]) then before[w := hit] else before
  }

  class Hits {
    const score: nat -> real
    var matches: seq<nat>
    var scores: map<nat, real>

    predicate Valid()
      reads this
    {
      forall i :: 0 <= i < |matches| ==> matches[i] in scores && scores[matches[i]] == score(matches[i])
    }

    constructor (score: nat -> real)
      ensures Valid() && matches == [] && this.score == score
    {
      this.score := score;
      matches, scores := [], map[];
    }

    method RegisterHit(hit: nat)
      requires Valid()
      modifies this
      ensures Valid() && Registers(old(matches), score, hit, matches)
    {
      if hit in matches {
        return;
      }
      scores := scores[hit := score(hit)];
      if |matches| < LIMIT {
        matches := matches + [hit];
        return;
      }
      var worst := 0;
      var i := 0;
      while i < |matches|
        invariant 0 <= i <= |matches| && worst < |matches|
        invariant forall k :: 0 <= k < i ==> score(matches[worst]) <= score(matches[k])
        invariant forall k :: 0 <= k < worst ==> score(matches[worst]) < score(matches[k])
      {
        if scores[matches[i]] < scores[matches[worst]] {
          worst := i;
        }
        i := i + 1;
      }
      assert IsWorst(matches, score, worst);
      if scores[hit] > scores[matches[worst]] {
        matches := matches[worst := hit];
      }
    }

    /** Registers the hits of all words that match. */
    method RegisterAll(hits: seq<nat>)
      requires Valid() && matches == []
      modifies this
      ensures TopTen(matches, score, hits)
    {
      var i := 0;
      while i < |hits|
        invariant 0 <= i <= |hits| && Valid()
        invariant TopTen(matches, score, hits[..i])
      {
        label before:
        RegisterHit(hits[i]);
        assert hits[..i + 1] == hits[..i] + [hits[i]];
        TopTenStep(old@before(matches), score, hits[..i], hits[i], matches);
        i := i + 1;
      }
      assert hits[..i] == hits;
    }
  }

  predicate Distinct(s: seq<nat>) {
    forall i, j :: 0 <= i < j < |s| ==> s[i] != s[j]
  }

  /** At most ten different hits, all of them if there is room, and none that was left out is better. */
  ghost predicate TopTen(matches: seq<nat>, score: nat -> real, hits: seq<nat>) {
    && Distinct(matches) && |matches| <= LIMIT
    && (forall m :: m in matches ==> m in hits)
    && (|matches| < LIMIT ==> forall h :: h in hits ==> h in matches)
    && (forall h, m :: h in hits && h !in matches && m in matches ==> score(h) <= score(m))
  }

  /** One more hit keeps the best ten, even if it was replaced before. */
  lemma TopTenStep(before: seq<nat>, score: nat -> real, hits: seq<nat>, hit: nat, after: seq<nat>)
    requires TopTen(before, score, hits) && Registers(before, score, hit, after)
    ensures TopTen(after, score, hits + [hit])
  {
    if hit !in before && |before| == LIMIT {
      var w: nat :| IsWorst(before, score, w)
        && after == if score(hit) > score(before[w]) then before[w := hit] else before;
      if score(hit) > score(before[w]) {
        ReplacedMembers(before, w, hit);
        forall h, m | h in hits + [hit] && h !in after && m in after
          ensures score(h) <= score(m)
        {
          assert m == hit || m in before;
        }
      } else {
        forall h, m | h in hits + [hit] && h !in after && m in after
          ensures score(h) <= score(m)
        {
          var i :| 0 <= i < |before| && before[i] == m;
        }
      }
    }
  }

  lemma ReplacedMembers(s: seq<nat>, w: nat, x: nat)
    requires w < |s| && Distinct(s) && x !in s
    ensures Distinct(s[w := x])
    ensures forall m :: m in s[w := x] <==> m == x || (m in s && m != s[w])
  {
    var t := s[w := x];
    forall m
      ensures m in t <==> m == x || (m in s && m != s[w])
    {
      if m in t {
        var i :| 0 <= i < |t| && t[i] == m;
      }
      if m == x {
        assert t[w] == x;
      } else if m in s && m != s[w] {
        var i :| 0 <= i < |s| && s[i] == m;
        assert t[i] == m;
      }
    }
  }

  // ----- Whole runs -----

  /** `states` are the matches after each hit. */
  ghost predicate Run(states: seq<seq<nat>>, score: nat -> real, hits: seq<nat>) {
    && |states| == |hits| + 1 && states[0] == []
    && forall i :: 0 <= i < |hits| ==> Registers(states[i], score, hits[i], states[i + 1])
  }

  /** After any sequence of hits the matches are the best ten. */
  lemma {:induction false} RunsKeepTheBest(states: seq<seq<nat>>, score: nat -> real, hits: seq<nat>, n: nat)
    requires Run(states, score, hits) && n <= |hits|
    ensures TopTen(states[n], score, hits[..n])
  {
    if n > 0 {
      RunsKeepTheBest(states, score, hits, n - 1);
      assert hits[..n] == hits[..n - 1] + [hits[n - 1]];
      TopTenStep(states[n - 1], score, hits[..n - 1], hits[n - 1], states[n]);
    }
  }
}
