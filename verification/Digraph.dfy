/** Directed graphs as the dependency maps of the planners: `g[x]` lists the
    nodes `x` depends on. An id with no entry has no dependencies. */
module Digraph {

  type Graph = map<string, seq<string>>

  function Succ(g: Graph, x: string): seq<string> {
    if x in g then g[x] else []
  }

  ghost predicate Closed(g: Graph) {
    forall x, y :: x in g && y in g[x] ==> y in g
  }

  /** Each node of `w` depends on the next. */
  ghost predicate Walk(g: Graph, w: seq<string>) {
    |w| >= 1 && forall i :: 0 <= i < |w| - 1 ==> w[i + 1] in Succ(g, w[i])
  }

  ghost predicate Cycle(g: Graph, w: seq<string>) {
    |w| >= 2 && Walk(g, w) && w[0] == w[|w| - 1]
  }

  ghost predicate Acyclic(g: Graph) {
    forall w :: !Cycle(g, w)
  }

  /** Some id without an entry is named at two places of the lists. */
  ghost predicate MissingNamedTwice(g: Graph) {
    exists x, i, y, j :: NamedTwice(g, x, i, y, j)
  }

  ghost predicate NamedTwice(g: Graph, x: string, i: int, y: string, j: int) {
    && x in g && 0 <= i < |g[x]|
    && y in g && 0 <= j < |g[y]|
    && (x, i) != (y, j)
    && g[x][i] == g[y][j]
    && g[x][i] !in g
  }

  lemma WalkTail(g: Graph, w: seq<string>)
    requires Walk(g, w) && |w| >= 2
    ensures Walk(g, w[1..])
  {
    forall i | 0 <= i < |w[1..]| - 1 ensures w[1..][i + 1] in Succ(g, w[1..][i]) {
      assert w[(i + 1) + 1] in Succ(g, w[i + 1]);
    }
  }

  /** `rank` falls along every edge inside its domain. */
  ghost predicate RankFalls(g: Graph, rank: map<string, nat>) {
    forall x, y :: x in rank && y in Succ(g, x) && y in g ==> y in rank && rank[y] < rank[x]
  }

  lemma {:induction false} WalkFalls(g: Graph, rank: map<string, nat>, w: seq<string>)
    requires Walk(g, w) && RankFalls(g, rank) && w[0] in rank
    requires forall i :: 0 <= i < |w| ==> w[i] in g
    ensures w[|w| - 1] in rank && (|w| >= 2 ==> rank[w[|w| - 1]] < rank[w[0]])
  {
    if |w| >= 2 {
      assert w[1] in Succ(g, w[0]);
      WalkTail(g, w);
      WalkFalls(g, rank, w[1..]);
    }
  }

  /** No cycle meets the domain of a falling rank. */
  lemma RankNoCycle(g: Graph, rank: map<string, nat>, w: seq<string>)
    requires RankFalls(g, rank) && Cycle(g, w)
    ensures w[0] !in rank
  {
    forall i | 0 <= i < |w| ensures w[i] in g {
      if i < |w| - 1 { assert w[i + 1] in Succ(g, w[i]); } else { assert w[1] in Succ(g, w[0]); }
    }
    if w[0] in rank { WalkFalls(g, rank, w); }
  }

  /** A rank that covers every node rules out cycles. */
  lemma RankAcyclic(g: Graph, rank: map<string, nat>)
    requires RankFalls(g, rank) && g.Keys <= rank.Keys
    ensures Acyclic(g)
  {
    forall w ensures !Cycle(g, w) {
      if Cycle(g, w) {
        CycleInside(g, w);
        RankNoCycle(g, rank, w);
      }
    }
  }

  lemma CycleInside(g: Graph, w: seq<string>)
    requires Cycle(g, w)
    ensures w[0] in g
  {
    assert w[1] in Succ(g, w[0]);
  }

  function Reversed(s: seq<string>): (r: seq<string>)
    ensures |r| == |s| && forall i :: 0 <= i < |s| ==> r[i] == s[|s| - 1 - i]
  {
    if s == [] then [] else Reversed(s[1..]) + [s[0]]
  }

  /** Read backwards, `w` is a walk: each element depends on its predecessor. */
  ghost predicate BackWalk(g: Graph, w: seq<string>) {
    |w| >= 1 && forall i :: 0 <= i < |w| - 1 ==> w[i] in Succ(g, w[i + 1])
  }

  lemma BackWalkReverses(g: Graph, w: seq<string>)
    requires BackWalk(g, w)
    ensures Walk(g, Reversed(w))
  {
    var r := Reversed(w);
    forall i | 0 <= i < |r| - 1 ensures r[i + 1] in Succ(g, r[i]) {
      assert w[|w| - 2 - i] in Succ(g, w[(|w| - 2 - i) + 1]);
    }
  }

  /** A backward walk whose first node comes again contains a cycle. */
  lemma BackWalkCycle(g: Graph, w: seq<string>, j: int)
    requires BackWalk(g, w) && 0 < j < |w| && w[j] == w[0]
    ensures Cycle(g, Reversed(w[..j + 1]))
  {
    BackWalkReverses(g, w[..j + 1]);
  }
}
