/** `HasCyclicDependency` (runtime/planner.go:218-255): the same search, started
    at the registered actions, where an id without an entry has no dependencies. */
module PlannerCycles {
  import opened Values
  import opened Digraph
  import opened CycleDetection

  /** A walk from a registered action that comes back to one of its nodes. */
  ghost predicate LoopFrom(g: Graph, roots: set<string>, w: seq<string>) {
    |w| >= 2 && Walk(g, w) && w[0] in roots && w[|w| - 1] in w[..|w| - 1]
  }

  ghost predicate CycleReachable(g: Graph, roots: set<string>) {
    exists w :: LoopFrom(g, roots, w)
  }

  /** `g` with an empty list for every other id the search can meet. */
  ghost function Totalized(g: Graph, roots: set<string>): Graph {
    map x | x in Ids(g) + roots :: Succ(g, x)
  }

  lemma TotalizedSame(g: Graph, roots: set<string>)
    ensures forall x :: Succ(Totalized(g, roots), x) == Succ(g, x)
    ensures Closed(Totalized(g, roots))
  {
  }

  /** A search that finished on every root without an answer leaves no loop to find. */
  lemma NoLoop(g: Graph, t: Graph, roots: set<string>, rank: map<string, nat>)
    requires Closed(t) && forall x :: Succ(t, x) == Succ(g, x)
    requires RankFalls(t, rank) && roots <= rank.Keys <= t.Keys
    ensures !CycleReachable(g, roots)
  {
    forall w ensures !LoopFrom(g, roots, w) {
      if LoopFrom(g, roots, w) {
        RankedWalk(g, t, rank, w);
        var j :| 0 <= j < |w| - 1 && w[j] == w[|w| - 1];
        WalkDrop(g, w, j);
        RankedWalk(g, t, rank, w[j..]);
      }
    }
  }

  lemma WalkDrop(g: Graph, w: seq<string>, j: nat)
    requires Walk(g, w) && j < |w|
    ensures Walk(g, w[j..])
  {
    forall i | 0 <= i < |w[j..]| - 1 ensures w[j..][i + 1] in Succ(g, w[j..][i]) {
      assert w[(j + i) + 1] in Succ(g, w[j + i]);
    }
  }

  lemma {:induction false} RankedWalk(g: Graph, t: Graph, rank: map<string, nat>, w: seq<string>)
    requires Closed(t) && forall x :: Succ(t, x) == Succ(g, x)
    requires RankFalls(t, rank) && rank.Keys <= t.Keys && Walk(g, w) && w[0] in rank
    ensures forall i :: 0 <= i < |w| ==> w[i] in rank
    ensures |w| >= 2 ==> rank[w[|w| - 1]] < rank[w[0]]
  {
    if |w| >= 2 {
      assert w[1] in Succ(g, w[0]);
      assert w[1] in Succ(t, w[0]);
      WalkTail(g, w);
      RankedWalk(g, t, rank, w[1..]);
      forall i | 0 <= i < |w| ensures w[i] in rank { if i > 0 { assert w[i] == w[1..][i - 1]; } }
    }
  }

  class ReachSearch {
    const dependencyGraph: Graph
    ghost const t: Graph
    var visited: set<string>
    var recStack: set<string>
    ghost var done: Progress

    constructor (g: Graph, ghost roots: set<string>)
      ensures dependencyGraph == g && t == Totalized(g, roots)
      ensures Valid() && visited == {} && done.open == {}
    {
      dependencyGraph, t := g, Totalized(g, roots);
      visited, recStack, done := {}, {}, Progress({}, map[], 0, map[]);
      new;
      TotalizedSame(g, roots);
    }

    ghost predicate Valid()
      reads this
    {
      && done.Valid(t, visited, recStack)
      && Closed(t) && (forall x :: Succ(t, x) == Succ(dependencyGraph, x))
      && visited <= t.Keys
    }

    /** The `dfs` closure. */
    method Visit(node: string) returns (found: bool, ghost walk: seq<string>)
      requires Valid() && node in t && node !in visited
      modifies this
      ensures old(visited) + {node} <= visited
      ensures found ==> Witness(t, walk, node, old(done).open)
      ensures !found ==> Valid() && Kept(old(done), done) && node in done.rank
      decreases t.Keys - visited, 0
    {
      OpenValid(t, done, visited, recStack, node);
      done := done.Open(node);
      visited := visited + {node};
      recStack := recStack + {node};
      var dependencies := if node in dependencyGraph then dependencyGraph[node] else [];
      assert dependencies == Succ(dependencyGraph, node) == Succ(t, node) == t[node];
      ghost var entered := done.(scanned := done.scanned - {node});
      var i := 0;
      while i < |dependencies|
        invariant 0 <= i <= |dependencies| && dependencies == t[node]
        invariant Valid() && Kept(entered, done)
        invariant node in done.scanned && done.scanned[node] == i
        invariant old(visited) + {node} <= visited
        invariant Finished(t, node, i, done.rank.Keys)
      {
        ghost var before := done;
        found, walk := ScanNext(node, dependencies[i]);
        if found { return; }
        KeptScan(entered, before, done, node, i);
        FinishedStep(t, node, i, before.rank.Keys, done.rank.Keys);
        i := i + 1;
      }
      CloseValid(t, done, visited, recStack, node);
      KeptClose(old(done), done, node);
      recStack := recStack - {node};
      done := done.Close(node);
      return false, [];
    }

    /** One iteration of its loop. */
    method ScanNext(node: string, dep: string) returns (found: bool, ghost walk: seq<string>)
      requires Valid() && node in done.open && done.scanned[node] < |t[node]|
      requires dep == t[node][done.scanned[node]]
      modifies this
      ensures old(visited) <= visited
      ensures found ==> Witness(t, walk, node, old(done).open - {node})
      ensures !found ==> Valid() && Kept(old(done).Scan(node), done) && dep in done.rank
      decreases t.Keys - visited, 1
    {
      ghost var open := done.open;
      assert open - {node} + {node} == open;
      if dep !in visited {
        found, walk := Visit(dep);
        if found {
          WitnessExtends(t, walk, dep, node, open - {node});
          return true, walk + [node];
        }
      } else if dep in recStack {
        WitnessStarts(t, dep, node, open - {node});
        return true, [dep, node];
      }
      ScanNode(t, done, visited, recStack, node);
      done := done.Scan(node);
      return false, [];
    }
  }

  lemma WitnessLoops(g: Graph, t: Graph, roots: set<string>, walk: seq<string>, node: string)
    requires forall x :: Succ(t, x) == Succ(g, x)
    requires Closed(t) && Witness(t, walk, node, {}) && node in roots && node in t
    ensures LoopFrom(g, roots, Reversed(walk))
  {
    assert walk[0] in t by { BackWalkInside(t, walk); }
    BackWalkReverses(t, walk);
    var r := Reversed(walk);
    forall i | 0 <= i < |r| - 1 ensures r[i + 1] in Succ(g, r[i]) { assert r[i + 1] in Succ(t, r[i]); }
    var j :| 0 <= j < |walk[1..]| && walk[1..][j] == walk[0];
    assert r[..|r| - 1][|walk| - 2 - j] == walk[0];
  }

  lemma {:induction false} BackWalkInside(t: Graph, w: seq<string>)
    requires Closed(t) && BackWalk(t, w) && w[|w| - 1] in t
    ensures w[0] in t
  {
    if |w| >= 2 {
      var n := |w| - 2;
      assert w[n] in Succ(t, w[n + 1]);
      BackWalkInside(t, w[..|w| - 1]);
    }
  }

  /** HasCyclicDependency: true exactly when a cycle is reachable from a registered action. */
  method HasCyclicDependency(resolvers: set<string>, dependencyGraph: Graph) returns (found: bool)
    ensures found <==> CycleReachable(dependencyGraph, resolvers)
  {
    var search := new ReachSearch(dependencyGraph, resolvers);
    ghost var t := search.t;
    assert resolvers <= t.Keys;
    assert Closed(t) && forall x :: Succ(t, x) == Succ(dependencyGraph, x);
    var ids := resolvers;
    while ids != {}
      invariant search.Valid() && search.done.open == {}
      invariant ids <= resolvers && resolvers - ids <= search.visited
    {
      var node :| node in ids;
      if node !in search.visited {
        ghost var walk;
        found, walk := search.Visit(node);
        if found {
          WitnessLoops(dependencyGraph, t, resolvers, walk, node);
          return;
        }
      }
      ids := ids - {node};
    }
    NoLoop(dependencyGraph, t, resolvers, search.done.rank);
    return false;
  }
}
