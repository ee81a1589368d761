/** `HasCycle` (planning/planner.go:121-161): depth-first search with a
    recursion stack. It answers exactly on every graph, closed or not:
    there is a cycle, or some missing id is named twice. */
module CycleDetection {
  import opened Values
  import opened Digraph
  import opened Adjacency
  import opened Planning

  /** The path the Go code prints: `walk[0] -> walk[1] -> ...`. */
  function Render(walk: seq<string>): string
    requires walk != []
  {
    if |walk| == 1 then walk[0]
    else Render(walk[..|walk| - 1]) + " -> " + walk[|walk| - 1]
  }

  /** What a positive answer shows, when the nodes of `open` are unfinished:
      a dependency walk, read backwards, that leads from `node` into a cycle or
      to a missing id reached a second time. */
  ghost predicate Witness(g: Graph, walk: seq<string>, node: string, open: set<string>) {
    && |walk| >= 2 && walk[|walk| - 1] == node
    && BackWalk(g, walk)
    && (walk[0] in g ==> walk[0] in walk[1..] || walk[0] in open)
    && (walk[0] !in g ==> MissingNamedTwice(g))
  }

  /** Every id the search can meet. */
  ghost function Ids(g: Graph): set<string> {
    g.Keys + set x, i | x in g && 0 <= i < |g[x]| :: g[x][i]
  }

  /** How far a search got: the unfinished nodes, a rank for each finished
      node, and how many dependees of each visited node it has scanned. */
  datatype Progress = Progress(open: set<string>, rank: map<string, nat>, next: nat, scanned: map<string, nat>)
  {
    ghost predicate Saw(g: Graph, x: string, i: int) {
      x in g && x in scanned && 0 <= i < scanned[x] && i < |g[x]|
    }

    ghost predicate NodesValid(g: Graph, visited: set<string>, recStack: set<string>) {
      && visited * g.Keys == open + rank.Keys
      && open !! rank.Keys
      && recStack == open + (visited - g.Keys)
      && RankFalls(g, rank)
      && (forall x :: x in rank ==> rank[x] < next)
    }

    ghost predicate EdgesValid(g: Graph, visited: set<string>) {
      && scanned.Keys == open + rank.Keys
      && (forall x :: x in rank ==> x in g && scanned[x] == |g[x]|)
      && (forall x, i :: Saw(g, x, i) ==> g[x][i] in visited)
      && (forall m :: m in visited && m !in g ==> exists x, i :: Saw(g, x, i) && g[x][i] == m)
      && SawMissingOnce(g)
    }

    ghost predicate SawMissingOnce(g: Graph) {
      forall x, i, y, j :: Saw(g, x, i) && Saw(g, y, j) && g[x][i] == g[y][j] && g[x][i] !in g
        ==> x == y && i == j
    }

    ghost predicate Valid(g: Graph, visited: set<string>, recStack: set<string>) {
      NodesValid(g, visited, recStack) && EdgesValid(g, visited)
    }

    function Open(node: string): Progress {
      this.(open := open + {node}, scanned := scanned[node := 0])
    }

    function Scan(node: string): Progress
      requires node in scanned
    {
      this.(scanned := scanned[node := scanned[node] + 1])
    }

    function Close(node: string): Progress {
      this.(open := open - {node}, rank := rank[node := next], next := next + 1)
    }
  }

  /** A search that returns leaves the unfinished nodes as they were. */
  ghost predicate Kept(p: Progress, q: Progress) {
    && q.open == p.open
    && p.rank.Keys <= q.rank.Keys
    && forall x :: x in p.open && x in p.scanned ==> x in q.scanned && q.scanned[x] == p.scanned[x]
  }

  /** The first `i` dependees of `node` that have a node are finished. */
  ghost predicate Finished(g: Graph, node: string, i: int, done: set<string>)
    requires node in g
  {
    forall j :: 0 <= j < i && j < |g[node]| && g[node][j] in g ==> g[node][j] in done
  }

  lemma FinishedStep(g: Graph, node: string, i: int, done: set<string>, more: set<string>)
    requires node in g && 0 <= i < |g[node]| && Finished(g, node, i, done) && done <= more
    requires g[node][i] in g ==> g[node][i] in more
    ensures Finished(g, node, i + 1, more)
  {
  }

  lemma KeptClose(p: Progress, q: Progress, node: string)
    requires node !in p.open && Kept(p.Open(node).(scanned := p.scanned - {node}), q)
    ensures Kept(p, q.Close(node))
  {
  }

  lemma KeptScan(p: Progress, q: Progress, r: Progress, node: string, i: nat)
    requires Kept(p, q) && node in p.open && node !in p.scanned && node in q.scanned && q.scanned[node] == i
    requires Kept(q.Scan(node), r)
    ensures Kept(p, r) && node in r.scanned && r.scanned[node] == i + 1
    ensures q.rank.Keys <= r.rank.Keys
  {
  }

  lemma OpenValid(g: Graph, p: Progress, visited: set<string>, recStack: set<string>, node: string)
    requires p.Valid(g, visited, recStack) && node !in visited && node in g
    ensures node !in p.open
    ensures p.Open(node).Valid(g, visited + {node}, recStack + {node})
  {
    var q := p.Open(node);
    assert forall x, i :: q.Saw(g, x, i) <==> p.Saw(g, x, i);
  }

  /** Scanning a dependee that has a node. */
  lemma ScanNode(g: Graph, p: Progress, visited: set<string>, recStack: set<string>, node: string)
    requires p.Valid(g, visited, recStack) && node in p.open && p.scanned[node] < |g[node]|
    requires g[node][p.scanned[node]] in visited && g[node][p.scanned[node]] in g
    ensures p.Scan(node).Valid(g, visited, recStack)
  {
    var q := p.Scan(node);
    assert forall x, i :: q.Saw(g, x, i) <==> p.Saw(g, x, i) || (x == node && i == p.scanned[node]);
  }

  /** Scanning a missing dependee for the first time: it stays on the recursion stack. */
  lemma ScanMissing(g: Graph, p: Progress, visited: set<string>, recStack: set<string>, node: string, m: string)
    requires p.Valid(g, visited, recStack) && node in p.open && p.scanned[node] < |g[node]|
    requires m == g[node][p.scanned[node]] && m !in visited && m !in g
    ensures p.Scan(node).Valid(g, visited + {m}, recStack + {m})
  {
    var q := p.Scan(node);
    assert forall x, i :: q.Saw(g, x, i) <==> p.Saw(g, x, i) || (x == node && i == p.scanned[node]);
    assert q.Saw(g, node, p.scanned[node]);
    assert q.NodesValid(g, visited + {m}, recStack + {m});
    forall k | k in visited + {m} && k !in g ensures exists x, i :: q.Saw(g, x, i) && g[x][i] == k {
      if k in visited {
        var x, i :| p.Saw(g, x, i) && g[x][i] == k;
        assert q.Saw(g, x, i);
      }
    }
  }

  /** Meeting a missing dependee again: it is named at two places. */
  lemma MeetMissing(g: Graph, p: Progress, visited: set<string>, recStack: set<string>, node: string)
    requires p.Valid(g, visited, recStack) && node in p.open && p.scanned[node] < |g[node]|
    requires g[node][p.scanned[node]] in visited && g[node][p.scanned[node]] !in g
    ensures MissingNamedTwice(g)
  {
    var x, i :| p.Saw(g, x, i) && g[x][i] == g[node][p.scanned[node]];
    assert NamedTwice(g, x, i, node, p.scanned[node]);
  }

  lemma CloseRank(g: Graph, p: Progress, node: string)
    requires RankFalls(g, p.rank) && node in g && node !in p.rank
    requires forall x :: x in p.rank ==> p.rank[x] < p.next
    requires Finished(g, node, |g[node]|, p.rank.Keys)
    ensures RankFalls(g, p.Close(node).rank)
  {
    var rank := p.Close(node).rank;
    forall x, y | x in rank && y in Succ(g, x) && y in g ensures y in rank && rank[y] < rank[x] {
      if x == node {
        var j :| 0 <= j < |g[node]| && g[node][j] == y;
      }
    }
  }

  lemma CloseValid(g: Graph, p: Progress, visited: set<string>, recStack: set<string>, node: string)
    requires p.Valid(g, visited, recStack) && node in p.open
    requires p.scanned[node] == |g[node]|
    requires Finished(g, node, |g[node]|, p.rank.Keys)
    ensures p.Close(node).Valid(g, visited, recStack - {node})
  {
    CloseRank(g, p, node);
    var q := p.Close(node);
    assert forall x, i :: q.Saw(g, x, i) <==> p.Saw(g, x, i);
  }

  /** A finished search that found nothing has ranked every node and scanned every edge. */
  lemma NothingFound(g: Graph, p: Progress, visited: set<string>, recStack: set<string>)
    requires p.Valid(g, visited, recStack) && p.open == {} && g.Keys <= visited
    ensures Acyclic(g) && !MissingNamedTwice(g)
  {
    RankAcyclic(g, p.rank);
    forall x, i, y, j ensures !NamedTwice(g, x, i, y, j) {
      if NamedTwice(g, x, i, y, j) { assert p.Saw(g, x, i) && p.Saw(g, y, j); }
    }
  }

  lemma WitnessExtends(g: Graph, walk: seq<string>, neighbor: string, node: string, open: set<string>)
    requires Witness(g, walk, neighbor, open + {node}) && neighbor in Succ(g, node)
    ensures Witness(g, walk + [node], node, open)
    ensures Render(walk + [node]) == Render(walk) + " -> " + node
  {
    var w := walk + [node];
    assert w[..|w| - 1] == walk;
    assert w[1..] == walk[1..] + [node];
  }

  lemma WitnessStarts(g: Graph, neighbor: string, node: string, open: set<string>)
    requires neighbor in Succ(g, node)
    requires if neighbor in g then neighbor in open + {node} else MissingNamedTwice(g)
    ensures Witness(g, [neighbor, node], node, open)
    ensures Render([neighbor, node]) == neighbor + " -> " + node
  {
    assert [neighbor, node][..1] == [neighbor];
  }

  class CycleSearch {
    const g: Graph  // the dependee lists, which cannot change under HasCycle's read lock
    var visited: set<string>
    var recStack: set<string>
    ghost var done: Progress

    constructor (g: Graph)
      ensures this.g == g && visited == {} && recStack == {} && done == Progress({}, map[], 0, map[])
    {
      this.g := g;
      visited, recStack, done := {}, {}, Progress({}, map[], 0, map[]);
    }

    ghost predicate Valid()
      reads this
    {
      done.Valid(g, visited, recStack)
    }

    /** The `dfs` closure. */
    method Visit(node: string)
      returns (found: bool, path: string, ghost walk: seq<string>)
      requires Valid() && node !in visited && node in Ids(g)
      modifies this
      ensures old(visited) + {node} <= visited
      ensures found ==> Witness(g, walk, node, old(done).open) && path == Render(walk)
      ensures !found && node !in g ==>
                visited == old(visited) + {node} && recStack == old(recStack) + {node} && done == old(done)
      ensures !found && node in g ==> Valid() && Kept(old(done), done) && node in done.rank
      decreases Ids(g) - visited, 0
    {
      if node in g {
        OpenValid(g, done, visited, recStack, node);
        done := done.Open(node);
      }
      visited := visited + {node};
      recStack := recStack + {node};
      if node !in g { return false, "", []; }
      var dependees := g[node];
      ghost var entered := done.(scanned := done.scanned - {node});
      var i := 0;
      while i < |dependees|
        invariant 0 <= i <= |dependees| && dependees == g[node]
        invariant Valid() && Kept(entered, done)
        invariant node in done.scanned && done.scanned[node] == i
        invariant old(visited) + {node} <= visited
        invariant Finished(g, node, i, done.rank.Keys)
      {
        ghost var before := done;
        found, path, walk := ScanNext(node, dependees[i]);
        if found { return; }
        KeptScan(entered, before, done, node, i);
        FinishedStep(g, node, i, before.rank.Keys, done.rank.Keys);
        i := i + 1;
      }
      CloseValid(g, done, visited, recStack, node);
      KeptClose(old(done), done, node);
      recStack := recStack - {node};
      done := done.Close(node);
      return false, "", [];
    }

    /** One iteration of its loop. */
    method ScanNext(node: string, neighbor: string)
      returns (found: bool, path: string, ghost walk: seq<string>)
      requires Valid() && node in done.open && done.scanned[node] < |g[node]|
      requires neighbor == g[node][done.scanned[node]]
      modifies this
      ensures old(visited) <= visited
      ensures found ==> Witness(g, walk, node, old(done).open - {node}) && path == Render(walk)
      ensures !found ==> Valid() && Kept(old(done).Scan(node), done)
      ensures !found && neighbor in g ==> neighbor in done.rank
      decreases Ids(g) - visited, 1
    {
      ghost var before, visited0, recStack0 := done, visited, recStack;
      assert done.open - {node} + {node} == done.open;
      if neighbor !in visited {
        found, path, walk := Visit(neighbor);
        if found {
          WitnessExtends(g, walk, neighbor, node, before.open - {node});
          return true, path + " -> " + node, walk + [node];
        }
        if neighbor in g {
          ScanNode(g, done, visited, recStack, node);
        } else {
          ScanMissing(g, before, visited0, recStack0, node, neighbor);
        }
      } else if neighbor in recStack {
        if neighbor !in g { MeetMissing(g, done, visited, recStack, node); }
        WitnessStarts(g, neighbor, node, before.open - {node});
        return true, neighbor + " -> " + node, [neighbor, node];
      } else {
        ScanNode(g, done, visited, recStack, node);
      }
      done := done.Scan(node);
      return false, "", [];
    }
  }

  /** The loop of HasCycle over the nodes, in any order. */
  method FindCycle(g: Graph) returns (found: bool, path: string, ghost walk: seq<string>)
    ensures found <==> !Acyclic(g) || MissingNamedTwice(g)
    ensures found ==> walk != [] && Witness(g, walk, walk[|walk| - 1], {}) && path == Render(walk)
  {
    var search := new CycleSearch(g);
    var ids := g.Keys;
    while ids != {}
      invariant search.g == g && search.Valid() && search.done.open == {}
      invariant ids <= g.Keys && g.Keys - ids <= search.visited
    {
      var nodeID :| nodeID in ids;
      if nodeID !in search.visited {
        found, path, walk := search.Visit(nodeID);
        if found {
          WitnessFaults(g, walk, nodeID);
          return;
        }
      }
      ids := ids - {nodeID};
    }
    NothingFound(g, search.done, search.visited, search.recStack);
    return false, "", [];
  }

  /** HasCycle. On a closed graph the answer is exact; an id that is named but
      missing never leaves the recursion stack, so naming it twice counts too. */
  method HasCycle(graph: DependencyGraph) returns (found: bool, path: string, ghost walk: seq<string>)
    ensures found <==> !Acyclic(Dependees(graph.Lists())) || MissingNamedTwice(Dependees(graph.Lists()))
    ensures Closed(Dependees(graph.Lists())) ==> (found <==> !Acyclic(Dependees(graph.Lists())))
    ensures found ==>
              && walk != [] && path == Render(walk)
              && Witness(Dependees(graph.Lists()), walk, walk[|walk| - 1], {})
  {
    var g := graph.DependeeLists();
    found, path, walk := FindCycle(g);
  }

  lemma WitnessFaults(g: Graph, walk: seq<string>, node: string)
    requires Witness(g, walk, node, {})
    ensures !Acyclic(g) || MissingNamedTwice(g)
  {
    if walk[0] in g {
      var j :| 0 <= j < |walk[1..]| && walk[1..][j] == walk[0];
      BackWalkCycle(g, walk, j + 1);
    }
  }

  /** Two goals that wait for the same unregistered goal are reported as a cycle. */
  lemma FalseAlarmExample()
    ensures var g: Graph := map["a" := ["x"], "b" := ["x"]];
            Acyclic(g) && MissingNamedTwice(g)
  {
    var g: Graph := map["a" := ["x"], "b" := ["x"]];
    assert NamedTwice(g, "a", 0, "b", 0);
    RankAcyclic(g, map["a" := 0, "b" := 0]);
  }
}
