/** `GetCriticalPath` (planning/planner.go:220-291) on a closed acyclic graph:
    the only graphs on which the recursion of its `dfs` ends without a nil node. */
module CriticalPath {
  import opened Values
  import opened Digraph
  import opened Adjacency
  import opened Planning

  // ---------- heights ----------

  ghost predicate Reaches(g: Graph, x: string, y: string) {
    exists w :: WalkBetween(g, w, x, y)
  }

  ghost predicate WalkBetween(g: Graph, w: seq<string>, x: string, y: string) {
    |w| >= 2 && Walk(g, w) && w[0] == x && w[|w| - 1] == y
  }

  /** The nodes below `x`. */
  ghost function Below(g: Graph, x: string): set<string> {
    set y | y in g && Reaches(g, x, y)
  }

  /** Following an edge loses a node: the reason the recursion of `dfs` ends. */
  lemma BelowShrinks(g: Graph, x: string, y: string)
    requires Closed(g) && Acyclic(g) && x in g && y in g[x]
    ensures Below(g, y) < Below(g, x)
  {
    assert y in Below(g, x) by { assert WalkBetween(g, [x, y], x, y); }
    forall z | z in Below(g, y) ensures z in Below(g, x) {
      var w :| WalkBetween(g, w, y, z);
      assert WalkBetween(g, [x] + w, x, z);
    }
    if Reaches(g, y, y) {
      var w :| WalkBetween(g, w, y, y);
      assert Cycle(g, w);
    }
  }

  /** How many nodes the longest chain starting at `x` has. */
  ghost function Height(g: Graph, x: string): nat
    requires Closed(g) && Acyclic(g) && x in g
    decreases Below(g, x), |g[x]| + 1
  {
    1 + Highest(g, x, |g[x]|)
  }

  /** The largest height among the first `k` dependees of `x`. */
  ghost function Highest(g: Graph, x: string, k: nat): nat
    requires Closed(g) && Acyclic(g) && x in g && k <= |g[x]|
    decreases Below(g, x), k
  {
    if k == 0 then 0 else
      BelowShrinks(g, x, g[x][k - 1]);
      Max(Highest(g, x, k - 1), Height(g, g[x][k - 1]))
  }

  function Max(a: int, b: int): int { if a < b then b else a }

  lemma {:induction false} HighestBounds(g: Graph, x: string, k: nat)
    requires Closed(g) && Acyclic(g) && x in g && k <= |g[x]|
    ensures forall i :: 0 <= i < k ==> Height(g, g[x][i]) <= Highest(g, x, k)
    ensures k > 0 ==> exists i :: 0 <= i < k && Height(g, g[x][i]) == Highest(g, x, k)
    decreases k
  {
    if k > 0 { HighestBounds(g, x, k - 1); }
  }

  lemma EdgeLowers(g: Graph, x: string, y: string)
    requires Closed(g) && Acyclic(g) && x in g && y in g[x]
    ensures Height(g, y) < Height(g, x)
  {
    HighestBounds(g, x, |g[x]|);
    var i :| 0 <= i < |g[x]| && g[x][i] == y;
  }

  /** No chain from `w[0]` is longer than its height. */
  lemma {:induction false} WalkBound(g: Graph, w: seq<string>)
    requires Closed(g) && Acyclic(g) && Walk(g, w) && w[0] in g
    ensures |w| <= Height(g, w[0])
  {
    if |w| > 1 {
      assert w[1] in Succ(g, w[0]);
      WalkTail(g, w);
      WalkBound(g, w[1..]);
      EdgeLowers(g, w[0], w[1]);
    }
  }

  // ---------- where the recursion ends ----------

  /** The recursion from `x` returns within `fuel` nested calls and meets no missing node. */
  ghost predicate Ends(g: Graph, x: string, fuel: nat)
    decreases fuel
  {
    x in g && fuel > 0 && forall y :: y in g[x] ==> Ends(g, y, fuel - 1)
  }

  ghost predicate Terminates(g: Graph) {
    forall x :: x in g ==> exists fuel: nat :: Ends(g, x, fuel)
  }

  lemma {:induction false} EndsBoundsWalks(g: Graph, x: string, fuel: nat, w: seq<string>)
    requires Ends(g, x, fuel) && Walk(g, w) && w[0] == x
    ensures |w| <= fuel
    decreases fuel
  {
    if |w| >= 2 {
      assert w[1] in Succ(g, w[0]);
      WalkTail(g, w);
      EndsBoundsWalks(g, w[1], fuel - 1, w[1..]);
    }
  }

  /** Going round a cycle once more makes a longer walk. */
  lemma {:induction false} CycleUnrolls(g: Graph, c: seq<string>, n: nat) returns (w: seq<string>)
    requires Cycle(g, c)
    ensures Walk(g, w) && w[0] == c[0] && |w| > n
  {
    if n == 0 { return c; }
    w := CycleUnrolls(g, c, n - 1);
    var c' := c[..|c| - 1];
    forall i | 0 <= i < |c' + w| - 1 ensures (c' + w)[i + 1] in Succ(g, (c' + w)[i]) {
      if i < |c'| {
        assert c[i + 1] in Succ(g, c[i]);
      } else {
        assert w[(i - |c'|) + 1] in Succ(g, w[i - |c'|]);
      }
    }
    w := c' + w;
  }

  lemma {:induction false} HeightEnds(g: Graph, x: string, fuel: nat)
    requires Closed(g) && Acyclic(g) && x in g && fuel >= Height(g, x)
    ensures Ends(g, x, fuel)
    decreases fuel
  {
    forall y | y in g[x] ensures Ends(g, y, fuel - 1) {
      EdgeLowers(g, x, y);
      HeightEnds(g, y, fuel - 1);
    }
  }

  /** The recursion returns from every node, without a nil dereference, exactly on the closed acyclic graphs. */
  lemma TerminatesIff(g: Graph)
    ensures Terminates(g) <==> Closed(g) && Acyclic(g)
  {
    if Terminates(g) {
      forall x, y | x in g && y in g[x] ensures y in g {
        var fuel: nat :| Ends(g, x, fuel);
        assert Ends(g, y, fuel - 1);
      }
      forall c ensures !Cycle(g, c) {
        if Cycle(g, c) {
          CycleInside(g, c);
          var fuel: nat :| Ends(g, c[0], fuel);
          var w := CycleUnrolls(g, c, fuel);
          EndsBoundsWalks(g, c[0], fuel, w);
        }
      }
    }
    if Closed(g) && Acyclic(g) {
      forall x | x in g ensures exists fuel: nat :: Ends(g, x, fuel) { HeightEnds(g, x, Height(g, x)); }
    }
  }

  /** One AddNode call over an unregistered dependee, or one AddDependency of a goal on itself, is enough. */
  lemma CrashExamples()
    ensures !Terminates(Dependees(AddNode(map[], "a", ["x"])))
    ensures !Terminates(Dependees(AddDependency(map[], "a", "a")))
  {
    var missing := Dependees(AddNode(map[], "a", ["x"]));
    assert "x" in missing["a"] && "x" !in missing;
    TerminatesIff(missing);
    var looped := Dependees(AddDependency(map[], "a", "a"));
    assert looped["a"] == ["a"];
    assert Cycle(looped, ["a", "a"]);
    TerminatesIff(looped);
  }

  // ---------- the traversal ----------

  class LongestPaths {
    const g: Graph
    var longestPath: map<string, nat>

    constructor (g: Graph)
      ensures this.g == g && longestPath == map id | id in g :: 1
    {
      this.g := g;
      longestPath := map id | id in g :: 1;
    }

    /** Every entry is the right height or still its initial 1. */
    ghost predicate Valid()
      reads this
    {
      && Closed(g) && Acyclic(g) && longestPath.Keys == g.Keys
      && forall x :: x in g ==> longestPath[x] == 1 || longestPath[x] == Height(g, x)
    }

    ghost predicate Settled(x: string)
      requires Valid()
      reads this
    {
      x in g && longestPath[x] == Height(g, x)
    }

    /** The `dfs` closure: exponential, but it ends and gives the height. */
    method Visit(node: string) returns (length: nat)
      requires Valid() && node in g
      modifies this
      ensures Valid() && length == Height(g, node) && Settled(node)
      ensures forall x :: x in g && old(Settled(x)) ==> Settled(x)
      decreases Below(g, node)
    {
      var dependees := g[node];
      if |dependees| == 0 { return 1; }
      var maxPath := 0;
      var i := 0;
      while i < |dependees|
        invariant 0 <= i <= |dependees| && Valid()
        invariant maxPath == Highest(g, node, i)
        invariant forall x :: x in g && old(Settled(x)) ==> Settled(x)
      {
        BelowShrinks(g, node, dependees[i]);
        var pathLen := Visit(dependees[i]);
        if pathLen > maxPath { maxPath := pathLen; }
        i := i + 1;
      }
      longestPath := longestPath[node := maxPath + 1];
      return maxPath + 1;
    }

    method VisitAll()
      requires Valid()
      modifies this
      ensures Valid() && forall x :: x in g ==> longestPath[x] == Height(g, x)
    {
      var ids := g.Keys;
      while ids != {}
        invariant Valid() && ids <= g.Keys
        invariant forall x :: x in g && x !in ids ==> Settled(x)
      {
        var id :| id in ids;
        var _ := Visit(id);
        ids := ids - {id};
      }
    }
  }

  ghost predicate AllHeights(g: Graph, lp: map<string, nat>) {
    && Closed(g) && Acyclic(g) && lp.Keys == g.Keys
    && forall x :: x in g ==> lp[x] == Height(g, x)
  }

  /** The node with the longest chain: whichever the map order meets first. */
  method FindEnd(g: Graph, lp: map<string, nat>) returns (maxLength: nat, endNode: string)
    requires AllHeights(g, lp) && g != map[]
    ensures endNode in g && maxLength == Height(g, endNode)
    ensures forall x :: x in g ==> Height(g, x) <= maxLength
  {
    maxLength, endNode := 0, "";
    var ids := lp.Keys;
    while ids != {}
      invariant ids <= g.Keys
      invariant forall x :: x in g && x !in ids ==> Height(g, x) <= maxLength
      invariant ids != g.Keys ==> endNode in g && maxLength == Height(g, endNode)
      invariant ids == g.Keys ==> maxLength == 0
    {
      var id :| id in ids;
      if lp[id] > maxLength { maxLength, endNode := lp[id], id; }
      ids := ids - {id};
    }
  }

  /** The first of the highest among the first `k` dependees of `x`; "" when there is none. */
  ghost function FirstHighest(g: Graph, x: string, k: nat): string
    requires Closed(g) && Acyclic(g) && x in g && k <= |g[x]|
  {
    if k == 0 then ""
    else if Height(g, g[x][k - 1]) > Highest(g, x, k - 1) then g[x][k - 1]
    else FirstHighest(g, x, k - 1)
  }

  lemma {:induction false} FirstHighestIs(g: Graph, x: string, k: nat)
    requires Closed(g) && Acyclic(g) && x in g && 0 < k <= |g[x]|
    ensures FirstHighest(g, x, k) in g[x] && Height(g, FirstHighest(g, x, k)) == Highest(g, x, k)
    decreases k
  {
    if Height(g, g[x][k - 1]) <= Highest(g, x, k - 1) { FirstHighestIs(g, x, k - 1); }
  }

  /** The chain from `x` that always goes on to the first highest dependee. */
  ghost function Greedy(g: Graph, x: string): seq<string>
    requires Closed(g) && Acyclic(g) && x in g
    decreases Below(g, x)
  {
    if g[x] == [] then [x]
    else
      var y := FirstHighest(g, x, |g[x]|);
      FirstHighestIs(g, x, |g[x]|);
      BelowShrinks(g, x, y);
      [x] + Greedy(g, y)
  }

  lemma {:induction false} GreedyIsLongest(g: Graph, x: string)
    requires Closed(g) && Acyclic(g) && x in g
    ensures Walk(g, Greedy(g, x)) && Greedy(g, x)[0] == x && |Greedy(g, x)| == Height(g, x)
    decreases Below(g, x)
  {
    if g[x] != [] {
      var y := FirstHighest(g, x, |g[x]|);
      FirstHighestIs(g, x, |g[x]|);
      BelowShrinks(g, x, y);
      GreedyIsLongest(g, y);
    }
  }

  method FindNext(g: Graph, lp: map<string, nat>, current: string) returns (next: string)
    requires AllHeights(g, lp) && current in g
    ensures next == FirstHighest(g, current, |g[current]|)
  {
    var dependees := g[current];
    next := "";
    var maxLen := 0;
    var i := 0;
    while i < |dependees|
      invariant 0 <= i <= |dependees| && maxLen == Highest(g, current, i)
      invariant next == FirstHighest(g, current, i)
    {
      if lp[dependees[i]] > maxLen { maxLen, next := lp[dependees[i]], dependees[i]; }
      i := i + 1;
    }
  }

  /** The part of a chain that the walk keeps: it stops at a node named "". */
  function UntilEmptyId(w: seq<string>): seq<string> {
    if w == [] || w[0] == "" then [] else [w[0]] + UntilEmptyId(w[1..])
  }

  lemma {:induction false} NoEmptyId(w: seq<string>)
    ensures UntilEmptyId(w) == w <==> "" !in w
  {
    if w != [] {
      NoEmptyId(w[1..]);
      assert w == [w[0]] + w[1..];
    }
  }

  lemma {:induction false} UntilEmptyIdSplit(path: seq<string>, rest: seq<string>)
    requires "" !in path && (rest == [] || rest[0] == "")
    ensures UntilEmptyId(path + rest) == path
  {
    if path == [] {
      assert path + rest == rest;
    } else {
      UntilEmptyIdSplit(path[1..], rest);
      assert (path + rest)[1..] == path[1..] + rest;
    }
  }

  /** A longest dependency chain of the whole graph. */
  ghost predicate LongestChain(g: Graph, chain: seq<string>) {
    && Walk(g, chain) && chain[0] in g
    && forall w :: Walk(g, w) && w[0] in g ==> |w| <= |chain|
  }

  /** The walk from the end node down to a leaf, or to a node named "". */
  method Descend(g: Graph, lp: map<string, nat>, endNode: string) returns (path: seq<string>)
    requires AllHeights(g, lp) && endNode in g
    ensures path == UntilEmptyId(Greedy(g, endNode))
  {
    path := [];
    var current := endNode;
    var visited: set<string> := {};
    ghost var rest := Greedy(g, endNode);
    while current != "" && current !in visited
      invariant "" !in path && visited == set x | x in path
      invariant path + rest == Greedy(g, endNode)
      invariant rest != [] ==> current in g && rest == Greedy(g, current)
      invariant rest == [] ==> current == ""
      invariant forall x :: x in path ==> x in g && (rest != [] ==> Height(g, x) > Height(g, current))
      decreases |rest|
    {
      if g[current] != [] {
        FirstHighestIs(g, current, |g[current]|);
        EdgeLowers(g, current, FirstHighest(g, current, |g[current]|));
      }
      path := path + [current];
      visited := visited + {current};
      current := FindNext(g, lp, current);
      rest := rest[1..];
    }
    UntilEmptyIdSplit(path, rest);
  }

  /** The swap loop. */
  method Reverse(path: seq<string>) returns (r: seq<string>)
    ensures r == Reversed(path)
  {
    r := path;
    var i, j := 0, |path| - 1;
    while i < j
      invariant |r| == |path| && 0 <= i <= j + 1 && i + j == |path| - 1
      invariant forall k :: 0 <= k < i || j < k < |path| ==> r[k] == path[|path| - 1 - k]
      invariant forall k :: i <= k <= j ==> r[k] == path[k]
    {
      r := r[i := r[j]][j := r[i]];
      i, j := i + 1, j - 1;
    }
  }

  /** `x` starts a longest chain: the nodes among which the map order picks the end node. */
  ghost predicate Tallest(g: Graph, x: string)
    requires Closed(g) && Acyclic(g)
  {
    x in g && forall y :: y in g ==> Height(g, y) <= Height(g, x)
  }

  /** Each node is a dependee of the next, and no dependency chain has more nodes. */
  ghost predicate OptimalPath(g: Graph, path: seq<string>) {
    && BackWalk(g, path) && (forall i :: 0 <= i < |path| ==> path[i] in g)
    && forall w :: Walk(g, w) && w[0] in g ==> |w| <= |path|
  }

  /** What `GetCriticalPath` promises about the graph `g`. */
  ghost predicate IsCriticalPath(g: Graph, path: seq<string>, length: int)
    requires Closed(g) && Acyclic(g)
  {
    if g == map[] then path == [] && length == 0
    else
      && (exists x :: Tallest(g, x) && path == PathFrom(g, x) && length == Height(g, x) - 1)
      && ("" !in g ==> OptimalPath(g, path) && length == |path| - 1)
  }

  /** The path returned when `x` is the end node. */
  ghost function PathFrom(g: Graph, x: string): seq<string>
    requires Closed(g) && Acyclic(g) && x in g
  {
    Reversed(UntilEmptyId(Greedy(g, x)))
  }

  lemma {:induction false} WalkInside(g: Graph, w: seq<string>)
    requires Closed(g) && Walk(g, w) && w[0] in g
    ensures forall i :: 0 <= i < |w| ==> w[i] in g
  {
    if |w| >= 2 {
      assert w[1] in Succ(g, w[0]);
      WalkTail(g, w);
      WalkInside(g, w[1..]);
      forall i | 0 <= i < |w| ensures w[i] in g { if i > 0 { assert w[i] == w[1..][i - 1]; } }
    }
  }

  /** The chain from a tallest node is a longest one. */
  lemma TallestIsLongest(g: Graph, x: string)
    requires Closed(g) && Acyclic(g) && Tallest(g, x)
    ensures LongestChain(g, Greedy(g, x))
  {
    GreedyIsLongest(g, x);
    forall w | Walk(g, w) && w[0] in g ensures |w| <= |Greedy(g, x)| { WalkBound(g, w); }
  }

  lemma {:induction false} LongestIsOptimal(g: Graph, chain: seq<string>)
    requires Closed(g) && "" !in chain && LongestChain(g, chain)
    ensures OptimalPath(g, Reversed(UntilEmptyId(chain))) && |UntilEmptyId(chain)| == |chain|
  {
    WalkInside(g, chain);
    NoEmptyId(chain);
    var path := Reversed(chain);
    forall i | 0 <= i < |path| - 1 ensures path[i] in Succ(g, path[i + 1]) {
      assert chain[(|chain| - 2 - i) + 1] in Succ(g, chain[|chain| - 2 - i]);
    }
  }

  lemma TallestIsCritical(g: Graph, x: string)
    requires Closed(g) && Acyclic(g) && Tallest(g, x)
    ensures IsCriticalPath(g, PathFrom(g, x), Height(g, x) - 1)
  {
    if "" !in g {
      TallestIsLongest(g, x);
      GreedyIsLongest(g, x);
      WalkInside(g, Greedy(g, x));
      LongestIsOptimal(g, Greedy(g, x));
    }
  }

  method FindCriticalPath(g: Graph) returns (path: seq<string>, length: int)
    requires Closed(g) && Acyclic(g)
    ensures IsCriticalPath(g, path, length)
  {
    if g == map[] { return [], 0; }
    var search := new LongestPaths(g);
    search.VisitAll();
    var maxLength, endNode := FindEnd(g, search.longestPath);
    path := Descend(g, search.longestPath, endNode);
    path := Reverse(path);
    TallestIsCritical(g, endNode);
    return path, maxLength - 1;
  }

  /** GetCriticalPath, on the graphs on which its recursion ends: the length is that of
      a longest chain, and the path is such a chain, dependees first, cut where a node
      is named "". */
  method GetCriticalPath(graph: DependencyGraph) returns (path: seq<string>, length: int)
    requires Closed(Dependees(graph.Lists())) && Acyclic(Dependees(graph.Lists()))
    ensures IsCriticalPath(Dependees(graph.Lists()), path, length)
  {
    var g := graph.DependeeLists();
    path, length := FindCriticalPath(g);
  }

  /** Whichever end node the map order picks, its path is optimal exactly when the node
      named "" is not on that node's greedy chain. */
  lemma PathFromOptimalIff(g: Graph, x: string)
    requires Closed(g) && Acyclic(g) && Tallest(g, x)
    ensures OptimalPath(g, PathFrom(g, x)) <==> "" !in Greedy(g, x)
  {
    var chain := Greedy(g, x);
    TallestIsLongest(g, x);
    GreedyIsLongest(g, x);
    NoEmptyId(chain);
    UntilEmptyIdShort(chain);
    if "" !in chain { LongestIsOptimal(g, chain); }
  }

  /** `""` is on no chain of greatest length. */
  ghost predicate EmptyIdOffLongest(g: Graph) {
    forall chain :: LongestChain(g, chain) ==> "" !in chain
  }

  /** Every chain of greatest length, cut and turned round, is optimal exactly when none contains "". */
  lemma PathOptimalIff(g: Graph)
    requires Closed(g) && Acyclic(g)
    ensures (forall chain :: LongestChain(g, chain) ==> OptimalPath(g, Reversed(UntilEmptyId(chain))))
            <==> EmptyIdOffLongest(g)
    ensures EmptyIdOffLongest(g) ==> forall x :: Tallest(g, x) ==> OptimalPath(g, PathFrom(g, x))
  {
    forall chain | LongestChain(g, chain)
      ensures OptimalPath(g, Reversed(UntilEmptyId(chain))) <==> "" !in chain
    {
      NoEmptyId(chain);
      UntilEmptyIdShort(chain);
      if "" !in chain { LongestIsOptimal(g, chain); }
    }
    forall x | Tallest(g, x) ensures LongestChain(g, Greedy(g, x)) { TallestIsLongest(g, x); }
  }

  lemma {:induction false} UntilEmptyIdShort(w: seq<string>)
    ensures |UntilEmptyId(w)| <= |w|
    ensures |UntilEmptyId(w)| == |w| ==> UntilEmptyId(w) == w
  {
    if w != [] {
      UntilEmptyIdShort(w[1..]);
      assert w == [w[0]] + w[1..];
    }
  }
}
