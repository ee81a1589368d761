/** runtime/planner.go: plans for missing paths. */
module RuntimePlanner {
  import opened Values
  import opened Sorting
  import opened Strings
  import opened Digraph
  import PlannerCycles

  datatype Action = Action(id: string, typ: string, path: Path, timeout: int, retries: int, idempotency: string)

  const SECOND := 1_000_000_000

  const NO_ACTION := Action("", "", "", 0, 0, "")

  const SUFFIX := "_action"

  /** What createActionForPath builds for a chosen action type. */
  function ActionFor(typ: string, path: Path): Action {
    Action(path + SUFFIX, typ, path, 30 * SECOND, 3, path)
  }

  lemma IdsDiffer(p: Path, q: Path)
    ensures p + SUFFIX == q + SUFFIX ==> p == q
    ensures p + SUFFIX != ""
  {
    if p + SUFFIX == q + SUFFIX {
      assert p == (p + SUFFIX)[..|p + SUFFIX| - |SUFFIX|];
      assert q == (q + SUFFIX)[..|q + SUFFIX| - |SUFFIX|];
    }
  }

  /** The action type every plan uses: the first registered one in string order. */
  ghost predicate IsFirstType(resolvers: set<string>, typ: string) {
    typ in resolvers && forall t :: t in resolvers ==> StrLe(typ, t)
  }

  /** The paths a plan acts on: the missing ones and their direct dependencies. */
  function Targets(g: Graph, missing: seq<Path>): set<Path> {
    (set p | p in missing) + (set p, d | p in missing && d in Succ(g, p) :: d)
  }

  function ActionLe(a: Action, b: Action): bool { StrLe(a.id, b.id) }

  /** One action per target, in strictly ascending order of ids; none without a registered type. */
  ghost predicate IsPlan(plan: seq<Action>, resolvers: set<string>, targets: set<Path>) {
    && (resolvers == {} ==> plan == [])
    && (resolvers != {} ==>
         && Sorted(plan, ActionLe)
         && (forall i, j :: 0 <= i < j < |plan| ==> plan[i].id != plan[j].id)
         && exists typ :: IsFirstType(resolvers, typ) && Covers(plan, typ, targets))
  }

  ghost predicate Covers(plan: seq<Action>, typ: string, targets: set<Path>) {
    && (forall a :: a in plan ==> a.path in targets && a == ActionFor(typ, a.path))
    && (forall p :: p in targets ==> ActionFor(typ, p) in plan)
  }

  lemma {:induction false} FirstType(resolvers: set<string>) returns (typ: string)
    requires resolvers != {}
    ensures IsFirstType(resolvers, typ)
    decreases |resolvers|
  {
    var t :| t in resolvers;
    StrLeTotal(t, t);
    if resolvers == {t} { return t; }
    typ := FirstType(resolvers - {t});
    StrLeTotal(t, typ);
    if StrLe(t, typ) {
      forall u | u in resolvers ensures StrLe(t, u) {
        if u != t { StrLeTransitive(t, typ, u); }
      }
      typ := t;
    }
  }

  /** Two plans over the same type and targets have the same actions. */
  lemma SameActions(p: seq<Action>, q: seq<Action>, typ: string, targets: set<Path>)
    requires Covers(p, typ, targets) && Covers(q, typ, targets) && NoDuplicates(p) && NoDuplicates(q)
    ensures multiset(p) == multiset(q)
  {
    forall a ensures multiset(p)[a] == multiset(q)[a] {
      CountOne(p, a);
      CountOne(q, a);
      if a in p { assert ActionFor(typ, a.path) in q; }
      if a in q { assert ActionFor(typ, a.path) in p; }
    }
  }

  lemma CoveredTies(p: seq<Action>, typ: string, targets: set<Path>)
    requires Covers(p, typ, targets)
    ensures TiesAreEqual(ActionLe, p)
  {
    forall a, b | a in p && b in p && ActionLe(a, b) && ActionLe(b, a) ensures a == b {
      StrLeAntisymmetric(a.id, b.id);
      IdsDiffer(a.path, b.path);
    }
  }

  /** The plan depends on nothing but the registered types and the set of targets. */
  lemma PlanUnique(p: seq<Action>, q: seq<Action>, resolvers: set<string>, targets: set<Path>)
    requires IsPlan(p, resolvers, targets) && IsPlan(q, resolvers, targets)
    ensures p == q
  {
    if resolvers != {} {
      var t :| IsFirstType(resolvers, t) && Covers(p, t, targets);
      var u :| IsFirstType(resolvers, u) && Covers(q, u, targets);
      StrLeAntisymmetric(t, u);
      SameActions(p, q, t, targets);
      CoveredTies(p, t, targets);
      SortUnique(p, q, ActionLe);
    }
  }

  /** Order and repetition of the missing paths do not matter. */
  lemma PlanIgnoresOrder(p: seq<Action>, q: seq<Action>, resolvers: set<string>, g: Graph, m: seq<Path>, n: seq<Path>)
    requires forall x :: x in m <==> x in n
    requires IsPlan(p, resolvers, Targets(g, m)) && IsPlan(q, resolvers, Targets(g, n))
    ensures p == q
  {
    assert Targets(g, m) == Targets(g, n);
    PlanUnique(p, q, resolvers, Targets(g, m));
  }

  lemma TargetsIff(g: Graph, missing: seq<Path>, p: Path)
    ensures p in Targets(g, missing) <==> p in missing || exists m :: m in missing && m in g && p in g[m]
  {
    assert forall m :: m in missing && p in Succ(g, m) ==> m in g && p in g[m];
    forall m | m in missing && m in g && p in g[m] ensures p in Targets(g, missing) { assert p in Succ(g, m); }
  }

  /** What a plan says: for each missing path and each direct dependency of one there is one action,
      of the first registered type, with 30 seconds, three retries and the path as its key; ids ascend. */
  lemma PlanContents(plan: seq<Action>, resolvers: set<string>, g: Graph, missing: seq<Path>, p: Path)
    requires IsPlan(plan, resolvers, Targets(g, missing)) && resolvers != {}
    ensures (exists a :: a in plan && a.path == p) <==>
            p in missing || exists m :: m in missing && m in g && p in g[m]
    ensures forall i, j :: 0 <= i < j < |plan| ==>
              plan[i].path != plan[j].path && plan[i].id != plan[j].id && StrLe(plan[i].id, plan[j].id)
    ensures forall a :: a in plan ==>
              && a == Action(a.path + "_action", a.typ, a.path, 30_000_000_000, 3, a.path)
              && a.typ in resolvers && forall t :: t in resolvers ==> StrLe(a.typ, t)
  {
    var typ :| IsFirstType(resolvers, typ) && Covers(plan, typ, Targets(g, missing));
    TargetsIff(g, missing, p);
    if p in Targets(g, missing) { assert ActionFor(typ, p) in plan; }
    forall i, j | 0 <= i < j < |plan|
      ensures plan[i].path != plan[j].path && StrLe(plan[i].id, plan[j].id)
    {
      assert ActionLe(plan[i], plan[j]);
      assert plan[i] == ActionFor(typ, plan[i].path) && plan[j] == ActionFor(typ, plan[j].path);
    }
  }

  lemma ActionLeOrders(s: seq<Action>)
    ensures Orders(ActionLe, s)
  {
    forall a, b | a in s && b in s ensures ActionLe(a, b) || ActionLe(b, a) { StrLeTotal(a.id, b.id); }
    forall a, b, c | a in s && b in s && c in s && ActionLe(a, b) && ActionLe(b, c) ensures ActionLe(a, c) {
      StrLeTransitive(a.id, b.id, c.id);
    }
  }

  /** A queue under construction: one action for each path in `paths`, in order. */
  ghost predicate Queue(queue: seq<Action>, resolvers: set<string>, typ: string, paths: seq<Path>) {
    && NoDuplicates(paths)
    && if resolvers == {} then queue == [] else
         && IsFirstType(resolvers, typ) && |queue| == |paths|
         && forall i :: 0 <= i < |queue| ==> queue[i] == ActionFor(typ, paths[i])
  }

  lemma QueueSorts(
      queue: seq<Action>, typ: string, paths: seq<Path>,
      plan: seq<Action>, resolvers: set<string>, targets: set<Path>)
    requires Queue(queue, resolvers, typ, paths) && Enumerates(paths, targets)
    requires IsSortOf(plan, queue, ActionLe)
    ensures IsPlan(plan, resolvers, targets)
  {
    SameElements(plan, queue);
    SameElements(queue, plan);
    if resolvers != {} {
      assert Covers(plan, typ, targets);
      assert NoDuplicates(queue) by {
        forall i, j | 0 <= i < j < |queue| ensures queue[i] != queue[j] { IdsDiffer(paths[i], paths[j]); }
      }
      forall i, j | 0 <= i < j < |plan| ensures plan[i].id != plan[j].id {
        if plan[i].id == plan[j].id {
          IdsDiffer(plan[i].path, plan[j].path);
          TwiceCounts(plan, i, j);
          CountOne(queue, plan[i]);
        }
      }
    }
  }

  class Planner {
    var resolvers: set<string>      // the registered action types
    var dependencyGraph: Graph
    var clock: nat
    var actionSeq: nat

    constructor ()
      ensures resolvers == {} && dependencyGraph == map[] && clock == 0 && actionSeq == 0
    {
      resolvers, dependencyGraph, clock, actionSeq := {}, map[], 0, 0;
    }

    method RegisterAction(actionType: string)
      modifies this
      ensures resolvers == old(resolvers) + {actionType} && dependencyGraph == old(dependencyGraph)
      ensures clock == old(clock) && actionSeq == old(actionSeq)
    {
      resolvers := resolvers + {actionType};
    }

    method RegisterDependency(actionType: string, dependsOn: seq<string>)
      modifies this
      ensures dependencyGraph == old(dependencyGraph)[actionType := dependsOn] && resolvers == old(resolvers)
      ensures clock == old(clock) && actionSeq == old(actionSeq)
    {
      dependencyGraph := dependencyGraph[actionType := dependsOn];
    }

    method Validate() returns (ok: bool)
      ensures ok <==> !PlannerCycles.CycleReachable(dependencyGraph, resolvers)
    {
      var cyclic := PlannerCycles.HasCyclicDependency(resolvers, dependencyGraph);
      return !cyclic;
    }

    method CreateActionForPath(path: Path) returns (action: Action)
      ensures resolvers == {} ==> action == NO_ACTION
      ensures forall typ :: IsFirstType(resolvers, typ) ==> action == ActionFor(typ, path)
    {
      var keys := Listed(resolvers);
      ghost var listed := keys;
      keys := SortStrings(keys);
      SameElements(keys, listed);
      SameElements(listed, keys);
      if |keys| == 0 { return NO_ACTION; }
      FirstIsLeast(keys);
      forall typ | IsFirstType(resolvers, typ) ensures typ == keys[0] { StrLeAntisymmetric(typ, keys[0]); }
      return ActionFor(keys[0], path);
    }

    method ComputeActionSequence(missingPaths: seq<Path>, ghost typ: string)
      returns (queue: seq<Action>, ghost paths: seq<Path>)
      requires resolvers != {} ==> IsFirstType(resolvers, typ)
      ensures Queue(queue, resolvers, typ, paths) && Enumerates(paths, Targets(dependencyGraph, missingPaths))
    {
      queue, paths := QueueDependencies(missingPaths, typ);
      ghost var deps := set p | p in paths;
      var i := 0;
      while i < |missingPaths|
        invariant 0 <= i <= |missingPaths|
        invariant Queue(queue, resolvers, typ, paths)
        invariant (set p | p in paths) == deps + set p | p in missingPaths[..i]
      {
        var path := missingPaths[i];
        assert missingPaths[..i + 1] == missingPaths[..i] + [path];
        queue, paths := AddMissing(queue, path, typ, paths);
        i := i + 1;
      }
      assert missingPaths[..i] == missingPaths;
      assert (set p | p in paths) == Targets(dependencyGraph, missingPaths);
    }

    /** The first loop: the direct dependencies of every missing path, each once. */
    method QueueDependencies(missingPaths: seq<Path>, ghost typ: string)
      returns (queue: seq<Action>, ghost paths: seq<Path>)
      requires resolvers != {} ==> IsFirstType(resolvers, typ)
      ensures Queue(queue, resolvers, typ, paths)
      ensures (set p | p in paths) == set p, d | p in missingPaths && d in Succ(dependencyGraph, p) :: d
    {
      queue, paths := [], [];
      var visited: set<string> := {};
      var visitedPaths: set<Path> := {};
      var i := 0;
      while i < |missingPaths|
        invariant 0 <= i <= |missingPaths|
        invariant Queue(queue, resolvers, typ, paths) && visited == set p | p in paths
        invariant visitedPaths == set p | p in missingPaths[..i]
        invariant visited == set p, d | p in visitedPaths && d in Succ(dependencyGraph, p) :: d
      {
        var path := missingPaths[i];
        assert missingPaths[..i + 1] == missingPaths[..i] + [path];
        if path !in visitedPaths {
          visitedPaths := visitedPaths + {path};
          queue, visited, paths := AddDependencies(queue, visited, path, typ, paths);
        }
        i := i + 1;
      }
      assert missingPaths[..i] == missingPaths;
      assert visitedPaths == set p | p in missingPaths;
      assert visited == set p, d | p in missingPaths && d in Succ(dependencyGraph, p) :: d;
    }

    method AddDependencies(
        queue0: seq<Action>, visited0: set<string>, path: Path, ghost typ: string, ghost paths0: seq<Path>)
      returns (queue: seq<Action>, visited: set<string>, ghost paths: seq<Path>)
      requires Queue(queue0, resolvers, typ, paths0) && visited0 == set p | p in paths0
      ensures Queue(queue, resolvers, typ, paths) && visited == set p | p in paths
      ensures visited == visited0 + set d | d in Succ(dependencyGraph, path)
    {
      queue, visited, paths := queue0, visited0, paths0;
      var dependencies := if path in dependencyGraph then dependencyGraph[path] else [];
      var i := 0;
      while i < |dependencies|
        invariant 0 <= i <= |dependencies|
        invariant Queue(queue, resolvers, typ, paths) && visited == set p | p in paths
        invariant visited == visited0 + set d | d in dependencies[..i]
      {
        var dep := dependencies[i];
        assert dependencies[..i + 1] == dependencies[..i] + [dep];
        if dep !in visited {
          visited := visited + {dep};
          var action := CreateActionForPath(dep);
          IdsDiffer(dep, dep);
          if action.id != "" { queue := queue + [action]; }
          paths := paths + [dep];
        }
        i := i + 1;
      }
      assert dependencies[..i] == dependencies;
    }

    method AddMissing(queue0: seq<Action>, path: Path, ghost typ: string, ghost paths0: seq<Path>)
      returns (queue: seq<Action>, ghost paths: seq<Path>)
      requires Queue(queue0, resolvers, typ, paths0)
      ensures Queue(queue, resolvers, typ, paths)
      ensures (set p | p in paths) == (set p | p in paths0) + {path}
    {
      queue, paths := queue0, paths0;
      var action := CreateActionForPath(path);
      IdsDiffer(path, path);
      if action.id != "" {
        var found := false;
        var i := 0;
        while i < |queue| && !found
          invariant 0 <= i <= |queue|
          invariant found ==> path in paths
          invariant !found ==> path !in paths[..i]
        {
          IdsDiffer(paths[i], path);
          if queue[i].id == action.id { found := true; }
          i := i + 1;
        }
        if !found {
          assert paths[..i] == paths;
          queue, paths := queue + [action], paths + [path];
        }
      } else if path !in paths {
        paths := paths + [path];
      }
    }

    method BuildActionPlan(missingPaths: seq<Path>) returns (actions: seq<Action>)
      ensures IsPlan(actions, resolvers, Targets(dependencyGraph, missingPaths))
    {
      ghost var typ := "";
      if resolvers != {} { typ := FirstType(resolvers); }
      ghost var paths;
      var queue;
      queue, paths := ComputeActionSequence(missingPaths, typ);
      ActionLeOrders(queue);
      actions := SortSlice(queue, ActionLe);
      QueueSorts(queue, typ, paths, actions, resolvers, Targets(dependencyGraph, missingPaths));
    }

    /** Resolve: an empty request costs no sequence number. */
    method Resolve(missingPaths: seq<Path>) returns (actions: seq<Action>, logicalSeq: nat)
      modifies this
      ensures resolvers == old(resolvers) && dependencyGraph == old(dependencyGraph)
      ensures missingPaths == [] ==> actions == [] && actionSeq == old(actionSeq) && clock == old(clock)
      ensures missingPaths != [] ==>
                && IsPlan(actions, resolvers, Targets(dependencyGraph, missingPaths))
                && actionSeq == old(actionSeq) + 1 && clock == old(clock) + 1
      ensures logicalSeq == actionSeq
    {
      if |missingPaths| == 0 { return [], actionSeq; }
      actionSeq := actionSeq + 1;
      clock := clock + 1;
      actions := BuildActionPlan(missingPaths);
      return actions, actionSeq;
    }
  }

  lemma FirstIsLeast(keys: seq<string>)
    requires keys != [] && Sorted(keys, StrLe)
    ensures forall t :: t in keys ==> StrLe(keys[0], t)
  {
    StrLeTotal(keys[0], keys[0]);
  }

  /** The keys of a map, in whatever order. */
  method Listed(s: set<string>) returns (keys: seq<string>)
    ensures Enumerates(keys, s)
  {
    keys := [];
    var rest := s;
    while rest != {}
      invariant rest <= s && Enumerates(keys, s - rest)
    {
      var k :| k in rest;
      keys, rest := keys + [k], rest - {k};
    }
  }
}
