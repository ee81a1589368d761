/** gdl/compiler.go: conjunctive conditions and the goals built from them. */
module GdlCompiler {
  import opened Values
  import opened Programs
  import opened GoalModel
  import opened StateTrackers

  /** One comparison of a condition block. */
  datatype Atom = Atom(path: Path, op: string, target: string)

  /** compareValues, of which only determinism matters here. */
  type Comparison = (TypedValue, string, string) -> bool

  predicate Passes(a: Atom, v: Option<TypedValue>, cmp: Comparison) {
    v.Some? && cmp(v.value, a.op, a.target)
  }

  predicate AllPass(conds: seq<Atom>, d: Data, cmp: Comparison) {
    forall i :: 0 <= i < |conds| ==> Passes(conds[i], Lookup(d, conds[i].path), cmp)
  }

  /** The paths evaluateConditions looks at: up to the first atom that fails. */
  function Scanned(conds: seq<Atom>, d: Data, cmp: Comparison): set<Path> {
    if conds == [] then {}
    else {conds[0].path} +
         if Passes(conds[0], Lookup(d, conds[0].path), cmp) then Scanned(conds[1..], d, cmp) else {}
  }

  function AllPaths(conds: seq<Atom>): set<Path> { set i | 0 <= i < |conds| :: conds[i].path }

  /** evaluateConditions as a closure over State.Get. */
  function ConjStep(conds: seq<Atom>, cmp: Comparison, h: History): Step {
    if 0 < |h| <= |conds| && !Passes(conds[|h| - 1], h[|h| - 1], cmp) then Return(false)
    else if |h| < |conds| then Get(conds[|h|].path)
    else Return(true)
  }

  function Conj(conds: seq<Atom>, cmp: Comparison): History -> Step {
    h => ConjStep(conds, cmp, h)
  }

  lemma {:induction false} ConjRuns(conds: seq<Atom>, cmp: Comparison, d: Data, h: History)
    requires |h| <= |conds| && (|h| > 0 ==> Passes(conds[|h| - 1], h[|h| - 1], cmp))
    ensures var r := Run(Conj(conds, cmp), h, d, |conds| - |h|);
            && r.Some? && r.value.ok == AllPass(conds[|h|..], d, cmp)
            && r.value.paths == Scanned(conds[|h|..], d, cmp)
    decreases |conds| - |h|
  {
    var p := Conj(conds, cmp);
    if |h| < |conds| {
      var v := Lookup(d, conds[|h|].path);
      var rest := conds[|h|..];
      assert rest[0] == conds[|h|] && rest[1..] == conds[|h| + 1..];
      assert p(h) == Get(conds[|h|].path);
      if Passes(conds[|h|], v, cmp) {
        ConjRuns(conds, cmp, d, h + [v]);
        assert AllPass(rest, d, cmp) <==> AllPass(rest[1..], d, cmp) by {
          if AllPass(rest[1..], d, cmp) {
            forall i | 0 <= i < |rest| ensures Passes(rest[i], Lookup(d, rest[i].path), cmp) {
              if i > 0 { assert rest[i] == rest[1..][i - 1]; }
            }
          }
        }
      } else {
        assert p(h + [v]) == Return(false);
        assert !Passes(rest[0], Lookup(d, rest[0].path), cmp);
      }
    }
  }

  function Gdl(conds: seq<Atom>, cmp: Comparison): Condition {
    GdlHalts(conds, cmp);
    Conj(conds, cmp)
  }

  lemma GdlHalts(conds: seq<Atom>, cmp: Comparison)
    ensures forall d :: Halts(Conj(conds, cmp), d)
  {
    forall d ensures Halts(Conj(conds, cmp), d) { ConjRuns(conds, cmp, d, []); }
  }

  /** A compiled condition holds exactly when every path carries a value that compares as asked. */
  lemma GdlMeaning(conds: seq<Atom>, cmp: Comparison, d: Data)
    ensures Holds(Gdl(conds, cmp), d) <==>
            forall i :: 0 <= i < |conds| ==>
              conds[i].path in d && cmp(d[conds[i].path], conds[i].op, conds[i].target)
    ensures Holds(Gdl(conds, cmp), d) == AllPass(conds, d, cmp)
    ensures Reads(Gdl(conds, cmp), d) == Scanned(conds, d, cmp)
  {
    GdlRuns(conds, cmp, d);
  }

  lemma GdlRuns(conds: seq<Atom>, cmp: Comparison, d: Data)
    ensures Holds(Gdl(conds, cmp), d) == AllPass(conds, d, cmp)
    ensures Reads(Gdl(conds, cmp), d) == Scanned(conds, d, cmp)
  {
    ConjRuns(conds, cmp, d, []);
    assert conds[0..] == conds;
    ExecIs(Gdl(conds, cmp), d, |conds|);
  }

  /** The first `k` comparisons find a value, and it compares as asked. */
  predicate PassUntil(conds: seq<Atom>, k: nat, d: Data, cmp: Comparison) {
    forall i :: 0 <= i < k && i < |conds| ==>
      conds[i].path in d && cmp(d[conds[i].path], conds[i].op, conds[i].target)
  }

  /** It reads exactly the paths up to the first comparison whose path is absent or whose value fails. */
  lemma {:induction false} ScannedIff(conds: seq<Atom>, cmp: Comparison, d: Data, p: Path)
    ensures p in Scanned(conds, d, cmp) <==>
            exists k :: 0 <= k < |conds| && conds[k].path == p && PassUntil(conds, k, d, cmp)
  {
    if conds != [] {
      ScannedIff(conds[1..], cmp, d, p);
      if exists k :: 0 <= k < |conds[1..]| && conds[1..][k].path == p && PassUntil(conds[1..], k, d, cmp) {
        var k :| 0 <= k < |conds[1..]| && conds[1..][k].path == p && PassUntil(conds[1..], k, d, cmp);
        PassUntilTail(conds, k + 1, d, cmp);
        assert conds[k + 1].path == p;
        if Passes(conds[0], Lookup(d, conds[0].path), cmp) { assert PassUntil(conds, k + 1, d, cmp); }
      }
      if exists k :: 0 <= k < |conds| && conds[k].path == p && PassUntil(conds, k, d, cmp) {
        var k :| 0 <= k < |conds| && conds[k].path == p && PassUntil(conds, k, d, cmp);
        if k > 0 {
          PassUntilTail(conds, k, d, cmp);
          assert conds[1..][k - 1].path == p;
        }
      }
      assert conds[0].path == p ==> PassUntil(conds, 0, d, cmp);
    }
  }

  lemma PassUntilTail(conds: seq<Atom>, k: nat, d: Data, cmp: Comparison)
    requires 0 < k < |conds|
    ensures PassUntil(conds, k, d, cmp) <==>
            Passes(conds[0], Lookup(d, conds[0].path), cmp) && PassUntil(conds[1..], k - 1, d, cmp)
  {
    if Passes(conds[0], Lookup(d, conds[0].path), cmp) && PassUntil(conds[1..], k - 1, d, cmp) {
      forall i | 0 <= i < k && i < |conds|
        ensures conds[i].path in d && cmp(d[conds[i].path], conds[i].op, conds[i].target)
      {
        if i > 0 { assert conds[i] == conds[1..][i - 1]; }
      }
    }
    if PassUntil(conds, k, d, cmp) {
      forall i | 0 <= i < k - 1 && i < |conds[1..]|
        ensures conds[1..][i].path in d && cmp(d[conds[1..][i].path], conds[1..][i].op, conds[1..][i].target)
      {
        assert conds[1..][i] == conds[i + 1];
      }
    }
  }

  /** The read set of a compiled condition in the same terms. */
  lemma GdlReadsIff(conds: seq<Atom>, cmp: Comparison, d: Data, p: Path)
    ensures p in Reads(Gdl(conds, cmp), d) <==>
            exists k :: 0 <= k < |conds| && conds[k].path == p && PassUntil(conds, k, d, cmp)
  {
    GdlMeaning(conds, cmp, d);
    ScannedIff(conds, cmp, d, p);
  }

  lemma {:induction false} ScannedAll(conds: seq<Atom>, cmp: Comparison, d: Data)
    requires AllPass(conds, d, cmp)
    ensures Scanned(conds, d, cmp) == AllPaths(conds)
  {
    if conds != [] {
      forall i | 0 <= i < |conds[1..]| ensures Passes(conds[1..][i], Lookup(d, conds[1..][i].path), cmp) {
        assert Passes(conds[i + 1], Lookup(d, conds[i + 1].path), cmp);
      }
      ScannedAll(conds[1..], cmp, d);
      forall p | p in AllPaths(conds) ensures p in {conds[0].path} + AllPaths(conds[1..]) {
        var i :| 0 <= i < |conds| && conds[i].path == p;
        if i > 0 { assert conds[1..][i - 1].path == p; }
      }
      forall p | p in AllPaths(conds[1..]) ensures p in AllPaths(conds) {
        var i :| 0 <= i < |conds[1..]| && conds[1..][i].path == p;
        assert conds[i + 1].path == p;
      }
    }
  }

  /** When it holds, it has read all its paths. */
  lemma GdlReadsAllWhenTrue(conds: seq<Atom>, cmp: Comparison, d: Data)
    requires Holds(Gdl(conds, cmp), d)
    ensures Reads(Gdl(conds, cmp), d) == AllPaths(conds)
  {
    GdlMeaning(conds, cmp, d);
    ScannedAll(conds, cmp, d);
  }

  /** evaluateConditions, run against a tracker: it is the closure `Gdl`. */
  method EvaluateConditions(conds: seq<Atom>, state: StateTracker, cmp: Comparison) returns (ok: bool)
    modifies state
    ensures ok == Holds(Gdl(conds, cmp), state.state)
    ensures state.readPaths == old(state.readPaths) + Reads(Gdl(conds, cmp), state.state)
  {
    GdlRuns(conds, cmp, state.state);
    var i := 0;
    while i < |conds|
      invariant 0 <= i <= |conds|
      invariant AllPass(conds, state.state, cmp) == AllPass(conds[i..], state.state, cmp)
      invariant old(state.readPaths) + Scanned(conds, state.state, cmp)
             == state.readPaths + Scanned(conds[i..], state.state, cmp)
    {
      var cond := conds[i];
      assert conds[i..][0] == cond && conds[i..][1..] == conds[i + 1..];
      AllPassStep(conds[i..], state.state, cmp);
      var val := state.Get(cond.path);
      if val.None? { return false; }
      if !cmp(val.value, cond.op, cond.target) { return false; }
      i := i + 1;
    }
    return true;
  }

  lemma AllPassStep(conds: seq<Atom>, d: Data, cmp: Comparison)
    requires conds != []
    ensures AllPass(conds, d, cmp) <==> Passes(conds[0], Lookup(d, conds[0].path), cmp) && AllPass(conds[1..], d, cmp)
  {
    if Passes(conds[0], Lookup(d, conds[0].path), cmp) && AllPass(conds[1..], d, cmp) {
      forall i | 0 <= i < |conds| ensures Passes(conds[i], Lookup(d, conds[i].path), cmp) {
        if i > 0 { assert conds[i] == conds[1..][i - 1]; }
      }
    }
  }

  // ---------- compileGoal ----------

  datatype SpawnDef = SpawnDef(goal: string, when: Atom)

  datatype GoalDef = GoalDef(
    name: string,
    priority: int,
    conditions: seq<Atom>,
    spawns: seq<SpawnDef>,
    trigger: Option<Path>)

  function CompileSpawn(s: SpawnDef, cmp: Comparison): Goal {
    NO_GOAL.(id := s.goal, priority := 5, state := Pending,
             condition := if s.when.path != "" then Some(Gdl([s.when], cmp)) else None)
  }

  function CompileSpawns(spawns: seq<SpawnDef>, cmp: Comparison): seq<Goal> {
    seq(|spawns|, i requires 0 <= i < |spawns| => CompileSpawn(spawns[i], cmp))
  }

  function CompileGoal(def: GoalDef, cmp: Comparison): Goal {
    NO_GOAL.(id := def.name, priority := def.priority, state := Active,
             condition := if |def.conditions| > 0 then Some(Gdl(def.conditions, cmp)) else None,
             spawn := if |def.spawns| > 0 then Some((_: Data) => CompileSpawns(def.spawns, cmp)) else None,
             trigger := def.trigger)
  }

  /** A compiled goal is satisfied exactly when it has conditions and all of them hold. */
  lemma CompiledSatisfied(def: GoalDef, cmp: Comparison, d: Data)
    ensures Satisfied(CompileGoal(def, cmp), d) <==>
            && def.conditions != []
            && forall i :: 0 <= i < |def.conditions| ==>
                 && def.conditions[i].path in d
                 && cmp(d[def.conditions[i].path], def.conditions[i].op, def.conditions[i].target)
    ensures var g := CompileGoal(def, cmp);
            g.id == def.name && g.priority == def.priority && g.state == Active && g.trigger == def.trigger
    ensures CompileGoal(def, cmp).spawn.None? <==> def.spawns == []
  {
    GdlMeaning(def.conditions, cmp, d);
  }

  /** It spawns one pending goal of priority 5 per rule, in order, under the rule's name. The child's
      condition is the rule's comparison, and a rule without a path makes a child that never completes. */
  lemma CompiledChildren(def: GoalDef, cmp: Comparison, d: Data, e: Data)
    requires def.spawns != []
    ensures CompileGoal(def, cmp).spawn.Some?
    ensures var children := CompileGoal(def, cmp).spawn.value(d);
            && |children| == |def.spawns|
            && forall i :: 0 <= i < |children| ==>
                 var rule := def.spawns[i];
                 && children[i].id == rule.goal && children[i].priority == 5 && children[i].state == Pending
                 && children[i].trigger.None? && children[i].spawn.None?
                 && (Satisfied(children[i], e) <==>
                      && rule.when.path != "" && rule.when.path in e
                      && cmp(e[rule.when.path], rule.when.op, rule.when.target))
  {
    forall i | 0 <= i < |def.spawns|
      ensures Satisfied(CompileSpawn(def.spawns[i], cmp), e) <==>
              var when := def.spawns[i].when;
              when.path != "" && when.path in e && cmp(e[when.path], when.op, when.target)
    {
      var when := def.spawns[i].when;
      GdlMeaning([when], cmp, e);
      assert [when][0] == when;
    }
  }
}
