/** The promises of the whole kernel over runs of submitted goals, submitted
    events and ticks. */
module KernelHealing {
  import opened Values
  import opened Events
  import P = Programs
  import opened Sorting
  import opened GoalModel
  import opened GoalIndex
  import opened SelfHealing
  import opened GdlCompiler
  import opened KernelModel
  import S = StateModel

  /** What a run must respect: events declare what they write, new goals get new ids,
      and the listing and the map order are ones the code can produce. */
  ghost predicate Allowed(r: Runtime, s: RunStep) {
    match s
    case EventStep(e, now, walNow, io, order) =>
      S.Refusal(r.state, e).None? ==>
        var d := S.ApplyEvent(r.state, e).data;
        && WritesDeclared(r.state.data, e.writePaths, d)
        && Enumerates(order, r.engine.goals.Keys)
        && FreshCompensations(
             StartTriggered(r.engine, e.writePaths, order), d, AffectedIn(r.engine, e.writePaths, order))
    case TickStep(listing, now) =>
      && IsSortOf(listing, Named(r.engine, r.engine.active), GoalLe)
      && FreshSpawns(r.engine, r.state.data, listing, now)
    case _ => true
  }

  ghost predicate AllowedRun(r: Runtime, steps: seq<RunStep>) {
    forall k :: 0 <= k < |steps| ==> Allowed(Run(r, steps[..k]), steps[k])
  }

  lemma AllowedPrefix(r: Runtime, steps: seq<RunStep>)
    requires AllowedRun(r, steps) && steps != []
    ensures AllowedRun(r, steps[..|steps| - 1])
    ensures Allowed(Run(r, steps[..|steps| - 1]), steps[|steps| - 1])
  {
    var n := |steps| - 1;
    forall k | 0 <= k < n ensures Allowed(Run(r, steps[..n][..k]), steps[..n][k]) { PrefixOfPrefix(steps, k, n); }
  }

  // ---------- self-healing ----------

  ghost predicate Sound(r: Runtime) {
    Indexed(r.engine) && Healed(r.engine, r.state.data)
  }

  lemma AddHealed(e: Engine, d: Data, g: Goal, now: int)
    requires Healed(e, d)
    ensures Healed(AddGoal(e, g, now), d)
  {
    var r := AddGoal(e, g, now);
    forall id | id in r.goals ensures HealedAt(r, d, id) {
      if id in e.goals { assert HealedAt(e, d, id); }
    }
  }

  lemma EventSound(r: Runtime, s: RunStep)
    requires Sound(r) && s.EventStep? && Allowed(r, s)
    ensures Sound(Take(r, s))
  {
    if S.Refusal(r.state, s.event).None? {
      var d := S.ApplyEvent(r.state, s.event).data;
      S.ApplyKeepsKeys(r.state, s.event);
      HandleIndexed(r.engine, d, s.event.writePaths, s.order);
      HandleHealed(r.engine, r.state.data, d, s.event.writePaths, s.order);
    }
  }

  lemma StepSound(r: Runtime, s: RunStep)
    requires Sound(r) && Allowed(r, s)
    ensures Sound(Take(r, s))
  {
    match s
    case EventStep(_, _, _, _, _) => EventSound(r, s);
    case GoalStep(g, now) =>
      AddIndexed(r.engine, g, now);
      AddHealed(r.engine, r.state.data, g, now);
    case TickStep(listing, now) =>
      ListedIsCurrent(r.engine, listing);
      ProcessAllKeeps(r.engine, r.state.data, listing, now);
    case _ =>
  }

  lemma {:induction false} RunSound(persistent: bool, steps: seq<RunStep>)
    requires AllowedRun(New(persistent), steps)
    ensures Sound(Run(New(persistent), steps))
  {
    if steps == [] {
      assert forall id :: IndexedAt(GoalModel.EMPTY, id);
    } else {
      AllowedPrefix(New(persistent), steps);
      RunSound(persistent, steps[..|steps| - 1]);
      StepSound(Run(New(persistent), steps[..|steps| - 1]), steps[|steps| - 1]);
    }
  }

  /** Self-healing: in every reachable state each complete GDL goal has a true condition,
      and its recorded dependencies are all the paths of that condition. */
  lemma {:induction false} CompleteGoalsHold(
      persistent: bool, steps: seq<RunStep>, id: string, conds: seq<Atom>, cmp: Comparison)
    requires AllowedRun(New(persistent), steps)
    requires var e := Run(New(persistent), steps).engine;
             InState(e, id, Complete) && e.goals[id].condition == Some(Gdl(conds, cmp))
    ensures var d := Run(New(persistent), steps).state.data;
            forall i :: 0 <= i < |conds| ==> conds[i].path in d && cmp(d[conds[i].path], conds[i].op, conds[i].target)
    ensures DepsOf(Run(New(persistent), steps).engine, id) == AllPaths(conds)
  {
    var r := Run(New(persistent), steps);
    RunSound(persistent, steps);
    assert HealedAt(r.engine, r.state.data, id);
    GdlStable(conds, cmp);
    GdlMeaning(conds, cmp, r.state.data);
    var d :| P.Holds(Gdl(conds, cmp), d) && DepsOf(r.engine, id) == P.Reads(Gdl(conds, cmp), d);
    GdlReadsAllWhenTrue(conds, cmp, d);
  }

  // ---------- after a rewind ----------

  /** No event from position `from` of the log on declares a path of `paths`. */
  ghost predicate UndeclaredSince(events: seq<Event>, from: nat, paths: set<Path>) {
    forall i, p :: from <= i < |events| && p in events[i].writePaths ==> p !in paths
  }

  lemma StepUndeclared(r: Runtime, s: RunStep, paths: set<Path>)
    requires Allowed(r, s) && UndeclaredSince(Take(r, s).log.events, |r.log.events|, paths)
    ensures AgreeOn(paths, r.state.data, Take(r, s).state.data)
  {
    if Logs(r, s) && S.Refusal(r.state, s.event).None? {
      var t := Take(r, s);
      assert t.log.events[|r.log.events|].writePaths == s.event.writePaths;
      forall p | p in paths ensures Lookup(r.state.data, p) == Lookup(t.state.data, p) {
        assert p !in s.event.writePaths;
      }
    } else {
      assert Take(r, s).state.data == r.state.data;
    }
  }

  /** The data agree on paths that no event logged in between declares. */
  lemma {:induction false} RunUndeclared(persistent: bool, steps: seq<RunStep>, j: nat, paths: set<Path>)
    requires AllowedRun(New(persistent), steps) && j <= |steps|
    requires UndeclaredSince(
               Run(New(persistent), steps).log.events, |Run(New(persistent), steps[..j]).log.events|, paths)
    ensures AgreeOn(paths, Run(New(persistent), steps[..j]).state.data, Run(New(persistent), steps).state.data)
  {
    if j == |steps| {
      assert steps[..j] == steps;
    } else {
      var n := |steps| - 1;
      var from := |Run(New(persistent), steps[..j]).log.events|;
      AllowedPrefix(New(persistent), steps);
      PrefixOfPrefix(steps, j, n);
      LogGrows(New(persistent), steps, n);
      LogGrows(New(persistent), steps[..n], j);
      var u, r := Run(New(persistent), steps[..n]).log.events, Run(New(persistent), steps).log.events;
      assert u <= r && from <= |u|;
      assert forall i :: 0 <= i < |u| ==> u[i] == r[i];
      RunUndeclared(persistent, steps[..n], j, paths);
      StepUndeclared(Run(New(persistent), steps[..n]), steps[n], paths);
    }
  }

  /** Rewinding does not recheck goals. After Rewind(t) a complete GDL goal is still true
      when no event stamped after `t` declares a path that is recorded for it. */
  lemma {:induction false} RewoundGoalsHold(
      persistent: bool, steps: seq<RunStep>, t: int, j: nat, id: string, conds: seq<Atom>, cmp: Comparison)
    requires AllowedRun(New(persistent), steps) && ReplayableRun(New(persistent), steps) && t != 0 && j <= |steps|
    requires SeenBy(Run(New(persistent), steps).log.events, t, Run(New(persistent), steps[..j]).log.events)
    requires var e := Run(New(persistent), steps).engine;
             InState(e, id, Complete) && e.goals[id].condition == Some(Gdl(conds, cmp))
    requires forall event, p ::
               (event in Run(New(persistent), steps).log.events && event.timestamp > t && p in event.writePaths)
               ==> p !in DepsOf(Run(New(persistent), steps).engine, id)
    ensures var r := Rewind(Run(New(persistent), steps), t);
            && InState(r.engine, id, Complete)
            && forall i :: 0 <= i < |conds| ==>
                 conds[i].path in r.state.data && cmp(r.state.data[conds[i].path], conds[i].op, conds[i].target)
  {
    var r, deps := Run(New(persistent), steps), DepsOf(Run(New(persistent), steps).engine, id);
    var d := Run(New(persistent), steps[..j]).state.data;
    RewindRestores(persistent, steps, t, j);
    LogGrows(New(persistent), steps, j);
    assert UndeclaredSince(r.log.events, |Run(New(persistent), steps[..j]).log.events|, deps);
    RunUndeclared(persistent, steps, j, deps);
    CompleteGoalsHold(persistent, steps, id, conds, cmp);
    GdlMeaning(conds, cmp, r.state.data);
    GdlReadsAllWhenTrue(conds, cmp, r.state.data);
    P.TrackingSound(Gdl(conds, cmp), r.state.data, d);
    GdlMeaning(conds, cmp, d);
  }

  // ---------- spawned goals ----------

  /** A pending goal without a trigger path whose dependencies were never recorded. */
  ghost predicate Idle(e: Engine, id: string) {
    InState(e, id, Pending) && e.goals[id].trigger.None? && DepsOf(e, id) == {}
  }

  lemma CompensateOneIdle(e: Engine, d: Data, x: string, id: string)
    requires FreshCompensation(e, d, x) && Idle(e, id) && x != id
    ensures Idle(CompensateOne(e, d, x), id)
  {
  }

  lemma {:induction false} CompensateAllIdle(e: Engine, d: Data, ids: seq<string>, id: string)
    requires FreshCompensations(e, d, ids) && Idle(e, id) && id !in ids
    ensures Idle(CompensateAll(e, d, ids), id)
  {
    if ids != [] {
      var n := |ids| - 1;
      FreshPrefix(e, d, ids);
      assert ids[n] in ids && id !in ids[..n];
      CompensateAllIdle(e, d, ids[..n], id);
      CompensateOneIdle(CompensateAll(e, d, ids[..n]), d, ids[n], id);
    }
  }

  lemma EventIdle(r: Runtime, s: RunStep, id: string)
    requires Indexed(r.engine) && s.EventStep? && Allowed(r, s) && Idle(r.engine, id)
    ensures Idle(Take(r, s).engine, id)
  {
    if S.Refusal(r.state, s.event).None? {
      var w := s.event.writePaths;
      var u := StartTriggered(r.engine, w, s.order);
      StartedFacts(r.engine, w, s.order, id);
      assert !Triggered(r.engine, w, id);
      CompensateAllIdle(u, S.ApplyEvent(r.state, s.event).data, AffectedIn(r.engine, w, s.order), id);
    }
  }

  lemma {:induction false} TickIdle(e: Engine, d: Data, listing: seq<Goal>, now: int, id: string)
    requires FreshSpawns(e, d, listing, now) && Idle(e, id) && !IsChild(listing, id)
    ensures Idle(ProcessAll(e, d, listing, now), id)
  {
    if listing != [] {
      var n := |listing| - 1;
      assert forall k :: 0 <= k < n ==> listing[..n][..k] == listing[..k];
      assert listing[n].id != id && !IsChild(listing[..n], id);
      TickIdle(e, d, listing[..n], now, id);
      ProcessKeepsOthers(ProcessAll(e, d, listing[..n], now), d, listing[n], now, id);
    }
  }

  /** Nothing in the kernel's own steps starts an idle goal: what CompileGoal spawns
      has no trigger path, so it waits until somebody calls ActivateGoal. */
  lemma {:induction false} IdleForever(r: Runtime, steps: seq<RunStep>, id: string)
    requires Sound(r) && AllowedRun(r, steps) && Idle(r.engine, id)
    ensures Sound(Run(r, steps)) && Idle(Run(r, steps).engine, id)
  {
    if steps != [] {
      var n := |steps| - 1;
      AllowedPrefix(r, steps);
      IdleForever(r, steps[..n], id);
      var u := Run(r, steps[..n]);
      StepSound(u, steps[n]);
      match steps[n]
      case EventStep(_, _, _, _, _) => EventIdle(u, steps[n], id);
      case TickStep(listing, now) =>
        ListedIsCurrent(u.engine, listing);
        TickIdle(u.engine, u.state.data, listing, now, id);
      case _ =>
    }
  }

  /** A child that a compiled goal spawns under a new id is idle. */
  lemma SpawnedIsIdle(e: Engine, d: Data, def: GoalDef, cmp: Comparison, i: nat)
    requires i < |def.spawns| && def.spawns[i].goal !in e.goals && def.spawns[i].goal !in e.deps
    ensures Idle(SpawnChildren(e, CompileGoal(def, cmp), d), def.spawns[i].goal)
  {
    var g := CompileGoal(def, cmp);
    var children := g.spawn.value(d);
    assert children[i].id == def.spawns[i].goal;
    SpawnKeeps(e, children, g.id);
    SpawnChild(e, children, g.id, def.spawns[i].goal);
    SpawnedUntriggered(e, children, g.id, def.spawns[i].goal);
  }

  lemma {:induction false} SpawnedUntriggered(e: Engine, children: seq<Goal>, parent: string, id: string)
    requires forall k :: 0 <= k < |children| ==> children[k].trigger.None?
    ensures IsChild(children, id) ==>
              id in SpawnAll(e, children, parent).goals && SpawnAll(e, children, parent).goals[id].trigger.None?
  {
    if children != [] {
      var n := |children| - 1;
      SpawnedUntriggered(e, children[..n], parent, id);
      if IsChild(children, id) && children[n].id != id {
        var k :| 0 <= k < |children| && children[k].id == id;
        assert children[..n][k].id == id;
      }
    }
  }
}
