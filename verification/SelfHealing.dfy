/** A completed goal is rechecked only when an event writes a path its condition
    once read (goal_engine.go:288-370). When is that enough? */
module SelfHealing {
  import opened Values
  import opened Programs
  import opened Sorting
  import opened GoalModel
  import opened GoalIndex
  import opened GdlCompiler

  // ---------- one condition ----------

  /** From `d` on, a change outside `deps` cannot make the condition false. */
  ghost predicate Determined(c: Condition, deps: set<Path>, d: Data) {
    forall d1: Data, d2: Data :: d.Keys <= d1.Keys <= d2.Keys && AgreeOn(deps, d1, d2) && Holds(c, d1) ==> Holds(c, d2)
  }

  ghost predicate Guarded(c: Condition, deps: set<Path>, d: Data) {
    Holds(c, d) && Determined(c, deps, d)
  }

  /** Whenever the condition holds, the paths it read then determine it. */
  ghost predicate Stable(c: Condition) {
    forall d :: Holds(c, d) ==> Determined(c, Reads(c, d), d)
  }

  /** One accepted event, seen from the state: what it declares and what it leaves. */
  datatype Change = Change(written: seq<Path>, data: Data)

  ghost predicate WritesDeclared(d: Data, written: seq<Path>, d': Data) {
    forall p :: p !in written ==> Lookup(d, p) == Lookup(d', p)
  }

  /** Events never remove keys, and these write only what they declare. */
  ghost predicate Declares(d: Data, written: seq<Path>, d': Data) {
    d.Keys <= d'.Keys && WritesDeclared(d, written, d')
  }

  ghost predicate DeclaredRun(d: Data, changes: seq<Change>) {
    changes != [] ==>
      DeclaredRun(d, changes[..|changes| - 1])
      && Declares(After(d, changes[..|changes| - 1]), changes[|changes| - 1].written, changes[|changes| - 1].data)
  }

  ghost function After(d: Data, changes: seq<Change>): Data {
    if changes == [] then d else changes[|changes| - 1].data
  }

  /** A complete goal stays complete while every event that touches its recorded paths finds it satisfied. */
  ghost predicate StaysComplete(c: Condition, deps: set<Path>, changes: seq<Change>) {
    forall i :: 0 <= i < |changes| && Touches(deps, changes[i].written) ==> Holds(c, changes[i].data)
  }

  ghost predicate SelfHeals(c: Condition, deps: set<Path>, d: Data) {
    forall changes :: DeclaredRun(d, changes) && StaysComplete(c, deps, changes) ==> Holds(c, After(d, changes))
  }

  lemma UntouchedAgree(deps: set<Path>, d: Data, written: seq<Path>, d': Data)
    requires Declares(d, written, d') && !Touches(deps, written)
    ensures AgreeOn(deps, d, d')
  {
    forall p | p in deps ensures Lookup(d, p) == Lookup(d', p) {
      if p in written { }
    }
  }

  lemma {:induction false} DeterminedHeals(c: Condition, deps: set<Path>, d: Data, changes: seq<Change>)
    requires Guarded(c, deps, d) && DeclaredRun(d, changes) && StaysComplete(c, deps, changes)
    ensures Holds(c, After(d, changes)) && d.Keys <= After(d, changes).Keys
  {
    if changes != [] {
      var n := |changes| - 1;
      DeterminedHeals(c, deps, d, changes[..n]);
      if !Touches(deps, changes[n].written) {
        UntouchedAgree(deps, After(d, changes[..n]), changes[n].written, changes[n].data);
      }
    }
  }

  lemma {:induction false} Listing(s: set<Path>) returns (r: seq<Path>)
    ensures forall p :: p in r <==> p in s
  {
    if s == {} { return []; }
    var p :| p in s;
    r := Listing(s - {p});
    r := [p] + r;
  }

  /** Rechecking on the recorded paths heals every run exactly when those paths determine the condition. */
  lemma SelfHealsIff(c: Condition, deps: set<Path>, d: Data)
    requires Holds(c, d)
    ensures SelfHeals(c, deps, d) <==> Determined(c, deps, d)
  {
    if Determined(c, deps, d) {
      forall changes | DeclaredRun(d, changes) && StaysComplete(c, deps, changes)
        ensures Holds(c, After(d, changes))
      {
        DeterminedHeals(c, deps, d, changes);
      }
    }
    if SelfHeals(c, deps, d) {
      forall d1: Data, d2: Data | d.Keys <= d1.Keys <= d2.Keys && AgreeOn(deps, d1, d2) && Holds(c, d1)
        ensures Holds(c, d2)
      {
        HealsBeyond(c, deps, d, d1, d2);
      }
    }
  }

  /** Two events reach any such pair: one that is rechecked and passes, one that is not rechecked. */
  lemma HealsBeyond(c: Condition, deps: set<Path>, d: Data, d1: Data, d2: Data)
    requires SelfHeals(c, deps, d)
    requires d.Keys <= d1.Keys <= d2.Keys && AgreeOn(deps, d1, d2) && Holds(c, d1)
    ensures Holds(c, d2)
  {
    var all := Listing(d1.Keys);
    var changed := Listing(set p | p in d2.Keys && Lookup(d1, p) != Lookup(d2, p));
    var first, second := Change(all, d1), Change(changed, d2);
    var run := [first, second];
    assert run[..1] == [first] && [first][..0] == [];
    assert DeclaredRun(d, []);
    assert DeclaredRun(d, [first]) by { assert After(d, [first][..0]) == d; }
    assert DeclaredRun(d, run) by { assert After(d, run[..1]) == d1; }
    forall i | 0 <= i < |changed| ensures changed[i] !in deps { assert changed[i] in changed; }
    assert StaysComplete(c, deps, run);
    assert After(d, run) == d2;
  }

  /** A compiled GDL condition is stable: when true it has read all its paths. */
  lemma GdlStable(conds: seq<Atom>, cmp: Comparison)
    ensures Stable(Gdl(conds, cmp))
  {
    var c := Gdl(conds, cmp);
    forall d | Holds(c, d) ensures Determined(c, Reads(c, d), d) {
      GdlReadsAllWhenTrue(conds, cmp, d);
      forall d1: Data, d2: Data | d.Keys <= d1.Keys <= d2.Keys && AgreeOn(Reads(c, d), d1, d2) && Holds(c, d1)
        ensures Holds(c, d2)
      {
        GdlReadsAllWhenTrue(conds, cmp, d1);
        TrackingSound(c, d1, d2);
      }
    }
  }

  /** A condition that looks up which path to check: it holds when that path carries "ok". */
  function Indirect(h: History): Step {
    if |h| == 0 then Get("selector")
    else if h[0].None? then Return(false)
    else if |h| == 1 then Get(h[0].value.repr)
    else Return(h[1].Some? && h[1].value.repr == "ok")
  }

  lemma IndirectRuns(d: Data)
    ensures var r := Run(Indirect, [], d, 2);
            && r.Some?
            && (Lookup(d, "selector").Some? ==>
                  var p := d["selector"].repr;
                  && r.value.ok == (Lookup(d, p).Some? && d[p].repr == "ok")
                  && r.value.paths == {"selector", p})
  {
    var h1 := [Lookup(d, "selector")];
    assert [] + h1 == h1;
    if h1[0].Some? {
      var p := h1[0].value.repr;
      var h2 := h1 + [Lookup(d, p)];
      assert Run(Indirect, h2, d, 0).Some?;
      assert {p} + {} == {p};
      assert Run(Indirect, h1, d, 1) == Some(Outcome(Lookup(d, p).Some? && d[p].repr == "ok", d, {p}));
    } else {
      assert Run(Indirect, h1, d, 1) == Some(Outcome(false, d, {}));
    }
  }

  lemma IndirectIsCondition()
    ensures (forall d :: Halts(Indirect, d)) && ReadOnly(Indirect)
  {
    forall d ensures Halts(Indirect, d) { IndirectRuns(d); }
  }

  function IndirectCondition(): Condition {
    IndirectIsCondition();
    Indirect
  }

  lemma IndirectMeaning(d: Data)
    requires "selector" in d
    ensures Holds(IndirectCondition(), d) ==
            (var p := d["selector"].repr; p in d && d[p].repr == "ok")
    ensures Reads(IndirectCondition(), d) == {"selector", d["selector"].repr}
  {
    IndirectRuns(d);
    ExecIs(IndirectCondition(), d, 2);
  }

  /** Selector on `p` first, then moved to `q`, then `q` spoiled: the second move goes unseen. */
  lemma IndirectUnseen(d: Data, d1: Data, d2: Data, p: Path, q: Path)
    requires "selector" in d && d["selector"].repr == p && p in d && d[p].repr == "ok"
    requires d.Keys <= d1.Keys && d1["selector"].repr == q && q in d1 && d1[q].repr == "ok"
    requires q != p && q != "selector" && d2.Keys == d1.Keys && d2[q].repr != "ok"
    requires forall x :: x in d1 && x != q ==> d2[x] == d1[x]
    ensures !Determined(IndirectCondition(), Reads(IndirectCondition(), d), d)
  {
    IndirectMeaning(d);
    IndirectMeaning(d1);
    IndirectMeaning(d2);
    assert AgreeOn(Reads(IndirectCondition(), d), d1, d2);
  }

  /** It is not stable, so by SelfHealsIff a goal with it can stay complete while false. */
  lemma IndirectNotStable()
    ensures !Stable(IndirectCondition())
  {
    var ok, no := TypedValue("s", "ok"), TypedValue("s", "no");
    var d: Data := map["selector" := TypedValue("s", "x"), "x" := ok, "y" := ok];
    var d1: Data := d["selector" := TypedValue("s", "y")];
    IndirectMeaning(d);
    IndirectUnseen(d, d1, d1["y" := no], "x", "y");
  }

  // ---------- the engine ----------

  /** The paths were recorded by an evaluation that succeeded. */
  ghost predicate RecordedWhenTrue(c: Condition, deps: set<Path>) {
    exists d :: Holds(c, d) && deps == Reads(c, d)
  }

  /** A complete goal with a stable condition is satisfied, and its recorded paths guard it. */
  ghost predicate HealedAt(e: Engine, d: Data, id: string) {
    InState(e, id, Complete) && e.goals[id].condition.Some? && Stable(e.goals[id].condition.value) ==>
      && Guarded(e.goals[id].condition.value, DepsOf(e, id), d)
      && RecordedWhenTrue(e.goals[id].condition.value, DepsOf(e, id))
  }

  ghost predicate Healed(e: Engine, d: Data) {
    forall id :: id in e.goals ==> HealedAt(e, d, id)
  }

  lemma {:induction false} CompensateAllComplete(e: Engine, d: Data, ids: seq<string>, id: string)
    requires InState(CompensateAll(e, d, ids), id, Complete)
    ensures id in e.goals && CompensateAll(e, d, ids).goals[id] == e.goals[id]
    ensures id in ids ==> Satisfied(e.goals[id], d)
  {
    if ids != [] {
      var n := |ids| - 1;
      assert ids == ids[..n] + [ids[n]];
      CompensateAllComplete(e, d, ids[..n], id);
    }
  }

  lemma {:induction false} CompensateAllDeps(e: Engine, d: Data, ids: seq<string>)
    ensures CompensateAll(e, d, ids).deps == e.deps
  {
    if ids != [] { CompensateAllDeps(e, d, ids[..|ids| - 1]); }
  }

  /** HandleEvent leaves a goal complete only if it was, unchanged, and was rechecked where needed. */
  lemma HandleComplete(e: Engine, d: Data, written: seq<Path>, order: seq<string>, id: string)
    requires Indexed(e) && Enumerates(order, e.goals.Keys)
    requires InState(HandleEvent(e, d, written, order), id, Complete)
    ensures InState(e, id, Complete) && HandleEvent(e, d, written, order).goals[id] == e.goals[id]
    ensures HandleEvent(e, d, written, order).deps == e.deps
    ensures Touches(DepsOf(e, id), written) ==> Satisfied(e.goals[id], d)
  {
    var u := StartTriggered(e, written, order);
    var c := AffectedIn(e, written, order);
    StartedFacts(e, written, order, id);
    CompensateAllComplete(u, d, c, id);
    CompensateAllDeps(u, d, c);
    if Affected(e, written, id) { assert id in c; }
  }

  lemma HandleHealed(e: Engine, d: Data, d': Data, written: seq<Path>, order: seq<string>)
    requires Indexed(e) && Healed(e, d) && Enumerates(order, e.goals.Keys)
    requires Declares(d, written, d')
    ensures Healed(HandleEvent(e, d', written, order), d')
  {
    var r := HandleEvent(e, d', written, order);
    forall id | id in r.goals ensures HealedAt(r, d', id) {
      if InState(r, id, Complete) {
        HandleComplete(e, d', written, order, id);
        assert HealedAt(e, d, id);
        if !Touches(DepsOf(e, id), written) { UntouchedAgree(DepsOf(e, id), d, written, d'); }
      }
    }
  }

  // ---------- ticks ----------

  /** The children a goal spawns now have new, distinct ids. */
  ghost predicate FreshSpawn(e: Engine, d: Data, g: Goal, now: int) {
    !Expired(g, now) && Satisfied(g, d) && g.spawn.Some? ==>
      && SpawnsFree(e, g.spawn.value(d))
      && forall i :: 0 <= i < |g.spawn.value(d)| ==> g.spawn.value(d)[i].id !in e.goals
  }

  ghost predicate FreshSpawns(e: Engine, d: Data, listing: seq<Goal>, now: int) {
    forall k :: 0 <= k < |listing| ==> FreshSpawn(ProcessAll(e, d, listing[..k], now), d, listing[k], now)
  }

  /** The listed copies are the engine's active goals, each once. */
  ghost predicate Current(e: Engine, listing: seq<Goal>) {
    && (forall i :: 0 <= i < |listing| ==> InState(e, listing[i].id, Active) && e.goals[listing[i].id] == listing[i])
    && (forall i, j :: 0 <= i < j < |listing| ==> listing[i].id != listing[j].id)
  }

  lemma ProcessKeepsOthers(e: Engine, d: Data, g: Goal, now: int, id: string)
    requires FreshSpawn(e, d, g, now) && id != g.id && id in e.goals
    ensures id in ProcessGoal(e, d, g, now).goals
    ensures ProcessGoal(e, d, g, now).goals[id] == e.goals[id]
    ensures DepsOf(ProcessGoal(e, d, g, now), id) == DepsOf(e, id)
  {
    if !Expired(g, now) && Satisfied(g, d) && g.spawn.Some? {
      var u := Finish(Evaluate(e, g, d), g.id, Complete);
      SpawnKeeps(u, g.spawn.value(d), g.id);
      SpawnOther(u, g.spawn.value(d), g.id, id);
    }
  }

  lemma ProcessNew(e: Engine, d: Data, g: Goal, now: int, id: string)
    requires id !in e.goals && id in ProcessGoal(e, d, g, now).goals
    ensures InState(ProcessGoal(e, d, g, now), id, Pending)
  {
    var u := Finish(Evaluate(e, g, d), g.id, Complete);
    FinishGoals(e, g.id, Failed);
    FinishGoals(Evaluate(e, g, d), g.id, Complete);
    if !Expired(g, now) && Satisfied(g, d) && g.spawn.Some? { SpawnedNew(u, g.spawn.value(d), g.id, id); }
  }

  lemma FinishGoals(e: Engine, x: string, s: GoalState)
    ensures Finish(e, x, s).goals.Keys == e.goals.Keys
  {
  }

  lemma SpawnedNew(e: Engine, children: seq<Goal>, parent: string, id: string)
    requires id !in e.goals && id in SpawnAll(e, children, parent).goals
    ensures InState(SpawnAll(e, children, parent), id, Pending)
  {
    if IsChild(children, id) { SpawnChild(e, children, parent, id); } else { SpawnOther(e, children, parent, id); }
  }

  /** Processing an active goal completes it only with the paths it just read recorded. */
  lemma ProcessSelf(e: Engine, d: Data, g: Goal, now: int)
    requires InState(e, g.id, Active) && e.goals[g.id] == g && FreshSpawn(e, d, g, now)
    ensures HealedAt(ProcessGoal(e, d, g, now), d, g.id)
  {
    if !Expired(g, now) && Satisfied(g, d) {
      var u := Finish(Evaluate(e, g, d), g.id, Complete);
      if g.spawn.Some? {
        SpawnKeeps(u, g.spawn.value(d), g.id);
        SpawnOther(u, g.spawn.value(d), g.id, g.id);
      }
      assert DepsOf(ProcessGoal(e, d, g, now), g.id) == Reads(g.condition.value, d);
    }
  }

  lemma ProcessHealed(e: Engine, d: Data, g: Goal, now: int)
    requires Healed(e, d) && InState(e, g.id, Active) && e.goals[g.id] == g && FreshSpawn(e, d, g, now)
    ensures Healed(ProcessGoal(e, d, g, now), d)
  {
    var r := ProcessGoal(e, d, g, now);
    forall id | id in r.goals ensures HealedAt(r, d, id) {
      if id == g.id { ProcessSelf(e, d, g, now); }
      else if id in e.goals { ProcessKeepsOthers(e, d, g, now, id); assert HealedAt(e, d, id); }
      else { ProcessNew(e, d, g, now, id); }
    }
  }

  lemma ProcessIndexed(e: Engine, d: Data, g: Goal, now: int)
    requires Indexed(e) && FreshSpawn(e, d, g, now)
    ensures Indexed(ProcessGoal(e, d, g, now))
  {
    if Expired(g, now) {
      FinishIndexed(e, g.id, Failed);
    } else {
      EvaluateIndexed(e, g, d);
      if Satisfied(g, d) {
        var u := Finish(Evaluate(e, g, d), g.id, Complete);
        FinishIndexed(Evaluate(e, g, d), g.id, Complete);
        if g.spawn.Some? {
          SpawnIndexed(u, g.spawn.value(d), g.id);
          ClockIndexed(SpawnAll(u, g.spawn.value(d), g.id), u.clock + 1);
        }
      }
    }
  }

  lemma ProcessKeepsListed(u: Engine, e: Engine, d: Data, listing: seq<Goal>, g: Goal, now: int)
    requires FreshSpawn(u, d, g, now) && listing != [] && listing[|listing| - 1] == g
    requires forall id :: id in e.goals && !IsChild(listing[..|listing| - 1], id) ==>
               id in u.goals && u.goals[id] == e.goals[id]
    ensures forall id :: id in e.goals && !IsChild(listing, id) ==>
              id in ProcessGoal(u, d, g, now).goals && ProcessGoal(u, d, g, now).goals[id] == e.goals[id]
  {
    var n := |listing| - 1;
    forall id | id in e.goals && !IsChild(listing, id)
      ensures id in ProcessGoal(u, d, g, now).goals && ProcessGoal(u, d, g, now).goals[id] == e.goals[id]
    {
      assert listing[n].id != id;
      assert !IsChild(listing[..n], id);
      ProcessKeepsOthers(u, d, g, now, id);
    }
  }

  lemma ListingPrefix(e: Engine, d: Data, listing: seq<Goal>, now: int)
    requires Current(e, listing) && FreshSpawns(e, d, listing, now) && listing != []
    ensures Current(e, listing[..|listing| - 1]) && FreshSpawns(e, d, listing[..|listing| - 1], now)
    ensures FreshSpawn(ProcessAll(e, d, listing[..|listing| - 1], now), d, listing[|listing| - 1], now)
    ensures !IsChild(listing[..|listing| - 1], listing[|listing| - 1].id)
  {
    var n := |listing| - 1;
    assert forall k :: 0 <= k < n ==> listing[..n][..k] == listing[..k];
  }

  lemma {:induction false} ProcessAllKeeps(e: Engine, d: Data, listing: seq<Goal>, now: int)
    requires Indexed(e) && Current(e, listing) && FreshSpawns(e, d, listing, now)
    ensures Indexed(ProcessAll(e, d, listing, now))
    ensures Healed(e, d) ==> Healed(ProcessAll(e, d, listing, now), d)
    ensures forall id :: id in e.goals && !IsChild(listing, id) ==>
              id in ProcessAll(e, d, listing, now).goals && ProcessAll(e, d, listing, now).goals[id] == e.goals[id]
  {
    if listing != [] {
      var n := |listing| - 1;
      ListingPrefix(e, d, listing, now);
      ProcessAllKeeps(e, d, listing[..n], now);
      var u := ProcessAll(e, d, listing[..n], now);
      var g := listing[n];
      if Healed(e, d) { ProcessHealed(u, d, g, now); }
      ProcessIndexed(u, d, g, now);
      ProcessKeepsListed(u, e, d, listing, g, now);
    }
  }

  /** What ListActiveGoals returns is current. */
  lemma ListedIsCurrent(e: Engine, listing: seq<Goal>)
    requires Indexed(e)
    requires IsSortOf(listing, Named(e, e.active), GoalLe)
    ensures Current(e, listing)
    ensures forall id :: InState(e, id, Active) ==> IsChild(listing, id)
  {
    ActiveExactly(e);
    var named := Named(e, e.active);
    SameElements(listing, named);
    SameElements(named, listing);
    forall i | 0 <= i < |listing| ensures InState(e, listing[i].id, Active) && e.goals[listing[i].id] == listing[i] {
      assert listing[i] in named;
      var k :| 0 <= k < |named| && named[k] == listing[i];
      assert e.active[k] in e.active;
    }
    assert NoDuplicates(named) by {
      forall i, j | 0 <= i < j < |named| ensures named[i] != named[j] {
        assert e.goals[e.active[i]].id == e.active[i] && e.goals[e.active[j]].id == e.active[j];
      }
    }
    forall x | x in listing ensures multiset(listing)[x] <= 1 { CountOne(named, x); }
    OnceEach(listing);
    forall id | InState(e, id, Active) ensures IsChild(listing, id) {
      assert id in e.active;
      var k :| 0 <= k < |e.active| && e.active[k] == id;
      assert named[k] in listing;
    }
  }
}
