/** What the calls of the goal engine do to the goals, told without the functions that
    define them: which goals a tick fails, completes and keeps, which goals an event
    starts and compensates, and what each small call leaves in map and slices. */
module GoalOutcomes {
  import opened Values
  import opened Programs
  import opened Sorting
  import opened Strings
  import opened GoalModel
  import opened GoalIndex
  import opened SelfHealing

  // ---------- a tick ----------

  /** Processing an active goal changes its state and nothing else about it, and records what its condition read. */
  lemma ProcessOutcome(e: Engine, d: Data, g: Goal, now: int)
    requires InState(e, g.id, Active) && e.goals[g.id] == g && FreshSpawn(e, d, g, now)
    ensures g.id in ProcessGoal(e, d, g, now).goals
    ensures ProcessGoal(e, d, g, now).goals[g.id] ==
            g.(state := if Expired(g, now) then Failed else if Satisfied(g, d) then Complete else Active)
    ensures !Expired(g, now) && g.condition.Some? ==>
              DepsOf(ProcessGoal(e, d, g, now), g.id) == Reads(g.condition.value, d)
  {
    if !Expired(g, now) && Satisfied(g, d) && g.spawn.Some? {
      var u := Finish(Evaluate(e, g, d), g.id, Complete);
      SpawnKeeps(u, g.spawn.value(d), g.id);
      SpawnOther(u, g.spawn.value(d), g.id, g.id);
    }
  }

  /** The goal completes now and names this child. */
  ghost predicate Spawns(g: Goal, d: Data, now: int, child: Goal) {
    !Expired(g, now) && Satisfied(g, d) && g.spawn.Some? && child in g.spawn.value(d)
  }

  /** A child as a tick files it. */
  ghost predicate Filed(e: Engine, parent: string, child: Goal) {
    child.id in e.goals &&
    var g := e.goals[child.id];
    g == child.(parent := Some(parent), clock := g.clock, state := Pending)
  }

  /** Processing a goal files every child it names. */
  lemma ProcessFiles(e: Engine, d: Data, g: Goal, now: int, child: Goal)
    requires FreshSpawn(e, d, g, now) && Spawns(g, d, now, child)
    ensures child.id !in e.goals && Filed(ProcessGoal(e, d, g, now), g.id, child)
  {
    var u, children := Finish(Evaluate(e, g, d), g.id, Complete), g.spawn.value(d);
    var j :| 0 <= j < |children| && children[j] == child;
    SpawnFiles(u, children, g.id, j);
  }

  /** No id is new but theirs. */
  lemma ProcessBrings(e: Engine, d: Data, g: Goal, now: int, x: string)
    requires x in ProcessGoal(e, d, g, now).goals && x !in e.goals
    ensures exists child :: Spawns(g, d, now, child) && child.id == x
  {
    var u := Finish(Evaluate(e, g, d), g.id, Complete);
    var children := if g.spawn.Some? then g.spawn.value(d) else [];
    if !IsChild(children, x) { SpawnOther(u, children, g.id, x); }
    var j :| 0 <= j < |children| && children[j].id == x;
    assert Spawns(g, d, now, children[j]);
  }

  lemma FiledStays(e: Engine, d: Data, g: Goal, now: int, parent: string, child: Goal)
    requires FreshSpawn(e, d, g, now) && child.id != g.id && Filed(e, parent, child)
    ensures Filed(ProcessGoal(e, d, g, now), parent, child)
  {
    ProcessKeepsOthers(e, d, g, now, child.id);
  }

  /** The engine before the turn of the last listed goal: it knows that goal as listed. */
  lemma BeforeLastListed(e: Engine, d: Data, listing: seq<Goal>, now: int)
    requires Indexed(e) && Current(e, listing) && FreshSpawns(e, d, listing, now) && listing != []
    ensures var u, last := ProcessAll(e, d, listing[..|listing| - 1], now), listing[|listing| - 1];
            && InState(u, last.id, Active) && u.goals[last.id] == last && FreshSpawn(u, d, last, now)
    ensures Current(e, listing[..|listing| - 1]) && FreshSpawns(e, d, listing[..|listing| - 1], now)
  {
    ListingPrefix(e, d, listing, now);
    ProcessAllKeeps(e, d, listing[..|listing| - 1], now);
  }

  lemma {:induction false} TickReaches(e: Engine, d: Data, listing: seq<Goal>, now: int, i: nat)
    requires Indexed(e) && Current(e, listing) && FreshSpawns(e, d, listing, now) && i < |listing|
    ensures var g, after := listing[i], ProcessAll(e, d, listing, now).goals;
            && g.id in after
            && after[g.id] ==
               g.(state := if Expired(g, now) then Failed else if Satisfied(g, d) then Complete else Active)
            && (!Expired(g, now) && g.condition.Some? ==>
                 DepsOf(ProcessAll(e, d, listing, now), g.id) == Reads(g.condition.value, d))
  {
    var n := |listing| - 1;
    BeforeLastListed(e, d, listing, now);
    var u := ProcessAll(e, d, listing[..n], now);
    if i == n {
      ProcessOutcome(u, d, listing[n], now);
    } else {
      TickReaches(e, d, listing[..n], now, i);
      ProcessKeepsOthers(u, d, listing[n], now, listing[i].id);
    }
  }

  /** A tick files every child of the goals it completes as pending under its parent. */
  lemma {:induction false} TickFiles(e: Engine, d: Data, listing: seq<Goal>, now: int, g: Goal, child: Goal)
    requires Indexed(e) && Current(e, listing) && FreshSpawns(e, d, listing, now)
    requires g in listing && Spawns(g, d, now, child)
    ensures child.id !in e.goals && Filed(ProcessAll(e, d, listing, now), g.id, child)
  {
    var n := |listing| - 1;
    BeforeLastListed(e, d, listing, now);
    if g in listing[..n] {
      TickFiles(e, d, listing[..n], now, g, child);
      FiledStays(ProcessAll(e, d, listing[..n], now), d, listing[n], now, g.id, child);
    } else {
      TickKeepsIds(e, d, listing[..n], now);
      ProcessFiles(ProcessAll(e, d, listing[..n], now), d, g, now, child);
    }
  }

  lemma TickKeepsIds(e: Engine, d: Data, listing: seq<Goal>, now: int)
    requires Indexed(e) && Current(e, listing) && FreshSpawns(e, d, listing, now)
    ensures e.goals.Keys <= ProcessAll(e, d, listing, now).goals.Keys
  {
    forall id | id in e.goals ensures id in ProcessAll(e, d, listing, now).goals {
      ProcessAllKeeps(e, d, listing, now);
      if IsChild(listing, id) {
        var i :| 0 <= i < |listing| && listing[i].id == id;
        TickReaches(e, d, listing, now, i);
      }
    }
  }

  /** No id is new but those. */
  lemma {:induction false} TickBrings(e: Engine, d: Data, listing: seq<Goal>, now: int, x: string)
    requires Indexed(e) && Current(e, listing) && FreshSpawns(e, d, listing, now)
    requires x in ProcessAll(e, d, listing, now).goals && x !in e.goals
    ensures exists g, child :: g in listing && Spawns(g, d, now, child) && child.id == x
  {
    var n := |listing| - 1;
    var u := ProcessAll(e, d, listing[..n], now);
    BeforeLastListed(e, d, listing, now);
    if x in u.goals {
      TickBrings(e, d, listing[..n], now, x);
      var g, child :| g in listing[..n] && Spawns(g, d, now, child) && child.id == x;
      assert g in listing;
    } else {
      ProcessBrings(u, d, listing[n], now, x);
      var child :| Spawns(listing[n], d, now, child) && child.id == x;
      assert listing[n] in listing;
    }
  }

  /** A tick fails an active goal exactly when its deadline has passed, or the time it was allowed
      since its start, or its timeout; of the others it completes exactly those whose condition holds. */
  lemma TickDecides(e: Engine, d: Data, listing: seq<Goal>, now: int, id: string)
    requires Indexed(e) && FreshSpawns(e, d, listing, now)
    requires IsSortOf(listing, Named(e, e.active), GoalLe) && InState(e, id, Active)
    ensures id in ProcessAll(e, d, listing, now).goals
    ensures var g, after := e.goals[id], ProcessAll(e, d, listing, now).goals[id];
            && (after.state == Failed <==>
                 || (g.deadline != 0 && now > g.deadline)
                 || (g.deadline != 0 && g.startedAt.Some? && g.deadline - g.createdAt > 0
                     && now - g.startedAt.value > g.deadline - g.createdAt)
                 || (g.timeout > 0 && g.startedAt.Some? && now - g.startedAt.value > g.timeout))
            && (after.state != Failed ==>
                 && (after.state == Complete <==> g.condition.Some? && Holds(g.condition.value, d))
                 && (after.state == Active <==> !(g.condition.Some? && Holds(g.condition.value, d))))
            && after == g.(state := after.state)
            && (after.state != Failed && g.condition.Some? ==>
                 DepsOf(ProcessAll(e, d, listing, now), id) == Reads(g.condition.value, d))
  {
    ListedIsCurrent(e, listing);
    var i :| 0 <= i < |listing| && listing[i].id == id;
    TickReaches(e, d, listing, now, i);
  }

  /** A tick leaves every goal that is not active as it is. */
  lemma TickLeaves(e: Engine, d: Data, listing: seq<Goal>, now: int, id: string)
    requires Indexed(e) && FreshSpawns(e, d, listing, now) && IsSortOf(listing, Named(e, e.active), GoalLe)
    requires id in e.goals && e.goals[id].state != Active
    ensures id in ProcessAll(e, d, listing, now).goals && ProcessAll(e, d, listing, now).goals[id] == e.goals[id]
  {
    ListedIsCurrent(e, listing);
    ProcessAllKeeps(e, d, listing, now);
  }

  /** The tick completed the goal, which names this child. */
  ghost predicate CompletedWith(e: Engine, d: Data, after: Engine, id: string, child: Goal) {
    && InState(e, id, Active) && InState(after, id, Complete)
    && e.goals[id].spawn.Some? && child in e.goals[id].spawn.value(d)
  }

  /** A tick files every child of every goal it completes as pending under that goal, listed once. */
  lemma TickSpawns(e: Engine, d: Data, listing: seq<Goal>, now: int, id: string, child: Goal)
    requires Indexed(e) && FreshSpawns(e, d, listing, now) && IsSortOf(listing, Named(e, e.active), GoalLe)
    requires CompletedWith(e, d, ProcessAll(e, d, listing, now), id, child)
    ensures var after := ProcessAll(e, d, listing, now);
            child.id !in e.goals && Filed(after, id, child) && multiset(after.pending)[child.id] == 1
  {
    var after := ProcessAll(e, d, listing, now);
    ListedIsCurrent(e, listing);
    var i :| 0 <= i < |listing| && listing[i].id == id;
    TickReaches(e, d, listing, now, i);
    TickFiles(e, d, listing, now, listing[i], child);
    ProcessAllKeeps(e, d, listing, now);
    assert IndexedAt(after, child.id) && InState(after, child.id, Pending);
  }

  /** It brings in exactly those children. */
  lemma TickBringsExactly(e: Engine, d: Data, listing: seq<Goal>, now: int, x: string)
    requires Indexed(e) && FreshSpawns(e, d, listing, now) && IsSortOf(listing, Named(e, e.active), GoalLe)
    ensures var after := ProcessAll(e, d, listing, now);
            x in after.goals && x !in e.goals <==>
            exists id, child :: CompletedWith(e, d, after, id, child) && child.id == x
  {
    var after := ProcessAll(e, d, listing, now);
    ListedIsCurrent(e, listing);
    if x in after.goals && x !in e.goals {
      TickBrings(e, d, listing, now, x);
      var g, child :| g in listing && Spawns(g, d, now, child) && child.id == x;
      var i :| 0 <= i < |listing| && listing[i] == g;
      TickReaches(e, d, listing, now, i);
      assert CompletedWith(e, d, after, g.id, child);
    }
    if exists id, child :: CompletedWith(e, d, after, id, child) && child.id == x {
      var id, child :| CompletedWith(e, d, after, id, child) && child.id == x;
      TickSpawns(e, d, listing, now, id, child);
    }
  }

  // ---------- an event ----------

  /** The event wrote a path that was recorded for the goal. */
  ghost predicate Touched(e: Engine, written: seq<Path>, id: string) {
    exists i :: 0 <= i < |written| && id in e.deps && written[i] in e.deps[id]
  }

  lemma TouchedIff(e: Engine, written: seq<Path>, id: string)
    ensures Touches(DepsOf(e, id), written) <==> Touched(e, written, id)
  {
  }

  /** A complete goal that the event touched and that is no longer satisfied. */
  ghost predicate Broken(e: Engine, d: Data, written: seq<Path>, id: string) {
    && InState(e, id, Complete) && Touched(e, written, id)
    && !(e.goals[id].condition.Some? && Holds(e.goals[id].condition.value, d))
  }

  /** Its compensation, when it has one with an id. */
  ghost predicate Compensates(e: Engine, d: Data, id: string, c: Goal)
    requires id in e.goals
  {
    e.goals[id].compensate.Some? && e.goals[id].compensate.value(d) == Some(c) && c.id != ""
  }

  lemma CompensateOneFiles(e: Engine, d: Data, id: string)
    requires id in e.goals && FreshCompensation(e, d, id) && !Satisfied(e.goals[id], d)
    ensures var r := CompensateOne(e, d, id);
            && r.clock == e.clock
            && id in r.goals && r.goals[id] == e.goals[id].(state := Compensating)
            && (forall c :: Compensates(e, d, id, c) ==>
                 c.id !in e.goals && c.id in r.goals
                 && r.goals[c.id] == c.(parent := Some(id), clock := e.clock, state := Pending))
            && (forall x :: x in r.goals && x !in e.goals ==> exists c :: Compensates(e, d, id, c) && c.id == x)
  {
    var c := CompensationOf(e.goals[id], d);
    forall x | x in CompensateOne(e, d, id).goals && x !in e.goals
      ensures exists c :: Compensates(e, d, id, c) && c.id == x
    {
      assert Compensates(e, d, id, c.value);
    }
  }

  lemma {:induction false} ClockKept(e: Engine, d: Data, ids: seq<string>)
    ensures CompensateAll(e, d, ids).clock == e.clock
  {
    if ids != [] { ClockKept(e, d, ids[..|ids| - 1]); }
  }

  /** The engine before the turn of the last id: it knows that goal as it was. */
  lemma BeforeLast(e: Engine, d: Data, ids: seq<string>)
    requires Indexed(e) && NoDuplicates(ids) && FreshCompensations(e, d, ids) && ids != []
    requires forall id :: id in ids ==> InState(e, id, Complete)
    ensures var u, last := CompensateAll(e, d, ids[..|ids| - 1]), ids[|ids| - 1];
            && Indexed(u) && e.goals.Keys <= u.goals.Keys && u.clock == e.clock
            && last in e.goals && last in u.goals && u.goals[last] == e.goals[last]
            && InState(u, last, Complete) && FreshCompensation(u, d, last)
    ensures NoDuplicates(ids[..|ids| - 1]) && FreshCompensations(e, d, ids[..|ids| - 1])
    ensures forall id :: id in ids <==> id in ids[..|ids| - 1] || id == ids[|ids| - 1]
  {
    var n := |ids| - 1;
    FreshPrefix(e, d, ids);
    LastOfUnique(ids);
    CompensateAllIndexed(e, d, ids[..n]);
    ClockKept(e, d, ids[..n]);
    assert ids[n] in ids;
  }

  /** Every listed goal that is not satisfied ends Compensating, and its compensation is filed. */
  lemma {:induction false} CompensateAllFiles(e: Engine, d: Data, ids: seq<string>, id: string)
    requires Indexed(e) && NoDuplicates(ids) && FreshCompensations(e, d, ids) && id in ids
    requires forall x :: x in ids ==> InState(e, x, Complete)
    requires id in e.goals && !Satisfied(e.goals[id], d)
    ensures var r := CompensateAll(e, d, ids);
            && id in r.goals && r.goals[id] == e.goals[id].(state := Compensating)
            && (forall c :: Compensates(e, d, id, c) ==>
                 c.id !in e.goals && c.id in r.goals
                 && r.goals[c.id] == c.(parent := Some(id), clock := e.clock, state := Pending))
  {
    var n := |ids| - 1;
    BeforeLast(e, d, ids);
    var u := CompensateAll(e, d, ids[..n]);
    if id == ids[n] {
      CompensateOneFiles(u, d, id);
      assert forall c :: Compensates(e, d, id, c) <==> Compensates(u, d, id, c);
    } else {
      CompensateAllFiles(e, d, ids[..n], id);
      CompensateOneIndexed(u, d, ids[n]);
    }
  }

  /** An id is new exactly when such a goal brings it. */
  lemma {:induction false} CompensateAllNew(e: Engine, d: Data, ids: seq<string>, x: string)
    requires Indexed(e) && NoDuplicates(ids) && FreshCompensations(e, d, ids)
    requires forall id :: id in ids ==> InState(e, id, Complete)
    ensures x in CompensateAll(e, d, ids).goals && x !in e.goals ==>
              exists id, c ::
                id in ids && id in e.goals && !Satisfied(e.goals[id], d) && Compensates(e, d, id, c) && c.id == x
  {
    if ids != [] && x in CompensateAll(e, d, ids).goals && x !in e.goals {
      var n := |ids| - 1;
      BeforeLast(e, d, ids);
      var u := CompensateAll(e, d, ids[..n]);
      CompensateAllNew(e, d, ids[..n], x);
      if x !in u.goals {
        CompensateOneFiles(u, d, ids[n]);
        var c :| Compensates(u, d, ids[n], c) && c.id == x;
        assert Compensates(e, d, ids[n], c);
      }
    }
  }

  /** The goals that HandleEvent rechecks, as the first half leaves them. */
  lemma Rechecked(e: Engine, written: seq<Path>, order: seq<string>)
    requires Indexed(e) && Enumerates(order, e.goals.Keys)
    ensures var u, ids := StartTriggered(e, written, order), AffectedIn(e, written, order);
            && Indexed(u) && u.goals.Keys == e.goals.Keys && u.clock == e.clock && NoDuplicates(ids)
            && (forall id :: id in ids <==> InState(e, id, Complete) && Touched(e, written, id))
            && (forall id :: id in ids ==> InState(u, id, Complete) && u.goals[id] == e.goals[id])
  {
    var u, ids := StartTriggered(e, written, order), AffectedIn(e, written, order);
    StartedFacts(e, written, order, "");
    forall id ensures IndexedAt(u, id) && (id in u.goals ==> u.goals[id].id == id) {
      StartedFacts(e, written, order, id);
    }
    FilterUnique(order, x => Affected(e, written, x));
    forall id ensures id in ids <==> InState(e, id, Complete) && Touched(e, written, id) { TouchedIff(e, written, id); }
    forall id | id in ids ensures InState(u, id, Complete) && u.goals[id] == e.goals[id] {
      StartedFacts(e, written, order, id);
    }
  }

  /** HandleEvent sets every broken goal to Compensating and files its compensation as pending
      under it, listed once, with the engine's clock. */
  lemma EventCompensates(e: Engine, d: Data, written: seq<Path>, order: seq<string>, id: string)
    requires Indexed(e) && Enumerates(order, e.goals.Keys)
    requires FreshCompensations(StartTriggered(e, written, order), d, AffectedIn(e, written, order))
    requires Broken(e, d, written, id)
    ensures var r := HandleEvent(e, d, written, order);
            && id in r.goals && r.goals[id] == e.goals[id].(state := Compensating)
            && (forall c :: Compensates(e, d, id, c) ==>
                 && c.id !in e.goals && c.id in r.goals
                 && r.goals[c.id] == c.(parent := Some(id), clock := e.clock, state := Pending)
                 && multiset(r.pending)[c.id] == 1)
  {
    var u, ids := StartTriggered(e, written, order), AffectedIn(e, written, order);
    var r := HandleEvent(e, d, written, order);
    Rechecked(e, written, order);
    CompensateAllFiles(u, d, ids, id);
    HandleIndexed(e, d, written, order);
    forall c | Compensates(e, d, id, c)
      ensures c.id !in e.goals && c.id in r.goals && multiset(r.pending)[c.id] == 1
      ensures r.goals[c.id] == c.(parent := Some(id), clock := e.clock, state := Pending)
    {
      assert Compensates(u, d, id, c);
      assert IndexedAt(r, c.id) && InState(r, c.id, Pending);
    }
  }

  /** It brings in exactly the compensations of broken goals. */
  lemma EventBrings(e: Engine, d: Data, written: seq<Path>, order: seq<string>, x: string)
    requires Indexed(e) && Enumerates(order, e.goals.Keys)
    requires FreshCompensations(StartTriggered(e, written, order), d, AffectedIn(e, written, order))
    ensures x in HandleEvent(e, d, written, order).goals && x !in e.goals <==>
            exists id, c :: Broken(e, d, written, id) && Compensates(e, d, id, c) && c.id == x
  {
    var u, ids := StartTriggered(e, written, order), AffectedIn(e, written, order);
    Rechecked(e, written, order);
    CompensateAllNew(u, d, ids, x);
    if x in HandleEvent(e, d, written, order).goals && x !in e.goals {
      var id, c :| id in ids && !Satisfied(u.goals[id], d) && Compensates(u, d, id, c) && c.id == x;
      assert Broken(e, d, written, id) && Compensates(e, d, id, c);
    }
    if exists id, c :: Broken(e, d, written, id) && Compensates(e, d, id, c) && c.id == x {
      var id, c :| Broken(e, d, written, id) && Compensates(e, d, id, c) && c.id == x;
      EventCompensates(e, d, written, order, id);
    }
  }

  /** The event starts the goal: its trigger path was written, or, without a trigger path, a recorded one. */
  ghost predicate Starts(e: Engine, written: seq<Path>, id: string) {
    InState(e, id, Pending) &&
    if e.goals[id].trigger.Some? then e.goals[id].trigger.value in written else Touched(e, written, id)
  }

  /** HandleEvent makes exactly those pending goals active and leaves the other goals alone, but for the broken ones. */
  lemma EventStarts(e: Engine, d: Data, written: seq<Path>, order: seq<string>, id: string)
    requires Indexed(e) && Enumerates(order, e.goals.Keys)
    requires FreshCompensations(StartTriggered(e, written, order), d, AffectedIn(e, written, order))
    requires id in e.goals && !Broken(e, d, written, id)
    ensures id in HandleEvent(e, d, written, order).goals
    ensures HandleEvent(e, d, written, order).goals[id] ==
            if Starts(e, written, id) then e.goals[id].(state := Active) else e.goals[id]
  {
    var u, ids := StartTriggered(e, written, order), AffectedIn(e, written, order);
    Rechecked(e, written, order);
    StartedFacts(e, written, order, id);
    TouchedIff(e, written, id);
    if id in ids {
      SatisfiedStays(u, d, ids, id);
    } else {
      CompensateAllIndexed(u, d, ids);
    }
  }

  lemma {:induction false} SatisfiedStays(e: Engine, d: Data, ids: seq<string>, id: string)
    requires Indexed(e) && NoDuplicates(ids) && FreshCompensations(e, d, ids) && id in ids
    requires forall x :: x in ids ==> InState(e, x, Complete)
    requires id in e.goals && Satisfied(e.goals[id], d)
    ensures id in CompensateAll(e, d, ids).goals && CompensateAll(e, d, ids).goals[id] == e.goals[id]
  {
    var n := |ids| - 1;
    BeforeLast(e, d, ids);
    var u := CompensateAll(e, d, ids[..n]);
    if id != ids[n] {
      SatisfiedStays(e, d, ids[..n], id);
      CompensateOneIndexed(u, d, ids[n]);
    }
  }

  lemma {:induction false} UnlistAllActive(e: Engine, ids: seq<string>)
    requires forall id :: id in ids ==> id !in e.active
    ensures UnlistAll(e, ids).active == e.active
  {
    if ids != [] {
      var n := |ids| - 1;
      UnlistAllActive(e, ids[..n]);
      assert ids[n] in ids;
      RemoveFirstAbsent(e.active, ids[n]);
    }
  }

  lemma {:induction false} StartAllActive(e: Engine, ids: seq<string>)
    ensures StartAll(e, ids).active == e.active + ids
  {
    if ids != [] {
      var n := |ids| - 1;
      StartAllActive(e, ids[..n]);
      assert ids == ids[..n] + [ids[n]];
    }
  }

  /** The started goals go to the end of the active slice, in string order, whatever the order of the map. */
  lemma StartedInOrder(e: Engine, written: seq<Path>, order: seq<string>) returns (started: seq<string>)
    requires Indexed(e) && Enumerates(order, e.goals.Keys)
    ensures StartTriggered(e, written, order).active == e.active + started
    ensures forall id :: id in started <==> Starts(e, written, id)
    ensures NoDuplicates(started) && forall i, j :: 0 <= i < j < |started| ==> StrLe(started[i], started[j])
  {
    var t := TriggeredIn(e, written, order);
    started := Sort(t, StrLe);
    StrLeOrders(t);
    SortSorts(t, StrLe);
    SameElements(started, t);
    SameElements(t, started);
    FilterUnique(order, x => Triggered(e, written, x));
    SortUnlisted(t, started);
    forall id ensures id in t <==> Starts(e, written, id) { TouchedIff(e, written, id); }
    ActiveExactly(e);
    UnlistAllActive(e, t);
    StartAllActive(UnlistAll(e, t), started);
  }

  // ---------- the small calls ----------

  /** Nothing else changed: other goals, and what is recorded. */
  ghost predicate OthersKept(e: Engine, r: Engine, id: string) {
    && r.clock == e.clock && r.deps == e.deps && r.goals.Keys - {id} == e.goals.Keys - {id}
    && forall x :: x in e.goals && x != id ==> x in r.goals && r.goals[x] == e.goals[x]
  }

  /** AddGoal accepts exactly a new non-empty id; the goal starts active, now, and is listed last. */
  lemma AddOutcome(e: Engine, g: Goal, now: int)
    ensures AddRefusal(e, g) == None <==> g.id != "" && g.id !in e.goals
    ensures AddRefusal(e, g) == Some(ErrInvalidGoal) <==> g.id == ""
    ensures AddRefusal(e, g).Some? ==> AddGoal(e, g, now) == e
    ensures AddRefusal(e, g).None? ==>
              var r := AddGoal(e, g, now);
              && OthersKept(e, r, g.id) && r.active == e.active + [g.id] && r.pending == e.pending
              && r.goals[g.id] == g.(state := Active, clock := e.clock, startedAt := Some(now))
  {
  }

  /** CompleteGoal and FailGoal, ActivateGoal, CancelGoal and RemoveGoal on a known goal of an indexed engine. */
  lemma MoveOutcomes(e: Engine, id: string, reason: string, now: int)
    requires Indexed(e) && id in e.goals
    ensures var r := Finish(e, id, Complete);
            OthersKept(e, r, id) && r.goals[id] == e.goals[id].(state := Complete) && id !in r.active + r.pending
    ensures var r := Finish(e, id, Failed);
            OthersKept(e, r, id) && r.goals[id] == e.goals[id].(state := Failed) && id !in r.active + r.pending
    ensures var r := CancelGoal(e, id, reason, now);
            && OthersKept(e, r, id) && id !in r.active + r.pending
            && r.goals[id] == e.goals[id].(state := Cancelled, failReason := reason, cancelledAt := Some(now))
    ensures var r := RemoveGoal(e, id);
            OthersKept(e, r, id) && id !in r.goals && id !in r.active + r.pending
    ensures var r := ActivateGoal(e, id);
            && OthersKept(e, r, id) && r.goals[id] == e.goals[id].(state := Active)
            && r.active != [] && r.active[|r.active| - 1] == id && id !in r.active[..|r.active| - 1] + r.pending
  {
    UnlistedGone(e, id);
    var u := Unlist(WithState(e, id, Active), id);
    assert (u.active + [id])[..|u.active|] == u.active;
  }

  lemma UnlistedGone(e: Engine, id: string)
    requires Indexed(e)
    ensures id !in RemoveFirst(e.active, id) && id !in RemoveFirst(e.pending, id)
  {
    assert IndexedAt(e, id);
    RemoveFirstTimes(e.active, id, id);
    RemoveFirstTimes(e.pending, id, id);
    assert id !in multiset(RemoveFirst(e.active, id)) && id !in multiset(RemoveFirst(e.pending, id));
  }

  /** Evaluate replaces the recorded paths of that goal, and of no other, by those the condition read. */
  lemma EvaluateOutcome(e: Engine, g: Goal, d: Data, id: string)
    requires g.condition.Some?
    ensures var r := Evaluate(e, g, d);
            && r.goals == e.goals && r.active == e.active && r.pending == e.pending && r.clock == e.clock
            && g.id in r.deps && r.deps[g.id] == Reads(g.condition.value, d)
            && (id != g.id ==> (id in r.deps <==> id in e.deps) && (id in e.deps ==> r.deps[id] == e.deps[id]))
  {
  }

  lemma {:induction false} SpawnFiles(e: Engine, children: seq<Goal>, parent: string, i: nat)
    requires i < |children| && forall j :: i < j < |children| ==> children[j].id != children[i].id
    ensures var r := SpawnAll(e, children, parent);
            && children[i].id in r.goals
            && r.goals[children[i].id] == children[i].(parent := Some(parent), clock := e.clock, state := Pending)
  {
    var n := |children| - 1;
    SpawnKeeps(e, children[..n], parent);
    if i < n { SpawnFiles(e, children[..n], parent, i); }
  }

  /** SpawnChildren files every child as pending under the parent, the last of equal ids winning,
      lists them in order and advances the clock. */
  lemma SpawnOutcome(e: Engine, g: Goal, d: Data, i: nat)
    requires g.spawn.Some? && i < |g.spawn.value(d)|
    requires forall j :: i < j < |g.spawn.value(d)| ==> g.spawn.value(d)[j].id != g.spawn.value(d)[i].id
    ensures var r, child := SpawnChildren(e, g, d), g.spawn.value(d)[i];
            && r.clock == e.clock + 1 && r.active == e.active && r.deps == e.deps
            && |r.pending| == |e.pending| + |g.spawn.value(d)|
            && r.pending[|e.pending| + i] == child.id
            && child.id in r.goals
            && r.goals[child.id] == child.(parent := Some(g.id), clock := e.clock, state := Pending)
  {
    SpawnKeeps(e, g.spawn.value(d), g.id);
    SpawnFiles(e, g.spawn.value(d), g.id, i);
    SpawnPending(e, g.spawn.value(d), g.id);
  }
}
