/** The index slices agree with the goal map. */
module GoalIndex {
  import opened Values
  import opened Programs
  import opened Sorting
  import opened Strings
  import opened GoalModel

  function Times(s: seq<string>, id: string): nat { multiset(s)[id] }

  ghost predicate IndexedAt(e: Engine, id: string) {
    && Times(e.active, id) == (if InState(e, id, Active) then 1 else 0)
    && Times(e.pending, id) == (if InState(e, id, Pending) then 1 else 0)
  }

  /** An id is listed as active (pending) once if its goal is, and never otherwise;
      every goal is filed under its own id. */
  ghost predicate Indexed(e: Engine) {
    && (forall id :: IndexedAt(e, id))
    && (forall id :: id in e.goals ==> e.goals[id].id == id)
  }

  ghost predicate Running(s: GoalState) { s == Active || s == Pending }

  /** A count after one removal, if any. */
  function Less(n: nat, removed: bool): nat { if removed && n > 0 then n - 1 else n }

  lemma UnlistTimes(e: Engine, x: string, id: string)
    ensures Times(Unlist(e, x).active, id) == Less(Times(e.active, id), id == x)
    ensures Times(Unlist(e, x).pending, id) == Less(Times(e.pending, id), id == x)
  {
    RemoveFirstTimes(e.active, x, id);
    RemoveFirstTimes(e.pending, x, id);
  }

  // ---------- single operations ----------

  lemma AddIndexed(e: Engine, g: Goal, now: int)
    requires Indexed(e)
    ensures Indexed(AddGoal(e, g, now))
  {
    var r := AddGoal(e, g, now);
    forall id ensures IndexedAt(r, id) { assert IndexedAt(e, id); }
  }

  lemma RemoveIndexed(e: Engine, x: string)
    requires Indexed(e)
    ensures Indexed(RemoveGoal(e, x))
  {
    forall id ensures IndexedAt(RemoveGoal(e, x), id) { assert IndexedAt(e, id); UnlistTimes(e, x, id); }
  }

  lemma FinishAt(e: Engine, x: string, s: GoalState, id: string)
    requires IndexedAt(e, id) && !Running(s)
    ensures IndexedAt(Finish(e, x, s), id)
  {
    UnlistTimes(e, x, id);
  }

  lemma FinishIndexed(e: Engine, x: string, s: GoalState)
    requires Indexed(e) && !Running(s)
    ensures Indexed(Finish(e, x, s))
  {
    forall id ensures IndexedAt(Finish(e, x, s), id) { assert IndexedAt(e, id); FinishAt(e, x, s, id); }
  }

  lemma CancelIndexed(e: Engine, x: string, reason: string, now: int)
    requires Indexed(e)
    ensures Indexed(CancelGoal(e, x, reason, now))
  {
    forall id ensures IndexedAt(CancelGoal(e, x, reason, now), id) { assert IndexedAt(e, id); UnlistTimes(e, x, id); }
  }

  lemma ActivateAt(e: Engine, x: string, id: string)
    requires IndexedAt(e, id) && x in e.goals
    ensures IndexedAt(ActivateGoal(e, x), id)
  {
    var u := Unlist(WithState(e, x, Active), x);
    UnlistTimes(WithState(e, x, Active), x, id);
    assert Times(u.active + [x], id) == Times(u.active, id) + if id == x then 1 else 0;
    assert ActivateGoal(e, x).active == u.active + [x] && ActivateGoal(e, x).pending == u.pending;
  }

  lemma ActivateIndexed(e: Engine, x: string)
    requires Indexed(e)
    ensures Indexed(ActivateGoal(e, x))
  {
    if x in e.goals {
      forall id ensures IndexedAt(ActivateGoal(e, x), id) { assert IndexedAt(e, id); ActivateAt(e, x, id); }
    }
  }

  lemma EvaluateIndexed(e: Engine, g: Goal, d: Data)
    requires Indexed(e)
    ensures Indexed(Evaluate(e, g, d))
  {
    forall id ensures IndexedAt(Evaluate(e, g, d), id) { assert IndexedAt(e, id); }
  }

  /** Filing a pending goal keeps the index exactly when its id is not in use as an
      active or pending goal: an existing id is overwritten without a check. */
  lemma AddPendingIndexedIff(e: Engine, g: Goal)
    requires Indexed(e) && g.state == Pending
    ensures Indexed(AddPending(e, g)) <==> !InState(e, g.id, Active) && !InState(e, g.id, Pending)
  {
    var r := AddPending(e, g);
    assert IndexedAt(e, g.id);
    if !InState(e, g.id, Active) && !InState(e, g.id, Pending) {
      forall id ensures IndexedAt(r, id) { assert IndexedAt(e, id); }
    } else {
      assert !IndexedAt(r, g.id);
    }
  }

  predicate InUse(e: Engine, id: string) { InState(e, id, Active) || InState(e, id, Pending) }

  /** No child id is active, pending, or spawned twice. */
  ghost predicate SpawnsFree(e: Engine, children: seq<Goal>) {
    && (forall i :: 0 <= i < |children| ==> !InUse(e, children[i].id))
    && (forall i, j :: 0 <= i < j < |children| ==> children[i].id != children[j].id)
  }

  lemma ClockIndexed(e: Engine, c: nat)
    requires Indexed(e)
    ensures Indexed(e.(clock := c))
  {
    forall id ensures IndexedAt(e.(clock := c), id) { assert IndexedAt(e, id); }
  }

  ghost predicate IsChild(children: seq<Goal>, id: string) {
    exists i :: 0 <= i < |children| && children[i].id == id
  }

  lemma {:induction false} SpawnKeeps(e: Engine, children: seq<Goal>, parent: string)
    ensures var r := SpawnAll(e, children, parent);
            r.active == e.active && r.deps == e.deps && r.clock == e.clock && e.goals.Keys <= r.goals.Keys
  {
    if children != [] { SpawnKeeps(e, children[..|children| - 1], parent); }
  }

  lemma {:induction false} SpawnOther(e: Engine, children: seq<Goal>, parent: string, id: string)
    requires !IsChild(children, id)
    ensures var r := SpawnAll(e, children, parent);
            && (id in r.goals <==> id in e.goals) && (id in e.goals ==> r.goals[id] == e.goals[id])
            && Times(r.pending, id) == Times(e.pending, id)
  {
    if children != [] {
      var n := |children| - 1;
      assert forall i :: 0 <= i < n ==> children[..n][i] == children[i];
      assert children[n].id != id;
      SpawnOther(e, children[..n], parent, id);
    }
  }

  lemma {:induction false} SpawnChild(e: Engine, children: seq<Goal>, parent: string, id: string)
    ensures Times(SpawnAll(e, children, parent).pending, id) >= Times(e.pending, id)
    ensures IsChild(children, id) ==>
              && InState(SpawnAll(e, children, parent), id, Pending)
              && Times(SpawnAll(e, children, parent).pending, id) > Times(e.pending, id)
  {
    if children != [] {
      var n := |children| - 1;
      SpawnChild(e, children[..n], parent, id);
      if IsChild(children, id) && children[n].id != id {
        var i :| 0 <= i < |children| && children[i].id == id;
        assert children[..n][i].id == id;
      }
    }
  }

  /** SpawnChildren keeps the index exactly when all the child ids are free. */
  lemma {:induction false} SpawnIndexedIff(e: Engine, children: seq<Goal>, parent: string)
    requires Indexed(e)
    ensures Indexed(SpawnAll(e, children, parent)) <==> SpawnsFree(e, children)
  {
    var r := SpawnAll(e, children, parent);
    if SpawnsFree(e, children) {
      SpawnIndexed(e, children, parent);
    } else if exists i :: 0 <= i < |children| && InUse(e, children[i].id) {
      var i :| 0 <= i < |children| && InUse(e, children[i].id);
      SpawnKeeps(e, children, parent);
      SpawnChild(e, children, parent, children[i].id);
      assert IndexedAt(e, children[i].id) && !IndexedAt(r, children[i].id);
    } else {
      var i, j :| 0 <= i < j < |children| && children[i].id == children[j].id;
      SpawnedTwice(e, children, parent, i, j);
      assert !IndexedAt(r, children[i].id);
    }
  }

  lemma {:induction false} SpawnIndexed(e: Engine, children: seq<Goal>, parent: string)
    requires Indexed(e) && SpawnsFree(e, children)
    ensures Indexed(SpawnAll(e, children, parent))
  {
    if children != [] {
      var n := |children| - 1;
      SpawnIndexed(e, children[..n], parent);
      SpawnKeeps(e, children[..n], parent);
      SpawnOther(e, children[..n], parent, children[n].id);
      var u := SpawnAll(e, children[..n], parent);
      AddPendingIndexedIff(u, children[n].(parent := Some(parent), clock := e.clock, state := Pending));
    }
  }

  function Ids(children: seq<Goal>): (r: seq<string>)
    ensures |r| == |children| && forall i :: 0 <= i < |r| ==> r[i] == children[i].id
  {
    seq(|children|, i requires 0 <= i < |children| => children[i].id)
  }

  lemma {:induction false} SpawnPending(e: Engine, children: seq<Goal>, parent: string)
    ensures SpawnAll(e, children, parent).pending == e.pending + Ids(children)
  {
    if children != [] {
      var n := |children| - 1;
      SpawnPending(e, children[..n], parent);
      assert Ids(children) == Ids(children[..n]) + [children[n].id];
    }
  }

  lemma SpawnedTwice(e: Engine, children: seq<Goal>, parent: string, i: nat, j: nat)
    requires i < j < |children| && children[i].id == children[j].id
    ensures Times(SpawnAll(e, children, parent).pending, children[i].id) >= 2
  {
    SpawnPending(e, children, parent);
    TwiceCounts(Ids(children), i, j);
  }

  // ---------- HandleEvent ----------

  lemma {:induction false} UnlistAllKeeps(e: Engine, ids: seq<string>)
    ensures var r := UnlistAll(e, ids); r.goals == e.goals && r.deps == e.deps && r.clock == e.clock
  {
    if ids != [] { UnlistAllKeeps(e, ids[..|ids| - 1]); }
  }

  lemma {:induction false} UnlistAllTimes(e: Engine, ids: seq<string>, id: string)
    requires NoDuplicates(ids)
    ensures Times(UnlistAll(e, ids).active, id) == Less(Times(e.active, id), id in ids)
    ensures Times(UnlistAll(e, ids).pending, id) == Less(Times(e.pending, id), id in ids)
  {
    if ids != [] {
      var n := |ids| - 1;
      LastOfUnique(ids);
      UnlistAllTimes(e, ids[..n], id);
      UnlistTimes(UnlistAll(e, ids[..n]), ids[n], id);
    }
  }

  lemma {:induction false} StartAllFacts(e: Engine, ids: seq<string>, id: string)
    requires NoDuplicates(ids) && forall x :: x in ids ==> x in e.goals
    ensures var r := StartAll(e, ids);
            && r.goals.Keys == e.goals.Keys && r.pending == e.pending && r.deps == e.deps && r.clock == e.clock
            && Times(r.active, id) == Times(e.active, id) + (if id in ids then 1 else 0)
            && (id in e.goals ==> r.goals[id] == if id in ids then e.goals[id].(state := Active) else e.goals[id])
  {
    if ids != [] {
      var n := |ids| - 1;
      LastOfUnique(ids);
      StartAllFacts(e, ids[..n], id);
      StartAllFacts(e, ids[..n], ids[n]);
    }
  }

  lemma {:induction false} FilterUnique<T>(s: seq<T>, keep: T -> bool)
    requires NoDuplicates(s)
    ensures NoDuplicates(Filter(s, keep))
  {
    if s != [] {
      FilterUnique(s[1..], keep);
      assert forall x :: x in s[1..] ==> x != s[0];
    }
  }

  /** After the first half of HandleEvent exactly the triggered goals have become active. */
  lemma {:induction false} StartedFacts(e: Engine, written: seq<Path>, order: seq<string>, id: string)
    requires Indexed(e) && Enumerates(order, e.goals.Keys)
    ensures var r := StartTriggered(e, written, order);
            && r.goals.Keys == e.goals.Keys && r.deps == e.deps && r.clock == e.clock
            && IndexedAt(r, id)
            && (id in e.goals ==>
                  r.goals[id] == if Triggered(e, written, id) then e.goals[id].(state := Active) else e.goals[id])
  {
    var t := TriggeredIn(e, written, order);
    FilterUnique(order, x => Triggered(e, written, x));
    UnlistAllKeeps(e, t);
    UnlistAllTimes(e, t, id);
    var sorted := Sort(t, StrLe);
    SameElements(sorted, t);
    SameElements(t, sorted);
    SortUnlisted(t, sorted);
    StartAllFacts(UnlistAll(e, t), sorted, id);
    assert IndexedAt(e, id);
    assert id in t <==> Triggered(e, written, id);
  }

  lemma SortUnlisted(s: seq<string>, t: seq<string>)
    requires NoDuplicates(s) && multiset(s) == multiset(t)
    ensures NoDuplicates(t)
  {
    forall x | x in t ensures multiset(t)[x] <= 1 { CountOne(s, x); }
    OnceEach(t);
  }

  /** Every compensation goal gets an id that is new when it is filed. */
  ghost predicate FreshCompensations(e: Engine, d: Data, ids: seq<string>) {
    forall k :: 0 <= k < |ids| ==> FreshCompensation(CompensateAll(e, d, ids[..k]), d, ids[k])
  }

  ghost predicate FreshCompensation(e: Engine, d: Data, id: string) {
    id in e.goals && !Satisfied(e.goals[id], d) && CompensationOf(e.goals[id], d).Some? ==>
      CompensationOf(e.goals[id], d).value.id !in e.goals
  }

  lemma FreshPrefix(e: Engine, d: Data, ids: seq<string>)
    requires ids != [] && FreshCompensations(e, d, ids)
    ensures FreshCompensations(e, d, ids[..|ids| - 1])
    ensures FreshCompensation(CompensateAll(e, d, ids[..|ids| - 1]), d, ids[|ids| - 1])
  {
    var n := |ids| - 1;
    assert forall k :: 0 <= k < n ==> ids[..n][..k] == ids[..k];
  }

  lemma LastOfUnique<T>(s: seq<T>)
    requires s != [] && NoDuplicates(s)
    ensures NoDuplicates(s[..|s| - 1]) && s[|s| - 1] !in s[..|s| - 1]
    ensures forall x :: x in s <==> x in s[..|s| - 1] || x == s[|s| - 1]
  {
    assert s == s[..|s| - 1] + [s[|s| - 1]];
  }

  /** Rechecking a complete goal touches that goal and files at most one new one. */
  lemma CompensateOneIndexed(e: Engine, d: Data, id: string)
    requires Indexed(e) && InState(e, id, Complete) && FreshCompensation(e, d, id)
    ensures Indexed(CompensateOne(e, d, id))
    ensures e.goals.Keys <= CompensateOne(e, d, id).goals.Keys
    ensures forall x :: x in e.goals && x != id ==> CompensateOne(e, d, id).goals[x] == e.goals[x]
  {
    if !Satisfied(e.goals[id], d) {
      var u := WithState(e, id, Compensating);
      forall x ensures IndexedAt(u, x) { assert IndexedAt(e, x); }
      var c := CompensationOf(e.goals[id], d);
      if c.Some? && c.value.id != "" {
        AddPendingIndexedIff(u, c.value.(parent := Some(id), clock := e.clock, state := Pending));
      }
    }
  }

  lemma {:induction false} CompensateAllIndexed(e: Engine, d: Data, ids: seq<string>)
    requires Indexed(e) && NoDuplicates(ids) && FreshCompensations(e, d, ids)
    requires forall id :: id in ids ==> InState(e, id, Complete)
    ensures Indexed(CompensateAll(e, d, ids))
    ensures e.goals.Keys <= CompensateAll(e, d, ids).goals.Keys
    ensures forall x :: x in e.goals && x !in ids ==> CompensateAll(e, d, ids).goals[x] == e.goals[x]
  {
    if ids != [] {
      var n := |ids| - 1;
      FreshPrefix(e, d, ids);
      LastOfUnique(ids);
      CompensateAllIndexed(e, d, ids[..n]);
      assert ids[n] in ids && ids[n] in e.goals && InState(e, ids[n], Complete);
      assert CompensateAll(e, d, ids[..n]).goals[ids[n]] == e.goals[ids[n]];
      CompensateOneIndexed(CompensateAll(e, d, ids[..n]), d, ids[n]);
    }
  }

  lemma HandleIndexed(e: Engine, d: Data, written: seq<Path>, order: seq<string>)
    requires Indexed(e) && Enumerates(order, e.goals.Keys)
    requires FreshCompensations(StartTriggered(e, written, order), d, AffectedIn(e, written, order))
    ensures Indexed(HandleEvent(e, d, written, order))
    ensures e.goals.Keys <= HandleEvent(e, d, written, order).goals.Keys
  {
    var u := StartTriggered(e, written, order);
    var c := AffectedIn(e, written, order);
    if e.goals == map[] { StartedFacts(e, written, order, ""); }
    forall id ensures IndexedAt(u, id) && u.goals.Keys == e.goals.Keys && (id in u.goals ==> u.goals[id].id == id) {
      StartedFacts(e, written, order, id);
    }
    FilterUnique(order, x => Affected(e, written, x));
    forall id | id in c ensures InState(u, id, Complete) { StartedFacts(e, written, order, id); }
    CompensateAllIndexed(u, d, c);
  }

  // ---------- every run ----------

  datatype Op =
    | OpAdd(goal: Goal, now: int)
    | OpRemove(id: string)
    | OpFinish(id: string, failed: bool)
    | OpCancel(id: string, reason: string, now: int)
    | OpActivate(id: string)
    | OpEvaluate(goal: Goal, data: Data)
    | OpSpawn(goal: Goal, data: Data)
    | OpHandle(data: Data, written: seq<Path>, order: seq<string>)

  ghost function Apply(e: Engine, op: Op): Engine {
    match op
    case OpAdd(g, now) => AddGoal(e, g, now)
    case OpRemove(id) => RemoveGoal(e, id)
    case OpFinish(id, failed) => Finish(e, id, if failed then Failed else Complete)
    case OpCancel(id, reason, now) => CancelGoal(e, id, reason, now)
    case OpActivate(id) => ActivateGoal(e, id)
    case OpEvaluate(g, d) => Evaluate(e, g, d)
    case OpSpawn(g, d) => SpawnChildren(e, g, d)
    case OpHandle(d, written, order) => HandleEvent(e, d, written, order)
  }

  /** What a call must respect: free child ids, new compensation ids, a real map order. */
  ghost predicate Allowed(e: Engine, op: Op) {
    match op
    case OpSpawn(g, d) => g.spawn.Some? ==> SpawnsFree(e, g.spawn.value(d))
    case OpHandle(d, written, order) =>
      && Enumerates(order, e.goals.Keys)
      && FreshCompensations(StartTriggered(e, written, order), d, AffectedIn(e, written, order))
    case _ => true
  }

  lemma ApplyIndexed(e: Engine, op: Op)
    requires Indexed(e) && Allowed(e, op)
    ensures Indexed(Apply(e, op))
  {
    match op
    case OpAdd(g, now) => AddIndexed(e, g, now);
    case OpRemove(id) => RemoveIndexed(e, id);
    case OpFinish(id, failed) => FinishIndexed(e, id, if failed then Failed else Complete);
    case OpCancel(id, reason, now) => CancelIndexed(e, id, reason, now);
    case OpActivate(id) => ActivateIndexed(e, id);
    case OpEvaluate(g, d) => EvaluateIndexed(e, g, d);
    case OpSpawn(g, d) =>
      if g.spawn.Some? {
        SpawnIndexed(e, g.spawn.value(d), g.id);
        ClockIndexed(SpawnAll(e, g.spawn.value(d), g.id), e.clock + 1);
      }
    case OpHandle(d, written, order) => HandleIndexed(e, d, written, order);
  }

  ghost function ApplyAll(e: Engine, ops: seq<Op>): Engine {
    if ops == [] then e else Apply(ApplyAll(e, ops[..|ops| - 1]), ops[|ops| - 1])
  }

  ghost predicate AllAllowed(e: Engine, ops: seq<Op>) {
    forall k :: 0 <= k < |ops| ==> Allowed(ApplyAll(e, ops[..k]), ops[k])
  }

  /** In every run of such calls from a new engine the index agrees with the map. */
  lemma {:induction false} RunsIndexed(ops: seq<Op>)
    requires AllAllowed(EMPTY, ops)
    ensures Indexed(ApplyAll(EMPTY, ops))
  {
    if ops == [] {
      assert forall id :: IndexedAt(EMPTY, id);
    } else {
      var n := |ops| - 1;
      forall k | 0 <= k < n ensures Allowed(ApplyAll(EMPTY, ops[..n][..k]), ops[..n][k]) {
        assert ops[..n][..k] == ops[..k];
      }
      RunsIndexed(ops[..n]);
      var e := ApplyAll(EMPTY, ops[..n]);
      assert Allowed(e, ops[n]);
      ApplyIndexed(e, ops[n]);
    }
  }

  /** So the active slice lists every active goal once and nothing else. */
  lemma ActiveExactly(e: Engine)
    requires Indexed(e)
    ensures NoDuplicates(e.active)
    ensures forall id :: id in e.active <==> InState(e, id, Active)
    ensures forall k :: 0 <= k < |e.active| ==> e.active[k] in e.goals
  {
    forall id ensures (id in e.active <==> InState(e, id, Active)) && Times(e.active, id) <= 1 {
      assert IndexedAt(e, id);
      assert id in e.active <==> id in multiset(e.active);
    }
    OnceEach(e.active);
    forall k | 0 <= k < |e.active| ensures e.active[k] in e.goals {
      assert e.active[k] in e.active;
    }
  }
}
