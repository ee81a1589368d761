/** runtime/goal_engine.go. */
module GoalEngines {
  import opened Values
  import opened Programs
  import opened Sorting
  import opened Strings
  import E = GoalModel
  import I = GoalIndex
  import opened StateTrackers

  class GoalEngine {
    var goals: map<string, E.Goal>
    var activeGoals: seq<string>
    var pendingGoals: seq<string>
    var clock: nat
    var goalDependencies: map<string, set<Path>>

    ghost function View(): E.Engine
      reads this
    {
      E.Engine(goals, activeGoals, pendingGoals, clock, goalDependencies)
    }

    constructor ()
      ensures View() == E.EMPTY
    {
      goals, activeGoals, pendingGoals, clock, goalDependencies := map[], [], [], 0, map[];
    }

    method AddGoal(goal: E.Goal, now: int) returns (err: Option<E.Error>)
      modifies this
      ensures err == E.AddRefusal(old(View()), goal)
      ensures View() == E.AddGoal(old(View()), goal, now)
    {
      if goal.id == "" { return Some(E.ErrInvalidGoal); }
      if goal.id in goals { return Some(E.ErrGoalAlreadyExists); }
      var added := goal.(state := E.Active, clock := clock, startedAt := Some(now));
      goals := goals[goal.id := added];
      activeGoals := activeGoals + [goal.id];
      return None;
    }

    method RemoveFromSlices(id: string)
      modifies this`activeGoals, this`pendingGoals
      ensures View() == E.Unlist(old(View()), id)
    {
      activeGoals := SpliceOut(activeGoals, id);
      pendingGoals := SpliceOut(pendingGoals, id);
    }

    method RemoveGoal(id: string) returns (err: Option<E.Error>)
      modifies this
      ensures err == if id in old(goals) then None else Some(E.ErrGoalNotFound)
      ensures View() == E.RemoveGoal(old(View()), id)
    {
      if id !in goals { return Some(E.ErrGoalNotFound); }
      goals := goals[id := goals[id].(state := E.Failed)];
      RemoveFromSlices(id);
      goals := goals - {id};
      return None;
    }

    method SetState(id: string, s: E.GoalState)
      requires id in goals
      modifies this`goals
      ensures View() == E.WithState(old(View()), id, s)
    {
      goals := goals[id := goals[id].(state := s)];
    }

    method ActivateGoal(id: string) returns (err: Option<E.Error>)
      modifies this
      ensures err == if id in old(goals) then None else Some(E.ErrGoalNotFound)
      ensures View() == E.ActivateGoal(old(View()), id)
    {
      if id !in goals { return Some(E.ErrGoalNotFound); }
      SetState(id, E.Active);
      RemoveFromSlices(id);
      activeGoals := activeGoals + [id];
      return None;
    }

    method CompleteGoal(id: string) returns (err: Option<E.Error>)
      modifies this
      ensures err == if id in old(goals) then None else Some(E.ErrGoalNotFound)
      ensures View() == E.Finish(old(View()), id, E.Complete)
    {
      if id !in goals { return Some(E.ErrGoalNotFound); }
      SetState(id, E.Complete);
      RemoveFromSlices(id);
      return None;
    }

    method FailGoal(id: string) returns (err: Option<E.Error>)
      modifies this
      ensures err == if id in old(goals) then None else Some(E.ErrGoalNotFound)
      ensures View() == E.Finish(old(View()), id, E.Failed)
    {
      if id !in goals { return Some(E.ErrGoalNotFound); }
      SetState(id, E.Failed);
      RemoveFromSlices(id);
      return None;
    }

    method CancelGoal(id: string, reason: string, now: int) returns (err: Option<E.Error>)
      modifies this
      ensures err == if id in old(goals) then None else Some(E.ErrGoalNotFound)
      ensures View() == E.CancelGoal(old(View()), id, reason, now)
    {
      if id !in goals { return Some(E.ErrGoalNotFound); }
      goals := goals[id := goals[id].(state := E.Cancelled, failReason := reason, cancelledAt := Some(now))];
      RemoveFromSlices(id);
      return None;
    }

    method Evaluate(goal: E.Goal, state: Data) returns (result: bool)
      modifies this`goalDependencies
      ensures result == E.Satisfied(goal, state)
      ensures View() == E.Evaluate(old(View()), goal, state)
    {
      if goal.condition.None? { return false; }
      var tracker := new StateTracker(state);
      result := tracker.Ask(goal.condition.value);
      var paths := tracker.GetAccessedPaths();
      var recorded: set<Path> := {};
      var i := 0;
      while i < |paths|
        invariant 0 <= i <= |paths| && recorded == set p | p in paths[..i]
      {
        assert paths[..i + 1] == paths[..i] + [paths[i]];
        recorded := recorded + {paths[i]};
        i := i + 1;
      }
      assert paths[..i] == paths;
      assert recorded == tracker.readPaths;
      goalDependencies := goalDependencies[goal.id := recorded];
    }

    method SpawnChildren(goal: E.Goal, state: Data) returns (children: seq<E.Goal>)
      modifies this
      ensures children == E.Spawned(old(View()), goal, state)
      ensures View() == E.SpawnChildren(old(View()), goal, state)
    {
      if goal.spawn.None? { return []; }
      var spawned := goal.spawn.value(state);
      children := [];
      var i := 0;
      while i < |spawned|
        invariant 0 <= i <= |spawned| && clock == old(clock) && |children| == i
        invariant forall j :: 0 <= j < i ==> children[j] == E.Child(spawned[j], goal.id, clock)
        invariant View() == E.SpawnAll(old(View()), spawned[..i], goal.id)
      {
        assert spawned[..i + 1][..i] == spawned[..i];
        var child := spawned[i].(parent := Some(goal.id), clock := clock, state := E.Pending);
        goals := goals[child.id := child];
        pendingGoals := pendingGoals + [child.id];
        children := children + [child];
        i := i + 1;
      }
      assert spawned[..i] == spawned;
      clock := clock + 1;
    }

    method Triggers(id: string, written: seq<Path>) returns (triggered: bool)
      requires id in goals
      ensures triggered == E.Triggered(View(), written, id)
    {
      if goals[id].state != E.Pending { return false; }
      if goals[id].trigger.Some? { return goals[id].trigger.value in written; }
      triggered := Touched(id, written);
    }

    method Touched(id: string, written: seq<Path>) returns (affected: bool)
      ensures affected == E.Touches(E.DepsOf(View(), id), written)
    {
      var deps := if id in goalDependencies then goalDependencies[id] else {};
      var i := 0;
      while i < |written|
        invariant 0 <= i <= |written|
        invariant forall j :: 0 <= j < i ==> written[j] !in deps
      {
        if written[i] in deps { return true; }
        i := i + 1;
      }
      return false;
    }

    /** The first loop of HandleEvent: sort the goals out, in the order the map yields them. */
    method Classify(written: seq<Path>)
      returns (triggered: seq<string>, affected: seq<string>, ghost order: seq<string>)
      ensures Enumerates(order, goals.Keys)
      ensures triggered == E.TriggeredIn(View(), written, order)
      ensures affected == E.AffectedIn(View(), written, order)
    {
      triggered, affected, order := [], [], [];
      var rest := goals.Keys;
      while rest != {}
        invariant rest <= goals.Keys && Enumerates(order, goals.Keys - rest)
        invariant triggered == E.TriggeredIn(View(), written, order)
        invariant affected == E.AffectedIn(View(), written, order)
      {
        var id :| id in rest;
        E.ClassifySnoc(View(), written, order, id);
        var starts := Triggers(id, written);
        if starts {
          triggered := triggered + [id];
        } else if goals[id].state == E.Complete {
          var touched := Touched(id, written);
          if touched { affected := affected + [id]; }
        }
        order, rest := order + [id], rest - {id};
      }
    }

    method Recheck(id: string, state: Data)
      modifies this
      ensures View() == E.CompensateOne(old(View()), state, id)
    {
      if id !in goals { return; }
      var goal := goals[id];
      var stillSatisfied := false;
      if goal.condition.Some? {
        var tracker := new StateTracker(state);
        stillSatisfied := tracker.Ask(goal.condition.value);
      }
      if !stillSatisfied {
        SetState(id, E.Compensating);
        if goal.compensate.Some? {
          var compGoal := goal.compensate.value(state);
          if compGoal.Some? && compGoal.value.id != "" {
            var filed := compGoal.value.(parent := Some(id), clock := clock, state := E.Pending);
            goals := goals[filed.id := filed];
            pendingGoals := pendingGoals + [filed.id];
          }
        }
      }
    }

    /** HandleEvent, after the event changed the state to `state`. */
    method HandleEvent(written: seq<Path>, state: Data) returns (ghost order: seq<string>)
      modifies this
      ensures Enumerates(order, old(goals).Keys)
      ensures View() == E.HandleEvent(old(View()), state, written, order)
    {
      var triggered, affected;
      triggered, affected, order := Classify(written);
      UnlistEach(triggered);
      triggered := SortStrings(triggered);
      StartEach(triggered);
      RecheckEach(affected, state);
    }

    method RecheckEach(ids: seq<string>, state: Data)
      modifies this
      ensures View() == E.CompensateAll(old(View()), state, ids)
    {
      var i := 0;
      while i < |ids|
        invariant 0 <= i <= |ids| && View() == E.CompensateAll(old(View()), state, ids[..i])
      {
        assert ids[..i + 1][..i] == ids[..i];
        Recheck(ids[i], state);
        i := i + 1;
      }
      assert ids[..i] == ids;
    }

    method UnlistEach(ids: seq<string>)
      modifies this`activeGoals, this`pendingGoals
      ensures View() == E.UnlistAll(old(View()), ids)
    {
      var i := 0;
      while i < |ids|
        invariant 0 <= i <= |ids| && View() == E.UnlistAll(old(View()), ids[..i])
      {
        assert ids[..i + 1][..i] == ids[..i];
        RemoveFromSlices(ids[i]);
        i := i + 1;
      }
      assert ids[..i] == ids;
    }

    method StartEach(ids: seq<string>)
      modifies this`activeGoals, this`goals
      ensures View() == E.StartAll(old(View()), ids)
    {
      var i := 0;
      while i < |ids|
        invariant 0 <= i <= |ids| && View() == E.StartAll(old(View()), ids[..i])
      {
        assert ids[..i + 1][..i] == ids[..i];
        activeGoals := activeGoals + [ids[i]];
        if ids[i] in goals { SetState(ids[i], E.Active); }
        i := i + 1;
      }
      assert ids[..i] == ids;
    }

    /** ListActiveGoals: what the active slice names, by priority descending and then clock.
        While the slices agree with the map these are the active goals, each once. */
    method ListActiveGoals() returns (result: seq<E.Goal>)
      ensures IsSortOf(result, E.Named(View(), activeGoals), E.GoalLe)
      ensures |result| == |activeGoals|
      ensures forall i, j :: 0 <= i < j < |result| ==>
                && result[i].priority >= result[j].priority
                && (result[i].priority == result[j].priority ==> result[i].clock <= result[j].clock)
      ensures I.Indexed(View()) ==> forall g :: g in result ==> E.InState(View(), g.id, E.Active) && goals[g.id] == g
    {
      result := [];
      var i := 0;
      while i < |activeGoals|
        invariant 0 <= i <= |activeGoals| && |result| == i
        invariant forall j :: 0 <= j < i ==> result[j] == E.GoalAt(View(), activeGoals[j])
      {
        var id := activeGoals[i];
        result := result + [if id in goals then goals[id] else E.NO_GOAL];
        i := i + 1;
      }
      ghost var named := result;
      assert named == E.Named(View(), activeGoals);
      assert Orders(E.GoalLe, named);
      result := SortSlice(result, E.GoalLe);
      SameElements(result, named);
      if I.Indexed(View()) {
        I.ActiveExactly(View());
        forall g | g in result ensures E.InState(View(), g.id, E.Active) && goals[g.id] == g {
          var j :| 0 <= j < |named| && named[j] == g;
          assert activeGoals[j] in activeGoals;
        }
      }
    }
  }
}
