/** runtime/kernel.go: the runtime object over its state manager, log and goal engine. */
module Kernel {
  import opened Values
  import opened Events
  import opened Sorting
  import K = KernelModel
  import S = StateModel
  import G = LogModel
  import E = GoalModel
  import opened StateManagers
  import opened EventLogs
  import opened GoalEngines

  datatype SubmitError = NotRunning | NotLogged | Refused(reason: S.Error) | GoalRefused(why: E.Error)

  class GoalRuntime {
    const stateManager: StateManager
    const eventLog: EventLog
    const goalEngine: GoalEngine
    var clock: nat
    var running: bool

    ghost function View(): K.Runtime
      reads this, stateManager, eventLog, eventLog.pss, goalEngine
    {
      K.Runtime(stateManager.View(), eventLog.View(), eventLog.WalView(), goalEngine.View(), clock, running)
    }

    /** NewRuntime followed by Start. */
    constructor ()
      ensures View() == K.New(false) && fresh(stateManager) && fresh(eventLog) && fresh(goalEngine)
      ensures eventLog.pss == null
    {
      stateManager := new StateManager();
      eventLog := new EventLog();
      goalEngine := new GoalEngine();
      clock := 0;
      running := true;
    }

    method SubmitGoal(goal: E.Goal, now: int) returns (err: Option<SubmitError>)
      modifies goalEngine
      ensures View() == K.SubmitGoal(old(View()), goal, now)
      ensures err.None? <==> running && E.AddRefusal(old(goalEngine.View()), goal).None?
    {
      if !running { return Some(NotRunning); }
      var refused := goalEngine.AddGoal(goal, now);
      if refused.Some? { return Some(GoalRefused(refused.value)); }
      return None;
    }

    method SubmitEvent(event: Event, now: int, walNow: int, io: G.IO)
      returns (err: Option<SubmitError>, ghost order: seq<string>)
      modifies this, stateManager, eventLog, eventLog.pss, goalEngine
      ensures eventLog.pss == old(eventLog.pss)
      ensures View() == K.SubmitEvent(old(View()), event, now, walNow, io, order)
      ensures err.None? ==> Enumerates(order, old(goalEngine.goals).Keys)
      ensures err == Some(NotRunning) <==> !old(running)
      ensures err == Some(NotLogged) <==>
                old(running) && G.Append(old(View()).log, old(View()).wal, event, now, walNow, io).2.None?
      ensures err.Some? && err.value.Refused? ==>
                && S.Refusal(old(View()).state, event) == Some(err.value.reason)
                && View().state == old(View()).state && View().engine == old(View()).engine
      ensures err.None? ==> S.Refusal(old(View()).state, event).None? && clock == old(clock) + 1
    {
      order := [];
      if !running { return Some(NotRunning), order; }
      var id := Record(event, now, walNow, io);
      if id.None? { return Some(NotLogged), order; }
      var refused;
      refused, order := Deliver(event, id.value);
      if refused.Some? { return Some(Refused(refused.value)), order; }
      return None, order;
    }

    /** The first half of SubmitEvent: log the event. */
    method Record(event: Event, now: int, walNow: int, io: G.IO) returns (id: Option<nat>)
      modifies eventLog, eventLog.pss
      ensures eventLog.pss == old(eventLog.pss)
      ensures var (log, wal, given) := G.Append(old(View()).log, old(View()).wal, event, now, walNow, io);
              id == given && View() == old(View()).(log := log, wal := wal)
    {
      id := eventLog.Append(event, now, walNow, io);
    }

    /** The second half: apply the logged event, then tell the engine. */
    method Deliver(event: Event, id: nat) returns (refused: Option<S.Error>, ghost order: seq<string>)
      modifies this`clock, stateManager, goalEngine
      ensures refused == S.Refusal(old(View()).state, event)
      ensures refused.Some? ==> View() == old(View())
      ensures refused.None? ==>
                var state := S.ApplyEvent(old(View()).state, event);
                && Enumerates(order, old(goalEngine.goals).Keys)
                && View() == old(View()).(
                     state := state,
                     engine := E.HandleEvent(old(View()).engine, state.data, event.writePaths, order),
                     clock := old(clock) + 1)
    {
      RefusalIgnoresId(stateManager.View(), event, id);
      refused := stateManager.ApplyEvent(event.(id := id));
      order := [];
      if refused.Some? { return; }
      order := goalEngine.HandleEvent(event.writePaths, stateManager.data);
      clock := clock + 1;
    }

    /** processGoals, without the plans it launches for unsatisfied goals. */
    method ProcessGoals(now: int) returns (ghost listing: seq<E.Goal>)
      modifies goalEngine
      ensures IsSortOf(listing, E.Named(old(goalEngine.View()), old(goalEngine.activeGoals)), E.GoalLe)
      ensures View() == K.Tick(old(View()), listing, now)
    {
      var active := goalEngine.ListActiveGoals();
      listing := active;
      ProcessEach(active, now);
    }

    method ProcessEach(active: seq<E.Goal>, now: int)
      modifies goalEngine
      ensures goalEngine.View() == E.ProcessAll(old(goalEngine.View()), stateManager.data, active, now)
    {
      var i := 0;
      while i < |active|
        invariant 0 <= i <= |active|
        invariant goalEngine.View() == E.ProcessAll(old(goalEngine.View()), stateManager.data, active[..i], now)
      {
        assert active[..i + 1][..i] == active[..i];
        ProcessGoal(active[i], now);
        i := i + 1;
      }
      assert active[..i] == active;
    }

    /** One iteration: evaluation and completion are one step here. */
    method ProcessGoal(g: E.Goal, now: int)
      modifies goalEngine
      ensures goalEngine.View() == E.ProcessGoal(old(goalEngine.View()), stateManager.data, g, now)
    {
      if g.deadline != 0 {
        if now > g.deadline {
          var _ := goalEngine.FailGoal(g.id);
          return;
        }
        if g.startedAt.Some? {
          var allowedDuration := g.deadline - g.createdAt;
          if allowedDuration > 0 && now - g.startedAt.value > allowedDuration {
            var _ := goalEngine.FailGoal(g.id);
            return;
          }
        }
      }
      if g.timeout > 0 && g.startedAt.Some? && now - g.startedAt.value > g.timeout {
        var _ := goalEngine.FailGoal(g.id);
        return;
      }
      var completed := goalEngine.Evaluate(g, stateManager.data);
      if completed {
        var _ := goalEngine.CompleteGoal(g.id);
        var _ := goalEngine.SpawnChildren(g, stateManager.data);
      }
    }

    method Rewind(timestamp: int)
      modifies this, stateManager
      ensures View() == K.Rewind(old(View()), timestamp)
    {
      var wasRunning := running;
      running := false;
      var events := eventLog.ReplayUntil(timestamp);
      stateManager.Reconstruct(events);
      clock := if |events| > 0 then events[|events| - 1].clock else 0;
      running := wasRunning;
    }

    method Replay()
      modifies stateManager
      ensures View() == K.ReplayLog(old(View()))
    {
      var events := eventLog.ReplayUntil(0);
      stateManager.Reconstruct(events);
    }

    /** SetPersistence, over a file that may already hold events. */
    method SetPersistence(wal: WriteAheadLog, readable: bool)
      modifies this, stateManager, eventLog
      ensures eventLog.pss == wal && View() == K.Attach(old(View()), wal.View(), readable)
    {
      eventLog.SetPersistence(wal, readable);
      var events := eventLog.events;
      if |events| > 0 {
        stateManager.Reconstruct(events);
        clock := events[|events| - 1].clock;
      }
    }
  }

  /** The id the log gives an event does not change what the event does. */
  lemma RefusalIgnoresId(s: S.State, e: Event, id: nat)
    ensures S.Refusal(s, e.(id := id)) == S.Refusal(s, e)
    ensures S.ApplyEvent(s, e.(id := id)) == S.ApplyEvent(s, e)
  {
  }
}
