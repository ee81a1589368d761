/** runtime/kernel.go as values: the event log, the state and the goal engine
    moved by one step at a time. */
module KernelModel {
  import opened Values
  import opened Events
  import P = Programs
  import S = StateModel
  import L = Locks
  import G = LogModel
  import E = GoalModel

  datatype Runtime = Runtime(
    state: S.State,
    log: G.Log,
    wal: Option<G.Wal>,
    engine: E.Engine,
    clock: nat,
    running: bool)

  /** NewRuntime, started, over a new file if any. */
  function New(persistent: bool): Runtime {
    Runtime(S.EMPTY, G.NEW_LOG, if persistent then Some(G.NEW_WAL) else None, E.EMPTY, 0, true)
  }

  /** SubmitEvent: logged first, then applied or refused, then shown to the engine. */
  ghost function SubmitEvent(r: Runtime, e: Event, now: int, walNow: int, io: G.IO, order: seq<string>): Runtime {
    if !r.running then r
    else
      var (log, wal, id) := G.Append(r.log, r.wal, e, now, walNow, io);
      var logged := r.(log := log, wal := wal);
      if id.None? || S.Refusal(r.state, e).Some? then logged
      else
        var state := S.ApplyEvent(r.state, e);
        logged.(state := state,
                engine := E.HandleEvent(r.engine, state.data, e.writePaths, order),
                clock := r.clock + 1)
  }

  function SubmitGoal(r: Runtime, g: E.Goal, now: int): Runtime {
    if !r.running then r else r.(engine := E.AddGoal(r.engine, g, now))
  }

  /** processGoals over the listed goals, without the plans it launches. */
  ghost function Tick(r: Runtime, listing: seq<E.Goal>, now: int): Runtime {
    r.(engine := E.ProcessAll(r.engine, r.state.data, listing, now))
  }

  ghost function Reconstructed(r: Runtime, events: seq<Event>): Runtime {
    r.(state := S.Reconstruct(r.state, events), clock := S.ReplayClock(events))
  }

  ghost function Rewind(r: Runtime, t: int): Runtime {
    Reconstructed(r, G.ReplayUntil(r.log.events, t))
  }

  ghost function ReplayLog(r: Runtime): Runtime {
    r.(state := S.Reconstruct(r.state, G.ReplayUntil(r.log.events, 0)))
  }

  /** SetPersistence. */
  ghost function Attach(r: Runtime, w: G.Wal, readable: bool): Runtime {
    var loaded := r.(wal := Some(w), log := if readable then G.LoadInto(r.log, w) else r.log);
    if loaded.log.events == [] then loaded else Reconstructed(loaded, loaded.log.events)
  }

  /** A new process over the file. */
  ghost function Restart(w: G.Wal): Runtime { Attach(New(false), w, true) }

  // ---------- runs ----------

  datatype RunStep =
    | EventStep(event: Event, now: int, walNow: int, io: G.IO, order: seq<string>)
    | GoalStep(goal: E.Goal, now: int)
    | TickStep(listing: seq<E.Goal>, now: int)
    | LockStep(paths: seq<Path>, owner: string)
    | UnlockStep(paths: seq<Path>, owner: string)
    | InvariantStep(inv: S.Invariant)

  ghost function Take(r: Runtime, s: RunStep): Runtime {
    match s
    case EventStep(e, now, walNow, io, order) => SubmitEvent(r, e, now, walNow, io, order)
    case GoalStep(g, now) => SubmitGoal(r, g, now)
    case TickStep(listing, now) => Tick(r, listing, now)
    case LockStep(paths, owner) => r.(state := r.state.(locks := L.Lock(r.state.locks, paths, owner).0))
    case UnlockStep(paths, owner) => r.(state := r.state.(locks := L.Unlock(r.state.locks, paths, owner)))
    case InvariantStep(inv) => r.(state := r.state.(invariants := r.state.invariants + [inv]))
  }

  ghost function Run(r: Runtime, steps: seq<RunStep>): Runtime {
    if steps == [] then r else Take(Run(r, steps[..|steps| - 1]), steps[|steps| - 1])
  }

  lemma PrefixOfPrefix<T>(s: seq<T>, j: nat, k: nat)
    requires j <= k <= |s|
    ensures s[..k][..j] == s[..j]
  {
  }

  // ---------- replay refines live execution ----------

  /** Every event of the run can be replayed: it carries one kind of change, or two that
      do not touch each other, and was not refused for a lock or an invariant. */
  ghost predicate ReplayableRun(r: Runtime, steps: seq<RunStep>) {
    forall k :: 0 <= k < |steps| && steps[k].EventStep? ==>
      S.Replayable(Run(r, steps[..k]).state, steps[k].event)
  }

  /** The step submits an event that gets into the log. */
  predicate Logs(r: Runtime, s: RunStep) {
    s.EventStep? && r.running && G.Append(r.log, r.wal, s.event, s.now, s.walNow, s.io).2.Some?
  }

  /** 1 when the step logs an event and then refuses it. */
  ghost function Refuses(r: Runtime, s: RunStep): nat {
    if Logs(r, s) && S.Refusal(r.state, s.event).Some? then 1 else 0
  }

  ghost function Refused(r: Runtime, steps: seq<RunStep>): nat {
    if steps == [] then 0
    else Refused(r, steps[..|steps| - 1]) + Refuses(Run(r, steps[..|steps| - 1]), steps[|steps| - 1])
  }

  /** Position i of the log carries clock i + 1, the live clocks agree, and replaying the log gives the data. */
  ghost predicate Replayed(r: Runtime) {
    && (forall i :: 0 <= i < |r.log.events| ==> r.log.events[i].clock == i + 1)
    && r.log.clock == |r.log.events|
    && r.clock == r.state.clock
    && r.running
    && S.Replay(r.log.events) == r.state.data
  }

  lemma ReplayAppend(events: seq<Event>, e: Event)
    ensures S.Replay(events + [e]) == S.ReplayEvent(S.Replay(events), e)
  {
    assert (events + [e])[..|events|] == events;
  }

  /** Appending an event to a log that replays to the data, and applying it, gives such a log again. */
  lemma AppendReplays(log: G.Log, wal: Option<G.Wal>, state: S.State, e: Event, now: int, walNow: int, io: G.IO)
    requires S.Replay(log.events) == state.data && S.Replayable(state, e)
    ensures var (log', _, id) := G.Append(log, wal, e, now, walNow, io);
            if id.None? then log' == log else
              && |log'.events| == |log.events| + 1 && log.events <= log'.events
              && log'.clock == log.clock + 1 && log'.events[|log.events|].clock == log'.clock
              && S.Replay(log'.events) == S.ApplyEvent(state, e).data
  {
    var (log', _, id) := G.Append(log, wal, e, now, walNow, io);
    if id.Some? {
      var logged := log'.events[|log.events|];
      assert log'.events == log.events + [logged];
      ReplayAppend(log.events, logged);
      S.ReplayAgrees(state, e);
      assert S.ReplayEvent(state.data, logged) == S.ReplayEvent(state.data, e);
    }
  }

  lemma EventReplays(r: Runtime, s: RunStep)
    requires Replayed(r) && s.EventStep? && S.Replayable(r.state, s.event)
    ensures Replayed(Take(r, s))
    ensures Take(r, s).state.clock + Refuses(r, s) + |r.log.events| == r.state.clock + |Take(r, s).log.events|
  {
    var (log, _, id) := G.Append(r.log, r.wal, s.event, s.now, s.walNow, s.io);
    var t := Take(r, s);
    assert t.log == log && t.running;
    assert t.state == if id.None? then r.state else S.ApplyEvent(r.state, s.event);
    AppendReplays(r.log, r.wal, r.state, s.event, s.now, s.walNow, s.io);
  }

  lemma StepReplays(r: Runtime, s: RunStep)
    requires Replayed(r) && (s.EventStep? ==> S.Replayable(r.state, s.event))
    ensures Replayed(Take(r, s))
    ensures Take(r, s).state.clock + Refuses(r, s) + |r.log.events| == r.state.clock + |Take(r, s).log.events|
  {
    if s.EventStep? {
      EventReplays(r, s);
    } else {
      assert Take(r, s).log == r.log && Take(r, s).state.data == r.state.data;
    }
  }

  lemma ReplayablePrefix(r: Runtime, steps: seq<RunStep>, j: nat)
    requires ReplayableRun(r, steps) && j <= |steps|
    ensures ReplayableRun(r, steps[..j])
  {
    forall k | 0 <= k < j && steps[..j][k].EventStep?
      ensures S.Replayable(Run(r, steps[..j][..k]).state, steps[..j][k].event)
    {
      PrefixOfPrefix(steps, k, j);
    }
  }

  lemma {:induction false} RunReplays(r: Runtime, steps: seq<RunStep>)
    requires ReplayableRun(r, steps) && Replayed(r)
    ensures Replayed(Run(r, steps))
    ensures Run(r, steps).state.clock + Refused(r, steps) + |r.log.events| == r.state.clock + |Run(r, steps).log.events|
  {
    if steps != [] {
      var n := |steps| - 1;
      ReplayablePrefix(r, steps, n);
      RunReplays(r, steps[..n]);
      StepReplays(Run(r, steps[..n]), steps[n]);
    }
  }

  /** Reconstructing the log yields the live data, mutator errors included; the live
      clock is the replayed clock less the refused events. */
  lemma {:induction false} ReplayRefinesLive(persistent: bool, steps: seq<RunStep>)
    requires ReplayableRun(New(persistent), steps)
    ensures var r := Run(New(persistent), steps);
            && S.Replay(r.log.events) == r.state.data
            && r.clock == r.state.clock
            && r.state.clock + Refused(New(persistent), steps) == S.ReplayClock(r.log.events)
  {
    RunReplays(New(persistent), steps);
  }

  // ---------- when replay agrees throughout a run ----------

  ghost predicate ReplaysTo(r: Runtime) { S.Replay(r.log.events) == r.state.data }

  /** After every step of the run the log replays to the live data. */
  ghost predicate ReplaysThroughout(r: Runtime, steps: seq<RunStep>) {
    forall j :: 0 <= j <= |steps| ==> ReplaysTo(Run(r, steps[..j]))
  }

  /** Every logged event is harmless to replay where it was submitted. */
  ghost predicate HarmlessRun(r: Runtime, steps: seq<RunStep>) {
    forall k :: 0 <= k < |steps| ==> HarmlessStep(Run(r, steps[..k]), steps[k])
  }

  ghost predicate HarmlessStep(r: Runtime, s: RunStep) {
    Logs(r, s) ==> S.ReplayHarmless(r.state, s.event)
  }

  predicate OneKindRun(steps: seq<RunStep>) {
    forall k :: 0 <= k < |steps| && steps[k].EventStep? ==> S.OneKind(steps[k].event)
  }

  lemma AppendReplaysIff(log: G.Log, wal: Option<G.Wal>, state: S.State, e: Event, now: int, walNow: int, io: G.IO)
    requires S.Replay(log.events) == state.data && S.OneKind(e)
    requires G.Append(log, wal, e, now, walNow, io).2.Some?
    ensures S.Replay(G.Append(log, wal, e, now, walNow, io).0.events) == S.ApplyEvent(state, e).data <==>
            S.ReplayHarmless(state, e)
  {
    var (log', _, _) := G.Append(log, wal, e, now, walNow, io);
    var logged := log'.events[|log.events|];
    assert log'.events == log.events + [logged];
    ReplayAppend(log.events, logged);
    assert S.ReplayEvent(state.data, logged) == S.ReplayEvent(state.data, e);
    S.ReplayAgreesIff(state, e);
  }

  lemma LoggedStep(r: Runtime, s: RunStep)
    requires Logs(r, s)
    ensures Take(r, s).state == S.ApplyEvent(r.state, s.event)
    ensures Take(r, s).log == G.Append(r.log, r.wal, s.event, s.now, s.walNow, s.io).0
  {
  }

  lemma StepReplaysIff(r: Runtime, s: RunStep)
    requires r.running && ReplaysTo(r) && (s.EventStep? ==> S.OneKind(s.event))
    ensures ReplaysTo(Take(r, s)) <==> HarmlessStep(r, s)
  {
    if Logs(r, s) {
      LoggedStep(r, s);
      AppendReplaysIff(r.log, r.wal, r.state, s.event, s.now, s.walNow, s.io);
    } else {
      assert Take(r, s).log.events == r.log.events && Take(r, s).state.data == r.state.data;
    }
  }

  lemma {:induction false} RunsOn(persistent: bool, steps: seq<RunStep>)
    ensures Run(New(persistent), steps).running
  {
    if steps != [] { RunsOn(persistent, steps[..|steps| - 1]); }
  }

  lemma OneStepMore(r: Runtime, steps: seq<RunStep>, k: nat)
    requires k < |steps|
    ensures Run(r, steps[..k + 1]) == Take(Run(r, steps[..k]), steps[k])
  {
    assert steps[..k + 1][..k] == steps[..k];
  }

  lemma {:induction false} HarmlessReplays(persistent: bool, steps: seq<RunStep>, j: nat)
    requires OneKindRun(steps) && HarmlessRun(New(persistent), steps) && j <= |steps|
    ensures ReplaysTo(Run(New(persistent), steps[..j]))
    decreases j
  {
    if j > 0 {
      HarmlessReplays(persistent, steps, j - 1);
      RunsOn(persistent, steps[..j - 1]);
      assert HarmlessStep(Run(New(persistent), steps[..j - 1]), steps[j - 1]);
      StepReplaysIff(Run(New(persistent), steps[..j - 1]), steps[j - 1]);
      OneStepMore(New(persistent), steps, j - 1);
    }
  }

  /** In a run of events with one kind of change each, the log replays to the live data after
      every step exactly when every logged event is harmless where it is submitted. */
  lemma ReplaysThroughoutIff(persistent: bool, steps: seq<RunStep>)
    requires OneKindRun(steps)
    ensures ReplaysThroughout(New(persistent), steps) <==> HarmlessRun(New(persistent), steps)
  {
    if ReplaysThroughout(New(persistent), steps) {
      forall k | 0 <= k < |steps| ensures HarmlessStep(Run(New(persistent), steps[..k]), steps[k]) {
        assert ReplaysTo(Run(New(persistent), steps[..k])) && ReplaysTo(Run(New(persistent), steps[..k + 1]));
        RunsOn(persistent, steps[..k]);
        OneStepMore(New(persistent), steps, k);
        StepReplaysIff(Run(New(persistent), steps[..k]), steps[k]);
      }
    }
    if HarmlessRun(New(persistent), steps) {
      forall j | 0 <= j <= |steps| ensures ReplaysTo(Run(New(persistent), steps[..j])) {
        HarmlessReplays(persistent, steps, j);
      }
    }
  }

  // ---------- the runtime's own replay ----------

  /** Replay after such a run leaves the data as they are; only the clock catches up with the refused events. */
  lemma {:induction false} ReplayKeepsData(persistent: bool, steps: seq<RunStep>)
    requires ReplayableRun(New(persistent), steps)
    ensures var r := Run(New(persistent), steps);
            && ReplayLog(r).state.data == r.state.data && ReplayLog(r).state.locks == r.state.locks
            && ReplayLog(r).state.clock == r.state.clock + Refused(New(persistent), steps)
            && ReplayLog(r).log == r.log && ReplayLog(r).engine == r.engine && ReplayLog(r).clock == r.clock
  {
    ReplayRefinesLive(persistent, steps);
    G.ReplayAll(Run(New(persistent), steps).log.events);
  }

  // ---------- locks ----------

  /** The lock acquisitions of a run that were not released in it. */
  ghost function Held(steps: seq<RunStep>): L.Held {
    if steps == [] then multiset{}
    else
      var h := Held(steps[..|steps| - 1]);
      match steps[|steps| - 1]
      case LockStep(paths, owner) => if "" in paths then h else L.Acquire(h, paths, owner)
      case UnlockStep(paths, owner) => L.Release(h, paths, owner)
      case _ => h
  }

  ghost predicate NamedOwners(steps: seq<RunStep>) {
    forall k :: 0 <= k < |steps| ==>
      && (steps[k].LockStep? ==> steps[k].owner != "")
      && (steps[k].UnlockStep? ==> steps[k].owner != "")
  }

  /** In every run of the kernel the lock table counts the unreleased acquisitions. */
  lemma {:induction false} RunRepresents(persistent: bool, steps: seq<RunStep>)
    requires NamedOwners(steps)
    ensures L.Represents(Run(New(persistent), steps).state.locks, Held(steps))
  {
    if steps != [] {
      var n := |steps| - 1;
      RunRepresents(persistent, steps[..n]);
      var locks, h := Run(New(persistent), steps[..n]).state.locks, Held(steps[..n]);
      match steps[n]
      case LockStep(paths, owner) => if "" !in paths { L.LockRepresents(locks, h, paths, owner); }
      case UnlockStep(paths, owner) => L.UnlockRepresents(locks, h, paths, owner);
      case _ =>
    }
  }

  /** An event is refused as locked exactly when it declares a path that somebody has
      acquired and not released; such an event leaves state, goals and clock as they were. */
  lemma {:induction false} HeldPathsRefuse(persistent: bool, steps: seq<RunStep>, s: RunStep)
    requires NamedOwners(steps) && s.EventStep?
    ensures var r := Run(New(persistent), steps);
            S.Refusal(r.state, s.event) == Some(S.ErrPathLocked) <==>
            exists p, o :: p in s.event.writePaths && (p, o) in Held(steps)
    ensures var r := Run(New(persistent), steps);
            S.Refusal(r.state, s.event).Some? ==>
              Take(r, s).state == r.state && Take(r, s).engine == r.engine && Take(r, s).clock == r.clock
  {
    RunRepresents(persistent, steps);
    var locks, h := Run(New(persistent), steps).state.locks, Held(steps);
    forall p, o | (p, o) in h ensures S.IsHeld(locks, p) { L.OneOwner(locks, h, p, o, o); }
    forall p | S.IsHeld(locks, p) ensures (p, locks[p].owner) in h {
      assert h[(p, locks[p].owner)] == locks[p].refs;
    }
  }

  // ---------- invariants ----------

  /** Events carry no declarative mutations, and invariants are registered while they hold. */
  ghost predicate GuardedRun(r: Runtime, steps: seq<RunStep>) {
    forall k :: 0 <= k < |steps| ==> GuardedStep(Run(r, steps[..k]), steps[k])
  }

  ghost predicate GuardedStep(r: Runtime, s: RunStep) {
    match s
    case EventStep(e, _, _, _, _) => e.mutations == []
    case InvariantStep(inv) => P.Holds(inv.predicate_, r.state.data)
    case _ => true
  }

  lemma GuardedStepKeeps(r: Runtime, s: RunStep)
    requires S.InvariantsHold(r.state.invariants, r.state.data) && GuardedStep(r, s)
    ensures S.InvariantsHold(Take(r, s).state.invariants, Take(r, s).state.data)
  {
    if s.EventStep? { S.MutatorKeepsInvariants(r.state, s.event); }
  }

  /** In a run of mutator-only events every registered invariant holds in every reachable state. */
  lemma {:induction false} InvariantsAlwaysHold(persistent: bool, steps: seq<RunStep>)
    requires GuardedRun(New(persistent), steps)
    ensures var s := Run(New(persistent), steps).state; S.InvariantsHold(s.invariants, s.data)
  {
    if steps != [] {
      var n := |steps| - 1;
      forall k | 0 <= k < n ensures GuardedStep(Run(New(persistent), steps[..n][..k]), steps[..n][k]) {
        PrefixOfPrefix(steps, k, n);
      }
      InvariantsAlwaysHold(persistent, steps[..n]);
      GuardedStepKeeps(Run(New(persistent), steps[..n]), steps[n]);
    }
  }

  // ---------- time travel ----------

  lemma StepLogs(r: Runtime, s: RunStep)
    ensures r.log.events <= Take(r, s).log.events && |Take(r, s).log.events| <= |r.log.events| + 1
  {
  }

  lemma {:induction false} LogGrows(r: Runtime, steps: seq<RunStep>, j: nat)
    requires j <= |steps|
    ensures Run(r, steps[..j]).log.events <= Run(r, steps).log.events
  {
    if j == |steps| {
      assert steps[..j] == steps;
    } else {
      var n := |steps| - 1;
      PrefixOfPrefix(steps, j, n);
      LogGrows(r, steps[..n], j);
      StepLogs(Run(r, steps[..n]), steps[n]);
    }
  }

  lemma LoggedAs(r: Runtime, s: RunStep)
    requires |Take(r, s).log.events| > |r.log.events|
    ensures Logs(r, s)
    ensures Take(r, s).log.events[|r.log.events|] ==
            s.event.(id := Take(r, s).log.events[|r.log.events|].id, clock := r.log.clock + 1, timestamp := s.now)
  {
  }

  lemma StepClock(r: Runtime, s: RunStep)
    requires r.log.clock == |r.log.events|
    ensures Take(r, s).log.clock == |Take(r, s).log.events|
  {
  }

  lemma {:induction false} RunClocks(persistent: bool, steps: seq<RunStep>)
    ensures Run(New(persistent), steps).log.clock == |Run(New(persistent), steps).log.events|
  {
    if steps != [] {
      RunClocks(persistent, steps[..|steps| - 1]);
      StepClock(Run(New(persistent), steps[..|steps| - 1]), steps[|steps| - 1]);
    }
  }

  /** Position i of the log holds the event of the step that found i events there: as submitted,
      with clock i + 1 and the time of that step. */
  lemma {:induction false} RunStamps(persistent: bool, steps: seq<RunStep>, i: nat) returns (k: nat)
    requires i < |Run(New(persistent), steps).log.events|
    ensures k < |steps| && Logs(Run(New(persistent), steps[..k]), steps[k])
    ensures |Run(New(persistent), steps[..k]).log.events| == i
    ensures var logged := Run(New(persistent), steps).log.events[i];
            logged == steps[k].event.(id := logged.id, clock := i + 1, timestamp := steps[k].now)
  {
    var n := |steps| - 1;
    var u := Run(New(persistent), steps[..n]);
    StepLogs(u, steps[n]);
    if i < |u.log.events| {
      k := RunStamps(persistent, steps[..n], i);
      PrefixOfPrefix(steps, k, n);
    } else {
      k := n;
      RunClocks(persistent, steps[..n]);
      LoggedAs(u, steps[n]);
    }
  }

  /** `seen` is the part of the log stamped at or before `t`. */
  ghost predicate SeenBy(events: seq<Event>, t: int, seen: seq<Event>) {
    forall i :: 0 <= i < |events| ==> (events[i].timestamp <= t <==> i < |seen|)
  }

  lemma CutReplays(r: Runtime, u: Runtime, t: int)
    requires u.log.events <= r.log.events && SeenBy(r.log.events, t, u.log.events) && t != 0
    ensures Rewind(r, t).state.data == S.Replay(u.log.events)
  {
    G.ReplayUntilCuts(r.log.events, t, |u.log.events|);
    assert r.log.events[..|u.log.events|] == u.log.events;
  }

  /** With non-decreasing stamps, Rewind(t) restores the data as they stood after the
      last event stamped at or before `t`. */
  lemma {:induction false} RewindRestores(persistent: bool, steps: seq<RunStep>, t: int, j: nat)
    requires ReplayableRun(New(persistent), steps) && t != 0 && j <= |steps|
    requires SeenBy(Run(New(persistent), steps).log.events, t, Run(New(persistent), steps[..j]).log.events)
    ensures var r, u := Run(New(persistent), steps), Run(New(persistent), steps[..j]);
            var back := Rewind(r, t);
            && back.state.data == u.state.data
            && back.state.locks == r.state.locks && back.state.invariants == r.state.invariants
            && back.clock == back.state.clock == |u.log.events| && back.state.version == 1
  {
    LogGrows(New(persistent), steps, j);
    CutReplays(Run(New(persistent), steps), Run(New(persistent), steps[..j]), t);
    G.ReplayUntilCuts(Run(New(persistent), steps).log.events, t, |Run(New(persistent), steps[..j]).log.events|);
    ReplayablePrefix(New(persistent), steps, j);
    RunReplays(New(persistent), steps[..j]);
  }

  lemma {:induction false} RunLogged(r: Runtime, steps: seq<RunStep>, k: nat) returns (j: nat)
    requires |r.log.events| <= k <= |Run(r, steps).log.events|
    ensures j <= |steps| && |Run(r, steps[..j]).log.events| == k
    decreases |steps|
  {
    if k == |Run(r, steps).log.events| {
      assert steps[..|steps|] == steps;
      return |steps|;
    }
    var n := |steps| - 1;
    StepLogs(Run(r, steps[..n]), steps[n]);
    j := RunLogged(r, steps[..n], k);
    PrefixOfPrefix(steps, j, n);
  }

  /** When time does not run backwards, every `t` has such a point in the run. */
  lemma {:induction false} RewindPoint(persistent: bool, steps: seq<RunStep>, t: int) returns (j: nat)
    requires G.NonDecreasing(Run(New(persistent), steps).log.events)
    ensures j <= |steps|
    ensures SeenBy(Run(New(persistent), steps).log.events, t, Run(New(persistent), steps[..j]).log.events)
  {
    var k := G.CutPoint(Run(New(persistent), steps).log.events, t);
    j := RunLogged(New(persistent), steps, k);
  }

  /** Rewind leaves the log alone, so rewinding first elsewhere changes nothing. */
  lemma RewindForgets(r: Runtime, t: int, u: int)
    ensures Rewind(r, t).log == r.log && Rewind(r, t).engine == r.engine
    ensures Rewind(Rewind(r, t), u) == Rewind(r, u)
  {
  }

  // ---------- restart ----------

  /** The run kept log and file in step: no write failed. */
  ghost predicate AllWritten(steps: seq<RunStep>) {
    forall k :: 0 <= k < |steps| && steps[k].EventStep? ==> steps[k].io == G.Written
  }

  ghost predicate MutationsOnly(steps: seq<RunStep>) {
    forall k :: 0 <= k < |steps| && steps[k].EventStep? ==> steps[k].event.mutator.None?
  }

  lemma {:induction false} RunLockstep(steps: seq<RunStep>)
    requires AllWritten(steps)
    ensures var r := Run(New(true), steps);
            r.running && r.wal.Some? && G.Lockstep(r.log, r.wal.value)
  {
    if steps != [] {
      var n := |steps| - 1;
      RunLockstep(steps[..n]);
      var u := Run(New(true), steps[..n]);
      match steps[n]
      case EventStep(e, now, walNow, io, order) => G.AppendLockstepIff(u.log, u.wal.value, e, now, walNow, io);
      case _ =>
    }
  }

  /** How many events of the run met a failed write or sync. */
  function Failures(steps: seq<RunStep>): nat {
    if steps == [] then 0
    else
      var s := steps[|steps| - 1];
      Failures(steps[..|steps| - 1]) + if s.EventStep? && s.io != G.Written then 1 else 0
  }

  lemma {:induction false} NoFailuresIff(steps: seq<RunStep>)
    ensures Failures(steps) == 0 <==> AllWritten(steps)
  {
    if steps != [] {
      var n := |steps| - 1;
      NoFailuresIff(steps[..n]);
      if AllWritten(steps) { assert AllWritten(steps[..n]); }
      if AllWritten(steps[..n]) && !(steps[n].EventStep? && steps[n].io != G.Written) {
        forall k | 0 <= k < |steps| && steps[k].EventStep? ensures steps[k].io == G.Written {
          if k < n { assert steps[..n][k] == steps[k]; }
        }
      }
    }
  }

  lemma StepCounts(r: Runtime, s: RunStep)
    requires r.running && r.wal.Some?
    ensures var t := Take(r, s);
            && t.running && t.wal.Some?
            && t.wal.value.eventCount - r.wal.value.eventCount ==
               |t.log.events| - |r.log.events| + (if s.EventStep? && s.io != G.Written then 1 else 0)
  {
    if s.EventStep? {
      var (log, wal, id) := G.Append(r.log, r.wal, s.event, s.now, s.walNow, s.io);
      assert Take(r, s).log == log && Take(r, s).wal == wal;
    }
  }

  /** The file's counter runs ahead of the log by the failed writes. */
  lemma {:induction false} RunCounts(steps: seq<RunStep>)
    ensures var r := Run(New(true), steps);
            r.running && r.wal.Some? && r.wal.value.eventCount == |r.log.events| + Failures(steps)
  {
    if steps != [] {
      var n := |steps| - 1;
      RunCounts(steps[..n]);
      StepCounts(Run(New(true), steps[..n]), steps[n]);
    }
  }

  /** Log and file are in step after a run exactly when no write of it failed. */
  lemma RunLockstepIff(steps: seq<RunStep>)
    ensures var r := Run(New(true), steps);
            r.wal.Some? && (G.Lockstep(r.log, r.wal.value) <==> AllWritten(steps))
  {
    RunCounts(steps);
    NoFailuresIff(steps);
    if AllWritten(steps) { RunLockstep(steps); }
  }

  /** Without a file the log is in step with itself: position i holds id and clock i + 1. */
  lemma {:induction false} RunSequential(steps: seq<RunStep>)
    ensures var r := Run(New(false), steps);
            r.running && r.wal.None? && G.Sequential(r.log)
  {
    if steps != [] {
      var n := |steps| - 1;
      RunSequential(steps[..n]);
      var u := Run(New(false), steps[..n]);
      match steps[n]
      case EventStep(e, now, walNow, io, order) => G.AppendSequential(u.log, e, now, walNow, io);
      case _ =>
    }
  }

  lemma {:induction false} RunMutationsOnly(steps: seq<RunStep>)
    requires MutationsOnly(steps)
    ensures forall i :: 0 <= i < |Run(New(true), steps).log.events| ==>
              Run(New(true), steps).log.events[i].mutator.None?
  {
    if steps != [] { RunMutationsOnly(steps[..|steps| - 1]); }
  }

  lemma {:induction false} ReplaySame(a: seq<Event>, b: seq<Event>)
    requires |a| == |b|
    requires forall i :: 0 <= i < |a| ==> a[i].mutator == b[i].mutator == None && a[i].mutations == b[i].mutations
    ensures S.Replay(a) == S.Replay(b)
  {
    if a != [] { ReplaySame(a[..|a| - 1], b[..|b| - 1]); }
  }

  /** After a run of accepted mutation-only events, a new runtime over the same file has
      the same data, clocks, ids and counters. */
  lemma {:induction false} RestartSame(steps: seq<RunStep>)
    requires AllWritten(steps) && MutationsOnly(steps)
    requires ReplayableRun(New(true), steps) && Refused(New(true), steps) == 0
    ensures var r := Run(New(true), steps);
            r.wal.Some? &&
            var s := Restart(r.wal.value);
            && s.state.data == r.state.data && s.state.clock == r.state.clock && s.clock == r.clock
            && s.log.nextID == r.log.nextID && s.log.clock == r.log.clock
            && G.Recover(r.wal.value.entries) == r.wal.value
  {
    var r := Run(New(true), steps);
    RunLockstep(steps);
    RunMutationsOnly(steps);
    G.RestartFaithful(r.log, r.wal.value);
    ReplayRefinesLive(true, steps);
    var loaded := G.Load(r.wal.value).events;
    forall i | 0 <= i < |loaded| ensures loaded[i].mutations == r.log.events[i].mutations {
      assert loaded[i].(timestamp := r.log.events[i].timestamp) == r.log.events[i].(mutator := None);
    }
    ReplaySame(loaded, r.log.events);
  }
}
