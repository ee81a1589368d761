/** Which conditions the kernel keeps true for complete goals: exactly the stable
    ones. For any other it reaches a state with a complete goal that is false. */
module HealingExactness {
  import opened Values
  import opened Sorting
  import opened Events
  import opened GoalModel
  import opened SelfHealing
  import opened KernelModel
  import opened KernelHealing
  import G = LogModel
  import P = Programs
  import S = StateModel

  ghost predicate CompleteWith(e: Engine, id: string, c: P.Condition) {
    InState(e, id, Complete) && e.goals[id].condition == Some(c)
  }

  /** In every reachable state, complete goals with this condition are true. */
  ghost predicate HealsInKernel(c: P.Condition) {
    forall persistent, steps, id ::
      AllowedRun(New(persistent), steps) && CompleteWith(Run(New(persistent), steps).engine, id, c) ==>
        P.Holds(c, Run(New(persistent), steps).state.data)
  }

  /** The kernel keeps complete goals with this condition true, in every run, exactly
      when the paths it read while true determine it. */
  lemma HealsInKernelIff(c: P.Condition)
    ensures HealsInKernel(c) <==> Stable(c)
  {
    if Stable(c) {
      forall persistent, steps, id
        | AllowedRun(New(persistent), steps) && CompleteWith(Run(New(persistent), steps).engine, id, c)
        ensures P.Holds(c, Run(New(persistent), steps).state.data)
      {
        RunSound(persistent, steps);
        assert HealedAt(Run(New(persistent), steps).engine, Run(New(persistent), steps).state.data, id);
      }
    } else {
      var steps := UnhealedRun(c);
    }
  }

  /** The indirect condition is not stable, so some run ends with a complete goal for which it is false. */
  lemma IndirectUnhealed() returns (steps: seq<RunStep>)
    ensures AllowedRun(New(false), steps)
    ensures var r := Run(New(false), steps);
            CompleteWith(r.engine, GOAL, IndirectCondition()) && !P.Holds(IndirectCondition(), r.state.data)
  {
    IndirectNotStable();
    steps := UnhealedRun(IndirectCondition());
  }

  // ---------- the run ----------

  const GOAL := "goal"

  /** Declarative mutations that give the paths `ks` the values they have in `d`. */
  function Assignments(ks: seq<Path>, d: Data): seq<StateMutation>
    requires forall k :: k in ks ==> k in d
  {
    seq(|ks|, i requires 0 <= i < |ks| => StateMutation(ks[i], d[ks[i]]))
  }

  function WriteStep(ks: seq<Path>, d: Data, order: seq<string>): RunStep
    requires forall k :: k in ks ==> k in d
  {
    EventStep(Event(0, 0, 0, "", [], ks, None, Assignments(ks, d)), 0, 0, G.Written, order)
  }

  lemma AssignmentsReach(d: Data, ks: seq<Path>, d': Data)
    requires d.Keys <= d'.Keys && WritesDeclared(d, ks, d') && forall k :: k in ks ==> k in d'
    ensures Mutate(d, Assignments(ks, d')) == d'
  {
    var ms := Assignments(ks, d');
    forall p ensures Lookup(Mutate(d, ms), p) == Lookup(d', p) {
      if p in ks {
        var j :| 0 <= j < |ks| && ks[j] == p;
        assert ms[j].path == p;
        var i := LastMention(ms, p);
        MutateLast(d, ms, i);
      } else {
        MutateFrame(d, ms, p);
      }
    }
    SameLookups(Mutate(d, ms), d');
  }

  /** A started kernel without locks and invariants. */
  ghost predicate Open(r: Runtime) {
    r.running && r.wal.None? && r.state.locks == map[] && r.state.invariants == []
  }

  /** An allowed run from a new kernel ends in `r`. */
  ghost predicate Reached(steps: seq<RunStep>, r: Runtime) {
    AllowedRun(New(false), steps) && Run(New(false), steps) == r
  }

  lemma Extend(steps: seq<RunStep>, r: Runtime, s: RunStep)
    requires Reached(steps, r) && Allowed(r, s)
    ensures Reached(steps + [s], Take(r, s))
  {
    var all := steps + [s];
    assert all[..|steps|] == steps;
    forall k | 0 <= k < |all| ensures Allowed(Run(New(false), all[..k]), all[k]) {
      assert all[..k] == steps[..k];
      if k == |steps| { assert steps[..k] == steps; }
    }
  }

  /** What a declared write does. */
  lemma WriteTaken(r: Runtime, ks: seq<Path>, d: Data, order: seq<string>)
    requires Open(r) && Declares(r.state.data, ks, d) && forall k :: k in ks ==> k in d
    ensures var e := WriteStep(ks, d, order).event;
            S.Refusal(r.state, e).None? && S.ApplyEvent(r.state, e).data == d
    ensures var t := Take(r, WriteStep(ks, d, order));
            Open(t) && t.state.data == d && t.engine == HandleEvent(r.engine, d, ks, order)
  {
    AssignmentsReach(r.state.data, ks, d);
  }

  /** One goal: complete, with condition `c` and recorded paths `deps`. */
  ghost predicate Lone(e: Engine, c: P.Condition, deps: set<Path>) {
    && e.goals.Keys == {GOAL} && CompleteWith(e, GOAL, c)
    && e.goals[GOAL].compensate.None? && DepsOf(e, GOAL) == deps
  }

  /** An event leaves the lone goal alone when it is not rechecked, or found true. */
  lemma HandleLone(e: Engine, c: P.Condition, deps: set<Path>, d: Data, written: seq<Path>)
    requires Lone(e, c, deps) && (Touches(deps, written) ==> P.Holds(c, d))
    ensures HandleEvent(e, d, written, [GOAL]) == e && StartTriggered(e, written, [GOAL]) == e
    ensures GoalIndex.FreshCompensations(e, d, AffectedIn(e, written, [GOAL]))
  {
    ClassifySnoc(e, written, [], GOAL);
    assert [] + [GOAL] == [GOAL];
    assert TriggeredIn(e, written, [GOAL]) == [];
    var affected := AffectedIn(e, written, [GOAL]);
    assert affected in {[], [GOAL]};
    if affected == [GOAL] {
      assert affected[..0] == [] && affected[0] == GOAL;
      assert Affected(e, written, GOAL) && Satisfied(e.goals[GOAL], d);
      assert CompensateAll(e, d, affected) == CompensateOne(e, d, GOAL);
    }
  }

  /** A declared write while the lone goal is not rechecked, or found true. */
  lemma WriteUnseen(r: Runtime, c: P.Condition, deps: set<Path>, ks: seq<Path>, d: Data)
    requires Open(r) && Lone(r.engine, c, deps)
    requires Declares(r.state.data, ks, d) && forall k :: k in ks ==> k in d
    requires Touches(deps, ks) ==> P.Holds(c, d)
    ensures var s := WriteStep(ks, d, [GOAL]);
            && Allowed(r, s) && Open(Take(r, s))
            && Take(r, s).engine == r.engine && Take(r, s).state.data == d
  {
    WriteTaken(r, ks, d, [GOAL]);
    HandleLone(r.engine, c, deps, d, ks);
    assert Enumerates([GOAL], r.engine.goals.Keys);
  }

  predicate StampedZero(events: seq<Event>) {
    forall i :: 0 <= i < |events| ==> events[i].timestamp == 0
  }

  /** From nothing to a state `d`, in one event. */
  lemma FirstWrite(ks: seq<Path>, d: Data)
    requires forall k :: k in ks <==> k in d
    ensures var s := WriteStep(ks, d, []);
            && Allowed(New(false), s) && Open(Take(New(false), s))
            && Take(New(false), s).engine == GoalModel.EMPTY && Take(New(false), s).state.data == d
            && StampedZero(Take(New(false), s).log.events)
  {
    WriteTaken(New(false), ks, d, []);
    assert HandleEvent(GoalModel.EMPTY, d, ks, []) == GoalModel.EMPTY;
  }

  /** The goal as SubmitGoal files it at time 0. */
  function Filed(c: P.Condition): Goal {
    NO_GOAL.(id := GOAL, state := Active, condition := Some(c), startedAt := Some(0))
  }

  lemma SubmitLone(r: Runtime, c: P.Condition)
    requires Open(r) && r.engine == GoalModel.EMPTY
    ensures var t := Take(r, GoalStep(Filed(c), 0));
            && Open(t) && t.state == r.state && t.log == r.log
            && t.engine == GoalModel.EMPTY.(goals := map[GOAL := Filed(c)], active := [GOAL])
  {
  }

  /** Evaluating the goal where its condition holds completes it. */
  lemma TickLone(r: Runtime, c: P.Condition)
    requires Open(r) && P.Holds(c, r.state.data)
    requires r.engine == GoalModel.EMPTY.(goals := map[GOAL := Filed(c)], active := [GOAL])
    ensures var s := TickStep([Filed(c)], 0);
            && Allowed(r, s) && Open(Take(r, s)) && Take(r, s).state == r.state && Take(r, s).log == r.log
            && Lone(Take(r, s).engine, c, P.Reads(c, r.state.data))
  {
    assert Named(r.engine, r.engine.active) == [Filed(c)];
    assert [Filed(c)][..0] == [];
    var t := ProcessGoal(r.engine, r.state.data, Filed(c), 0);
    assert ProcessAll(r.engine, r.state.data, [Filed(c)], 0) == t;
    assert t.goals == map[GOAL := Filed(c).(state := Complete)];
  }

  /** A run that completes the goal in the state `d`. */
  lemma CompletedRun(c: P.Condition, d: Data) returns (steps: seq<RunStep>, r: Runtime)
    requires P.Holds(c, d)
    ensures Reached(steps, r) && Open(r) && Lone(r.engine, c, P.Reads(c, d)) && r.state.data == d
    ensures StampedZero(r.log.events)
  {
    steps, r := [], New(false);
    assert Reached(steps, r);
    var ks := Listing(d.Keys);
    FirstWrite(ks, d);
    steps, r := Then(steps, r, WriteStep(ks, d, []));
    SubmitLone(r, c);
    steps, r := Then(steps, r, GoalStep(Filed(c), 0));
    TickLone(r, c);
    steps, r := Then(steps, r, TickStep([Filed(c)], 0));
  }

  /** Rewinding to before the first event undoes the data, not the goal: any condition that some
      state satisfies and the empty one does not ends up complete and false. */
  lemma RewindUnhealed(c: P.Condition, d: Data) returns (steps: seq<RunStep>)
    requires P.Holds(c, d) && !P.Holds(c, map[])
    ensures AllowedRun(New(false), steps)
    ensures var r := Rewind(Run(New(false), steps), -1);
            CompleteWith(r.engine, GOAL, c) && !P.Holds(c, r.state.data)
  {
    var r;
    steps, r := CompletedRun(c, d);
    assert G.ReplayUntil(r.log.events, -1) == [];
  }

  lemma Then(steps: seq<RunStep>, r: Runtime, s: RunStep) returns (more: seq<RunStep>, t: Runtime)
    requires Reached(steps, r) && Allowed(r, s)
    ensures Reached(more, t) && t == Take(r, s)
  {
    Extend(steps, r, s);
    more, t := steps + [s], Take(r, s);
  }

  /** The first change: any state with the goal still true, and no fewer keys. */
  lemma MoveOn(steps: seq<RunStep>, r: Runtime, c: P.Condition, deps: set<Path>, d: Data)
    returns (more: seq<RunStep>, t: Runtime)
    requires Reached(steps, r) && Open(r) && Lone(r.engine, c, deps)
    requires r.state.data.Keys <= d.Keys && (AgreeOn(deps, r.state.data, d) || P.Holds(c, d))
    ensures Reached(more, t) && Open(t) && Lone(t.engine, c, deps) && t.state.data == d
  {
    var changed := set p | p in d.Keys && Lookup(r.state.data, p) != Lookup(d, p);
    var ks := Listing(changed);
    if AgreeOn(deps, r.state.data, d) {
      forall i | 0 <= i < |ks| ensures ks[i] !in deps { assert ks[i] in ks; }
    }
    WriteUnseen(r, c, deps, ks, d);
    more, t := Then(steps, r, WriteStep(ks, d, [GOAL]));
  }

  /** For a condition that is not stable: complete the goal, move on to another state that
      satisfies it, then spoil it outside the recorded paths. */
  lemma UnhealedRun(c: P.Condition) returns (steps: seq<RunStep>)
    requires !Stable(c)
    ensures AllowedRun(New(false), steps)
    ensures CompleteWith(Run(New(false), steps).engine, GOAL, c)
    ensures !P.Holds(c, Run(New(false), steps).state.data)
  {
    var d, d1, d2 := Unstable(c);
    var r;
    steps, r := CompletedRun(c, d);
    steps, r := MoveOn(steps, r, c, P.Reads(c, d), d1);
    steps, r := MoveOn(steps, r, c, P.Reads(c, d), d2);
  }

  lemma Unstable(c: P.Condition) returns (d: Data, d1: Data, d2: Data)
    requires !Stable(c)
    ensures P.Holds(c, d) && P.Holds(c, d1) && !P.Holds(c, d2)
    ensures d.Keys <= d1.Keys <= d2.Keys && AgreeOn(P.Reads(c, d), d1, d2)
  {
    d :| P.Holds(c, d) && !Determined(c, P.Reads(c, d), d);
    d1, d2 :|
      d.Keys <= d1.Keys <= d2.Keys && AgreeOn(P.Reads(c, d), d1, d2) && P.Holds(c, d1) && !P.Holds(c, d2);
  }
}
