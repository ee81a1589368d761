/** How processGoals launches plans (runtime/kernel.go:225-277): one launcher and
    any number of plan goroutines, one step of one of them at a time. */
module PlanLauncher {

  const CAPACITY := 100

  /** Where a plan goroutine is: executing, then its deferred steps in their order. */
  datatype Phase = Executing | WaitDone | Released | Finished

  datatype Plan = Plan(goal: string, phase: Phase)

  /** Where the launcher is within one goal's iteration. */
  datatype Launcher = Idle | Checked(goal: string) | Acquired(goal: string) | Marked(goal: string)

  datatype System = System(
    launcher: Launcher,
    tokens: nat,               // messages in the planSem channel
    activePlans: set<string>,
    plans: map<nat, Plan>,
    launched: nat,
    waiting: nat,              // the wait group's count of plans
    acquired: nat,             // tokens ever taken
    releases: map<nat, nat>)   // how often each plan gave one back

  const START := System(Idle, 0, {}, map[], 0, 0, 0, map[])

  datatype Step =
    | Check(goal: string)   // no active plan for this goal
    | Skip                  // nothing to plan, or no capacity
    | Acquire
    | Mark
    | Launch
    | DoneWaiting(plan: nat)
    | Release(plan: nat)
    | Unmark(plan: nat)

  predicate InPhase(s: System, i: nat, p: Phase) { i in s.plans && s.plans[i].phase == p }

  predicate Enabled(s: System, step: Step) {
    match step
    case Check(g) => s.launcher == Idle && g !in s.activePlans
    case Skip => s.launcher.Checked?
    case Acquire => s.launcher.Checked? && s.tokens < CAPACITY
    case Mark => s.launcher.Acquired?
    case Launch => s.launcher.Marked?
    case DoneWaiting(i) => InPhase(s, i, Executing) && s.waiting > 0
    case Release(i) => InPhase(s, i, WaitDone) && s.tokens > 0 && i in s.releases
    case Unmark(i) => InPhase(s, i, Released)
  }

  function DoLaunch(s: System): System
    requires s.launcher.Marked?
  {
    s.(launcher := Idle, launched := s.launched + 1, waiting := s.waiting + 1,
       plans := s.plans[s.launched := Plan(s.launcher.goal, Executing)],
       releases := s.releases[s.launched := 0])
  }

  function WithPhase(s: System, i: nat, p: Phase): System
    requires i in s.plans
  {
    s.(plans := s.plans[i := s.plans[i].(phase := p)])
  }

  function Take(s: System, step: Step): System
    requires Enabled(s, step)
  {
    match step
    case Check(g) => s.(launcher := Checked(g))
    case Skip => s.(launcher := Idle)
    case Acquire => s.(launcher := Acquired(s.launcher.goal), tokens := s.tokens + 1, acquired := s.acquired + 1)
    case Mark => s.(launcher := Marked(s.launcher.goal), activePlans := s.activePlans + {s.launcher.goal})
    case Launch => DoLaunch(s)
    case DoneWaiting(i) => WithPhase(s, i, WaitDone).(waiting := s.waiting - 1)
    case Release(i) =>
      WithPhase(s, i, Released).(tokens := s.tokens - 1, releases := s.releases[i := s.releases[i] + 1])
    case Unmark(i) => WithPhase(s, i, Finished).(activePlans := s.activePlans - {s.plans[i].goal})
  }

  // ---------- the invariant ----------

  function InPhases(plans: map<nat, Plan>, phases: set<Phase>): set<nat> {
    set i | i in plans && plans[i].phase in phases
  }

  /** Plans that hold a token. */
  function Holding(s: System): set<nat> { InPhases(s.plans, {Executing, WaitDone}) }

  function Executes(s: System): set<nat> { InPhases(s.plans, {Executing}) }

  function Returned(s: System): set<nat> { InPhases(s.plans, {Released, Finished}) }

  predicate GaveBack(p: Plan) { p.phase == Released || p.phase == Finished }

  predicate Live(s: System, i: nat) { i in s.plans && s.plans[i].phase != Finished }

  /** The goals of the plans under way. */
  function LiveGoals(s: System): set<string> { set i | i in s.plans && s.plans[i].phase != Finished :: s.plans[i].goal }

  ghost predicate Counted(s: System) {
    && s.tokens == |Holding(s)| + (if s.launcher.Acquired? || s.launcher.Marked? then 1 else 0)
    && s.tokens <= CAPACITY
    && s.waiting == |Executes(s)|
    && s.acquired == s.tokens + |Returned(s)|
  }

  ghost predicate ReleasedOnce(s: System) {
    && s.releases.Keys == s.plans.Keys
    && forall i :: i in s.plans ==> i < s.launched && s.releases[i] == if GaveBack(s.plans[i]) then 1 else 0
  }

  /** The marks are the goals of the live plans, one plan each, and the one the launcher just set. */
  ghost predicate Exclusive(s: System) {
    && s.activePlans == LiveGoals(s) + (if s.launcher.Marked? then {s.launcher.goal} else {})
    && (forall i, j :: Live(s, i) && Live(s, j) && i != j ==> s.plans[i].goal != s.plans[j].goal)
    && (!s.launcher.Idle? ==> s.launcher.goal !in LiveGoals(s))
  }

  ghost predicate Inv(s: System) { Counted(s) && ReleasedOnce(s) && Exclusive(s) }

  lemma MovePhase(plans: map<nat, Plan>, i: nat, p: Phase, phases: set<Phase>)
    requires i in plans
    ensures |InPhases(plans[i := plans[i].(phase := p)], phases)| ==
            |InPhases(plans, phases)| - (if plans[i].phase in phases then 1 else 0) + (if p in phases then 1 else 0)
  {
    var a, b := InPhases(plans, phases), InPhases(plans[i := plans[i].(phase := p)], phases);
    assert b == a - {i} + (if p in phases then {i} else {});
    assert i in a <==> plans[i].phase in phases;
    if i in a { assert a == a - {i} + {i}; } else { assert a == a - {i}; }
  }

  lemma AddPlan(plans: map<nat, Plan>, i: nat, plan: Plan, phases: set<Phase>)
    requires i !in plans
    ensures InPhases(plans[i := plan], phases) == InPhases(plans, phases) + (if plan.phase in phases then {i} else {})
  {
  }

  lemma LaunchCounts(s: System)
    requires s.launcher.Marked? && s.launched !in s.plans
    ensures Holding(DoLaunch(s)) == Holding(s) + {s.launched}
    ensures Executes(DoLaunch(s)) == Executes(s) + {s.launched}
    ensures Returned(DoLaunch(s)) == Returned(s)
    ensures |Holding(DoLaunch(s))| == |Holding(s)| + 1 && |Executes(DoLaunch(s))| == |Executes(s)| + 1
  {
    var plan := Plan(s.launcher.goal, Executing);
    AddPlan(s.plans, s.launched, plan, {Executing, WaitDone});
    AddPlan(s.plans, s.launched, plan, {Executing});
    AddPlan(s.plans, s.launched, plan, {Released, Finished});
    assert s.launched !in Holding(s) && s.launched !in Executes(s);
  }

  lemma MoveCounts(s: System, i: nat, p: Phase)
    requires i in s.plans
    ensures |Holding(WithPhase(s, i, p))| ==
            |Holding(s)| - (if s.plans[i].phase in {Executing, WaitDone} then 1 else 0)
                         + (if p in {Executing, WaitDone} then 1 else 0)
    ensures |Executes(WithPhase(s, i, p))| ==
            |Executes(s)| - (if s.plans[i].phase in {Executing} then 1 else 0) + (if p in {Executing} then 1 else 0)
    ensures |Returned(WithPhase(s, i, p))| ==
            |Returned(s)| - (if s.plans[i].phase in {Released, Finished} then 1 else 0)
                          + (if p in {Released, Finished} then 1 else 0)
  {
    MovePhase(s.plans, i, p, {Executing, WaitDone});
    MovePhase(s.plans, i, p, {Executing});
    MovePhase(s.plans, i, p, {Released, Finished});
  }

  lemma StepCounts(s: System, step: Step)
    requires Counted(s) && ReleasedOnce(s) && Enabled(s, step)
    ensures Counted(Take(s, step))
  {
    match step
    case Launch => LaunchCounts(s);
    case DoneWaiting(i) => MoveCounts(s, i, WaitDone);
    case Release(i) => MoveCounts(s, i, Released);
    case Unmark(i) => MoveCounts(s, i, Finished);
    case _ =>
  }

  lemma StepReleases(s: System, step: Step)
    requires ReleasedOnce(s) && Enabled(s, step)
    ensures ReleasedOnce(Take(s, step))
  {
  }

  lemma LaunchLiveGoals(s: System)
    requires s.launcher.Marked? && s.launched !in s.plans
    ensures LiveGoals(DoLaunch(s)) == LiveGoals(s) + {s.launcher.goal}
    ensures forall i :: Live(DoLaunch(s), i) <==> Live(s, i) || i == s.launched
    ensures forall i :: Live(s, i) ==> DoLaunch(s).plans[i] == s.plans[i] && s.plans[i].goal in LiveGoals(s)
  {
    var t := DoLaunch(s);
    assert t.plans[s.launched] == Plan(s.launcher.goal, Executing);
    assert forall i :: i in s.plans ==> t.plans[i] == s.plans[i];
    assert t.plans.Keys == s.plans.Keys + {s.launched};
  }

  lemma MoveLiveGoals(s: System, i: nat, p: Phase)
    requires Exclusive(s) && Live(s, i)
    ensures var t := WithPhase(s, i, p);
            && LiveGoals(t) == (if p != Finished then LiveGoals(s) else LiveGoals(s) - {s.plans[i].goal})
            && (forall j, k :: Live(t, j) && Live(t, k) && j != k ==> t.plans[j].goal != t.plans[k].goal)
            && s.plans[i].goal in LiveGoals(s)
  {
    var t := WithPhase(s, i, p);
    forall j ensures Live(t, j) ==> Live(s, j) && t.plans[j].goal == s.plans[j].goal { }
    forall g ensures g in LiveGoals(t) <==> g in LiveGoals(s) && (p != Finished || g != s.plans[i].goal) {
      if g in LiveGoals(s) && (p != Finished || g != s.plans[i].goal) {
        var j :| Live(s, j) && s.plans[j].goal == g;
        assert Live(t, j) && t.plans[j].goal == g;
      }
      if g in LiveGoals(t) {
        var j :| Live(t, j) && t.plans[j].goal == g;
        assert Live(s, j) && s.plans[j].goal == g;
      }
    }
  }

  lemma StepExclusive(s: System, step: Step)
    requires Exclusive(s) && ReleasedOnce(s) && Enabled(s, step)
    ensures Exclusive(Take(s, step))
  {
    match step
    case Launch => LaunchLiveGoals(s);
    case DoneWaiting(i) => MoveLiveGoals(s, i, WaitDone);
    case Release(i) => MoveLiveGoals(s, i, Released);
    case Unmark(i) => MoveLiveGoals(s, i, Finished);
    case _ => assert LiveGoals(Take(s, step)) == LiveGoals(s);
  }

  // ---------- every interleaving ----------

  ghost predicate IsRun(states: seq<System>, steps: seq<Step>) {
    && |states| == |steps| + 1 && states[0] == START
    && forall k :: 0 <= k < |steps| ==> Enabled(states[k], steps[k]) && states[k + 1] == Take(states[k], steps[k])
  }

  lemma {:induction false} RunKeepsInv(states: seq<System>, steps: seq<Step>, k: nat)
    requires IsRun(states, steps) && k <= |steps|
    ensures Inv(states[k])
  {
    if k == 0 {
      assert Holding(START) == {} && Executes(START) == {} && Returned(START) == {} && LiveGoals(START) == {};
    } else {
      RunKeepsInv(states, steps, k - 1);
      StepCounts(states[k - 1], steps[k - 1]);
      StepReleases(states[k - 1], steps[k - 1]);
      StepExclusive(states[k - 1], steps[k - 1]);
    }
  }

  /** In every reachable state at most 100 plans hold a token, no goal has two plans
      under way, an executing plan's goal is marked, and each plan has given its
      token back once if it is past that point and never before. */
  lemma LaunchingSafe(states: seq<System>, steps: seq<Step>, k: nat)
    requires IsRun(states, steps) && k <= |steps|
    ensures var s := states[k];
            && |Holding(s)| <= 100
            && (forall i, j :: Live(s, i) && Live(s, j) && i != j ==> s.plans[i].goal != s.plans[j].goal)
            && (forall i :: InPhase(s, i, Executing) ==> s.plans[i].goal in s.activePlans)
            && s.releases.Keys == s.plans.Keys
            && (forall i :: i in s.plans ==> s.releases[i] == if GaveBack(s.plans[i]) then 1 else 0)
  {
    RunKeepsInv(states, steps, k);
    var s := states[k];
    forall i | Live(s, i) ensures s.plans[i].goal in s.activePlans { assert s.plans[i].goal in LiveGoals(s); }
  }

  /** A plan is never stuck in its deferred steps: its next step is always enabled. */
  lemma PlansProceed(states: seq<System>, steps: seq<Step>, k: nat, i: nat)
    requires IsRun(states, steps) && k <= |steps| && Live(states[k], i)
    ensures var s := states[k];
            match s.plans[i].phase
            case Executing => Enabled(s, DoneWaiting(i))
            case WaitDone => Enabled(s, Release(i))
            case Released => Enabled(s, Unmark(i))
            case Finished => false
  {
    RunKeepsInv(states, steps, k);
    var s := states[k];
    if InPhase(s, i, Executing) { assert i in Executes(s); }
    if InPhase(s, i, WaitDone) { assert i in Holding(s); }
  }

  /** When the launcher is idle and all plans have finished, no token and no mark is left. */
  lemma NothingLeaks(states: seq<System>, steps: seq<Step>, k: nat)
    requires IsRun(states, steps) && k <= |steps|
    requires states[k].launcher.Idle? && forall i :: i in states[k].plans ==> states[k].plans[i].phase == Finished
    ensures states[k].tokens == 0 && states[k].activePlans == {} && states[k].waiting == 0
    ensures states[k].acquired == |states[k].plans|
  {
    RunKeepsInv(states, steps, k);
    var s := states[k];
    assert Holding(s) == {} && Executes(s) == {} && Returned(s) == s.plans.Keys && LiveGoals(s) == {};
  }
}
