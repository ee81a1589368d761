/** runtime/goal_engine.go as values: the goal map, its two index slices and the
    recorded dependencies. */
module GoalModel {
  import opened Values
  import opened Programs
  import opened Sorting
  import opened Strings

  /** `Unset` is the empty string, the state of Go's zero goal. */
  datatype GoalState = Unset | Pending | Active | Complete | Failed | Cancelled | Compensating

  /** Times are nanoseconds; 0 is Go's zero time. */
  datatype Goal = Goal(
    id: string,
    priority: int,
    state: GoalState,
    clock: nat,
    parent: Option<string>,
    condition: Option<Condition>,
    spawn: Option<Data -> seq<Goal>>,
    compensate: Option<Data -> Option<Goal>>,
    trigger: Option<Path>,
    deadline: int,
    timeout: int,
    createdAt: int,
    startedAt: Option<int>,
    cancelledAt: Option<int>,
    failReason: string)

  datatype Engine = Engine(
    goals: map<string, Goal>,
    active: seq<string>,
    pending: seq<string>,
    clock: nat,
    deps: map<string, set<Path>>)

  datatype Error = ErrGoalNotFound | ErrInvalidGoal | ErrGoalAlreadyExists

  const EMPTY := Engine(map[], [], [], 0, map[])

  /** Go's zero goal, which a look-up of a missing id yields. */
  const NO_GOAL := Goal("", 0, Unset, 0, None, None, None, None, None, 0, 0, 0, None, None, "")

  function DepsOf(e: Engine, id: string): set<Path> { if id in e.deps then e.deps[id] else {} }

  predicate InState(e: Engine, id: string, s: GoalState) { id in e.goals && e.goals[id].state == s }

  // ---------- the operations ----------

  function AddRefusal(e: Engine, g: Goal): Option<Error> {
    if g.id == "" then Some(ErrInvalidGoal)
    else if g.id in e.goals then Some(ErrGoalAlreadyExists)
    else None
  }

  function AddGoal(e: Engine, g: Goal, now: int): Engine {
    if AddRefusal(e, g).Some? then e
    else e.(goals := e.goals[g.id := g.(state := Active, clock := e.clock, startedAt := Some(now))],
            active := e.active + [g.id])
  }

  function Unlist(e: Engine, id: string): Engine {
    e.(active := RemoveFirst(e.active, id), pending := RemoveFirst(e.pending, id))
  }

  /** RemoveGoal forgets the goal but keeps its recorded dependencies. */
  function RemoveGoal(e: Engine, id: string): Engine {
    if id !in e.goals then e else Unlist(e, id).(goals := e.goals - {id})
  }

  function WithState(e: Engine, id: string, s: GoalState): Engine
    requires id in e.goals
  {
    e.(goals := e.goals[id := e.goals[id].(state := s)])
  }

  /** CompleteGoal and FailGoal. */
  function Finish(e: Engine, id: string, s: GoalState): Engine {
    if id !in e.goals then e else Unlist(WithState(e, id, s), id)
  }

  function CancelGoal(e: Engine, id: string, reason: string, now: int): Engine {
    if id !in e.goals then e
    else
      var cancelled := e.goals[id].(state := Cancelled, failReason := reason, cancelledAt := Some(now));
      Unlist(e.(goals := e.goals[id := cancelled]), id)
  }

  function ActivateGoal(e: Engine, id: string): Engine {
    if id !in e.goals then e
    else
      var u := Unlist(WithState(e, id, Active), id);
      u.(active := u.active + [id])
  }

  /** Evaluate records the paths the condition read. */
  ghost function Evaluate(e: Engine, g: Goal, d: Data): Engine {
    if g.condition.None? then e else e.(deps := e.deps[g.id := Reads(g.condition.value, d)])
  }

  ghost predicate Satisfied(g: Goal, d: Data) { g.condition.Some? && Holds(g.condition.value, d) }

  /** File a goal as pending, over whatever has its id. */
  function AddPending(e: Engine, g: Goal): Engine {
    e.(goals := e.goals[g.id := g], pending := e.pending + [g.id])
  }

  function SpawnAll(e: Engine, children: seq<Goal>, parent: string): Engine {
    if children == [] then e
    else
      var u := SpawnAll(e, children[..|children| - 1], parent);
      var child := children[|children| - 1];
      AddPending(u, Child(child, parent, e.clock))
  }

  /** A spawned goal as it is filed. */
  function Child(g: Goal, parent: string, clock: nat): Goal {
    g.(parent := Some(parent), clock := clock, state := Pending)
  }

  /** What SpawnChildren returns. */
  function Spawned(e: Engine, g: Goal, d: Data): seq<Goal> {
    if g.spawn.None? then []
    else
      var children := g.spawn.value(d);
      seq(|children|, i requires 0 <= i < |children| => Child(children[i], g.id, e.clock))
  }

  function SpawnChildren(e: Engine, g: Goal, d: Data): Engine {
    if g.spawn.None? then e
    else SpawnAll(e, g.spawn.value(d), g.id).(clock := e.clock + 1)
  }

  // ---------- HandleEvent ----------

  predicate Touches(paths: set<Path>, written: seq<Path>) {
    exists i :: 0 <= i < |written| && written[i] in paths
  }

  /** A pending goal starts on its trigger path, or else on a recorded dependency. */
  predicate Triggered(e: Engine, written: seq<Path>, id: string) {
    InState(e, id, Pending) &&
    match e.goals[id].trigger
    case Some(p) => p in written
    case None => Touches(DepsOf(e, id), written)
  }

  predicate Affected(e: Engine, written: seq<Path>, id: string) {
    InState(e, id, Complete) && Touches(DepsOf(e, id), written)
  }

  function UnlistAll(e: Engine, ids: seq<string>): Engine {
    if ids == [] then e else Unlist(UnlistAll(e, ids[..|ids| - 1]), ids[|ids| - 1])
  }

  function StartAll(e: Engine, ids: seq<string>): Engine {
    if ids == [] then e
    else
      var u := StartAll(e, ids[..|ids| - 1]);
      var id := ids[|ids| - 1];
      if id in u.goals then WithState(u, id, Active).(active := u.active + [id]) else u.(active := u.active + [id])
  }

  function CompensationOf(g: Goal, d: Data): Option<Goal> {
    if g.compensate.None? then None else g.compensate.value(d)
  }

  /** Recheck one complete goal; compensate when its condition no longer holds. */
  ghost function CompensateOne(e: Engine, d: Data, id: string): Engine {
    if id !in e.goals || Satisfied(e.goals[id], d) then e
    else
      var u := WithState(e, id, Compensating);
      var c := CompensationOf(e.goals[id], d);
      if c.None? || c.value.id == "" then u
      else AddPending(u, c.value.(parent := Some(id), clock := e.clock, state := Pending))
  }

  ghost function CompensateAll(e: Engine, d: Data, ids: seq<string>): Engine {
    if ids == [] then e else CompensateOne(CompensateAll(e, d, ids[..|ids| - 1]), d, ids[|ids| - 1])
  }

  function TriggeredIn(e: Engine, written: seq<Path>, order: seq<string>): seq<string> {
    Filter(order, id => Triggered(e, written, id))
  }

  function AffectedIn(e: Engine, written: seq<Path>, order: seq<string>): seq<string> {
    Filter(order, id => Affected(e, written, id))
  }

  lemma ClassifySnoc(e: Engine, written: seq<Path>, order: seq<string>, id: string)
    ensures TriggeredIn(e, written, order + [id]) ==
            TriggeredIn(e, written, order) + if Triggered(e, written, id) then [id] else []
    ensures AffectedIn(e, written, order + [id]) ==
            AffectedIn(e, written, order) + if Affected(e, written, id) then [id] else []
  {
    FilterSnoc(order, id, x => Triggered(e, written, x));
    FilterSnoc(order, id, x => Affected(e, written, x));
  }

  function StartTriggered(e: Engine, written: seq<Path>, order: seq<string>): Engine {
    var t := TriggeredIn(e, written, order);
    StartAll(UnlistAll(e, t), Sort(t, StrLe))
  }

  /** HandleEvent when the goal map is visited in `order`. */
  ghost function HandleEvent(e: Engine, d: Data, written: seq<Path>, order: seq<string>): Engine {
    CompensateAll(StartTriggered(e, written, order), d, AffectedIn(e, written, order))
  }

  // ---------- a tick ----------

  /** processGoals gives up on a goal (kernel.go:194-213). */
  predicate Expired(g: Goal, now: int) {
    || (g.deadline != 0 &&
        (|| now > g.deadline
         || (g.startedAt.Some? && g.deadline - g.createdAt > 0 && now - g.startedAt.value > g.deadline - g.createdAt)))
    || (g.timeout > 0 && g.startedAt.Some? && now - g.startedAt.value > g.timeout)
  }

  /** One iteration of processGoals over the listed copy `g`. */
  ghost function ProcessGoal(e: Engine, d: Data, g: Goal, now: int): Engine {
    if Expired(g, now) then Finish(e, g.id, Failed)
    else
      var u := Evaluate(e, g, d);
      if Satisfied(g, d) then SpawnChildren(Finish(u, g.id, Complete), g, d) else u
  }

  ghost function ProcessAll(e: Engine, d: Data, listing: seq<Goal>, now: int): Engine {
    if listing == [] then e
    else ProcessGoal(ProcessAll(e, d, listing[..|listing| - 1], now), d, listing[|listing| - 1], now)
  }

  /** The order of the goal lists: priority descending, then clock. */
  predicate GoalLe(a: Goal, b: Goal) {
    a.priority > b.priority || (a.priority == b.priority && a.clock <= b.clock)
  }

  function GoalAt(e: Engine, id: string): Goal { if id in e.goals then e.goals[id] else NO_GOAL }

  function Named(e: Engine, ids: seq<string>): seq<Goal> {
    seq(|ids|, i requires 0 <= i < |ids| => GoalAt(e, ids[i]))
  }
}
