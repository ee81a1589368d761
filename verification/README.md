# The deterministic kernel of UGEM

This project models the deterministic kernel of UGEM, a goal-driven execution
runtime, and proves what its parts promise: goals, events and state move
through a log that can be replayed, rewound and restarted; completed goals are
rechecked when an event touches what they depend on; graph and queue
algorithms decide what runs next.

Go closures that see the state only through `Get` and `Set` (conditions,
mutators, invariant predicates) are functions from the answers received so far
to the next action (`Programs.dfy`). Every deterministic closure that
terminates is one, with no bound on what it reads. Classes carry the fields of
the Go structs and their methods are proved against functions on plain values,
which the lemmas are about.

| part | files |
|---|---|
| closures, values, sorting | `Programs`, `ProgramFrames`, `Values`, `Sorting`, `Strings`, `Int64` |
| dependency graph | `Digraph`, `Adjacency`, `Planning`, `SharedSlices`, `CycleDetection`, `CriticalPath`, `TopologicalSort`, `SpoiledGraphs` |
| planner | `PlannerCycles`, `RuntimePlanner` |
| state, locks, log | `Events`, `StateModel`, `Locks`, `StateManagers`, `LogModel`, `EventLogs` |
| goals | `GoalModel`, `GoalIndex`, `GoalOutcomes`, `StateTrackers`, `GoalEngines`, `GdlCompiler`, `SelfHealing`, `HealingExactness` |
| kernel | `KernelModel`, `KernelHealing`, `Kernel`, `PlanLauncher` |
| scheduler | `SchedulerModel`, `SchedulerRuns`, `Schedulers` |
| measurements and retries | `ActionMetrics`, `Backoff` |

The value modules (`Adjacency`, `StateModel`, `Locks`, `LogModel`, `GoalModel`,
`KernelModel`, `SchedulerRuns`) define what each call does; the classes in
`Planning`, `StateManagers`, `EventLogs`, `GoalEngines`, `Kernel` and `Schedulers`
do it step by step and are proved equal to them. Map iteration order and the
order that `sort.Slice` gives to ties are left open everywhere.

## Where the code differs from what it promises

Each of these is a theorem below, named after it.

- `HasCycle` leaves a missing dependee on the recursion stack
  (planning/planner.go:133-136). It reports a cycle on an acyclic graph exactly
  when a missing id is named twice (`HasCycle`, `FalseAlarmExample`).
  `HasCyclicDependency` does not.
- `TopologicalSort` counts along `Dependees` and decrements along `Dependents`
  (planning/planner.go:172-197), so it refuses every graph in which a node
  depends on an existing node (`TopologicalSort`, `BackedOutcome`).
- `GetCriticalPath` returns, without a nil dereference or endless recursion,
  exactly on closed acyclic graphs (`TerminatesIff`, `CrashExamples`). It stops
  at a node named with the empty string (planning/planner.go:269), although the
  reported length counts on (`PathFromOptimalIff`, `PathOptimalIff`).
- `AddNode` keeps the caller's slice, and `RemoveNode` and `AddDependency` write
  through it (planning/planner.go:44, 80, 99). When goals were added over one
  slice, a removal keeps the mirror exactly when the removed id is not in the
  slice or is its last element, and two appends keep it exactly when there was
  no spare cell or the ids are equal (`SharedMirrorIff`, `SharedAppendIff`). On
  a graph spoiled that way `TopologicalSort` can succeed over an edge, or
  dereference a missing node (`OverwrittenSorts`, `DanglingPanics`).
- Events are logged before they can be refused (runtime/kernel.go:374-384), and
  `Reconstruct` looks at neither locks nor invariants and applies the two kinds
  of change in the other order (runtime/state_manager.go:349-371). Replay agrees
  with live execution under `ReplayableRun` (`ReplayRefinesLive`), and
  throughout a run of events with one kind of change each exactly under
  `HarmlessRun` (`ReplaysThroughoutIff`, `ReplayAgreesIff`, `BothKindsDiverge`).
- `Rewind` reconstructs the state and rechecks neither goals nor invariants
  (runtime/kernel.go:452-463): `RewoundGoalsHold`, `RewindUnhealed`.
- Declarative mutations are not checked against the invariants
  (runtime/state_manager.go:327-329): `KeepsInvariantsIff`, `InvariantsKeptIff`,
  `MutationBypassesInvariants`.
- The empty owner takes counts without owning (runtime/state_manager.go:167-175):
  `EmptyOwnerLockIff`, `EmptyOwnerUnlockIff`.
- A failed append moves the file's counter, and a failed sync also the file
  (storage/store.go:105-128). From then on ids are not positions, and `Get`
  answers wrongly or panics (`AppendLockstepIff`, `GetAnswersIff`,
  `GetPanicExample`); after a failed sync a restart brings back the event whose
  submission failed (`RestartAfterAppend`).
- Spawned and compensation goals overwrite an existing id
  (runtime/goal_engine.go:207-208, 362-364): the index survives exactly when the
  ids are free (`AddPendingIndexedIff`, `SpawnIndexedIff`).
- `HandleEvent` rechecks with a throw-away tracker and keeps the old
  dependencies (runtime/goal_engine.go:344-350): the kernel keeps complete goals
  true exactly for conditions that the paths read determine, GDL conjunctions
  among them (`HealsInKernelIff`, `GdlStable`, `IndirectUnhealed`).
- Goals spawned by compiled GDL have no trigger path, and evaluation reaches
  active goals only, so they stay pending until `ActivateGoal` is called
  (`SpawnedIsIdle`, `IdleForever`).
- `processScheduledItems` removes by id (runtime/scheduler.go:310-317). In normal
  mode, with a repeated id, it can cut an item that is not due
  (`NormalProcessCutsWrong`, `RemoveDueIff`); in strict mode it cannot
  (`StrictProcessExact`).
- `Scheduler.Next` reads the wall clock in strict mode too
  (runtime/scheduler.go:226), the one call that strict mode does not make
  deterministic (`UpcomingDeterministicIff`).
- `Enqueue` drops the deadline (runtime/scheduler.go:182-189, `Enqueue`).
- Delays overflow for every strategy whose product grows past int64, and then
  turn negative before any cap applies (runtime/action_dispatcher.go:165-182,
  `DelayMonotoneIff`); exponential ones are 0 from attempt 64 on
  (`ExponentialVanishes`).
- A negative number of retries makes no try and returns no error
  (runtime/action_dispatcher.go:93-147, `TriesConfigured`).

## Model

| member | source | states |
|---|---|---|
| `Adjacency.AddNodeConsistent` | planning/planner.go:34-55 | Adding a node to a graph whose dependents mirror its dependees keeps the mirror if and only if every named dependee already has a node |
| `Adjacency.AddDependencyConsistent` | planning/planner.go:64-84 | Adding an edge keeps the mirror for any two ids, existing or not, equal or not |
| `Adjacency.RemoveNodeIsErase` | planning/planner.go:86-119 | On a mirrored graph the one-splice-per-mention removal leaves exactly the lists with every mention of the id taken out, order kept, duplicates and self-loops included |
| `Adjacency.RemoveNodeConsistent` | planning/planner.go:86-119 | Removal keeps the mirror, and afterwards no list names the removed id |
| `Adjacency.RemoveUndoesAdd` | planning/planner.go:34-119 | Removing a node that was just added over existing dependees restores the former graph, list for list |
| `Adjacency.BuiltGraphsConsistent` | planning/planner.go:34-119 | In every graph built over slices of their own by calls whose AddNode dependees exist, b is as often a dependee of a as a is a dependent of b, and no list names a missing id |
| `Adjacency.BuiltGraphsBacked` | planning/planner.go:34-119 | In every graph built by any calls over slices of their own, each mention among the dependents is matched by a mention among an existing node's dependees |
| `Adjacency.CutsRemoveNode` | planning/planner.go:95-117 | The two splice loops followed by the delete have the net effect of RemoveNode even when the node lists itself |
| `Planning.DependencyGraph.AddNode` | planning/planner.go:34-55 | Refuses a used id and changes nothing; otherwise appends the id to each existing dependee's dependents and files the record, over linked node objects |
| `Planning.DependencyGraph.AddDependency` | planning/planner.go:64-84 | Creates missing nodes and appends both ends of the edge; every other list is unchanged |
| `Planning.DependencyGraph.RemoveNode` | planning/planner.go:86-119 | Refuses a missing id; otherwise has exactly the effect of RemoveNode on all lists, computed by the in-place splices |
| `SharedSlices.CutInPlace` | planning/planner.go:97-102 | On the array behind a slice: the search and the splice remove the first mention and leave the cells as specified |
| `SharedSlices.CutAfter` | planning/planner.go:97-102 | After m effective cuts through any slices of one array its cells are the list without its first m mentions, filled up with its last element |
| `SharedSlices.SharedUnharmedIff` | planning/planner.go:97-102 | Another slice of the same cells reads what it read before if and only if all cells from the cut on were equal |
| `SharedSlices.SharedCutsIff` | planning/planner.go:95-104 | Any number of goals share a slice and cut x out of it in turns of any order: all of them read the list without x in the end if and only if x is not in it, or is its last element, or one goal has it |
| `SharedSlices.SharedMirrorIff` | planning/planner.go:42-119 | In any mirrored graph in which any goals share a slice, removing x keeps the mirror if and only if x is not in the slice, or is its last element, or one goal has it |
| `SharedSlices.SharedAppendIff` | planning/planner.go:80-81 | Two AddDependency calls on goals that share a slice keep the mirror, and keep the graph backed, if and only if the array had no spare cell or both append the same id |
| `CycleDetection.HasCycle` | planning/planner.go:121-161 | Reports a cycle if and only if the dependees have one or a missing id is named at two places; on a closed graph if and only if there is a cycle; the printed path renders a real dependency walk, whose first node occurs again unless that node is a missing id named twice |
| `CycleDetection.FindCycle` | planning/planner.go:149-160 | The same exact answer for every order in which the nodes are visited |
| `CycleDetection.NothingFound` | planning/planner.go:149-160 | A search that finishes without an answer has ranked every node so that ranks fall along every edge: the graph is acyclic and names no missing id twice |
| `CycleDetection.WitnessFaults` | planning/planner.go:140-143 | A reported walk always shows a cycle or a missing id named twice |
| `CycleDetection.FalseAlarmExample` | planning/planner.go:133-136 | Two goals that wait for the same unregistered goal form an acyclic graph on which HasCycle answers true |
| `CriticalPath.BelowShrinks` | planning/planner.go:233-250 | On a closed acyclic graph every edge loses a reachable node, which is why the memo-free recursion ends |
| `CriticalPath.WalkBound` | planning/planner.go:233-250 | No dependency chain has more nodes than the height of its first node |
| `CriticalPath.LongestPaths.Visit` | planning/planner.go:233-250 | The recursion returns the height of the node and leaves every settled entry settled |
| `CriticalPath.Descend` | planning/planner.go:265-284 | The walk is the chain of first highest dependees from the end node, up to a node named with the empty string |
| `CriticalPath.GetCriticalPath` | planning/planner.go:220-291 | Returns a dependency chain, dependees first, that no chain exceeds, with length one less than its nodes, when no id is empty; in general that chain cut at an empty id |
| `CriticalPath.PathFromOptimalIff` | planning/planner.go:256-284 | Whichever end node the map order picks, the returned path is optimal if and only if that node's chain of first highest dependees avoids the empty id |
| `CriticalPath.PathOptimalIff` | planning/planner.go:256-284 | Every longest chain of the graph, cut as the loop cuts it, is optimal if and only if none contains the empty id, and then every path the call can return is optimal |
| `CriticalPath.TerminatesIff` | planning/planner.go:233-254 | The recursion returns from every node and meets no missing node if and only if the graph is closed and acyclic |
| `CriticalPath.CrashExamples` | planning/planner.go:233-254 | One AddNode over an unregistered dependee, or one AddDependency of a goal on itself, builds a graph on which it does not |
| `TopologicalSort.TopologicalSort` | planning/planner.go:163-205 | On any lists at all: a panic if and only if draining makes an id ready that has no node, and else success if and only if there is an order in which every node's in-degree is covered by mentions among the dependents of earlier nodes; the result is such an order |
| `TopologicalSort.BackedOutcome` | planning/planner.go:163-205 | On a backed graph no panic, and success if and only if no node depends on an existing node: every graph with an edge is refused |
| `SpoiledGraphs.OverwrittenSorts` | planning/planner.go:163-205 | On the graph that an append through a shared slice leaves behind it succeeds although one node depends on another |
| `SpoiledGraphs.DanglingPanics` | planning/planner.go:190-196 | When a removed node is left among the dependents of another and is named again, it dereferences the missing node |
| `TopologicalSort.ExhaustedDecides` | planning/planner.go:184-202 | A drain that has run dry without a panic contains every drain there is |
| `TopologicalSort.CountInDegrees` | planning/planner.go:167-176 | Every counter ends as the number of mentions among all dependees, with an entry for each node and each missing id that is named |
| `PlannerCycles.HasCyclicDependency` | runtime/planner.go:218-255 | True if and only if a walk from a registered action returns to one of its nodes; ids without an entry have no dependencies |
| `PlannerCycles.NoLoop` | runtime/planner.go:244-254 | A search that ends without an answer leaves no loop reachable from a registered action |
| `RuntimePlanner.PlanUnique` | runtime/planner.go:98-114 | Registered types and target set determine the plan, whatever correct sort produced it |
| `RuntimePlanner.PlanContents` | runtime/planner.go:98-191 | With a registered type a plan has an action for a path if and only if the path is missing or a direct dependency of a missing one; paths are distinct, ids are the path with a suffix and ascend, and every action has the first registered type in string order, 30 seconds, three retries and the path as idempotency key |
| `RuntimePlanner.PlanIgnoresOrder` | runtime/planner.go:114-164 | Two requests with the same set of missing paths get the same plan, in any order and with any repetition |
| `RuntimePlanner.QueueSorts` | runtime/planner.go:98-112 | Sorting the duplicate-free queue by id gives strictly ascending ids and one action per target |
| `RuntimePlanner.Planner.CreateActionForPath` | runtime/planner.go:166-191 | The action is the one of the first registered type in string order; without types it is the empty action |
| `RuntimePlanner.Planner.BuildActionPlan` | runtime/planner.go:98-164 | One action per missing path and per direct dependency, ids strictly ascending, all of the first type; empty when no type is registered |
| `RuntimePlanner.Planner.Resolve` | runtime/planner.go:43-66 | An empty request consumes no sequence number; any other gets the plan and the next number |
| `RuntimePlanner.Planner.Validate` | runtime/planner.go:263-268 | Accepts if and only if no cycle is reachable from a registered action |
| `RuntimePlanner.Planner.RegisterAction` | runtime/planner.go:193-201 | Adds the type to the registered ones and changes nothing else |
| `RuntimePlanner.Planner.RegisterDependency` | runtime/planner.go:203-208 | Replaces the dependencies of that type and changes nothing else |
| `Programs.TrackingSound` | runtime/state_tracker.go:25-42 | If two states agree on the paths a condition recorded, it gives the same answer and records the same paths in both |
| `Programs.ExecIs` | runtime/types.go:38-43 | A deterministic closure has one meaning: every halting execution gives the same outcome |
| `Programs.MutatorKeepsKeys` | runtime/types.go:75-83 | A closure that sees the state through Get and Set never removes a key |
| `Programs.Call` | runtime/state_manager.go:300-316 | Stepping the closure to its return yields its meaning: verdict, resulting state and paths read |
| `StateTrackers.StateTracker.Ask` | runtime/state_tracker.go:25-31 | Running a condition against a fresh tracker ends with exactly the paths it read |
| `StateTrackers.StateTracker.GetAccessedPaths` | runtime/state_tracker.go:33-42 | The returned slice lists the recorded paths, each once |
| `StateModel.MergeIsReplace` | runtime/state_manager.go:318-320 | Merging the mutated copy back key by key equals taking the copy over |
| `StateModel.RefusalReasons` | runtime/state_manager.go:285-316 | The error is the lock error if and only if a declared path has an owner, else the mutator error if and only if there is a mutator and it fails, else the invariant error if and only if a registered predicate fails on its result; there is no other refusal |
| `StateModel.EventEffect` | runtime/state_manager.go:318-335 | An accepted event leaves at each path what its last mutation of the path assigned, or else what its mutator left there, and moves clock and version by one; a refused one changes nothing |
| `KernelModel.HeldPathsRefuse` | runtime/state_manager.go:289-298 | In every run of the kernel with named owners an event is refused as locked if and only if it declares a path with an unreleased acquisition, and a refused event leaves state, goals and clock as they were |
| `KernelModel.RunRepresents` | runtime/state_manager.go:149-207 | In every such run, events, goals and ticks included, the lock table counts exactly the unreleased acquisitions |
| `StateModel.ApplyKeepsKeys` | runtime/state_manager.go:318-329 | Applying an event never removes a key |
| `StateModel.MutatorKeepsInvariants` | runtime/state_manager.go:314-316 | An event without declarative mutations keeps all invariants, accepted or not |
| `StateModel.KeepsInvariantsIff` | runtime/state_manager.go:314-329 | An event from given data keeps whatever invariants hold if and only if its mutator fails, or its declarative mutations leave the checked result as it is or restore the data from before |
| `StateModel.InvariantsKeptIff` | runtime/state_manager.go:327-329 | An event without a mutator keeps the invariants of every state if and only if it carries no declarative mutation |
| `StateModel.UncheckedBreach` | runtime/state_manager.go:314-329 | For any other event there is a state whose invariants hold, which accepts it and ends with an invariant broken |
| `StateModel.MutationBypassesInvariants` | runtime/state_manager.go:314-329 | A concrete case: over empty data the write that the invariant refuses when a mutator makes it is accepted as a declarative mutation and breaks that invariant |
| `StateModel.ReplayAgrees` | runtime/state_manager.go:349-371 | An event that was not refused for a lock or an invariant replays to the live result, mutator errors included, when it carries one kind of change or was accepted with two that do not touch each other |
| `ProgramFrames.MutatorApart` | runtime/types.go:75-83 | A mutator that neither reads nor writes some paths gives the same verdict and writes whatever they hold, and leaves them as they are |
| `StateModel.IndependentCommute` | runtime/state_manager.go:300-371 | A mutator that neither reads nor writes an assigned path gives the same data before and after the assignments |
| `StateModel.ReplayAgreesIff` | runtime/state_manager.go:349-371 | For an event with one kind of change on any state: replay agrees with live application if and only if it was accepted, or its mutator failed, or it was refused and would write nothing new; after a refusal by an invariant it never agrees while the invariants held before |
| `Events.MutateUnchangedIff` | runtime/state_manager.go:327-329 | A list of mutations changes nothing if and only if the last assignment to each path already holds |
| `StateModel.BothKindsDiverge` | runtime/state_manager.go:300-371 | A mutator writing one value and a mutation assigning another to the same path: the assigned value stands live, the written one replayed, so the two agree if and only if the values are equal |
| `StateManagers.StateManager.ApplyEvent` | runtime/state_manager.go:285-335 | The error and the whole new state are those of the specification: lock check, mutator on a copy, invariants, copy back, mutations, both counters |
| `StateManagers.StateManager.Reconstruct` | runtime/state_manager.go:341-377 | From empty data the loop ends in the fold of the events, the last event's clock and version 1, locks and invariants untouched |
| `StateManagers.StateManager.CheckInvariants` | runtime/state_manager.go:122-129 | Accepts if and only if every registered predicate holds of the given state |
| `StateManagers.StateManager.RegisterInvariant` | runtime/state_manager.go:116-120 | Appends the invariant, without checking it |
| `StateManagers.StateManager.Lock` | runtime/state_manager.go:149-180 | New table and error are those of the path-by-path specification, which `LockAnswers` and `AcquireCounts` decide by who holds what |
| `StateManagers.StateManager.Unlock` | runtime/state_manager.go:182-207 | Each path held by the owner loses one count and its owner at zero; other paths are skipped |
| `Locks.LockAnswers` | runtime/state_manager.go:149-180 | For a named owner the error is the invalid-path one if and only if an empty path is named, and otherwise none if and only if no other owner holds a path of the call, else the locked one; without an error every mention was acquired |
| `Locks.AcquireCounts` | runtime/state_manager.go:163-177 | The call acquires exactly the mentions before the first path that another owner holds |
| `Locks.LockRepresents` | runtime/state_manager.go:149-180 | A Lock call, failed or not, adds exactly its successful acquisitions to what the table counts |
| `Locks.UnlockRepresents` | runtime/state_manager.go:182-207 | An Unlock call releases at most one acquisition of that owner per mention and nobody else's |
| `Locks.CountsAreAcquisitions` | runtime/state_manager.go:149-207 | Over every Lock and Unlock run of non-empty owners a path has an owner if and only if its count is positive, and the count is that owner's unreleased acquisitions |
| `Locks.OneOwner` | runtime/state_manager.go:167-171 | No two owners hold the same path |
| `Locks.EmptyOwnerLockIff` | runtime/state_manager.go:167-175 | Locking for the empty owner keeps the table sound if and only if it locks nothing |
| `Locks.EmptyOwnerUnlockIff` | runtime/state_manager.go:186-203 | Unlocking for the empty owner keeps it sound if and only if every named entry is held, because an unlocked entry's count goes negative |
| `LogModel.GetAnswersIff` | runtime/event_log.go:136-145 | Get answers every id with the event of that id or not at all if and only if ids are positions and the next id follows the last |
| `LogModel.GetPanicExample` | storage/store.go:101-133 | After one failed and one good write the log holds one event with id 2: Get panics on 2 and answers 1 with it |
| `LogModel.RangeExact` | runtime/event_log.go:147-171 | While ids are positions Range returns exactly the events with ids in the interval, in ascending order |
| `LogModel.AppendLockstepIff` | storage/store.go:101-133 | A log and file in step stay in step if and only if the write succeeds, and exactly then an id is returned |
| `LogModel.RestartFaithful` | runtime/event_log.go:36-83 | A new process over the file recovers the same counters and the same events, all but the mutators and the stamps |
| `LogModel.RestartAfterAppend` | storage/store.go:101-133 | A new process reads one event more after an append unless the write itself failed: a failed sync brings back an event that the log never took and whose submission failed |
| `LogModel.ReplayUntilCuts` | runtime/event_log.go:189-210 | When the events up to position k are stamped at or before t and the next later, replay sends exactly the first k |
| `LogModel.ReplayAll` | runtime/event_log.go:185-187 | Replay with the zero time sends the whole log |
| `EventLogs.WriteAheadLog.Append` | storage/store.go:101-133 | Entry, counters and returned id as specified for a good write, a failed write and a failed sync, where the count moves but the clock does not |
| `EventLogs.WriteAheadLog.constructor` | storage/store.go:75-99 | Opening an existing file takes id and clock from its last entry |
| `EventLogs.EventLog.Append` | runtime/event_log.go:85-134 | Assigns the next id, clock and stamp, writes through to the file first, and leaves the log alone when that fails |
| `EventLogs.EventLog.Get` | runtime/event_log.go:136-145 | On any log: an error for 0 and for ids not yet given, a panic past the end, otherwise the event at that position |
| `EventLogs.EventLog.Range` | runtime/event_log.go:147-171 | On any log: refuses an inverted interval and clips it to the given ids; past the length it yields zero events up to the capacity of the slice and panics beyond |
| `EventLogs.EventLog.ReplayUntil` | runtime/event_log.go:189-210 | The loop sends the prefix before the first event stamped after the given time |
| `EventLogs.EventLog.SetPersistence` | runtime/event_log.go:36-83 | Replaces the events by those of the file and continues with its last id and clock; an empty file leaves the counters, an unreadable one the whole log |
| `GoalIndex.AddIndexed` | runtime/goal_engine.go:44-65 | Adding a goal, refused or not, keeps the slices in agreement with the map |
| `GoalIndex.AddPendingIndexedIff` | runtime/goal_engine.go:207-208 | Filing a pending goal without a check keeps the agreement if and only if no active or pending goal has its id |
| `GoalIndex.SpawnIndexedIff` | runtime/goal_engine.go:190-214 | Spawning keeps the agreement if and only if the child ids are distinct and none is active or pending |
| `GoalIndex.StartedFacts` | runtime/goal_engine.go:296-341 | After the first half of HandleEvent exactly the triggered goals have become active, each listed once, whatever order the map was visited in |
| `GoalIndex.HandleIndexed` | runtime/goal_engine.go:288-370 | HandleEvent keeps the agreement and loses no goal when compensation ids are new |
| `GoalIndex.RunsIndexed` | runtime/goal_engine.go:44-370 | In every run of engine calls over free ids an id is listed as active (pending) exactly once if its goal is, and never otherwise |
| `GoalIndex.ActiveExactly` | runtime/goal_engine.go:129-146 | Hence the active slice has no duplicates, lists exactly the active goals, and every entry is in the map |
| `GoalEngines.GoalEngine.ListActiveGoals` | runtime/goal_engine.go:129-146 | The result is what the active slice names, a missing id giving the zero goal; of two goals the earlier has the higher priority, or the same and no later clock, under any correct sort; while slices and map agree these are active goals of the map |
| `GoalEngines.GoalEngine.AddGoal` | runtime/goal_engine.go:44-65 | Refuses the empty and the used id; otherwise files the goal as active, with clock and start time, and lists it |
| `GoalEngines.GoalEngine.RemoveGoal` | runtime/goal_engine.go:67-100 | Unlists and forgets the goal but keeps its recorded dependencies; an unknown id is an error without effect |
| `GoalEngines.GoalEngine.ActivateGoal` | runtime/goal_engine.go:216-232 | Moves the goal from wherever it is listed to the end of the active slice |
| `GoalEngines.GoalEngine.CompleteGoal` | runtime/goal_engine.go:234-249 | Marks the goal complete and unlists it |
| `GoalEngines.GoalEngine.FailGoal` | runtime/goal_engine.go:251-266 | Marks the goal failed and unlists it |
| `GoalEngines.GoalEngine.CancelGoal` | runtime/goal_engine.go:268-286 | Marks the goal cancelled with reason and time and unlists it |
| `GoalEngines.GoalEngine.Evaluate` | runtime/goal_engine.go:167-188 | Answers whether the condition holds and replaces the goal's recorded dependencies by the paths it read |
| `GoalEngines.GoalEngine.SpawnChildren` | runtime/goal_engine.go:190-214 | Files every child as pending under the parent with the engine's clock, over whatever has its id, advances the clock and returns the children as filed |
| `GoalEngines.GoalEngine.HandleEvent` | runtime/goal_engine.go:288-370 | Starts triggered goals and rechecks affected complete goals step by step, for every order in which the map may be visited; recorded dependencies stay as they were, and `EventStarts`, `EventCompensates` and `EventBrings` say what becomes of every goal |
| `GdlCompiler.GdlMeaning` | gdl/compiler.go:136-148 | A compiled conjunction holds if and only if every path has a value and every value compares with its target as asked |
| `GdlCompiler.GdlReadsIff` | gdl/compiler.go:136-148 | It reads a path if and only if a comparison names it and all comparisons before that one find a value and pass |
| `GdlCompiler.GdlReadsAllWhenTrue` | gdl/compiler.go:136-148 | When it holds it has read all its paths |
| `GdlCompiler.EvaluateConditions` | gdl/compiler.go:136-148 | The loop over a tracker gives the conjunction's answer and adds exactly the paths it reads |
| `GdlCompiler.CompiledSatisfied` | gdl/compiler.go:83-134 | A compiled goal carries the name, priority and trigger of its definition, and is satisfied if and only if it has conditions and all of them hold |
| `GdlCompiler.CompiledChildren` | gdl/compiler.go:101-124 | It spawns one goal of priority 5 per rule, in order, under the rule's name and without a trigger; the child is satisfied if and only if the rule names a path and its comparison holds |
| `SelfHealing.SelfHealsIff` | runtime/goal_engine.go:343-370 | Rechecking on the recorded paths keeps a complete goal true over every run of declared writes if and only if those paths determine the condition on every larger state |
| `SelfHealing.GdlStable` | gdl/compiler.go:136-148 | Whenever a compiled conjunction holds, the paths it read determine it |
| `SelfHealing.IndirectNotStable` | runtime/goal_engine.go:344-350 | A condition that reads which path to check is not determined by its recorded paths: after a recheck the second change goes unseen |
| `HealingExactness.HealsInKernelIff` | runtime/goal_engine.go:288-370 | Over all allowed runs of the kernel, complete goals with a given condition are always true if and only if the paths the condition reads while true determine it |
| `HealingExactness.UnhealedRun` | runtime/goal_engine.go:343-350 | For any other condition a run of three events, one submitted goal and one tick ends with a complete goal for which it is false |
| `HealingExactness.IndirectUnhealed` | runtime/goal_engine.go:344-350 | The condition that reads which path to check has such a run |
| `SelfHealing.HandleComplete` | runtime/goal_engine.go:288-370 | A goal that is complete after HandleEvent was so before, unchanged, with the same dependencies, and was found true if the event touched them |
| `SelfHealing.HandleHealed` | runtime/goal_engine.go:288-370 | An event that writes only what it declares keeps every complete goal with a stable condition true and guarded by its dependencies |
| `SelfHealing.ProcessSelf` | runtime/kernel.go:215-218 | Evaluate and CompleteGoal, as one step, complete a goal only with the paths just read recorded |
| `SelfHealing.ProcessAllKeeps` | runtime/kernel.go:187-281 | A whole tick keeps index and self-healing when spawned ids are new |
| `SelfHealing.ListedIsCurrent` | runtime/goal_engine.go:129-146 | The copies a tick works on are the engine's active goals, each once and all of them |
| `GoalOutcomes.TickDecides` | runtime/kernel.go:187-223 | A tick fails an active goal if and only if its deadline has passed, or it has run for longer than the positive span from creation to deadline, or longer than its positive timeout; any other is completed if and only if its condition holds, and stays active if not; nothing else about it changes, and the paths its condition read are recorded |
| `GoalOutcomes.TickSpawns` | runtime/kernel.go:217-223 | Every child of every goal the tick completes is new and is filed as pending under that goal, listed once |
| `GoalOutcomes.TickBringsExactly` | runtime/kernel.go:217-223 | An id is new after a tick if and only if it is a child of a goal the tick completed |
| `GoalOutcomes.TickLeaves` | runtime/kernel.go:187-281 | A tick leaves every goal that is not active as it is |
| `GoalOutcomes.EventCompensates` | runtime/goal_engine.go:343-370 | HandleEvent sets every complete goal that the event touched and that is no longer satisfied to compensating, and files its compensation, if it has one with an id, as pending under it with the engine's clock, listed once |
| `GoalOutcomes.EventBrings` | runtime/goal_engine.go:356-366 | An id is new after HandleEvent if and only if it is that of such a compensation |
| `GoalOutcomes.EventStarts` | runtime/goal_engine.go:296-341 | Of the other goals exactly the pending ones whose trigger path was written, or, without a trigger path, one of whose recorded paths was, become active, and nothing else about them changes |
| `GoalOutcomes.StartedInOrder` | runtime/goal_engine.go:330-341 | They are appended to the active slice in string order, for every order in which the map may be visited |
| `GoalOutcomes.AddOutcome` | runtime/goal_engine.go:44-65 | AddGoal refuses exactly the empty and the used id, without effect; otherwise the goal is active from now, listed last, and nothing else changes |
| `GoalOutcomes.MoveOutcomes` | runtime/goal_engine.go:67-286 | On a known goal completing, failing, cancelling, activating and removing leave exactly the new state, and the goal listed nowhere, or last among the active ones; other goals and all recorded paths stay |
| `GoalOutcomes.EvaluateOutcome` | runtime/goal_engine.go:167-188 | Evaluation replaces the recorded paths of that goal, and of no other, by those its condition read |
| `GoalOutcomes.SpawnOutcome` | runtime/goal_engine.go:190-214 | SpawnChildren files every child under the parent with the engine's clock, the last of equal ids winning, lists the children in order and advances the clock by one |
| `KernelHealing.RunSound` | runtime/kernel.go:187-393 | Index agreement and self-healing hold after every run of submitted goals, events, ticks, locks and registrations |
| `KernelHealing.CompleteGoalsHold` | runtime/kernel.go:362-393 | After every allowed run of goals, events, ticks, locks and registrations every path of each complete GDL goal has a value that compares with its target as asked, and the stored dependencies are all these paths |
| `KernelHealing.RewoundGoalsHold` | runtime/kernel.go:427-468 | After a rewind to t such a goal is still complete and its comparisons hold if no event stamped after t declares one of its recorded paths |
| `HealingExactness.RewindUnhealed` | runtime/kernel.go:427-468 | Rewinding undoes data and not goals: for every satisfiable condition that fails on empty data some run and rewind end with a complete goal for which it is false |
| `KernelHealing.SpawnedIsIdle` | gdl/compiler.go:101-124 | A child spawned by a compiled goal under a new id is pending, without trigger path and without recorded dependencies |
| `KernelHealing.IdleForever` | runtime/goal_engine.go:296-328 | Such a goal stays pending through every further run of the kernel's own steps |
| `KernelModel.ReplayRefinesLive` | runtime/kernel.go:362-393 | For every run in which no event is refused for a lock or an invariant and none carries two entangled kinds of change, the log replays to the live data, and live clock plus logged refusals equals the replayed clock |
| `KernelModel.ReplaysThroughoutIff` | runtime/kernel.go:362-393 | For every run of events with one kind of change each, the log replays to the live data after every step if and only if every logged event is harmless to replay where it was submitted |
| `KernelModel.EventReplays` | runtime/kernel.go:374-391 | One submitted event keeps log and data in that relation and accounts for the clock of a logged refusal |
| `KernelModel.InvariantsAlwaysHold` | runtime/state_manager.go:314-316 | In every run of mutator-only events, without rewinds and with invariants registered while they hold, all registered invariants hold after every step |
| `KernelModel.RewindRestores` | runtime/kernel.go:427-468 | Rewind to a non-zero time restores exactly the live data as they stood after the last event stamped at or before it, sets both clocks to the number of those events and the version to 1, and keeps locks and invariants |
| `KernelModel.RewindPoint` | runtime/event_log.go:189-200 | With non-decreasing stamps every time has such a point in the run |
| `KernelModel.RunStamps` | runtime/event_log.go:85-134 | Position i of the log carries the event as submitted by the step that found i events there, with clock i + 1 and the time of that step |
| `KernelModel.RewindForgets` | runtime/kernel.go:427-468 | Rewinding leaves the log and the goals alone, and rewinding elsewhere first changes nothing |
| `KernelModel.ReplayKeepsData` | runtime/kernel.go:568-582 | After a replayable run, Replay leaves the data, the locks, the goals and the log as they are, and its state clock has caught up with the refused events |
| `KernelModel.RunSequential` | runtime/event_log.go:85-134 | In every run without a file position i of the log holds id and clock i + 1 |
| `KernelModel.RunLockstep` | runtime/kernel.go:362-393 | In every run without a write failure position i of log and file holds id and clock i + 1, and the file's counters match |
| `KernelModel.RunLockstepIff` | storage/store.go:101-133 | Log and file are in step after a run if and only if no write of it failed |
| `KernelModel.RunCounts` | storage/store.go:105-128 | In every run the file's counter is the length of the log plus the number of failed writes |
| `KernelModel.RestartSame` | runtime/kernel.go:395-413 | After a run of accepted mutation-only events a new runtime over the same file has the same data, clocks and next id |
| `Kernel.GoalRuntime.SubmitGoal` | runtime/kernel.go:340-360 | Accepted if and only if the runtime is running and the id is new and not empty |
| `Kernel.GoalRuntime.SubmitEvent` | runtime/kernel.go:362-393 | Logs first, then applies or refuses, then shows the event to the engine; the error tells exactly whether the runtime was stopped, the log refused or the state refused, and a refusal leaves state and goals as they were |
| `Kernel.GoalRuntime.ProcessGoals` | runtime/kernel.go:187-281 | A tick visits the sorted active goals once, with the branches of the source; `TickDecides`, `TickSpawns`, `TickBringsExactly` and `TickLeaves` say what becomes of every goal |
| `Kernel.GoalRuntime.Rewind` | runtime/kernel.go:427-468 | State and clock become those of the log prefix, and the runtime runs again if it did |
| `Kernel.GoalRuntime.Replay` | runtime/kernel.go:568-582 | State becomes that of the whole log; the runtime's own clock is left alone |
| `Kernel.GoalRuntime.SetPersistence` | runtime/kernel.go:395-413 | Attaching a file replaces the log by its events and reconstructs state and clock from them; an empty file leaves state and clocks |
| `SchedulerModel.CompareAntisymmetric` | runtime/scheduler.go:122-165 | Swapping the arguments negates the result, and it is zero if and only if all five keys are equal |
| `SchedulerModel.CompareTransitive` | runtime/scheduler.go:122-165 | The order is transitive, the mixture of items with and without deadlines included |
| `SchedulerModel.SortedIff` | runtime/scheduler.go:122-165 | A queue is sorted if and only if of any two items the earlier one has a deadline if the later one has, deadlines ascend, and on equal deadlines execution time ascends, then priority descends, then clock and id ascend |
| `Strings.StrLeIff` | runtime/scheduler.go:157-164 | Ids are in dictionary order: a prefix first, otherwise the smaller character at the first difference |
| `SchedulerModel.SortedQueueUnique` | runtime/scheduler.go:254-258 | With distinct ids a queue has one sorted order, so an unstable sort has no choice |
| `SchedulerModel.RemoveDueIff` | runtime/scheduler.go:292-319 | The removal by id leaves exactly the items not yet due, in order, if and only if no such item precedes a due one with its id |
| `SchedulerModel.DistinctNoLateTwin` | runtime/scheduler.go:292-319 | With distinct ids it always does |
| `SchedulerModel.SortedNoLateTwin` | runtime/scheduler.go:122-165 | So it does on a sorted queue whose items with a deadline are all due, repeated ids included |
| `SchedulerRuns.StrictProcessExact` | runtime/scheduler.go:292-319 | In every strict-mode run, repeated ids included, the removal leaves exactly the items not yet due after every step |
| `SchedulerRuns.NormalProcessCutsWrong` | runtime/scheduler.go:292-319 | In normal mode, scheduling a goal with a deadline and enqueueing it again makes it cut the item that is not due and keep the one that is |
| `SchedulerModel.SplitConserves` | runtime/scheduler.go:321-344 | Due and remaining part together are the queue, item for item |
| `SchedulerRuns.ReadyValid` | runtime/scheduler.go:321-344 | DequeueReady keeps the queue sorted, distinct and filed, returns the due items sorted and distinct, and drops exactly their ids from the items |
| `SchedulerRuns.ProcessValid` | runtime/scheduler.go:292-319 | processScheduledItems leaves exactly the items not yet due, and the queue stays sorted, distinct and filed |
| `SchedulerRuns.NextValid` | runtime/scheduler.go:43-344 | Every call that may change the queue, over fresh ids, keeps it sorted, its ids distinct and each queued id in the items |
| `SchedulerRuns.RunsValid` | runtime/scheduler.go:43-344 | So does every run, in either mode |
| `SchedulerRuns.NextDeterministic` | runtime/scheduler.go:43-344 | In strict mode one call has one outcome, whatever the wall clock and the sort do |
| `SchedulerRuns.StrictRunsAgree` | runtime/scheduler.go:43-344 | Two strict-mode runs of the same calls hold identical queues and give identical answers |
| `Schedulers.Scheduler.Schedule` | runtime/scheduler.go:43-120 | Files and queues goals, events and timers in that order, advances the clock and sorts; `ScheduleFiles` and `SortedIff` say with which keys and in which order |
| `Schedulers.Scheduler.Enqueue` | runtime/scheduler.go:171-195 | Files and queues one goal and sorts; `EnqueueFiles` says with which keys |
| `SchedulerRuns.ScheduleFiles` | runtime/scheduler.go:43-120 | One item per goal, event and timer joins the queue: goals with their priority and deadline, in normal mode due at the deadline less the timeout but not before the wall clock, events with priority -1, timers with 100 and their own time; in strict mode goals and events are due at the second of their clock |
| `SchedulerRuns.EnqueueFiles` | runtime/scheduler.go:171-195 | One item joins the queue: due now, with the goal's priority and without its deadline |
| `SchedulerRuns.DecimalNumber` | runtime/scheduler.go:87 | The id of an event item spells the event's number in decimal without leading zeros |
| `Schedulers.Scheduler.Peek` | runtime/scheduler.go:237-246 | Nothing exactly on an empty queue; on a sorted queue an item that may stand before every other one |
| `Schedulers.Scheduler.Dequeue` | runtime/scheduler.go:197-216 | Removes the first queued item with the id and the filed one, and returns the latter |
| `SchedulerRuns.DequeueExactly` | runtime/scheduler.go:197-216 | While ids are distinct and filed it answers the filed item and unfiles its id, and exactly the items of that id leave the queue; an unknown id changes nothing |
| `Schedulers.Scheduler.Next` | runtime/scheduler.go:218-235 | Returns the first queued item that is not before the wall clock, in strict mode too |
| `SchedulerModel.UpcomingIsFirst` | runtime/scheduler.go:218-235 | Every item queued before the answer is before the wall clock |
| `SchedulerModel.UpcomingDeterministicIff` | runtime/scheduler.go:218-235 | Its answer is independent of the wall clock if and only if nothing is queued |
| `Schedulers.Scheduler.ProcessScheduledItems` | runtime/scheduler.go:292-319 | Cuts the first item with the id of each due one, in queue order |
| `Schedulers.Scheduler.DequeueReady` | runtime/scheduler.go:321-344 | Splits the queue stably by due time, unfiles the due items and returns them |
| `SchedulerRuns.ReadyExactly` | runtime/scheduler.go:321-344 | It answers exactly the queued items whose time is not after the wall clock, or in strict mode the second of the logical clock, leaves exactly the others queued, and drops exactly the ids of the answered ones |
| `ActionMetrics.AverageBound` | runtime/types.go:374-387 | While the true sum fits int64 nothing wraps, minimum <= average <= maximum, and the sum less n times the average lies between 0 and n(n-1)/2 |
| `ActionMetrics.BoundTight` | runtime/types.go:379-380 | The bound is reached: on 0, 1, ..., n-1 the average stays 0 while the true mean is (n-1)/2 |
| `ActionMetrics.ExtremesBound` | runtime/types.go:381-386 | Maximum and minimum bound every recorded duration |
| `ActionMetrics.ExtremesAttained` | runtime/types.go:381-386 | Both are durations that were recorded |
| `ActionMetrics.Counts` | runtime/types.go:356-370 | Total actions are successes plus failures |
| `ActionMetrics.CountsKinds` | runtime/types.go:356-370 | The success counter is the number of recorded successes and the failure counter that of the other samples |
| `ActionMetrics.Metrics.RecordActionSuccess` | runtime/types.go:356-362 | The counters and the average, minimum and maximum after a success, in wrapping arithmetic |
| `ActionMetrics.Metrics.RecordActionFailure` | runtime/types.go:364-370 | The same after a failure |
| `Backoff.CalculateBackoff` | runtime/action_dispatcher.go:150-185 | The loops equal the closed forms: initial times 1, k+1, 2^k or Fib(k+1), wrapped to int64 and capped |
| `Backoff.FirstDelay` | runtime/action_dispatcher.go:150-160 | The first delay is the initial one, 100 ms if none is set, under the cap, 30 s if none is set; without a strategy delay k is (k + 1) times 100 ms |
| `Backoff.DelaysFollow` | runtime/action_dispatcher.go:161-182 | While products fit, constant delays repeat, linear ones grow by the initial delay, exponential ones double and Fibonacci ones add the last two, each under the cap |
| `Backoff.DelayExactIff` | runtime/action_dispatcher.go:150-185 | The delay is the capped product if and only if the product fits int64 or wraps to something at least the cap |
| `Backoff.DelayMonotone` | runtime/action_dispatcher.go:161-182 | Delays never shrink up to a product that fits |
| `Backoff.DelayMonotoneIff` | runtime/action_dispatcher.go:161-182 | For every strategy, delays never shrink up to attempt m if and only if the uncapped product at m fits int64 |
| `Backoff.OverflowShrinks` | runtime/action_dispatcher.go:161-182 | The first product that does not fit gives a negative delay after a non-negative one |
| `Backoff.ExponentialVanishes` | runtime/action_dispatcher.go:168-171 | From attempt 64 on an exponential delay is 0 for every initial delay and every cap that is not negative |
| `Backoff.ExecuteWithRetry` | runtime/action_dispatcher.go:80-148 | Result, number of tries, number and length of the completed waits and recorded metrics of the retry loop for every behaviour of the tried action and of cancellation |
| `Backoff.OutcomeBounded` | runtime/action_dispatcher.go:93-148 | At most the configured tries are made, and the loop succeeds if and only if some try is reached and succeeds |
| `Backoff.OutcomeExact` | runtime/action_dispatcher.go:93-148 | Result and number of tries, told from the first try that is cancelled before or after or succeeds, or from there being none |
| `Backoff.TriesConfigured` | runtime/action_dispatcher.go:80-148 | Zero configured retries make one try, a negative number none and no error, and a failure comes after all tries |
| `Backoff.WaitsBounded` | runtime/action_dispatcher.go:138-144 | Waits total at most (tries - 1) times the cap; zero configured tries count as one, a negative number as none |
| `PlanLauncher.LaunchingSafe` | runtime/kernel.go:225-277 | In every interleaving of one launcher and any number of plans at most 100 plans hold a token, no goal has two plans under way, every executing plan's goal is marked, and each plan's token is released exactly once |
| `PlanLauncher.PlansProceed` | runtime/kernel.go:264-273 | A plan's next deferred step is always enabled: the token receive never blocks |
| `PlanLauncher.NothingLeaks` | runtime/kernel.go:250-273 | When the launcher is idle and all plans have finished no token, mark or wait count is left |

## Left out

- Planning.DependencyGraph.AddNode: holds its list by value; the array it shares with the caller's slice, through which removals and appends can break the mirror, is modelled in `SharedSlices` only. `AddDependency` and `RemoveNode` likewise.
- SharedSlices.SharedMirrorIff: the removed node itself is not among the goals that share the slice; then the outcome depends on the order of the turns.
- SharedSlices.SharedAppendIff: two goals with slices of equal length and one append each.
- RuntimePlanner.Planner.CreateActionForPath: the input map of an action is its path; handlers are not modelled.
- StateManagers.StateManager.Lock: a lock record is a pair of owner and count in a map; its mutex, its condition variable and waiting for it are not modelled.
- StateManagers.StateManager.ApplyEvent: writing changed values to the persistent store (`persistChanges`) is not modelled.
- EventLogs.EventLog.Range: the capacity of the events slice is a parameter.
- StateModel.BothKindsDiverge: between a mutator that writes an assigned path and one that keeps away from all of them (`IndependentCommute`), when mutator and mutations commute is not characterised.
- KernelHealing.CompleteGoalsHold: Rewind, Replay and SetPersistence are not steps of a run; `RewoundGoalsHold`, `ReplayKeepsData` and `RestartSame` say what one of them does at the end of a run.
- KernelModel.InvariantsAlwaysHold: the same, and an invariant registered while it is broken stays broken.
- RuntimePlanner.Planner.RegisterAction: the handler stored under a type is not modelled.
- EventLogs.WriteAheadLog.Append: whether a write succeeds is a parameter; partial lines, skipped corrupt lines and JSON encoding are not modelled.
- Kernel.GoalRuntime.SubmitEvent: publishing on the event bus and trace identifiers are not modelled.
- Kernel.GoalRuntime.SubmitGoal: entering the goal in the scheduler's queue is not modelled there; the scheduler is modelled on its own.
- Kernel.GoalRuntime.ProcessGoals: evaluating and completing a goal are one step, although the code holds no lock between them; planning for unsatisfied goals is not part of a tick, and launching appears in `PlanLauncher` only.
- Kernel.GoalRuntime.Rewind: stopping and restarting the loops cannot fail here.
- KernelModel.ReplayRefinesLive: the clock ticks that executing plans add are not part of a run.
- Backoff.ExecuteWithRetry: one try is its verdict and duration; timeouts inside a try, handlers and short-term memory are not modelled.
- SchedulerRuns.StrictRunsAgree: `Next` is not among the calls of a run, because its answer depends on the wall clock.
- GoalEngines.GoalEngine.SpawnChildren: the trace fields of goals are not modelled.
- Schedulers.Scheduler.Schedule: one call reads the wall clock once; the code reads it per item.
- CycleDetection.HasCycle: the search reads the dependee lists as they are when the read lock is taken.
- Conditions and invariant predicates that write the state, and closures that use the clock or other input: a closure is a deterministic function of what it reads.
- `compareValues` (gdl/compiler.go:150-178): any function of value, operator and target; number parsing and printing are not modelled. Values are their printed forms.
- Overflow of the 64-bit ids, clocks and counters, and of sums of durations in scheduler times: unbounded here. Durations, averages and delays wrap as int64.
- Real time, tickers and goroutine scheduling: times are parameters and every tick is a step.
- `WriteAheadLog.Truncate`, snapshots, object files and secondary indexes of storage/store.go: truncation renumbers below ids still in the file.
- `ResolveWithFallback`, alternative plans, `executePlan`: they pick among plans without changing what a plan is.
- `FindParallelizable`, `GetExecutionOrder`, `GetExecutionPlan`, `WhatIfAnalyzer`: they inherit the answer of `TopologicalSort`.
- `Fork`, `Simulate`, runtime/event_bus.go, short-term memory, goal counters of `Metrics`: they would add easy members.
- gdl/parser.go, gdl/uql.go, gdl/workspace.go, cmd, http, grpc, distributed, security, observability, plugins, logging: input and output, user interface and thin wrappers.
