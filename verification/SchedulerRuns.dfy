/** What each scheduler call may do, and what whole runs of calls guarantee. */
module SchedulerRuns {
  import opened Values
  import opened Sorting
  import opened SchedulerModel

  datatype Sched = Sched(items: map<string, Item>, queue: seq<Item>, clock: nat, strict: bool)

  datatype GoalReq = GoalReq(id: string, priority: int, deadline: int, timeout: int)
  datatype EventReq = EventReq(id: nat, clock: nat)
  datatype TimerReq = TimerReq(id: string, goalID: string, executeAt: int)

  datatype Op =
    | Schedule(goals: seq<GoalReq>, events: seq<EventReq>, timers: seq<TimerReq>)
    | Enqueue(goal: GoalReq)
    | Dequeue(id: string)
    | Process
    | DequeueReady
    | Peek

  function Decimal(n: nat): string {
    if n < 10 then [DIGITS[n]] else Decimal(n / 10) + [DIGITS[n % 10]]
  }

  const DIGITS := "0123456789"

  /** The current time: the logical clock in strict mode, the wall clock otherwise. */
  function Now(s: Sched, wall: int): int { if s.strict then UnixTime(s.clock) else wall }

  function Max(a: int, b: int): int { if a < b then b else a }

  function GoalItem(clock: nat, strict: bool, g: GoalReq, wall: int): Item {
    var at := if strict then UnixTime(clock)
              else if g.deadline != 0 then Max(g.deadline - g.timeout, wall) else wall;
    Item(g.id, g.id, g.priority, clock, at, g.deadline, "goal")
  }

  /** Enqueue takes over neither the deadline nor the timeout. */
  function EnqueuedItem(s: Sched, g: GoalReq, wall: int): Item {
    Item(g.id, g.id, g.priority, s.clock, Now(s, wall), 0, "goal")
  }

  function EventItem(strict: bool, e: EventReq, wall: int): Item {
    Item("event_" + Decimal(e.id), "", -1, e.clock, if strict then UnixTime(e.clock) else wall, 0, "event")
  }

  function TimerItem(clock: nat, t: TimerReq): Item {
    Item(t.id, t.goalID, 100, clock, t.executeAt, 0, "timer")
  }

  function GoalItems(clock: nat, strict: bool, goals: seq<GoalReq>, wall: int): seq<Item> {
    seq(|goals|, i requires 0 <= i < |goals| => GoalItem(clock, strict, goals[i], wall))
  }

  function EventItems(strict: bool, events: seq<EventReq>, wall: int): seq<Item> {
    seq(|events|, i requires 0 <= i < |events| => EventItem(strict, events[i], wall))
  }

  function TimerItems(clock: nat, timers: seq<TimerReq>): seq<Item> {
    seq(|timers|, i requires 0 <= i < |timers| => TimerItem(clock, timers[i]))
  }

  lemma {:induction false} AddItemsTwice(items: map<string, Item>, a: seq<Item>, b: seq<Item>)
    ensures AddItems(AddItems(items, a), b) == AddItems(items, a + b)
  {
    if b == [] {
      assert a + b == a;
    } else {
      var n := |b| - 1;
      AddItemsTwice(items, a, b[..n]);
      assert (a + b)[..|a + b| - 1] == a + b[..n];
    }
  }

  /** The items a call adds, in the order it adds them. */
  function NewItems(s: Sched, op: Op, wall: int): seq<Item> {
    match op
    case Schedule(goals, events, timers) =>
      GoalItems(s.clock, s.strict, goals, wall) + EventItems(s.strict, events, wall) + TimerItems(s.clock, timers)
    case Enqueue(g) => [EnqueuedItem(s, g, wall)]
    case _ => []
  }

  function AddItems(items: map<string, Item>, added: seq<Item>): map<string, Item> {
    if added == [] then items
    else AddItems(items, added[..|added| - 1])[added[|added| - 1].id := added[|added| - 1]]
  }

  function DropItems(items: map<string, Item>, gone: seq<Item>): map<string, Item> {
    if gone == [] then items else DropItems(items, gone[..|gone| - 1]) - {gone[|gone| - 1].id}
  }

  /** One call: `s` may become `s'` and answer `out`. Sorting may order ties either way. */
  ghost predicate Next(s: Sched, op: Op, wall: int, s': Sched, out: seq<Item>) {
    match op
    case Schedule(_, _, _) =>
      var added := NewItems(s, op, wall);
      && s'.items == AddItems(s.items, added) && IsSortOf(s'.queue, s.queue + added, ItemLe)
      && s'.clock == s.clock + 1 && s'.strict == s.strict && out == added
    case Enqueue(_) =>
      var added := NewItems(s, op, wall);
      && s'.items == AddItems(s.items, added) && IsSortOf(s'.queue, s.queue + added, ItemLe)
      && s'.clock == s.clock && s'.strict == s.strict && out == []
    case Dequeue(id) =>
      if id !in s.items then s' == s && out == []
      else s' == s.(items := s.items - {id}, queue := RemoveId(s.queue, id)) && out == [s.items[id]]
    case Process =>
      s' == s.(queue := RemoveEach(s.queue, DueIn(s.queue, Now(s, wall)))) && out == []
    case DequeueReady =>
      var ready := DueIn(s.queue, Now(s, wall));
      s' == s.(items := DropItems(s.items, ready), queue := NotDueIn(s.queue, Now(s, wall))) && out == ready
    case Peek => s' == s && out == if s.queue == [] then [] else [s.queue[0]]
  }

  /** The call adds items under ids that are not queued, each once. */
  ghost predicate FreshIds(s: Sched, op: Op, wall: int) {
    DistinctIds(s.queue + NewItems(s, op, wall))
  }

  // ---------- what every call keeps ----------

  /** The queue is sorted, its ids are distinct, and each queued item is filed. */
  ghost predicate Valid(s: Sched) {
    && DistinctIds(s.queue)
    && Sorted(s.queue, ItemLe)
    && Filed(s.items, s.queue)
  }

  ghost predicate Filed(items: map<string, Item>, q: seq<Item>) {
    forall x :: x in q ==> x.id in items && items[x.id] == x
  }

  lemma DistinctElements(q: seq<Item>)
    ensures DistinctIds(q) <==> NoDuplicates(q) && forall x, y :: x in q && y in q && x.id == y.id ==> x == y
  {
  }

  lemma {:induction false} AddItemsOld(items: map<string, Item>, added: seq<Item>, id: string)
    requires id in items && forall i :: 0 <= i < |added| ==> added[i].id != id
    ensures id in AddItems(items, added) && AddItems(items, added)[id] == items[id]
  {
    if added != [] { AddItemsOld(items, added[..|added| - 1], id); }
  }

  lemma {:induction false} AddItemsNew(items: map<string, Item>, added: seq<Item>, i: nat)
    requires DistinctIds(added) && i < |added|
    ensures added[i].id in AddItems(items, added) && AddItems(items, added)[added[i].id] == added[i]
  {
    if i < |added| - 1 { AddItemsNew(items, added[..|added| - 1], i); }
  }

  lemma SortKeepsDistinct(q: seq<Item>, r: seq<Item>)
    requires DistinctIds(q) && multiset(q) == multiset(r)
    ensures DistinctIds(r)
  {
    SameElements(r, q);
    DistinctElements(q);
    DistinctElements(r);
    forall x | x in r ensures multiset(r)[x] <= 1 { CountOne(q, x); }
    OnceEach(r);
  }

  lemma AddedFiledAt(items: map<string, Item>, q: seq<Item>, added: seq<Item>, k: nat)
    requires Filed(items, q) && DistinctIds(q + added) && k < |q| + |added|
    ensures var x := (q + added)[k]; x.id in AddItems(items, added) && AddItems(items, added)[x.id] == x
  {
    var all := q + added;
    assert forall j :: 0 <= j < |added| ==> added[j] == all[|q| + j];
    if k < |q| {
      assert all[k] in q;
      AddItemsOld(items, added, all[k].id);
    } else {
      AddItemsNew(items, added, k - |q|);
    }
  }

  lemma AddedFiled(items: map<string, Item>, q: seq<Item>, added: seq<Item>)
    requires Filed(items, q) && DistinctIds(q + added)
    ensures Filed(AddItems(items, added), q + added)
  {
    var all := q + added;
    forall x | x in all ensures x.id in AddItems(items, added) && AddItems(items, added)[x.id] == x {
      var k :| 0 <= k < |all| && all[k] == x;
      AddedFiledAt(items, q, added, k);
    }
  }

  lemma AddedValid(s: Sched, added: seq<Item>, s': Sched)
    requires Valid(s) && DistinctIds(s.queue + added)
    requires s'.items == AddItems(s.items, added) && IsSortOf(s'.queue, s.queue + added, ItemLe)
    ensures Valid(s')
  {
    SortKeepsDistinct(s.queue + added, s'.queue);
    SameElements(s'.queue, s.queue + added);
    AddedFiled(s.items, s.queue, added);
  }

  /** With distinct ids, cutting by id is filtering by id. */
  lemma {:induction false} RemoveIdIsFilter(q: seq<Item>, id: string)
    requires DistinctIds(q)
    ensures RemoveId(q, id) == Filter(q, (x: Item) => x.id != id)
  {
    if q != [] {
      if q[0].id == id {
        forall x | x in q[1..] ensures x.id != id {
          var k :| 0 <= k < |q[1..]| && q[1..][k] == x;
          assert q[k + 1] == x;
        }
        FilterNothing(q[1..], (x: Item) => x.id != id);
      } else {
        RemoveIdIsFilter(q[1..], id);
      }
    }
  }

  lemma {:induction false} FilterValid(s: Sched, keep: Item -> bool, items: map<string, Item>)
    requires Valid(s)
    requires forall x :: x in s.queue && keep(x) ==> x.id in items && items[x.id] == s.items[x.id]
    ensures Valid(s.(items := items, queue := Filter(s.queue, keep)))
  {
    FilterSorted(s.queue, keep);
    FilterDistinct(s.queue, keep);
  }

  ghost function DueIds(q: seq<Item>, now: int): set<string> { set x | x in q && Due(x, now) :: x.id }

  lemma {:induction false} DropItemsSet(items: map<string, Item>, gone: seq<Item>)
    ensures DropItems(items, gone) == items - set x | x in gone :: x.id
  {
    if gone != [] {
      var n := |gone| - 1;
      DropItemsSet(items, gone[..n]);
      assert gone == gone[..n] + [gone[n]];
      assert (set x | x in gone :: x.id) == (set x | x in gone[..n] :: x.id) + {gone[n].id};
    }
  }

  lemma ReadyDropped(s: Sched, now: int)
    ensures DropItems(s.items, DueIn(s.queue, now)) == s.items - DueIds(s.queue, now)
  {
    DropItemsSet(s.items, DueIn(s.queue, now));
    assert (set x | x in DueIn(s.queue, now) :: x.id) == DueIds(s.queue, now);
  }

  /** DequeueReady drops exactly the due ids from the items; what it returns and what it leaves are both sorted. */
  lemma ReadyValid(s: Sched, now: int)
    requires Valid(s)
    ensures Valid(s.(items := DropItems(s.items, DueIn(s.queue, now)), queue := NotDueIn(s.queue, now)))
    ensures DropItems(s.items, DueIn(s.queue, now)) == s.items - DueIds(s.queue, now)
    ensures Sorted(DueIn(s.queue, now), ItemLe) && DistinctIds(DueIn(s.queue, now))
  {
    ReadyDropped(s, now);
    DistinctElements(s.queue);
    FilterSorted(s.queue, x => Due(x, now));
    FilterDistinct(s.queue, x => Due(x, now));
    FilterValid(s, x => !Due(x, now), s.items - DueIds(s.queue, now));
  }

  lemma DequeueValid(s: Sched, id: string)
    requires Valid(s)
    ensures Valid(s.(items := s.items - {id}, queue := RemoveId(s.queue, id)))
  {
    RemoveIdIsFilter(s.queue, id);
    FilterValid(s, (x: Item) => x.id != id, s.items - {id});
  }

  /** Process leaves the items alone and exactly the items not yet due in the queue. */
  lemma ProcessValid(s: Sched, now: int)
    requires Valid(s)
    ensures RemoveEach(s.queue, DueIn(s.queue, now)) == NotDueIn(s.queue, now)
    ensures Valid(s.(queue := RemoveEach(s.queue, DueIn(s.queue, now))))
  {
    DistinctNoLateTwin(s.queue, now);
    FilterValid(s, x => !Due(x, now), s.items);
  }

  /** Every call keeps the queue sorted and its items distinct and filed. */
  lemma NextValid(s: Sched, op: Op, wall: int, s': Sched, out: seq<Item>)
    requires Valid(s) && FreshIds(s, op, wall) && Next(s, op, wall, s', out)
    ensures Valid(s') && s'.strict == s.strict
  {
    match op
    case Schedule(_, _, _) => AddedValid(s, NewItems(s, op, wall), s');
    case Enqueue(_) => AddedValid(s, NewItems(s, op, wall), s');
    case Dequeue(id) => DequeueValid(s, id);
    case Process => ProcessValid(s, Now(s, wall));
    case DequeueReady => ReadyValid(s, Now(s, wall));
    case Peek =>
  }

  // ---------- repeated ids ----------

  /** What every strict-mode call keeps, repeated ids or not: the queue is sorted, and an
      item with a deadline is due since it was filed. */
  ghost predicate StrictSound(s: Sched) {
    s.strict && Sorted(s.queue, ItemLe) && forall x :: x in s.queue && x.deadline != 0 ==> Due(x, UnixTime(s.clock))
  }

  lemma AddedSound(s: Sched, op: Op, wall: int, x: Item)
    requires s.strict && x in NewItems(s, op, wall) && x.deadline != 0
    ensures Due(x, UnixTime(s.clock))
  {
    if op.Schedule? {
      var all := NewItems(s, op, wall);
      var k :| 0 <= k < |all| && all[k] == x;
      if k < |op.goals| { assert x == GoalItem(s.clock, s.strict, op.goals[k], wall); }
    }
  }

  lemma {:induction false} RemoveIdSorted(q: seq<Item>, id: string)
    requires Sorted(q, ItemLe)
    ensures Sorted(RemoveId(q, id), ItemLe) && forall x :: x in RemoveId(q, id) ==> x in q
  {
    if q != [] && q[0].id != id {
      RemoveIdSorted(q[1..], id);
      var r := RemoveId(q[1..], id);
      forall i | 0 <= i < |r| ensures ItemLe(q[0], r[i]) {
        assert r[i] in q[1..];
        var k :| 0 <= k < |q[1..]| && q[1..][k] == r[i];
        assert q[k + 1] == r[i];
      }
    }
  }

  lemma {:induction false} RemoveEachSorted(q: seq<Item>, listed: seq<Item>)
    requires Sorted(q, ItemLe)
    ensures Sorted(RemoveEach(q, listed), ItemLe) && forall x :: x in RemoveEach(q, listed) ==> x in q
    decreases listed
  {
    if listed != [] {
      RemoveIdSorted(q, listed[0].id);
      RemoveEachSorted(RemoveId(q, listed[0].id), listed[1..]);
    }
  }

  lemma FiledSound(s: Sched, op: Op, wall: int, s': Sched, out: seq<Item>)
    requires StrictSound(s) && Next(s, op, wall, s', out) && (op.Schedule? || op.Enqueue?)
    ensures StrictSound(s')
  {
    var all := s.queue + NewItems(s, op, wall);
    SameElements(s'.queue, all);
    forall x | x in s'.queue && x.deadline != 0 ensures Due(x, UnixTime(s'.clock)) {
      assert x in all;
      if x !in s.queue { AddedSound(s, op, wall, x); }
    }
  }

  lemma StrictSoundNext(s: Sched, op: Op, wall: int, s': Sched, out: seq<Item>)
    requires StrictSound(s) && Next(s, op, wall, s', out)
    ensures StrictSound(s')
  {
    match op
    case Schedule(_, _, _) => FiledSound(s, op, wall, s', out);
    case Enqueue(_) => FiledSound(s, op, wall, s', out);
    case Dequeue(id) => RemoveIdSorted(s.queue, id);
    case Process => RemoveEachSorted(s.queue, DueIn(s.queue, Now(s, wall)));
    case DequeueReady => FilterSorted(s.queue, x => !Due(x, Now(s, wall)));
    case Peek =>
  }

  /** In every strict-mode run, repeated ids included, Process would leave exactly the items not yet due. */
  lemma {:induction false} StrictProcessExact(ops: seq<Op>, t: Trace, k: nat)
    requires IsRun(Sched(map[], [], 0, true), ops, t) && k <= |ops|
    ensures var s := t.states[k];
            && StrictSound(s)
            && forall wall :: RemoveEach(s.queue, DueIn(s.queue, Now(s, wall))) == NotDueIn(s.queue, Now(s, wall))
  {
    if k > 0 {
      var i := k - 1;
      StrictProcessExact(ops, t, i);
      assert Next(t.states[i], ops[i], t.walls[i], t.states[i + 1], t.outs[i]);
      StrictSoundNext(t.states[i], ops[i], t.walls[i], t.states[i + 1], t.outs[i]);
    }
    var s := t.states[k];
    SortedNoLateTwin(s.queue, UnixTime(s.clock));
    RemoveDueIff(s.queue, UnixTime(s.clock));
  }

  function LateItem(id: string, wall: int): Item { Item(id, id, 0, 0, wall + 10, wall + 10, "goal") }

  function DueItem(id: string, wall: int): Item { Item(id, id, 0, 1, wall, 0, "goal") }

  lemma CutsLate(id: string, wall: int)
    requires wall + 10 != 0
    ensures var q := [LateItem(id, wall), DueItem(id, wall)];
            && Sorted(q, ItemLe) && DueIn(q, wall) == [DueItem(id, wall)] && NotDueIn(q, wall) == [LateItem(id, wall)]
            && RemoveEach(q, DueIn(q, wall)) == [DueItem(id, wall)]
  {
    var late, due := LateItem(id, wall), DueItem(id, wall);
    var q := [late, due];
    assert [] + [late] == [late] && [late] + [due] == q;
    FilterSnoc([], late, x => Due(x, wall));
    FilterSnoc([late], due, x => Due(x, wall));
    FilterSnoc([], late, x => !Due(x, wall));
    FilterSnoc([late], due, x => !Due(x, wall));
    assert [due][1..] == [] && q[1..] == [due];
    assert RemoveEach(q, [due]) == RemoveEach(RemoveId(q, id), []);
  }

  lemma ScheduledAlone(id: string, wall: int)
    ensures var g := GoalReq(id, 0, wall + 10, 0);
            wall + 10 != 0 ==> NewItems(Sched(map[], [], 0, false), Schedule([g], [], []), wall) == [LateItem(id, wall)]
  {
    var g := GoalReq(id, 0, wall + 10, 0);
    if wall + 10 != 0 { assert GoalItem(0, false, g, wall) == LateItem(id, wall); }
  }

  /** In normal mode a goal with a deadline, scheduled and then enqueued again, makes Process
      cut the item that is not due and keep the one that is. */
  lemma NormalProcessCutsWrong(id: string, wall: int) returns (s1: Sched, s2: Sched, s3: Sched)
    requires wall + 10 != 0
    ensures var g := GoalReq(id, 0, wall + 10, 0);
            && Next(Sched(map[], [], 0, false), Schedule([g], [], []), wall, s1, [LateItem(id, wall)])
            && Next(s1, Enqueue(g), wall, s2, []) && Next(s2, Process, wall, s3, [])
    ensures s2.queue == [LateItem(id, wall), DueItem(id, wall)] && s3.queue == [DueItem(id, wall)]
    ensures !Due(LateItem(id, wall), wall) && Due(DueItem(id, wall), wall)
  {
    var g := GoalReq(id, 0, wall + 10, 0);
    var late, due := LateItem(id, wall), DueItem(id, wall);
    ScheduledAlone(id, wall);
    CutsLate(id, wall);
    s1 := Sched(AddItems(map[], [late]), [late], 1, false);
    assert [] + [late] == [late];
    assert NewItems(s1, Enqueue(g), wall) == [due];
    s2 := Sched(AddItems(s1.items, [due]), [late, due], 1, false);
    assert s1.queue + [due] == s2.queue;
    s3 := s2.(queue := [due]);
  }

  // ---------- the calls told plainly ----------

  /** The time of strict mode, in nanoseconds, is one second per tick of the clock after 1970. */
  function Strict(clock: nat): int { (62_135_596_800 + clock) * 1_000_000_000 }

  /** Schedule queues one item per goal, event and timer. A goal keeps its priority and deadline; in
      normal mode it waits for the deadline less the timeout, but is never filed before the wall clock. */
  lemma ScheduleFiles(
      s: Sched, goals: seq<GoalReq>, events: seq<EventReq>, timers: seq<TimerReq>, wall: int, s': Sched, out: seq<Item>)
    requires Next(s, Schedule(goals, events, timers), wall, s', out)
    ensures |out| == |goals| + |events| + |timers| && multiset(s'.queue) == multiset(s.queue) + multiset(out)
    ensures s'.clock == s.clock + 1
    ensures forall i :: 0 <= i < |goals| ==>
              var x, g := out[i], goals[i];
              && x == Item(g.id, g.id, g.priority, s.clock, x.executeAt, g.deadline, "goal")
              && (s.strict ==> x.executeAt == Strict(s.clock))
              && (!s.strict && g.deadline == 0 ==> x.executeAt == wall)
              && (!s.strict && g.deadline != 0 ==>
                   x.executeAt >= wall && x.executeAt >= g.deadline - g.timeout
                   && x.executeAt in {wall, g.deadline - g.timeout})
    ensures forall i :: 0 <= i < |events| ==>
              var x, e := out[|goals| + i], events[i];
              && x == Item("event_" + Decimal(e.id), "", -1, e.clock, x.executeAt, 0, "event")
              && x.executeAt == if s.strict then Strict(e.clock) else wall
    ensures forall i :: 0 <= i < |timers| ==>
              var x, t := out[|goals| + |events| + i], timers[i];
              x == Item(t.id, t.goalID, 100, s.clock, t.executeAt, 0, "timer")
  {
    assert multiset(s.queue + out) == multiset(s.queue) + multiset(out);
  }

  /** Enqueue queues the goal for now, without its deadline. */
  lemma EnqueueFiles(s: Sched, g: GoalReq, wall: int, s': Sched, out: seq<Item>)
    requires Next(s, Enqueue(g), wall, s', out)
    ensures var at := if s.strict then Strict(s.clock) else wall;
            && multiset(s'.queue) == multiset(s.queue) + multiset{Item(g.id, g.id, g.priority, s.clock, at, 0, "goal")}
            && s'.clock == s.clock
  {
    var x := EnqueuedItem(s, g, wall);
    assert multiset(s.queue + [x]) == multiset(s.queue) + multiset([x]);
  }

  /** Dequeue answers the item filed under the id, if any, and unfiles it; exactly the items
      of that id leave the queue. */
  lemma DequeueExactly(s: Sched, id: string, wall: int, s': Sched, out: seq<Item>, x: Item)
    requires Valid(s) && Next(s, Dequeue(id), wall, s', out)
    ensures id !in s.items ==> out == [] && s' == s
    ensures id in s.items ==>
              && out == [s.items[id]] && s'.items == s.items - {id}
              && (x in s'.queue <==> x in s.queue && x.id != id)
  {
    RemoveIdIsFilter(s.queue, id);
  }

  /** DequeueReady answers exactly the queued items whose time has come, and drops exactly their ids. */
  lemma ReadyExactly(s: Sched, wall: int, s': Sched, out: seq<Item>, x: Item)
    requires Next(s, DequeueReady, wall, s', out)
    ensures var now := if s.strict then Strict(s.clock) else wall;
            && (x in out <==> x in s.queue && x.executeAt <= now)
            && (x in s'.queue <==> x in s.queue && x.executeAt > now)
            && multiset(s.queue) == multiset(out) + multiset(s'.queue)
            && forall id :: id in s'.items <==>
                 id in s.items && !exists y :: y in s.queue && y.executeAt <= now && y.id == id
  {
    ReadyDropped(s, Now(s, wall));
    SplitConserves(s.queue, Now(s, wall));
  }

  predicate IsDigit(c: char) { '0' <= c <= '9' }

  function Number(digits: string): nat
    requires forall i :: 0 <= i < |digits| ==> IsDigit(digits[i])
  {
    if digits == "" then 0
    else
      var last := |digits| - 1;
      assert IsDigit(digits[last]);
      Number(digits[..last]) * 10 + (digits[last] - '0') as nat
  }

  lemma DigitValue(d: nat)
    requires d < 10
    ensures IsDigit(DIGITS[d]) && (DIGITS[d] - '0') as nat == d
  {
  }

  lemma NumberSnoc(digits: string, c: char)
    requires IsDigit(c) && forall i :: 0 <= i < |digits| ==> IsDigit(digits[i])
    ensures forall i :: 0 <= i < |digits + [c]| ==> IsDigit((digits + [c])[i])
    ensures Number(digits + [c]) == Number(digits) * 10 + (c - '0') as nat
  {
    assert (digits + [c])[..|digits|] == digits;
  }

  /** The id of an event spells its number in decimal, without leading zeros. */
  lemma {:induction false} DecimalNumber(n: nat)
    ensures forall i :: 0 <= i < |Decimal(n)| ==> IsDigit(Decimal(n)[i])
    ensures Number(Decimal(n)) == n && Decimal(n) != "" && (n != 0 ==> Decimal(n)[0] != '0')
  {
    DigitValue(n % 10);
    if n >= 10 {
      DecimalNumber(n / 10);
      NumberSnoc(Decimal(n / 10), DIGITS[n % 10]);
    } else {
      NumberSnoc("", DIGITS[n]);
      assert "" + [DIGITS[n]] == Decimal(n);
    }
  }

  // ---------- determinism ----------

  /** In strict mode the wall clock has no say and sorting no choice. */
  lemma NextDeterministic(
      s: Sched, op: Op, wall1: int, wall2: int, s1: Sched, out1: seq<Item>, s2: Sched, out2: seq<Item>)
    requires s.strict && FreshIds(s, op, wall1)
    requires Next(s, op, wall1, s1, out1) && Next(s, op, wall2, s2, out2)
    ensures s1 == s2 && out1 == out2
  {
    var added := NewItems(s, op, wall1);
    if op.Schedule? {
      assert GoalItems(s.clock, true, op.goals, wall1) == GoalItems(s.clock, true, op.goals, wall2);
      assert EventItems(true, op.events, wall1) == EventItems(true, op.events, wall2);
    }
    assert added == NewItems(s, op, wall2);
    if op.Schedule? || op.Enqueue? { SortedQueueUnique(s.queue + added, s1.queue, s2.queue); }
  }

  /** A run: the states and answers of successive calls, at whatever wall-clock times. */
  datatype Trace = Trace(states: seq<Sched>, outs: seq<seq<Item>>, walls: seq<int>)

  ghost predicate IsRun(s: Sched, ops: seq<Op>, t: Trace) {
    && |t.states| == |ops| + 1 && |t.outs| == |ops| == |t.walls| && t.states[0] == s
    && forall k :: 0 <= k < |ops| ==> Next(t.states[k], ops[k], t.walls[k], t.states[k + 1], t.outs[k])
  }

  ghost predicate FreshRun(ops: seq<Op>, t: Trace) {
    |t.states| == |ops| + 1 && |t.walls| == |ops|
    && forall k :: 0 <= k < |ops| ==> FreshIds(t.states[k], ops[k], t.walls[k])
  }

  /** In every run over fresh ids, in either mode, the queue stays sorted and every queued id stays filed. */
  lemma {:induction false} RunsValid(s: Sched, ops: seq<Op>, t: Trace, k: nat)
    requires Valid(s) && IsRun(s, ops, t) && FreshRun(ops, t) && k <= |ops|
    ensures Valid(t.states[k]) && t.states[k].strict == s.strict
  {
    if k > 0 {
      var j := k - 1;
      RunsValid(s, ops, t, j);
      assert FreshIds(t.states[j], ops[j], t.walls[j]);
      assert Next(t.states[j], ops[j], t.walls[j], t.states[j + 1], t.outs[j]);
      NextValid(t.states[j], ops[j], t.walls[j], t.states[j + 1], t.outs[j]);
    }
  }

  lemma StepAgrees(
      s: Sched, op: Op, wall: int, s': Sched, out: seq<Item>,
      u: Sched, wallU: int, u': Sched, outU: seq<Item>)
    requires s == u && Valid(s) && s.strict && FreshIds(s, op, wall)
    requires Next(s, op, wall, s', out) && Next(u, op, wallU, u', outU)
    ensures s' == u' && out == outU && Valid(s') && s'.strict
  {
    NextDeterministic(s, op, wall, wallU, s', out, u', outU);
    NextValid(s, op, wall, s', out);
  }

  lemma {:induction false} RunPoint(s: Sched, ops: seq<Op>, t: Trace, u: Trace, k: nat)
    requires s.strict && Valid(s) && IsRun(s, ops, t) && IsRun(s, ops, u) && FreshRun(ops, t) && k <= |ops|
    ensures t.states[k] == u.states[k] && Valid(t.states[k]) && t.states[k].strict
  {
    if k > 0 {
      var i := k - 1;
      RunPoint(s, ops, t, u, i);
      StepsAgree(s, ops, t, u, i);
    }
  }

  lemma StepsAgree(s: Sched, ops: seq<Op>, t: Trace, u: Trace, i: nat)
    requires IsRun(s, ops, t) && IsRun(s, ops, u) && FreshRun(ops, t) && i < |ops|
    requires t.states[i] == u.states[i] && Valid(t.states[i]) && t.states[i].strict
    ensures t.states[i + 1] == u.states[i + 1] && t.outs[i] == u.outs[i]
    ensures Valid(t.states[i + 1]) && t.states[i + 1].strict
  {
    assert FreshIds(t.states[i], ops[i], t.walls[i]);
    assert Next(t.states[i], ops[i], t.walls[i], t.states[i + 1], t.outs[i]);
    assert Next(u.states[i], ops[i], u.walls[i], u.states[i + 1], u.outs[i]);
    StepAgrees(t.states[i], ops[i], t.walls[i], t.states[i + 1], t.outs[i],
      u.states[i], u.walls[i], u.states[i + 1], u.outs[i]);
  }

  /** Two strict-mode runs of the same calls hold identical queues and give identical
      answers, whatever the wall clock says and however ties are sorted. */
  lemma StrictRunsAgree(s: Sched, ops: seq<Op>, t: Trace, u: Trace)
    requires s.strict && Valid(s) && IsRun(s, ops, t) && IsRun(s, ops, u) && FreshRun(ops, t)
    ensures t.states == u.states && t.outs == u.outs
  {
    forall k | 0 <= k <= |ops| ensures t.states[k] == u.states[k] { RunPoint(s, ops, t, u, k); }
    forall k | 0 <= k < |ops| ensures t.outs[k] == u.outs[k] {
      RunPoint(s, ops, t, u, k);
      StepsAgree(s, ops, t, u, k);
    }
  }
}
