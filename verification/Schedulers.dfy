/** runtime/scheduler.go. */
module Schedulers {
  import opened Values
  import opened Sorting
  import opened SchedulerModel
  import R = SchedulerRuns

  class Scheduler {
    var items: map<string, Item>
    var priorityQueue: seq<Item>
    var clock: nat
    const strict: bool

    ghost function View(): R.Sched
      reads this
    {
      R.Sched(items, priorityQueue, clock, strict)
    }

    constructor (strict: bool)
      ensures View() == R.Sched(map[], [], 0, strict) && R.Valid(View())
    {
      items, priorityQueue, clock := map[], [], 0;
      this.strict := strict;
    }

    /** File an item and append it to the queue. */
    method Insert(item: Item)
      modifies this`items, this`priorityQueue
      ensures items == R.AddItems(old(items), [item]) && priorityQueue == old(priorityQueue) + [item]
    {
      assert [item][..0] == [];
      items := items[item.id := item];
      priorityQueue := priorityQueue + [item];
    }

    method SortQueue()
      modifies this`priorityQueue
      ensures IsSortOf(priorityQueue, old(priorityQueue), ItemLe)
    {
      ItemLeOrders(priorityQueue);
      priorityQueue := SortSlice(priorityQueue, ItemLe);
    }

    method GoalItem(goal: R.GoalReq, wall: int) returns (item: Item)
      ensures item == R.GoalItem(clock, strict, goal, wall)
    {
      var executeAt := if strict then UnixTime(clock) else wall;
      if !strict && goal.deadline != 0 {
        executeAt := goal.deadline - goal.timeout;
        if executeAt < wall { executeAt := wall; }
      }
      return Item(goal.id, goal.id, goal.priority, clock, executeAt, goal.deadline, "goal");
    }

    method EventItem(event: R.EventReq, wall: int) returns (item: Item)
      ensures item == R.EventItem(strict, event, wall)
    {
      var executeAt := if strict then UnixTime(event.clock) else wall;
      return Item("event_" + R.Decimal(event.id), "", -1, event.clock, executeAt, 0, "event");
    }

    method ScheduleGoals(goals: seq<R.GoalReq>, wall: int) returns (added: seq<Item>)
      modifies this`items, this`priorityQueue
      ensures added == R.GoalItems(clock, strict, goals, wall)
      ensures items == R.AddItems(old(items), added) && priorityQueue == old(priorityQueue) + added
    {
      ghost var s := View();
      added := [];
      var i := 0;
      while i < |goals|
        invariant 0 <= i <= |goals|
        invariant |added| == i && forall j :: 0 <= j < i ==> added[j] == R.GoalItem(clock, strict, goals[j], wall)
        invariant items == R.AddItems(s.items, added) && priorityQueue == s.queue + added
      {
        var item := GoalItem(goals[i], wall);
        R.AddItemsTwice(s.items, added, [item]);
        Insert(item);
        added := added + [item];
        i := i + 1;
      }
    }

    method ScheduleEvents(events: seq<R.EventReq>, wall: int) returns (added: seq<Item>)
      modifies this`items, this`priorityQueue
      ensures added == R.EventItems(strict, events, wall)
      ensures items == R.AddItems(old(items), added) && priorityQueue == old(priorityQueue) + added
    {
      ghost var s := View();
      added := [];
      var i := 0;
      while i < |events|
        invariant 0 <= i <= |events|
        invariant |added| == i && forall j :: 0 <= j < i ==> added[j] == R.EventItem(strict, events[j], wall)
        invariant items == R.AddItems(s.items, added) && priorityQueue == s.queue + added
      {
        var item := EventItem(events[i], wall);
        R.AddItemsTwice(s.items, added, [item]);
        Insert(item);
        added := added + [item];
        i := i + 1;
      }
    }

    method ScheduleTimers(timers: seq<R.TimerReq>) returns (added: seq<Item>)
      modifies this`items, this`priorityQueue
      ensures added == R.TimerItems(clock, timers)
      ensures items == R.AddItems(old(items), added) && priorityQueue == old(priorityQueue) + added
    {
      ghost var s := View();
      added := [];
      var i := 0;
      while i < |timers|
        invariant 0 <= i <= |timers|
        invariant |added| == i && forall j :: 0 <= j < i ==> added[j] == R.TimerItem(clock, timers[j])
        invariant items == R.AddItems(s.items, added) && priorityQueue == s.queue + added
      {
        var timer := timers[i];
        var item := Item(timer.id, timer.goalID, 100, clock, timer.executeAt, 0, "timer");
        R.AddItemsTwice(s.items, added, [item]);
        Insert(item);
        added := added + [item];
        i := i + 1;
      }
    }

    method Schedule(goals: seq<R.GoalReq>, events: seq<R.EventReq>, timers: seq<R.TimerReq>, wall: int)
      returns (added: seq<Item>)
      modifies this
      ensures R.Next(old(View()), R.Schedule(goals, events, timers), wall, View(), added)
    {
      ghost var s := View();
      var a := ScheduleGoals(goals, wall);
      var b := ScheduleEvents(events, wall);
      var c := ScheduleTimers(timers);
      R.AddItemsTwice(s.items, a, b);
      R.AddItemsTwice(s.items, a + b, c);
      added := a + b + c;
      clock := clock + 1;
      SortQueue();
    }

    method Enqueue(goal: R.GoalReq, wall: int)
      modifies this
      ensures R.Next(old(View()), R.Enqueue(goal), wall, View(), [])
    {
      var executeAt := if strict then UnixTime(clock) else wall;
      Insert(Item(goal.id, goal.id, goal.priority, clock, executeAt, 0, "goal"));
      SortQueue();
    }

    /** Cut the first queued item with this id. */
    method Cut(id: string)
      modifies this`priorityQueue
      ensures priorityQueue == RemoveId(old(priorityQueue), id)
    {
      var q := priorityQueue;
      var i := 0;
      while i < |q|
        invariant 0 <= i <= |q| && priorityQueue == q
        invariant forall j :: 0 <= j < i ==> q[j].id != id
      {
        if q[i].id == id {
          RemoveIdAt(q, id, i);
          priorityQueue := q[..i] + q[i + 1..];
          return;
        }
        i := i + 1;
      }
      RemoveIdAbsent(q, id);
    }

    method Dequeue(id: string) returns (item: Option<Item>)
      modifies this
      ensures R.Next(old(View()), R.Dequeue(id), 0, View(), if item.Some? then [item.value] else [])
    {
      if id !in items { return None; }
      item := Some(items[id]);
      Cut(id);
      items := items - {id};
    }

    /** Next looks at the wall clock whatever the mode. */
    method Next(wall: int) returns (item: Option<Item>)
      ensures item == Upcoming(priorityQueue, wall)
    {
      var i := 0;
      while i < |priorityQueue|
        invariant 0 <= i <= |priorityQueue|
        invariant Upcoming(priorityQueue, wall) == Upcoming(priorityQueue[i..], wall)
      {
        assert priorityQueue[i..][1..] == priorityQueue[i + 1..];
        if priorityQueue[i].executeAt >= wall { return Some(priorityQueue[i]); }
        i := i + 1;
      }
      return None;
    }

    method Peek() returns (item: Option<Item>)
      ensures R.Next(View(), R.Peek, 0, View(), if item.Some? then [item.value] else [])
      ensures item.None? <==> priorityQueue == []
      ensures item.Some? && Sorted(priorityQueue, ItemLe) ==>
                forall x :: x in priorityQueue ==> MayPrecede(item.value, x)
    {
      if |priorityQueue| > 0 && Sorted(priorityQueue, ItemLe) { FirstMayPrecede(priorityQueue); }
      return if |priorityQueue| == 0 then None else Some(priorityQueue[0]);
    }

    /** The items not after `now`, in queue order. */
    method CollectDue(now: int) returns (ready: seq<Item>, remaining: seq<Item>)
      ensures ready == DueIn(priorityQueue, now) && remaining == NotDueIn(priorityQueue, now)
    {
      ready, remaining := [], [];
      var i := 0;
      while i < |priorityQueue|
        invariant 0 <= i <= |priorityQueue|
        invariant ready == DueIn(priorityQueue[..i], now) && remaining == NotDueIn(priorityQueue[..i], now)
      {
        var item := priorityQueue[i];
        SplitSnoc(priorityQueue[..i], item, now);
        assert priorityQueue[..i + 1] == priorityQueue[..i] + [item];
        if item.executeAt <= now { ready := ready + [item]; } else { remaining := remaining + [item]; }
        i := i + 1;
      }
      assert priorityQueue[..i] == priorityQueue;
    }

    method ProcessScheduledItems(wall: int)
      modifies this
      ensures R.Next(old(View()), R.Process, wall, View(), [])
    {
      var now := if strict then UnixTime(clock) else wall;
      var ready, _ := CollectDue(now);
      var i := 0;
      while i < |ready|
        invariant 0 <= i <= |ready| && items == old(items) && clock == old(clock)
        invariant RemoveEach(old(priorityQueue), ready) == RemoveEach(priorityQueue, ready[i..])
      {
        assert ready[i..][1..] == ready[i + 1..];
        Cut(ready[i].id);
        i := i + 1;
      }
    }

    method DequeueReady(wall: int) returns (ready: seq<Item>)
      modifies this
      ensures R.Next(old(View()), R.DequeueReady, wall, View(), ready)
    {
      var now := if strict then UnixTime(clock) else wall;
      var remaining;
      ready, remaining := CollectDue(now);
      var i := 0;
      while i < |ready|
        invariant 0 <= i <= |ready| && priorityQueue == old(priorityQueue) && clock == old(clock)
        invariant items == R.DropItems(old(items), ready[..i])
      {
        assert ready[..i + 1][..i] == ready[..i];
        items := items - {ready[i].id};
        i := i + 1;
      }
      assert ready[..i] == ready;
      priorityQueue := remaining;
    }
  }

  lemma SplitSnoc(q: seq<Item>, x: Item, now: int)
    ensures DueIn(q + [x], now) == DueIn(q, now) + if Due(x, now) then [x] else []
    ensures NotDueIn(q + [x], now) == NotDueIn(q, now) + if Due(x, now) then [] else [x]
  {
    FilterSnoc(q, x, y => Due(y, now));
    FilterSnoc(q, x, y => !Due(y, now));
  }
}
