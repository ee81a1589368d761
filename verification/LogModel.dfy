/** runtime/event_log.go and the write-ahead log of storage/store.go as values. */
module LogModel {
  import opened Values
  import opened Events

  /** storage.Event: everything of an event but its mutator, which is a closure. */
  datatype StoredEvent = StoredEvent(
    id: nat,
    clock: nat,
    timestamp: int,
    typ: string,
    readPaths: seq<Path>,
    writePaths: seq<Path>,
    mutations: seq<StateMutation>)

  /** The file's entries and the counters kept beside it. */
  datatype Wal = Wal(entries: seq<StoredEvent>, eventCount: nat, clock: nat)

  /** How the write to the file ends. */
  datatype IO = Written | WriteFailed | SyncFailed

  datatype Log = Log(events: seq<Event>, clock: nat, nextID: nat)

  const NEW_LOG := Log([], 0, 1)
  const NEW_WAL := Wal([], 0, 0)

  function Store(e: Event): StoredEvent {
    StoredEvent(e.id, e.clock, e.timestamp, e.typ, e.readPaths, e.writePaths, e.mutations)
  }

  function Restore(s: StoredEvent): Event {
    Event(s.id, s.clock, s.timestamp, s.typ, s.readPaths, s.writePaths, None, s.mutations)
  }

  /** WriteAheadLog.Append: a failed write keeps the new count, and a failed sync the entry too. */
  function WalAppend(w: Wal, e: StoredEvent, now: int, io: IO): (Wal, Option<nat>) {
    var entry := e.(id := w.eventCount + 1, clock := w.clock + 1, timestamp := now);
    match io
    case Written => (Wal(w.entries + [entry], entry.id, entry.clock), Some(entry.id))
    case WriteFailed => (w.(eventCount := entry.id), None)
    case SyncFailed => (w.(entries := w.entries + [entry], eventCount := entry.id), None)
  }

  /** NewWriteAheadLog over an existing file. */
  function Recover(entries: seq<StoredEvent>): Wal {
    if entries == [] then NEW_WAL
    else Wal(entries, entries[|entries| - 1].id, entries[|entries| - 1].clock)
  }

  /** EventLogImpl.Append. */
  function Append(l: Log, w: Option<Wal>, e: Event, now: int, walNow: int, io: IO): (Log, Option<Wal>, Option<nat>) {
    var event := e.(id := l.nextID, clock := l.clock + 1, timestamp := now);
    if w.None? then (Log(l.events + [event], event.clock, event.id + 1), None, Some(event.id))
    else
      var (w', id) := WalAppend(w.value, Store(event), walNow, io);
      if id.None? then (l, Some(w'), None)
      else (Log(l.events + [event.(id := id.value)], event.clock, id.value + 1), Some(w'), id)
  }

  /** SetPersistence: the file's events replace the log's; an empty file leaves the counters. */
  function LoadInto(l: Log, w: Wal): Log {
    var events := seq(|w.entries|, i requires 0 <= i < |w.entries| => Restore(w.entries[i]));
    if events == [] then l.(events := [])
    else Log(events, events[|events| - 1].clock, events[|events| - 1].id + 1)
  }

  function Load(w: Wal): Log { LoadInto(NEW_LOG, w) }

  /** ReplayUntil: the events before the first one stamped after `t`; time zero means all. */
  function ReplayUntil(events: seq<Event>, t: int): seq<Event> {
    if events == [] || (t != 0 && events[0].timestamp > t) then []
    else [events[0]] + ReplayUntil(events[1..], t)
  }

  /** What a look-up ends in: a result, an error, or an index out of range. */
  datatype Answer<T> = Found(value: T) | NotFound | Inverted | Panic

  /** Get, on any log. */
  function Get(l: Log, id: nat): Answer<Event> {
    if id == 0 || id >= l.nextID then NotFound
    else if id > |l.events| then Panic
    else Found(l.events[id - 1])
  }

  /** Go's zero event. */
  const NO_EVENT := Event(0, 0, 0, "", [], [], None, [])

  /** Range, on any log: slicing beyond the length is allowed up to the slice's capacity and yields zero events. */
  function Range(l: Log, capacity: nat, start: nat, end: nat): Answer<seq<Event>>
    requires |l.events| <= capacity
  {
    var first := if start == 0 then 1 else start;
    var last := if end >= l.nextID then l.nextID - 1 else end;
    if start > end then Inverted
    else if first > last then Found([])
    else if last > capacity then Panic
    else Found(Window(l.events, first, last))
  }

  /** Positions `first` to `last`, counted from one. */
  function Window(events: seq<Event>, first: nat, last: nat): seq<Event>
    requires 1 <= first <= last
  {
    seq(last - first + 1, i requires 0 <= i < last - first + 1 => EventAt(events, first + i))
  }

  function EventAt(events: seq<Event>, k: nat): Event {
    if 1 <= k <= |events| then events[k - 1] else NO_EVENT
  }

  // ---------- positions ----------

  /** Position i holds id and clock i + 1. */
  ghost predicate Sequential(l: Log) {
    && (forall i :: 0 <= i < |l.events| ==> l.events[i].id == i + 1 && l.events[i].clock == i + 1)
    && l.nextID == |l.events| + 1
    && l.clock == |l.events|
  }

  ghost predicate WalSequential(w: Wal) {
    && (forall i :: 0 <= i < |w.entries| ==> w.entries[i].id == i + 1 && w.entries[i].clock == i + 1)
    && w.eventCount == |w.entries|
    && w.clock == |w.entries|
  }

  ghost predicate SameEvent(e: Event, s: StoredEvent) {
    && s.id == e.id && s.clock == e.clock && s.typ == e.typ
    && s.readPaths == e.readPaths && s.writePaths == e.writePaths && s.mutations == e.mutations
  }

  /** The file holds exactly the log's events. */
  ghost predicate Lockstep(l: Log, w: Wal) {
    && Sequential(l) && WalSequential(w)
    && |w.entries| == |l.events|
    && forall i :: 0 <= i < |l.events| ==> SameEvent(l.events[i], w.entries[i])
  }

  /** Get answers `id` with the event of that id, or not at all. */
  ghost predicate Answers(l: Log, id: nat) {
    match Get(l, id)
    case Found(e) => e.id == id
    case NotFound => id == 0 || id > |l.events|
    case _ => false
  }

  ghost predicate IdsByPosition(l: Log) {
    l.nextID == |l.events| + 1 && forall i :: 0 <= i < |l.events| ==> l.events[i].id == i + 1
  }

  /** Get answers every id properly exactly when ids are positions, which a failed write to the file ends. */
  lemma GetAnswersIff(l: Log)
    requires l.nextID > 0
    ensures (forall id :: Answers(l, id)) <==> IdsByPosition(l)
  {
    if forall id :: Answers(l, id) {
      assert Answers(l, l.nextID - 1) && Answers(l, l.nextID);
      forall i | 0 <= i < |l.events| ensures l.events[i].id == i + 1 { assert Answers(l, i + 1); }
    }
  }

  /** Then Range returns exactly the events with ids in the interval, in ascending order. */
  lemma RangeExact(l: Log, capacity: nat, start: nat, end: nat)
    requires IdsByPosition(l) && |l.events| <= capacity && start <= end
    ensures Range(l, capacity, start, end).Found?
    ensures var r := Range(l, capacity, start, end).value;
            && (forall i :: 0 <= i < |r| ==> r[i] in l.events && start <= r[i].id <= end)
            && (forall i, j :: 0 <= i < j < |r| ==> r[i].id < r[j].id)
            && (forall i :: 0 <= i < |l.events| && start <= l.events[i].id <= end ==> l.events[i] in r)
  {
    var r := Range(l, capacity, start, end).value;
    var first := if start == 0 then 1 else start;
    var last := if end >= l.nextID then l.nextID - 1 else end;
    if first <= last {
      assert |r| == last - first + 1;
      forall i | 0 <= i < |r| ensures r[i] == l.events[first + i - 1] { assert r[i] == EventAt(l.events, first + i); }
      forall i | 0 <= i < |l.events| && start <= l.events[i].id <= end ensures l.events[i] in r {
        assert r[i - (first - 1)] == l.events[i];
      }
    }
  }

  /** The write of the first event failed and the second succeeded: Get panics on that event's id. */
  lemma GetPanicExample(e: Event)
    ensures var (l1, w1, _) := Append(NEW_LOG, Some(NEW_WAL), e, 0, 0, WriteFailed);
            var (l2, _, id) := Append(l1, w1, e, 0, 0, Written);
            id == Some(2) && |l2.events| == 1 && Get(l2, 2) == Panic && Get(l2, 1) == Found(l2.events[0])
            && l2.events[0].id == 2
  {
  }

  lemma AppendSequential(l: Log, e: Event, now: int, walNow: int, io: IO)
    requires Sequential(l)
    ensures Sequential(Append(l, None, e, now, walNow, io).0)
  {
  }

  /** An append keeps log and file in step exactly when the write succeeds. */
  lemma AppendLockstepIff(l: Log, w: Wal, e: Event, now: int, walNow: int, io: IO)
    requires Lockstep(l, w)
    ensures var (l', w', id) := Append(l, Some(w), e, now, walNow, io);
            w'.Some? && (Lockstep(l', w'.value) <==> io == Written) && (id.Some? <==> io == Written)
  {
    var (l', w', id) := Append(l, Some(w), e, now, walNow, io);
    if io == Written {
      var n := |l.events|;
      assert l'.events[n].id == n + 1 && w'.value.entries[n].id == n + 1;
      assert Lockstep(l', w'.value);
    }
  }

  /** A new process over the same file sees the same counters and the same events,
      up to what the file does not store. */
  lemma RestartFaithful(l: Log, w: Wal)
    requires Lockstep(l, w)
    ensures Recover(w.entries) == w
    ensures Load(w).clock == l.clock && Load(w).nextID == l.nextID && |Load(w).events| == |l.events|
    ensures Sequential(Load(w))
    ensures forall i :: 0 <= i < |l.events| ==>
              && Load(w).events[i].(timestamp := l.events[i].timestamp) == l.events[i].(mutator := None)
              && Load(w).events[i].mutator == None
  {
    var n := |l.events|;
    if n > 0 { assert SameEvent(l.events[n - 1], w.entries[n - 1]); }
    forall i | 0 <= i < n
      ensures Load(w).events[i].(timestamp := l.events[i].timestamp) == l.events[i].(mutator := None)
    {
      assert SameEvent(l.events[i], w.entries[i]);
    }
  }

  /** What a new process reads after one more append: the event, unless the write itself failed. A failed
      sync therefore brings back an event that the log never took and whose submission failed. */
  lemma RestartAfterAppend(l: Log, w: Wal, e: Event, now: int, walNow: int, io: IO)
    ensures var (l', w', id) := Append(l, Some(w), e, now, walNow, io);
            && w'.Some?
            && (io != Written ==> l' == l && id == None && w'.value.clock == w.clock)
            && w'.value.eventCount == w.eventCount + 1
            && Load(w'.value).events == Load(w).events +
                 if io == WriteFailed then [] else
                   [e.(id := w.eventCount + 1, clock := w.clock + 1, timestamp := walNow, mutator := None)]
  {
  }

  // ---------- time ----------

  ghost predicate NonDecreasing(events: seq<Event>) {
    forall i, j :: 0 <= i < j < |events| ==> events[i].timestamp <= events[j].timestamp
  }

  /** ReplayUntil cuts at the last event stamped at or before `t`. */
  lemma {:induction false} ReplayUntilCuts(events: seq<Event>, t: int, k: nat)
    requires t != 0 && k <= |events|
    requires forall i :: 0 <= i < k ==> events[i].timestamp <= t
    requires k < |events| ==> events[k].timestamp > t
    ensures ReplayUntil(events, t) == events[..k]
  {
    if k > 0 {
      ReplayUntilCuts(events[1..], t, k - 1);
      assert events[..k] == [events[0]] + events[1..][..k - 1];
    }
  }

  /** How many events are stamped at or before `t`, when time does not run backwards. */
  lemma {:induction false} CutPoint(events: seq<Event>, t: int) returns (k: nat)
    requires NonDecreasing(events)
    ensures k <= |events|
    ensures forall i :: 0 <= i < |events| ==> (events[i].timestamp <= t <==> i < k)
    decreases |events|
  {
    if events == [] || events[|events| - 1].timestamp <= t { return |events|; }
    k := CutPoint(events[..|events| - 1], t);
  }

  lemma {:induction false} ReplayAll(events: seq<Event>)
    ensures ReplayUntil(events, 0) == events
  {
    if events != [] { ReplayAll(events[1..]); }
  }
}
