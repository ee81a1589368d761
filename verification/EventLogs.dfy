/** runtime/event_log.go over storage/store.go's WriteAheadLog. */
module EventLogs {
  import opened Values
  import opened Events
  import G = LogModel

  class WriteAheadLog {
    var entries: seq<G.StoredEvent>  // the file
    var eventCount: nat
    var clock: nat

    ghost function View(): G.Wal
      reads this
    {
      G.Wal(entries, eventCount, clock)
    }

    /** NewWriteAheadLog and recoverPosition over a file with these entries. */
    constructor (file: seq<G.StoredEvent>)
      ensures View() == G.Recover(file)
    {
      entries := file;
      eventCount := if |file| == 0 then 0 else file[|file| - 1].id;
      clock := if |file| == 0 then 0 else file[|file| - 1].clock;
    }

    method Append(event: G.StoredEvent, now: int, io: G.IO) returns (id: Option<nat>)
      modifies this
      ensures (View(), id) == G.WalAppend(old(View()), event, now, io)
    {
      eventCount := eventCount + 1;
      var entry := event.(id := eventCount, clock := clock + 1, timestamp := now);
      if io == G.WriteFailed { return None; }
      entries := entries + [entry];
      if io == G.SyncFailed { return None; }
      clock := entry.clock;
      return Some(entry.id);
    }
  }

  class EventLog {
    var events: seq<Event>
    var clock: nat
    var nextID: nat
    var pss: WriteAheadLog?

    ghost function View(): G.Log
      reads this
    {
      G.Log(events, clock, nextID)
    }

    ghost function WalView(): Option<G.Wal>
      reads this, pss
    {
      if pss == null then None else Some(pss.View())
    }

    constructor ()
      ensures View() == G.NEW_LOG && pss == null
    {
      events, clock, nextID, pss := [], 0, 1, null;
    }

    /** SetPersistence; a file that cannot be read leaves the log as it is. */
    method SetPersistence(wal: WriteAheadLog, readable: bool)
      modifies this
      ensures pss == wal && View() == if readable then G.LoadInto(old(View()), wal.View()) else old(View())
    {
      pss := wal;
      if !readable { return; }
      var loaded := [];
      var i := 0;
      while i < |wal.entries|
        invariant 0 <= i <= |wal.entries| && |loaded| == i
        invariant forall j :: 0 <= j < i ==> loaded[j] == G.Restore(wal.entries[j])
      {
        loaded := loaded + [G.Restore(wal.entries[i])];
        i := i + 1;
      }
      events := loaded;
      if |events| > 0 {
        nextID := events[|events| - 1].id + 1;
        clock := events[|events| - 1].clock;
      }
      assert events == G.LoadInto(old(View()), wal.View()).events;
    }

    method Append(e: Event, now: int, walNow: int, io: G.IO) returns (id: Option<nat>)
      modifies this, pss
      ensures pss == old(pss)
      ensures (View(), WalView(), id) == G.Append(old(View()), old(WalView()), e, now, walNow, io)
    {
      var event := e.(id := nextID, clock := clock + 1, timestamp := now);
      if pss != null {
        id := pss.Append(G.Store(event), walNow, io);
        if id.None? { return; }
        event := event.(id := id.value);
      }
      events := events + [event];
      nextID := event.id + 1;
      clock := event.clock;
      return Some(event.id);
    }

    method Get(id: nat) returns (answer: G.Answer<Event>)
      ensures answer == G.Get(View(), id)
    {
      if id == 0 || id >= nextID { return G.NotFound; }
      if id > |events| { return G.Panic; }
      return G.Found(events[id - 1]);
    }

    /** `capacity` is that of the Go slice. */
    method Range(capacity: nat, start: nat, end: nat) returns (answer: G.Answer<seq<Event>>)
      requires |events| <= capacity
      ensures answer == G.Range(View(), capacity, start, end)
    {
      if start > end { return G.Inverted; }
      var first := if start == 0 then 1 else start;
      var last := if end >= nextID then nextID - 1 else end;
      if first > last { return G.Found([]); }
      if last > capacity { return G.Panic; }
      var result := [];
      var k := first;
      while k <= last
        invariant first <= k <= last + 1 && |result| == k - first
        invariant forall i :: 0 <= i < |result| ==> result[i] == G.EventAt(events, first + i)
      {
        result := result + [if k <= |events| then events[k - 1] else G.NO_EVENT];
        k := k + 1;
      }
      assert result == G.Window(events, first, last);
      return G.Found(result);
    }

    /** The events ReplayUntil sends. */
    method ReplayUntil(t: int) returns (replayed: seq<Event>)
      ensures replayed == G.ReplayUntil(events, t)
    {
      replayed := [];
      var i := 0;
      while i < |events|
        invariant 0 <= i <= |events|
        invariant replayed + G.ReplayUntil(events[i..], t) == G.ReplayUntil(events, t)
      {
        assert events[i..][1..] == events[i + 1..];
        if t != 0 && events[i].timestamp > t { return; }
        replayed := replayed + [events[i]];
        i := i + 1;
      }
    }
  }
}
