/** runtime/state_manager.go. */
module StateManagers {
  import opened Values
  import opened Programs
  import opened Events
  import S = StateModel
  import L = Locks

  class StateManager {
    var data: Data
    var locks: S.Locks
    var clock: nat
    var version: nat
    var invariants: seq<S.Invariant>

    ghost function View(): S.State
      reads this
    {
      S.State(data, locks, clock, version, invariants)
    }

    constructor ()
      ensures View() == S.EMPTY
    {
      data, locks, clock, version, invariants := map[], map[], 0, 0, [];
    }

    method RegisterInvariant(inv: S.Invariant)
      modifies this`invariants
      ensures View() == old(View()).(invariants := old(invariants) + [inv])
    {
      invariants := invariants + [inv];
    }

    method CheckInvariants(d: Data) returns (ok: bool)
      ensures ok == S.InvariantsHold(invariants, d)
    {
      var i := 0;
      while i < |invariants|
        invariant 0 <= i <= |invariants|
        invariant forall j :: 0 <= j < i ==> Holds(invariants[j].predicate_, d)
      {
        var holds, _, _ := Call(invariants[i].predicate_, d);
        if !holds { return false; }
        i := i + 1;
      }
      return true;
    }

    method Get(path: Path) returns (v: Option<TypedValue>)
      ensures v == Lookup(data, path)
    {
      return if path in data then Some(data[path]) else None;
    }

    method Set(path: Path, value: TypedValue) returns (err: Option<S.Error>)
      modifies this`data, this`version
      ensures path == "" ==> err == Some(S.ErrInvalidPath) && View() == old(View())
      ensures path != "" ==>
                err == None && View() == old(View()).(data := old(data)[path := value], version := old(version) + 1)
    {
      if path == "" { return Some(S.ErrInvalidPath); }
      data := data[path := value];
      version := version + 1;
      return None;
    }

    method Lock(paths: seq<Path>, owner: string) returns (err: Option<S.Error>)
      modifies this`locks
      ensures (locks, err) == L.Lock(old(locks), paths, owner)
    {
      if "" in paths { return Some(S.ErrInvalidPath); }
      var i := 0;
      while i < |paths|
        invariant 0 <= i <= |paths|
        invariant L.LockFrom(old(locks), paths, owner) == L.LockFrom(locks, paths[i..], owner)
      {
        var lock := if paths[i] in locks then locks[paths[i]] else S.PathLock("", 0);
        assert paths[i..][1..] == paths[i + 1..];
        if lock.owner != "" && lock.owner != owner { return Some(S.ErrPathLocked); }
        locks := locks[paths[i] := S.PathLock(owner, lock.refs + 1)];
        i := i + 1;
      }
      return None;
    }

    method Unlock(paths: seq<Path>, owner: string)
      modifies this`locks
      ensures locks == L.Unlock(old(locks), paths, owner)
    {
      var i := 0;
      while i < |paths|
        invariant 0 <= i <= |paths|
        invariant L.Unlock(old(locks), paths, owner) == L.Unlock(locks, paths[i..], owner)
      {
        var p := paths[i];
        assert paths[i..][1..] == paths[i + 1..];
        if p in locks && locks[p].owner == owner {
          var refs := locks[p].refs - 1;
          locks := locks[p := S.PathLock(if refs == 0 then "" else owner, refs)];
        }
        i := i + 1;
      }
    }

    /** The loop that copies a mutator's result back into `data`. */
    method CopyBack(copy: Data)
      modifies this`data
      ensures data == old(data) + copy
    {
      var keys := copy.Keys;
      while keys != {}
        invariant keys <= copy.Keys
        invariant data == old(data) + map k | k in copy && k !in keys :: copy[k]
      {
        var k :| k in keys;
        data := data[k := copy[k]];
        keys := keys - {k};
      }
      assert (map k | k in copy && k !in keys :: copy[k]) == copy;
    }

    method ApplyMutations(ms: seq<StateMutation>)
      modifies this`data
      ensures data == Mutate(old(data), ms)
    {
      var i := 0;
      while i < |ms|
        invariant 0 <= i <= |ms| && data == Mutate(old(data), ms[..i])
      {
        assert ms[..i + 1][..i] == ms[..i];
        data := data[ms[i].path := ms[i].value];
        i := i + 1;
      }
      assert ms[..i] == ms;
    }

    method AnyHeld(paths: seq<Path>) returns (held: bool)
      ensures held <==> exists p :: p in paths && S.IsHeld(locks, p)
    {
      var i := 0;
      while i < |paths|
        invariant 0 <= i <= |paths|
        invariant forall j :: 0 <= j < i ==> !S.IsHeld(locks, paths[j])
      {
        if paths[i] in locks && locks[paths[i]].owner != "" {
          assert S.IsHeld(locks, paths[i]);
          return true;
        }
        i := i + 1;
      }
      return false;
    }

    method ApplyEvent(event: Event) returns (err: Option<S.Error>)
      modifies this
      ensures err == S.Refusal(old(View()), event)
      ensures View() == S.ApplyEvent(old(View()), event)
    {
      var held := AnyHeld(event.writePaths);
      if held { return Some(S.ErrPathLocked); }
      if event.mutator.Some? {
        var ok, copy, _ := Call(event.mutator.value, data);
        if !ok { return Some(S.MutatorError); }
        var sound := CheckInvariants(copy);
        if !sound { return Some(S.InvariantBreached); }
        CopyBack(copy);
      }
      ApplyMutations(event.mutations);
      clock := clock + 1;
      version := version + 1;
      return None;
    }

    method Reconstruct(events: seq<Event>)
      modifies this
      ensures View() == S.Reconstruct(old(View()), events)
    {
      data, clock, version := map[], 0, 0;
      var i := 0;
      while i < |events|
        invariant 0 <= i <= |events|
        invariant data == S.Replay(events[..i]) && clock == S.ReplayClock(events[..i])
        invariant version == 0 && locks == old(locks) && invariants == old(invariants)
      {
        assert events[..i + 1][..i] == events[..i];
        var event := events[i];
        ApplyMutations(event.mutations);
        if event.mutator.Some? {
          var ok, copy, _ := Call(event.mutator.value, data);
          if ok { CopyBack(copy); }
        }
        clock := event.clock;
        i := i + 1;
      }
      assert events[..i] == events;
      version := version + 1;
    }
  }
}
