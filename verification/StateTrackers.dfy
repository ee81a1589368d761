/** runtime/state_tracker.go: a state that records which paths are read. */
module StateTrackers {
  import opened Values
  import opened Programs

  class StateTracker {
    const state: Data
    var readPaths: set<Path>

    constructor (base: Data)
      ensures state == base && readPaths == {}
    {
      state, readPaths := base, {};
    }

    method Get(path: Path) returns (v: Option<TypedValue>)
      modifies this
      ensures v == Lookup(state, path) && readPaths == old(readPaths) + {path}
    {
      readPaths := readPaths + {path};
      return Lookup(state, path);
    }

    /** The recorded paths, in whatever order the map yields them. */
    method GetAccessedPaths() returns (paths: seq<Path>)
      ensures Enumerates(paths, readPaths)
    {
      paths := [];
      var rest := readPaths;
      while rest != {}
        invariant rest <= readPaths && Enumerates(paths, readPaths - rest)
      {
        var p :| p in rest;
        paths, rest := paths + [p], rest - {p};
      }
    }

    /** `goal.Condition(tracker)`: the tracker ends with exactly the paths the condition read. */
    method Ask(c: Condition) returns (ok: bool)
      requires readPaths == {}
      modifies this
      ensures ok == Holds(c, state) && readPaths == Reads(c, state)
    {
      ghost var fuel := Fuel(c, state);
      var h: History := [];
      var step := c(h);
      while !step.Return?
        invariant step == c(h) && Run(c, h, state, fuel).Some?
        invariant Exec(c, state) == (var o := Run(c, h, state, fuel).value; o.(paths := readPaths + o.paths))
        decreases fuel
      {
        assert step.Get?;
        var v := Get(step.path);
        h := h + [v];
        fuel := fuel - 1;
        step := c(h);
      }
      return step.ok;
    }
  }
}
