/** Go closures that see the state only through `State.Get` and `State.Set`:
    conditions, invariants and mutators (runtime/types.go:45-148).

    A program maps the answers it has received so far to its next action, so
    every deterministic closure that terminates is one, with no bound on how
    many paths it reads and no restriction on which. */
module Programs {
  import opened Values

  type History = seq<Option<TypedValue>>

  datatype Step =
    | Return(ok: bool)
    | Get(path: Path)
    | Set(path: Path, value: TypedValue)

  /** What one execution did: its verdict, the state it leaves, the paths it read. */
  datatype Outcome = Outcome(ok: bool, data: Data, paths: set<Path>)

  function Run(p: History -> Step, h: History, d: Data, fuel: nat): Option<Outcome>
    decreases fuel
  {
    match p(h)
    case Return(ok) => Some(Outcome(ok, d, {}))
    case Get(x) =>
      if fuel == 0 then None else
      (match Run(p, h + [Lookup(d, x)], d, fuel - 1)
       case None => None
       case Some(o) => Some(o.(paths := {x} + o.paths)))
    case Set(x, v) =>
      if fuel == 0 then None else Run(p, h + [None], d[x := v], fuel - 1)
  }

  ghost predicate Halts(p: History -> Step, d: Data) {
    exists fuel: nat :: Run(p, [], d, fuel).Some?
  }

  function Succeed(h: History): Step { Return(true) }

  lemma SucceedHalts()
    ensures forall d :: Halts(Succeed, d)
  {
    forall d ensures Halts(Succeed, d) { assert Run(Succeed, [], d, 0).Some?; }
  }

  type Program = p: History -> Step | forall d :: Halts(p, d)
    ghost witness (SucceedHalts(); Succeed)

  ghost predicate ReadOnly(p: History -> Step) {
    forall h :: !p(h).Set?
  }

  /** A program that never writes: a goal condition or an invariant's predicate. */
  type Condition = p: Program | ReadOnly(p)
    ghost witness (SucceedHalts(); Succeed)

  ghost function Exec(p: Program, d: Data): Outcome {
    var fuel: nat :| Run(p, [], d, fuel).Some?;
    Run(p, [], d, fuel).value
  }

  /** More fuel does not change an answer. */
  lemma {:induction false} RunMonotone(p: History -> Step, h: History, d: Data, fuel: nat, more: nat)
    requires Run(p, h, d, fuel).Some? && fuel <= more
    ensures Run(p, h, d, more) == Run(p, h, d, fuel)
    decreases fuel
  {
    match p(h)
    case Return(_) =>
    case Get(x) => RunMonotone(p, h + [Lookup(d, x)], d, fuel - 1, more - 1);
    case Set(x, v) => RunMonotone(p, h + [None], d[x := v], fuel - 1, more - 1);
  }

  /** Any halting run gives the program's meaning. */
  lemma ExecIs(p: Program, d: Data, fuel: nat)
    requires Run(p, [], d, fuel).Some?
    ensures Exec(p, d) == Run(p, [], d, fuel).value
  {
    var f: nat :| Run(p, [], d, f).Some? && Exec(p, d) == Run(p, [], d, f).value;
    if f <= fuel { RunMonotone(p, [], d, f, fuel); } else { RunMonotone(p, [], d, fuel, f); }
  }

  lemma Fuel(p: Program, d: Data) returns (fuel: nat)
    ensures Run(p, [], d, fuel).Some? && Exec(p, d) == Run(p, [], d, fuel).value
  {
    fuel :| Run(p, [], d, fuel).Some? && Exec(p, d) == Run(p, [], d, fuel).value;
  }

  ghost predicate Holds(c: Condition, d: Data) { Exec(c, d).ok }

  ghost function Reads(c: Condition, d: Data): set<Path> { Exec(c, d).paths }

  // ---------- what an execution can and cannot do ----------

  /** State offers Set but no delete, so a mutator never removes a key. */
  lemma {:induction false} RunKeepsKeys(p: History -> Step, h: History, d: Data, fuel: nat)
    requires Run(p, h, d, fuel).Some?
    ensures d.Keys <= Run(p, h, d, fuel).value.data.Keys
    decreases fuel
  {
    match p(h)
    case Return(_) =>
    case Get(x) => RunKeepsKeys(p, h + [Lookup(d, x)], d, fuel - 1);
    case Set(x, v) => RunKeepsKeys(p, h + [None], d[x := v], fuel - 1);
  }

  lemma MutatorKeepsKeys(p: Program, d: Data)
    ensures d.Keys <= Exec(p, d).data.Keys
  {
    var fuel := Fuel(p, d);
    RunKeepsKeys(p, [], d, fuel);
  }

  lemma {:induction false} RunTracked(p: History -> Step, h: History, d1: Data, d2: Data, fuel: nat)
    requires ReadOnly(p) && Run(p, h, d1, fuel).Some?
    requires AgreeOn(Run(p, h, d1, fuel).value.paths, d1, d2)
    ensures Run(p, h, d2, fuel).Some?
    ensures Run(p, h, d2, fuel).value.ok == Run(p, h, d1, fuel).value.ok
    ensures Run(p, h, d2, fuel).value.paths == Run(p, h, d1, fuel).value.paths
    decreases fuel
  {
    if p(h).Get? {
      var x := p(h).path;
      assert x in Run(p, h, d1, fuel).value.paths;
      RunTracked(p, h + [Lookup(d1, x)], d1, d2, fuel - 1);
    }
  }

  /** Tracking is sound: two states that agree on the recorded paths get the
      same verdict and the same record, whatever else differs. */
  lemma TrackingSound(c: Condition, d1: Data, d2: Data)
    requires AgreeOn(Reads(c, d1), d1, d2)
    ensures Holds(c, d2) == Holds(c, d1)
    ensures Reads(c, d2) == Reads(c, d1)
  {
    var fuel := Fuel(c, d1);
    RunTracked(c, [], d1, d2, fuel);
    ExecIs(c, d2, fuel);
  }

  /** Calling the closure: run it step by step to its return. */
  method Call(p: Program, d: Data) returns (ok: bool, data: Data, ghost paths: set<Path>)
    ensures ok == Exec(p, d).ok && data == Exec(p, d).data
    ensures paths == Exec(p, d).paths
  {
    ghost var fuel := Fuel(p, d);
    var h: History := [];
    data, paths := d, {};
    var step := p(h);
    while !step.Return?
      invariant step == p(h) && Run(p, h, data, fuel).Some?
      invariant Exec(p, d) == (var o := Run(p, h, data, fuel).value; o.(paths := paths + o.paths))
      decreases fuel
    {
      if step.Get? {
        paths := paths + {step.path};
        h := h + [Lookup(data, step.path)];
      } else {
        data := data[step.path := step.value];
        h := h + [None];
      }
      fuel := fuel - 1;
      step := p(h);
    }
    ok := step.ok;
  }

  // ---------- two small programs ----------

  function SetterStep(p: Path, v: TypedValue): History -> Step {
    h => if |h| == 0 then Set(p, v) else Return(true)
  }

  lemma SetterRuns(p: Path, v: TypedValue, d: Data)
    ensures Run(SetterStep(p, v), [], d, 1) == Some(Outcome(true, d[p := v], {}))
  {
    assert Run(SetterStep(p, v), [] + [None], d[p := v], 0) == Some(Outcome(true, d[p := v], {}));
  }

  /** The mutator that writes `v` to `p`. */
  function Setter(p: Path, v: TypedValue): Program {
    SetterHalts(p, v);
    SetterStep(p, v)
  }

  lemma SetterHalts(p: Path, v: TypedValue)
    ensures forall d :: Halts(SetterStep(p, v), d)
  {
    forall d ensures Halts(SetterStep(p, v), d) { SetterRuns(p, v, d); }
  }

  lemma SetterMeaning(p: Path, v: TypedValue, d: Data)
    ensures Exec(Setter(p, v), d) == Outcome(true, d[p := v], {})
  {
    SetterRuns(p, v, d);
    ExecIs(Setter(p, v), d, 1);
  }

  function AvoidsStep(p: Path, v: Option<TypedValue>, q: Path, w: Option<TypedValue>): History -> Step {
    h => if |h| == 0 then Get(p) else if |h| == 1 then Get(q) else Return(h[0] != v || h[1] != w)
  }

  lemma AvoidsRuns(p: Path, v: Option<TypedValue>, q: Path, w: Option<TypedValue>, d: Data)
    ensures var r := Run(AvoidsStep(p, v, q, w), [], d, 2);
            r.Some? && r.value.ok == (Lookup(d, p) != v || Lookup(d, q) != w)
  {
    var step := AvoidsStep(p, v, q, w);
    var h := [Lookup(d, p)];
    assert [] + h == h;
    assert Run(step, h + [Lookup(d, q)], d, 0).Some?;
    assert Run(step, h, d, 1).Some?;
  }

  /** The predicate that only a state with `v` at `p` and `w` at `q` violates. */
  function Avoids(p: Path, v: Option<TypedValue>, q: Path, w: Option<TypedValue>): Condition {
    AvoidsHalts(p, v, q, w);
    AvoidsStep(p, v, q, w)
  }

  lemma AvoidsHalts(p: Path, v: Option<TypedValue>, q: Path, w: Option<TypedValue>)
    ensures (forall d :: Halts(AvoidsStep(p, v, q, w), d)) && ReadOnly(AvoidsStep(p, v, q, w))
  {
    forall d ensures Halts(AvoidsStep(p, v, q, w), d) { AvoidsRuns(p, v, q, w, d); }
  }

  lemma AvoidsMeaning(p: Path, v: Option<TypedValue>, q: Path, w: Option<TypedValue>, d: Data)
    ensures Holds(Avoids(p, v, q, w), d) <==> Lookup(d, p) != v || Lookup(d, q) != w
  {
    AvoidsRuns(p, v, q, w, d);
    ExecIs(Avoids(p, v, q, w), d, 2);
  }
}
