/** What an execution does not touch does not matter to it. */
module ProgramFrames {
  import opened Values
  import opened Programs

  /** The states differ inside `apart` only. */
  ghost predicate AgreeOutside(apart: set<Path>, d1: Data, d2: Data) {
    forall x :: x !in apart ==> Lookup(d1, x) == Lookup(d2, x)
  }

  /** The execution neither reads nor writes a path of `apart`. */
  predicate RunsApart(p: History -> Step, h: History, d: Data, fuel: nat, apart: set<Path>)
    decreases fuel
  {
    match p(h)
    case Return(_) => true
    case Get(x) => x !in apart && (fuel > 0 ==> RunsApart(p, h + [Lookup(d, x)], d, fuel - 1, apart))
    case Set(x, v) => x !in apart && (fuel > 0 ==> RunsApart(p, h + [None], d[x := v], fuel - 1, apart))
  }

  ghost predicate KeepsAway(m: Program, d: Data, apart: set<Path>) {
    exists fuel: nat :: Run(m, [], d, fuel).Some? && RunsApart(m, [], d, fuel, apart)
  }

  lemma {:induction false} RunApart(p: History -> Step, h: History, d1: Data, d2: Data, fuel: nat, apart: set<Path>)
    requires Run(p, h, d1, fuel).Some? && AgreeOutside(apart, d1, d2) && RunsApart(p, h, d1, fuel, apart)
    ensures Run(p, h, d2, fuel).Some? && Run(p, h, d2, fuel).value.ok == Run(p, h, d1, fuel).value.ok
    ensures AgreeOutside(apart, Run(p, h, d1, fuel).value.data, Run(p, h, d2, fuel).value.data)
    ensures forall x :: x in apart ==> Lookup(Run(p, h, d2, fuel).value.data, x) == Lookup(d2, x)
    decreases fuel
  {
    match p(h)
    case Return(_) =>
    case Get(x) => RunApart(p, h + [Lookup(d1, x)], d1, d2, fuel - 1, apart);
    case Set(x, v) => RunApart(p, h + [None], d1[x := v], d2[x := v], fuel - 1, apart);
  }

  /** A mutator that keeps away from some paths does the same whatever they hold, and leaves them alone. */
  lemma MutatorApart(m: Program, d1: Data, d2: Data, apart: set<Path>)
    requires AgreeOutside(apart, d1, d2) && KeepsAway(m, d1, apart)
    ensures Exec(m, d2).ok == Exec(m, d1).ok && AgreeOutside(apart, Exec(m, d1).data, Exec(m, d2).data)
    ensures forall x :: x in apart ==> Lookup(Exec(m, d2).data, x) == Lookup(d2, x)
  {
    var fuel: nat :| Run(m, [], d1, fuel).Some? && RunsApart(m, [], d1, fuel, apart);
    RunApart(m, [], d1, d2, fuel, apart);
    ExecIs(m, d1, fuel);
    ExecIs(m, d2, fuel);
  }
}
