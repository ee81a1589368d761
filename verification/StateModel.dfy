/** runtime/state_manager.go as values: applying, refusing and replaying events. */
module StateModel {
  import opened Values
  import opened ProgramFrames
  import opened Programs
  import opened Events

  datatype PathLock = PathLock(owner: string, refs: int)

  type Locks = map<Path, PathLock>

  datatype Invariant = Invariant(name: string, predicate_: Condition)

  datatype Error = ErrPathLocked | ErrInvalidPath | MutatorError | InvariantBreached

  datatype State = State(data: Data, locks: Locks, clock: nat, version: nat, invariants: seq<Invariant>)

  const EMPTY := State(map[], map[], 0, 0, [])

  predicate IsHeld(locks: Locks, p: Path) { p in locks && locks[p].owner != "" }

  ghost predicate InvariantsHold(invariants: seq<Invariant>, d: Data) {
    forall i :: 0 <= i < |invariants| ==> Holds(invariants[i].predicate_, d)
  }

  /** Why an event is refused, if it is (state_manager.go:289-316). */
  ghost function Refusal(s: State, e: Event): Option<Error> {
    if exists p :: p in e.writePaths && IsHeld(s.locks, p) then Some(ErrPathLocked)
    else if e.mutator.None? then None
    else if !Exec(e.mutator.value, s.data).ok then Some(MutatorError)
    else if !InvariantsHold(s.invariants, Exec(e.mutator.value, s.data).data) then Some(InvariantBreached)
    else None
  }

  /** What the mutator leaves behind; the copy is merged back key by key. */
  ghost function Mutated(d: Data, m: Option<Program>): Data {
    if m.Some? && Exec(m.value, d).ok then d + Exec(m.value, d).data else d
  }

  /** ApplyEvent: the mutator first, the declarative mutations after it. */
  ghost function ApplyEvent(s: State, e: Event): State {
    if Refusal(s, e).Some? then s
    else s.(data := Mutate(Mutated(s.data, e.mutator), e.mutations), clock := s.clock + 1, version := s.version + 1)
  }

  /** One iteration of Reconstruct: no locks, no invariants, mutations before the mutator. */
  ghost function ReplayEvent(d: Data, e: Event): Data {
    Mutated(Mutate(d, e.mutations), e.mutator)
  }

  ghost function Replay(events: seq<Event>): Data {
    if events == [] then map[] else ReplayEvent(Replay(events[..|events| - 1]), events[|events| - 1])
  }

  function ReplayClock(events: seq<Event>): nat {
    if events == [] then 0 else events[|events| - 1].clock
  }

  ghost function Reconstruct(s: State, events: seq<Event>): State {
    s.(data := Replay(events), clock := ReplayClock(events), version := 1)
  }

  // ---------- single events ----------

  /** Merging the copy back is taking it over, because a mutator removes nothing. */
  lemma MergeIsReplace(d: Data, m: Program)
    ensures Mutated(d, Some(m)) == if Exec(m, d).ok then Exec(m, d).data else d
  {
    MutatorKeepsKeys(m, d);
  }

  /** Applying an event never removes a key. */
  lemma ApplyKeepsKeys(s: State, e: Event)
    ensures s.data.Keys <= ApplyEvent(s, e).data.Keys
  {
    MutateKeepsKeys(Mutated(s.data, e.mutator), e.mutations);
  }

  ghost predicate Declares(e: Event, locks: Locks) {
    exists p :: p in e.writePaths && p in locks && locks[p].owner != ""
  }

  /** The reasons for a refusal, in the order of the code, and none besides. */
  lemma RefusalReasons(s: State, e: Event)
    ensures Refusal(s, e) == Some(ErrPathLocked) <==> Declares(e, s.locks)
    ensures Refusal(s, e) == Some(MutatorError) <==>
            !Declares(e, s.locks) && e.mutator.Some? && !Exec(e.mutator.value, s.data).ok
    ensures Refusal(s, e) == Some(InvariantBreached) <==>
            && !Declares(e, s.locks) && e.mutator.Some? && Exec(e.mutator.value, s.data).ok
            && exists inv :: inv in s.invariants && !Holds(inv.predicate_, Exec(e.mutator.value, s.data).data)
    ensures Refusal(s, e) != Some(ErrInvalidPath)
  {
    if exists i :: 0 <= i < |s.invariants| && !Holds(s.invariants[i].predicate_, Mutated(s.data, e.mutator)) {
      var i :| 0 <= i < |s.invariants| && !Holds(s.invariants[i].predicate_, Mutated(s.data, e.mutator));
      assert s.invariants[i] in s.invariants;
    }
    if e.mutator.Some? { MergeIsReplace(s.data, e.mutator.value); }
  }

  /** An accepted event leaves at `p` what its last mutation of `p` assigned, or else what the mutator
      left there, and moves clock and version by one; a refused one leaves everything. */
  lemma EventEffect(s: State, e: Event, p: Path)
    ensures Refusal(s, e).Some? ==> ApplyEvent(s, e) == s
    ensures Refusal(s, e).None? ==>
              var t := ApplyEvent(s, e);
              && t.clock == s.clock + 1 && t.version == s.version + 1
              && t.locks == s.locks && t.invariants == s.invariants
              && (forall i: nat :: IsLast(e.mutations, i) && e.mutations[i].path == p ==>
                   Lookup(t.data, p) == Some(e.mutations[i].value))
              && ((forall i :: 0 <= i < |e.mutations| ==> e.mutations[i].path != p) ==>
                   var before := if e.mutator.Some? then Exec(e.mutator.value, s.data).data else s.data;
                   Lookup(t.data, p) == Lookup(before, p))
  {
    if Refusal(s, e).None? {
      forall i: nat | IsLast(e.mutations, i) && e.mutations[i].path == p
        ensures Lookup(ApplyEvent(s, e).data, p) == Some(e.mutations[i].value)
      {
        MutateLast(Mutated(s.data, e.mutator), e.mutations, i);
      }
      if forall i :: 0 <= i < |e.mutations| ==> e.mutations[i].path != p {
        MutateFrame(Mutated(s.data, e.mutator), e.mutations, p);
      }
      if e.mutator.Some? { MergeIsReplace(s.data, e.mutator.value); }
    }
  }

  /** An accepted event without declarative mutations keeps all invariants. */
  lemma MutatorKeepsInvariants(s: State, e: Event)
    requires e.mutations == [] && InvariantsHold(s.invariants, s.data)
    ensures InvariantsHold(s.invariants, ApplyEvent(s, e).data)
  {
    if e.mutator.Some? { MergeIsReplace(s.data, e.mutator.value); }
  }

  /** Whatever invariants hold of `d`, the event leaves them true. */
  ghost predicate KeepsInvariants(e: Event, d: Data) {
    forall s: State :: s.data == d && InvariantsHold(s.invariants, d) ==>
      InvariantsHold(s.invariants, ApplyEvent(s, e).data)
  }

  /** The declarative mutations add nothing to what was checked: the mutator fails, or they
      leave its result as it is, or they undo it. */
  ghost predicate MutationsUnseen(e: Event, d: Data) {
    || (e.mutator.Some? && !Exec(e.mutator.value, d).ok)
    || var checked := Mutated(d, e.mutator);
       Mutate(checked, e.mutations) in {checked, d}
  }

  lemma CheckedInvariants(s: State, e: Event)
    requires Refusal(s, e).None? && InvariantsHold(s.invariants, s.data)
    ensures InvariantsHold(s.invariants, Mutated(s.data, e.mutator))
  {
    if e.mutator.Some? { MergeIsReplace(s.data, e.mutator.value); }
  }

  lemma Difference(a: Data, b: Data) returns (p: Path)
    requires a != b
    ensures Lookup(a, p) != Lookup(b, p)
  {
    if forall q :: Lookup(a, q) == Lookup(b, q) { SameLookups(a, b); }
    p :| Lookup(a, p) != Lookup(b, p);
  }

  /** Invariants survive an event from `d` exactly when its mutations add nothing to what was checked. */
  lemma KeepsInvariantsIff(e: Event, d: Data)
    ensures KeepsInvariants(e, d) <==> MutationsUnseen(e, d)
  {
    if MutationsUnseen(e, d) {
      forall s: State | s.data == d && InvariantsHold(s.invariants, d)
        ensures InvariantsHold(s.invariants, ApplyEvent(s, e).data)
      {
        if Refusal(s, e).None? { CheckedInvariants(s, e); }
      }
    } else {
      var s := UncheckedBreach(e, d);
    }
  }

  /** Otherwise a state without locks and with one invariant accepts the event and ends up breaching it. */
  lemma UncheckedBreach(e: Event, d: Data) returns (s: State)
    requires !MutationsUnseen(e, d)
    ensures s.data == d && s.locks == map[] && InvariantsHold(s.invariants, d)
    ensures Refusal(s, e).None? && !InvariantsHold(s.invariants, ApplyEvent(s, e).data)
  {
    var checked := Mutated(d, e.mutator);
    var after := Mutate(checked, e.mutations);
    var p := Difference(after, checked);
    var q := Difference(after, d);
    var inv := Invariant("", Avoids(p, Lookup(after, p), q, Lookup(after, q)));
    s := State(d, map[], 0, 0, [inv]);
    AvoidsMeaning(p, Lookup(after, p), q, Lookup(after, q), d);
    AvoidsMeaning(p, Lookup(after, p), q, Lookup(after, q), checked);
    AvoidsMeaning(p, Lookup(after, p), q, Lookup(after, q), after);
    if e.mutator.Some? { MergeIsReplace(d, e.mutator.value); }
    assert !Holds(s.invariants[0].predicate_, after);
  }

  /** An event without a mutator keeps the invariants of every state exactly when it carries no mutation. */
  lemma InvariantsKeptIff(e: Event)
    requires e.mutator.None?
    ensures (forall s: State :: InvariantsHold(s.invariants, s.data) ==>
               InvariantsHold(s.invariants, ApplyEvent(s, e).data)) <==> e.mutations == []
  {
    if e.mutations == [] {
      forall s: State | InvariantsHold(s.invariants, s.data)
        ensures InvariantsHold(s.invariants, ApplyEvent(s, e).data)
      {
        MutatorKeepsInvariants(s, e);
      }
    } else {
      MutateLast(map[], e.mutations, |e.mutations| - 1);
      var s := UncheckedBreach(e, map[]);
    }
  }

  /** The same write to `p`, made by a mutator and made declaratively. */
  function ByMutator(p: Path, v: TypedValue): Event { Event(0, 0, 0, "", [], [p], Some(Setter(p, v)), []) }

  function ByMutation(p: Path, v: TypedValue): Event { Event(0, 0, 0, "", [], [p], None, [StateMutation(p, v)]) }

  /** No data yet, and one invariant: `p` does not carry `v`. */
  function Forbidding(p: Path, v: TypedValue): State {
    State(map[], map[], 0, 0, [Invariant("", Avoids(p, Some(v), p, Some(v)))])
  }

  lemma MutateOnce(d: Data, p: Path, v: TypedValue)
    ensures Mutate(d, [StateMutation(p, v)]) == d[p := v]
  {
    var ms := [StateMutation(p, v)];
    assert ms[..0] == [];
    assert Mutate(d, ms[..0]) == d;
  }

  /** Declarative mutations bypass the invariants: the write that is refused when a mutator
      makes it goes through as a mutation, and breaks an invariant that held. */
  lemma MutationBypassesInvariants(p: Path, v: TypedValue)
    ensures var s := Forbidding(p, v);
            && InvariantsHold(s.invariants, s.data)
            && Refusal(s, ByMutator(p, v)) == Some(InvariantBreached)
            && Refusal(s, ByMutation(p, v)).None?
            && ApplyEvent(s, ByMutation(p, v)).data == map[p := v]
            && !InvariantsHold(s.invariants, ApplyEvent(s, ByMutation(p, v)).data)
  {
    var s := Forbidding(p, v);
    AvoidsMeaning(p, Some(v), p, Some(v), map[]);
    AvoidsMeaning(p, Some(v), p, Some(v), map[p := v]);
    SetterMeaning(p, v, map[]);
    MutateOnce(map[], p, v);
    assert !Holds(s.invariants[0].predicate_, map[p := v]);
  }

  predicate OneKind(e: Event) { e.mutator.None? || e.mutations == [] }

  function Mutations(e: Event): set<Path> { set i | 0 <= i < |e.mutations| :: e.mutations[i].path }

  /** The mutator neither reads nor writes a path that the mutations assign. */
  ghost predicate Independent(e: Event, d: Data) {
    e.mutator.Some? && KeepsAway(e.mutator.value, d, Mutations(e))
  }

  /** Replaying an event does what applying it did, unless the event carries both
      kinds of change, entangled, or was refused for a reason that replay does not look at. */
  ghost predicate Replayable(s: State, e: Event) {
    && (OneKind(e) || (Refusal(s, e).None? && Independent(e, s.data)))
    && Refusal(s, e) != Some(ErrPathLocked) && Refusal(s, e) != Some(InvariantBreached)
  }

  /** Independent changes can be made in either order. */
  lemma IndependentCommute(d: Data, e: Event)
    requires Independent(e, d) && Exec(e.mutator.value, d).ok
    ensures ReplayEvent(d, e) == Mutate(Mutated(d, e.mutator), e.mutations)
  {
    var m, ms := e.mutator.value, e.mutations;
    var first := Mutate(d, ms);
    forall p | p !in Mutations(e) ensures Lookup(first, p) == Lookup(d, p) { MutateFrame(d, ms, p); }
    MutatorApart(m, d, first, Mutations(e));
    MergeIsReplace(d, m);
    MergeIsReplace(first, m);
    forall p ensures Lookup(Exec(m, first).data, p) == Lookup(Mutate(Exec(m, d).data, ms), p) {
      if p in Mutations(e) {
        var i := LastMention(ms, p);
        MutateLast(d, ms, i);
        MutateLast(Exec(m, d).data, ms, i);
      } else {
        MutateFrame(Exec(m, d).data, ms, p);
      }
    }
    SameLookups(Exec(m, first).data, Mutate(Exec(m, d).data, ms));
  }

  lemma ReplayAgrees(s: State, e: Event)
    requires Replayable(s, e)
    ensures ReplayEvent(s.data, e) == ApplyEvent(s, e).data
  {
    if !OneKind(e) { IndependentCommute(s.data, e); }
  }

  /** Replaying the event on `d` would write nothing new. */
  ghost predicate Unmoved(d: Data, e: Event) {
    if e.mutator.Some? then Exec(e.mutator.value, d).ok ==> Exec(e.mutator.value, d).data == d
    else AlreadyAssigned(d, e.mutations)
  }

  /** Where replay agrees with live application, seen from the state before the event: after a
      lock or an invariant refused it, only when it would have written nothing new. */
  ghost predicate ReplayHarmless(s: State, e: Event) {
    Refusal(s, e) in {None, Some(MutatorError)} || Unmoved(s.data, e)
  }

  /** For an event with one kind of change the agreement is exact; after a refusal by
      an invariant there is none, unless an invariant was broken before. */
  lemma ReplayAgreesIff(s: State, e: Event)
    requires OneKind(e)
    ensures ReplayEvent(s.data, e) == ApplyEvent(s, e).data <==> ReplayHarmless(s, e)
    ensures Refusal(s, e) == Some(InvariantBreached) && InvariantsHold(s.invariants, s.data) ==> !ReplayHarmless(s, e)
  {
    MutateUnchangedIff(s.data, e.mutations);
    if e.mutator.Some? { MergeIsReplace(s.data, e.mutator.value); }
  }

  /** One event with both kinds of change: a mutator that writes `v` to `p`, and a mutation that assigns `w`. */
  function BothKinds(p: Path, v: TypedValue, w: TypedValue): Event {
    Event(1, 1, 0, "", [], [p], Some(Setter(p, v)), [StateMutation(p, w)])
  }

  /** Live, the assignment wins; replayed, the mutator wins. */
  lemma BothKindsDiverge(d: Data, p: Path, v: TypedValue, w: TypedValue)
    ensures var s := State(d, map[], 0, 0, []);
            && Refusal(s, BothKinds(p, v, w)).None?
            && ApplyEvent(s, BothKinds(p, v, w)).data == d[p := w]
            && ReplayEvent(d, BothKinds(p, v, w)) == d[p := v]
            && (ReplayEvent(d, BothKinds(p, v, w)) == ApplyEvent(s, BothKinds(p, v, w)).data <==> v == w)
  {
    MergeIsReplace(d, Setter(p, v));
    MergeIsReplace(d[p := w], Setter(p, v));
    SetterMeaning(p, v, d);
    SetterMeaning(p, v, d[p := w]);
    MutateOnce(d[p := v], p, w);
    MutateOnce(d, p, w);
    assert d[p := v][p := w] == d[p := w] && d[p := w][p := v] == d[p := v];
    assert d[p := w][p] == w && d[p := v][p] == v;
  }
}
