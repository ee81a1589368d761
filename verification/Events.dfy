/** Events (runtime/types.go:31-48). */
module Events {
  import opened Values
  import opened Programs

  datatype StateMutation = StateMutation(path: Path, value: TypedValue)

  datatype Event = Event(
    id: nat,
    clock: nat,
    timestamp: int,
    typ: string,
    readPaths: seq<Path>,
    writePaths: seq<Path>,
    mutator: Option<Program>,
    mutations: seq<StateMutation>)

  /** The declarative mutations, in their order. */
  function Mutate(d: Data, ms: seq<StateMutation>): Data {
    if ms == [] then d
    else Mutate(d, ms[..|ms| - 1])[ms[|ms| - 1].path := ms[|ms| - 1].value]
  }

  lemma {:induction false} MutateKeepsKeys(d: Data, ms: seq<StateMutation>)
    ensures d.Keys <= Mutate(d, ms).Keys
  {
    if ms != [] { MutateKeepsKeys(d, ms[..|ms| - 1]); }
  }

  /** No later mutation assigns the same path. */
  predicate IsLast(ms: seq<StateMutation>, i: nat) {
    i < |ms| && forall j :: i < j < |ms| ==> ms[j].path != ms[i].path
  }

  /** What survives of the mutations is already in the data. */
  ghost predicate AlreadyAssigned(d: Data, ms: seq<StateMutation>) {
    forall i: nat :: IsLast(ms, i) ==> Lookup(d, ms[i].path) == Some(ms[i].value)
  }

  /** A path holds what the last mutation that names it assigned. */
  lemma {:induction false} MutateLast(d: Data, ms: seq<StateMutation>, i: nat)
    requires IsLast(ms, i)
    ensures Lookup(Mutate(d, ms), ms[i].path) == Some(ms[i].value)
  {
    if i < |ms| - 1 { MutateLast(d, ms[..|ms| - 1], i); }
  }

  /** A path that no mutation names is left alone. */
  lemma {:induction false} MutateFrame(d: Data, ms: seq<StateMutation>, p: Path)
    requires forall i :: 0 <= i < |ms| ==> ms[i].path != p
    ensures Lookup(Mutate(d, ms), p) == Lookup(d, p)
  {
    if ms != [] { MutateFrame(d, ms[..|ms| - 1], p); }
  }

  lemma {:induction false} LastMention(ms: seq<StateMutation>, p: Path) returns (i: nat)
    requires exists j :: 0 <= j < |ms| && ms[j].path == p
    ensures IsLast(ms, i) && ms[i].path == p
  {
    var n := |ms| - 1;
    if ms[n].path == p { return n; }
    i := LastMention(ms[..n], p);
  }

  lemma SameLookups(a: Data, b: Data)
    requires forall p :: Lookup(a, p) == Lookup(b, p)
    ensures a == b
  {
    forall p ensures p in a <==> p in b { assert Lookup(a, p) == Lookup(b, p); }
    forall p | p in a ensures a[p] == b[p] { assert Lookup(a, p) == Lookup(b, p); }
  }

  /** Mutations change nothing exactly when every last assignment already holds. */
  lemma MutateUnchangedIff(d: Data, ms: seq<StateMutation>)
    ensures Mutate(d, ms) == d <==> AlreadyAssigned(d, ms)
  {
    if Mutate(d, ms) == d {
      forall i: nat | IsLast(ms, i) ensures Lookup(d, ms[i].path) == Some(ms[i].value) { MutateLast(d, ms, i); }
    }
    if AlreadyAssigned(d, ms) {
      forall p ensures Lookup(Mutate(d, ms), p) == Lookup(d, p) {
        if exists j :: 0 <= j < |ms| && ms[j].path == p {
          var i := LastMention(ms, p);
          MutateLast(d, ms, i);
        } else {
          MutateFrame(d, ms, p);
        }
      }
      SameLookups(Mutate(d, ms), d);
    }
  }
}
