/** The adjacency lists of planning/planner.go as values: what AddNode,
    AddDependency and RemoveNode do to them, and the mirror they keep. */
module Adjacency {
  import opened Values
  import opened Digraph

  datatype Adj = Adj(dependents: seq<string>, dependees: seq<string>)

  type View = map<string, Adj>

  function Dependees(v: View): Graph {
    map id | id in v :: v[id].dependees
  }

  function Times<T(==)>(s: seq<T>, x: T): nat { multiset(s)[x] }

  /** Every listed id has a node. */
  ghost predicate NoDangling(v: View) {
    forall a, b :: a in v && (Times(v[a].dependees, b) > 0 || Times(v[a].dependents, b) > 0) ==> b in v
  }

  /** `b` is as often a dependee of `a` as `a` is a dependent of `b`. */
  ghost predicate Mirrored(v: View) {
    forall a, b :: a in v && b in v ==> MirroredAt(v, a, b)
  }

  ghost predicate MirroredAt(v: View, a: string, b: string)
    requires a in v && b in v
  {
    Times(v[a].dependees, b) == Times(v[b].dependents, a)
  }

  ghost predicate Consistent(v: View) { NoDangling(v) && Mirrored(v) }

  function Repeat(x: string, k: nat): (r: seq<string>)
    ensures |r| == k && forall i :: 0 <= i < k ==> r[i] == x
  {
    seq(k, _ => x)
  }

  /** AddNode on an unused id: `id` is appended to the dependents of every listed
      dependee that exists, once for each time it is listed. */
  function AddNode(v: View, id: string, dependees: seq<string>): (w: View)
    ensures w.Keys == v.Keys + {id}
  {
    Link(v, id, dependees)[id := Adj([], dependees)]
  }

  function Ensure(v: View, id: string): View {
    if id in v then v else v[id := Adj([], [])]
  }

  function AddDependency(v: View, from: string, to: string): View {
    var v1 := Ensure(Ensure(v, from), to);
    var v2 := v1[from := v1[from].(dependees := v1[from].dependees + [to])];
    v2[to := v2[to].(dependents := v2[to].dependents + [from])]
  }

  /** AddNode's loop: each listed dependee that exists gets `id` appended. */
  function Link(v: View, id: string, listed: seq<string>): (w: View)
    ensures w.Keys == v.Keys
  {
    map d | d in v :: v[d].(dependents := v[d].dependents + Repeat(id, Times(listed, d)))
  }

  /** RemoveNode's first loop: cut `id` out of the dependees of each listed node. */
  function CutDependees(v: View, id: string, listed: seq<string>): (w: View)
    ensures w.Keys == v.Keys
  {
    map d | d in v :: v[d].(dependees := RemoveTimes(v[d].dependees, id, Times(listed, d)))
  }

  /** RemoveNode's second loop: cut `id` out of the dependents of each listed node. */
  function CutDependents(v: View, id: string, listed: seq<string>): (w: View)
    ensures w.Keys == v.Keys
  {
    map d | d in v :: v[d].(dependents := RemoveTimes(v[d].dependents, id, Times(listed, d)))
  }

  /** RemoveNode splices `id` out of a neighbour's list once per mention of that
      neighbour in `id`'s own lists. */
  function RemoveNode(v: View, id: string): View
    requires id in v
  {
    map d | d in v && d != id :: Adj(
      RemoveTimes(v[d].dependents, id, Times(v[id].dependees, d)),
      RemoveTimes(v[d].dependees, id, Times(v[id].dependents, d)))
  }

  // ---------- one loop iteration ----------

  function WithDependents(v: View, x: string, s: seq<string>): View
    requires x in v
  {
    v[x := v[x].(dependents := s)]
  }

  function WithDependees(v: View, x: string, s: seq<string>): View
    requires x in v
  {
    v[x := v[x].(dependees := s)]
  }

  lemma SameView(v: View, w: View)
    requires v.Keys == w.Keys && forall d :: d in v ==> v[d] == w[d]
    ensures v == w
  {
  }

  lemma NoneListed(v: View, id: string)
    ensures Link(v, id, []) == v && CutDependees(v, id, []) == v && CutDependents(v, id, []) == v
  {
    forall d | d in v ensures Link(v, id, [])[d] == v[d] {
      assert v[d].dependents + Repeat(id, 0) == v[d].dependents;
    }
    SameView(Link(v, id, []), v);
    SameView(CutDependees(v, id, []), v);
    SameView(CutDependents(v, id, []), v);
  }

  lemma LinkStep(v: View, id: string, listed: seq<string>, x: string)
    ensures Link(v, id, listed + [x]) ==
            var w := Link(v, id, listed);
            if x in v then WithDependents(w, x, w[x].dependents + [id]) else w
  {
    var w := Link(v, id, listed);
    var w' := if x in v then WithDependents(w, x, w[x].dependents + [id]) else w;
    forall d | d in v ensures Link(v, id, listed + [x])[d] == w'[d] {
      if d == x {
        assert Repeat(id, Times(listed, d) + 1) == Repeat(id, Times(listed, d)) + [id];
        assert v[d].dependents + Repeat(id, Times(listed, d) + 1) == w[d].dependents + [id];
      }
    }
    SameView(Link(v, id, listed + [x]), w');
  }

  lemma CutDependeesStep(v: View, id: string, listed: seq<string>, x: string)
    ensures CutDependees(v, id, listed + [x]) ==
            var w := CutDependees(v, id, listed);
            if x in v then WithDependees(w, x, RemoveFirst(w[x].dependees, id)) else w
  {
    var w := CutDependees(v, id, listed);
    var w' := if x in v then WithDependees(w, x, RemoveFirst(w[x].dependees, id)) else w;
    SameView(CutDependees(v, id, listed + [x]), w');
  }

  lemma CutDependentsStep(v: View, id: string, listed: seq<string>, x: string)
    ensures CutDependents(v, id, listed + [x]) ==
            var w := CutDependents(v, id, listed);
            if x in v then WithDependents(w, x, RemoveFirst(w[x].dependents, id)) else w
  {
    var w := CutDependents(v, id, listed);
    var w' := if x in v then WithDependents(w, x, RemoveFirst(w[x].dependents, id)) else w;
    SameView(CutDependents(v, id, listed + [x]), w');
  }

  // ---------- the loops as folds ----------

  function LinkEach(v: View, id: string, listed: seq<string>): View {
    if listed == [] then v
    else
      var w := LinkEach(v, id, listed[..|listed| - 1]);
      var x := listed[|listed| - 1];
      if x in w then WithDependents(w, x, w[x].dependents + [id]) else w
  }

  function CutEachDependees(v: View, id: string, listed: seq<string>): View {
    if listed == [] then v
    else
      var w := CutEachDependees(v, id, listed[..|listed| - 1]);
      var x := listed[|listed| - 1];
      if x in w then WithDependees(w, x, RemoveFirst(w[x].dependees, id)) else w
  }

  function CutEachDependents(v: View, id: string, listed: seq<string>): View {
    if listed == [] then v
    else
      var w := CutEachDependents(v, id, listed[..|listed| - 1]);
      var x := listed[|listed| - 1];
      if x in w then WithDependents(w, x, RemoveFirst(w[x].dependents, id)) else w
  }

  lemma {:induction false} LinkEachIsLink(v: View, id: string, listed: seq<string>)
    ensures LinkEach(v, id, listed) == Link(v, id, listed)
  {
    if listed == [] {
      NoneListed(v, id);
    } else {
      var n := |listed| - 1;
      LinkEachIsLink(v, id, listed[..n]);
      LinkStep(v, id, listed[..n], listed[n]);
      assert listed == listed[..n] + [listed[n]];
    }
  }

  lemma {:induction false} CutEachDependeesIsCut(v: View, id: string, listed: seq<string>)
    ensures CutEachDependees(v, id, listed) == CutDependees(v, id, listed)
  {
    if listed == [] {
      NoneListed(v, id);
    } else {
      var n := |listed| - 1;
      CutEachDependeesIsCut(v, id, listed[..n]);
      CutDependeesStep(v, id, listed[..n], listed[n]);
      assert listed == listed[..n] + [listed[n]];
    }
  }

  lemma {:induction false} CutEachDependentsIsCut(v: View, id: string, listed: seq<string>)
    ensures CutEachDependents(v, id, listed) == CutDependents(v, id, listed)
  {
    if listed == [] {
      NoneListed(v, id);
    } else {
      var n := |listed| - 1;
      CutEachDependentsIsCut(v, id, listed[..n]);
      CutDependentsStep(v, id, listed[..n], listed[n]);
      assert listed == listed[..n] + [listed[n]];
    }
  }

  /** The two loops and the final delete are RemoveNode, self-loops included. */
  lemma CutsRemoveNode(v: View, id: string)
    requires id in v
    ensures var w := CutDependees(v, id, v[id].dependents);
            CutDependents(w, id, w[id].dependees) - {id} == RemoveNode(v, id)
  {
    var w := CutDependees(v, id, v[id].dependents);
    var u := CutDependents(w, id, w[id].dependees) - {id};
    forall d | d in v && d != id ensures u[d] == RemoveNode(v, id)[d] {
      RemoveTimesOther(v[id].dependees, id, Times(v[id].dependents, id), d);
    }
    SameView(u, RemoveNode(v, id));
  }

  lemma {:induction false} RemoveTimesOther(s: seq<string>, x: string, k: nat, y: string)
    requires x != y
    ensures Times(RemoveTimes(s, x, k), y) == Times(s, y)
  {
    if k > 0 {
      RemoveTimesOther(s, x, k - 1, y);
      RemoveFirstMultiset(RemoveTimes(s, x, k - 1), x);
    }
  }

  // ---------- the mirror ----------

  lemma TimesRepeat(x: string, k: nat, y: string)
    ensures Times(Repeat(x, k), y) == if y == x then k else 0
    decreases k
  {
    if k > 0 {
      TimesRepeat(x, k - 1, y);
      assert Repeat(x, k) == Repeat(x, k - 1) + [x];
    }
  }

  lemma AddNodeAt(v: View, id: string, dependees: seq<string>, d: string, a: string)
    requires id !in v && d in v
    ensures AddNode(v, id, dependees)[d].dependees == v[d].dependees
    ensures Times(AddNode(v, id, dependees)[d].dependents, a) ==
            Times(v[d].dependents, a) + if a == id then Times(dependees, d) else 0
  {
    TimesRepeat(id, Times(dependees, d), a);
  }

  /** AddNode keeps the graph consistent exactly when all its dependees exist already. */
  lemma AddNodeConsistent(v: View, id: string, dependees: seq<string>)
    requires Consistent(v) && id !in v
    ensures Consistent(AddNode(v, id, dependees)) <==> forall d :: d in dependees ==> d in v
  {
    var w := AddNode(v, id, dependees);
    assert w[id] == Adj([], dependees);
    if forall d :: d in dependees ==> d in v {
      AddNodeMirrored(v, id, dependees);
    } else {
      var d :| d in dependees && d !in v;
      assert Times(w[id].dependees, d) > 0;
      if d == id { assert !MirroredAt(w, id, id); } else { assert d !in w; }
    }
  }

  lemma AddNodeMirrored(v: View, id: string, dependees: seq<string>)
    requires Consistent(v) && id !in v && forall d :: d in dependees ==> d in v
    ensures Consistent(AddNode(v, id, dependees))
  {
    var w := AddNode(v, id, dependees);
    forall a, b | a in w && b in w ensures MirroredAt(w, a, b) {
      AddNodeMirroredAt(v, id, dependees, a, b);
    }
    forall a, b | a in w && (Times(w[a].dependees, b) > 0 || Times(w[a].dependents, b) > 0) ensures b in w {
      if a in v { AddNodeAt(v, id, dependees, a, b); } else { assert b in dependees; }
    }
  }

  lemma AddNodeMirroredAt(v: View, id: string, dependees: seq<string>, a: string, b: string)
    requires Consistent(v) && id !in v && a in v.Keys + {id} && b in v.Keys + {id}
    requires a == b == id ==> id !in dependees
    ensures MirroredAt(AddNode(v, id, dependees), a, b)
  {
    if a in v {
      AddNodeAt(v, id, dependees, a, b);
      if b in v { AddNodeAt(v, id, dependees, b, a); assert MirroredAt(v, a, b); }
      else { assert Times(v[a].dependees, id) == 0; }
    } else if b in v {
      AddNodeAt(v, id, dependees, b, id);
      assert Times(v[b].dependents, id) == 0;
    }
  }

  lemma EnsureConsistent(v: View, id: string)
    requires Consistent(v)
    ensures Consistent(Ensure(v, id))
  {
    var w := Ensure(v, id);
    forall a, b | a in w && b in w ensures MirroredAt(w, a, b) {
      if a in v && b in v { assert MirroredAt(v, a, b); }
      else if a in v { assert Times(v[a].dependees, b) == 0; }
      else if b in v { assert Times(v[b].dependents, a) == 0; }
    }
  }

  lemma AddDependencyAt(v: View, from: string, to: string, a: string, b: string)
    requires from in v && to in v && a in v
    ensures AddDependency(v, from, to).Keys == v.Keys
    ensures Times(AddDependency(v, from, to)[a].dependees, b) ==
            Times(v[a].dependees, b) + if a == from && b == to then 1 else 0
    ensures Times(AddDependency(v, from, to)[a].dependents, b) ==
            Times(v[a].dependents, b) + if a == to && b == from then 1 else 0
  {
  }

  lemma AddDependencyConsistent(v: View, from: string, to: string)
    requires Consistent(v)
    ensures Consistent(AddDependency(v, from, to))
  {
    EnsureConsistent(v, from);
    EnsureConsistent(Ensure(v, from), to);
    var u := Ensure(Ensure(v, from), to);
    var w := AddDependency(v, from, to);
    assert w == AddDependency(u, from, to);
    AddDependencyAt(u, from, to, from, to);
    forall a, b | a in u && b in u ensures MirroredAt(w, a, b) {
      AddDependencyAt(u, from, to, a, b);
      AddDependencyAt(u, from, to, b, a);
      assert MirroredAt(u, a, b);
    }
    forall a, b | a in u && (Times(w[a].dependees, b) > 0 || Times(w[a].dependents, b) > 0) ensures b in w {
      AddDependencyAt(u, from, to, a, b);
    }
  }

  /** `v` without node `id` and without any mention of it. */
  function Erase(v: View, id: string): (w: View)
    ensures w.Keys == v.Keys - {id}
  {
    map d | d in v && d != id :: Adj(Without(v[d].dependents, id), Without(v[d].dependees, id))
  }

  /** On a consistent graph the counted splices remove every mention of `id`, and nothing else. */
  lemma RemoveNodeIsErase(v: View, id: string)
    requires Consistent(v) && id in v
    ensures RemoveNode(v, id) == Erase(v, id)
  {
    forall d | d in v && d != id ensures RemoveNode(v, id)[d] == Erase(v, id)[d] {
      RemoveNodeAt(v, id, d);
    }
    assert RemoveNode(v, id).Keys == Erase(v, id).Keys;
  }

  lemma RemoveNodeAt(v: View, id: string, d: string)
    requires Consistent(v) && id in v && d in v && d != id
    ensures RemoveNode(v, id)[d] == Erase(v, id)[d]
  {
    assert MirroredAt(v, id, d) && MirroredAt(v, d, id);
    RemoveAllIsWithout(v[d].dependents, id);
    RemoveAllIsWithout(v[d].dependees, id);
  }

  lemma RemoveNodeConsistent(v: View, id: string)
    requires Consistent(v) && id in v
    ensures Consistent(RemoveNode(v, id))
    ensures forall d :: d in RemoveNode(v, id) ==>
              id !in RemoveNode(v, id)[d].dependents && id !in RemoveNode(v, id)[d].dependees
  {
    RemoveNodeIsErase(v, id);
    var w := Erase(v, id);
    forall a, b | a in w && b in w ensures MirroredAt(w, a, b) {
      WithoutTimes(v[a].dependees, id, b);
      WithoutTimes(v[b].dependents, id, a);
      assert MirroredAt(v, a, b);
    }
    forall a, b | a in w && (Times(w[a].dependees, b) > 0 || Times(w[a].dependents, b) > 0)
      ensures b in w
    {
      WithoutTimes(v[a].dependees, id, b);
      WithoutTimes(v[a].dependents, id, b);
    }
    forall d | d in w ensures id !in w[d].dependents && id !in w[d].dependees {
      WithoutTimes(v[d].dependees, id, id);
      WithoutTimes(v[d].dependents, id, id);
      assert id !in multiset(w[d].dependents) && id !in multiset(w[d].dependees);
    }
  }

  /** RemoveNode undoes AddNode. */
  lemma RemoveUndoesAdd(v: View, id: string, dependees: seq<string>)
    requires Consistent(v) && id !in v && forall d :: d in dependees ==> d in v
    ensures RemoveNode(AddNode(v, id, dependees), id) == v
  {
    AddNodeConsistent(v, id, dependees);
    RemoveNodeIsErase(AddNode(v, id, dependees), id);
    EraseUndoesAdd(v, id, dependees);
  }

  lemma EraseUndoesAdd(v: View, id: string, dependees: seq<string>)
    requires NoDangling(v) && id !in v
    ensures Erase(AddNode(v, id, dependees), id) == v
  {
    forall d | d in v ensures Erase(AddNode(v, id, dependees), id)[d] == v[d] {
      EraseUndoesAddAt(v, id, dependees, d);
    }
    SameView(Erase(AddNode(v, id, dependees), id), v);
  }

  lemma EraseUndoesAddAt(v: View, id: string, dependees: seq<string>, d: string)
    requires NoDangling(v) && id !in v && d in v
    ensures Erase(AddNode(v, id, dependees), id)[d] == v[d]
  {
    assert Times(v[d].dependents, id) == 0 && Times(v[d].dependees, id) == 0;
    WithoutTail(v[d].dependents, id, Times(dependees, d));
    WithoutNothing(v[d].dependees, id);
  }

  lemma {:induction false} WithoutTail(s: seq<string>, id: string, k: nat)
    requires id !in s
    ensures Without(s + Repeat(id, k), id) == s
    decreases k
  {
    if k == 0 {
      assert s + Repeat(id, 0) == s;
      WithoutNothing(s, id);
    } else {
      WithoutTail(s, id, k - 1);
      assert s + Repeat(id, k) == (s + Repeat(id, k - 1)) + [id];
      WithoutSnoc(s + Repeat(id, k - 1), id);
    }
  }

  // ---------- every graph the API can build ----------

  datatype Op =
    | OpAddNode(id: string, dependees: seq<string>)
    | OpAddDependency(from: string, to: string)
    | OpRemoveNode(id: string)

  /** The effect of a call; a call that returns an error changes nothing. */
  function Apply(v: View, op: Op): View {
    match op
    case OpAddNode(id, deps) => if id in v then v else AddNode(v, id, deps)
    case OpAddDependency(from, to) => AddDependency(v, from, to)
    case OpRemoveNode(id) => if id in v then RemoveNode(v, id) else v
  }

  function ApplyAll(v: View, ops: seq<Op>): View {
    if ops == [] then v else Apply(ApplyAll(v, ops[..|ops| - 1]), ops[|ops| - 1])
  }

  /** No call of `ops` adds a node over a dependee that is not there yet. */
  ghost predicate KnownDependees(v: View, ops: seq<Op>) {
    forall k :: 0 <= k < |ops| && ops[k].OpAddNode? && ops[k].id !in ApplyAll(v, ops[..k]) ==>
      forall d :: d in ops[k].dependees ==> d in ApplyAll(v, ops[..k])
  }

  /** Dependents mirror dependees in every graph built by such calls from the empty graph. */
  lemma {:induction false} BuiltGraphsConsistent(ops: seq<Op>)
    requires KnownDependees(map[], ops)
    ensures Consistent(ApplyAll(map[], ops))
  {
    if ops != [] {
      var n := |ops| - 1;
      assert forall k :: 0 <= k <= n ==> ops[..n][..k] == ops[..k];
      BuiltGraphsConsistent(ops[..n]);
      var v := ApplyAll(map[], ops[..n]);
      match ops[n]
      case OpAddNode(id, deps) => if id !in v { AddNodeConsistent(v, id, deps); }
      case OpAddDependency(from, to) => AddDependencyConsistent(v, from, to);
      case OpRemoveNode(id) => if id in v { RemoveNodeConsistent(v, id); }
    }
  }

  // ---------- what even unknown dependees leave intact ----------

  /** Every mention among the dependents of `b` is matched by one among the dependees of an existing node. */
  ghost predicate Backed(v: View) {
    forall a, b :: b in v && Times(v[b].dependents, a) > 0 ==> BackedAt(v, a, b)
  }

  ghost predicate BackedAt(v: View, a: string, b: string)
    requires b in v
  {
    a in v && Times(v[b].dependents, a) <= Times(v[a].dependees, b)
  }

  lemma AddNodeBacked(v: View, id: string, dependees: seq<string>)
    requires Backed(v) && id !in v
    ensures Backed(AddNode(v, id, dependees))
  {
    var w := AddNode(v, id, dependees);
    forall a, b | b in w && Times(w[b].dependents, a) > 0 ensures BackedAt(w, a, b) {
      if b in v {
        AddNodeAt(v, id, dependees, b, a);
        if a == id { assert Times(v[b].dependents, id) == 0; } else { assert BackedAt(v, a, b); }
      }
    }
  }

  lemma EnsureBacked(v: View, id: string)
    requires Backed(v)
    ensures Backed(Ensure(v, id))
  {
    var w := Ensure(v, id);
    forall a, b | b in w && Times(w[b].dependents, a) > 0 ensures BackedAt(w, a, b) {
      if b in v { assert BackedAt(v, a, b); }
    }
  }

  lemma AddDependencyBacked(v: View, from: string, to: string)
    requires Backed(v)
    ensures Backed(AddDependency(v, from, to))
  {
    EnsureBacked(v, from);
    EnsureBacked(Ensure(v, from), to);
    var u := Ensure(Ensure(v, from), to);
    var w := AddDependency(v, from, to);
    assert w == AddDependency(u, from, to);
    AddDependencyAt(u, from, to, from, to);
    forall a, b | b in w && Times(w[b].dependents, a) > 0 ensures BackedAt(w, a, b) {
      AddDependencyAt(u, from, to, b, a);
      if Times(u[b].dependents, a) > 0 { assert BackedAt(u, a, b); }
      AddDependencyAt(u, from, to, a, b);
    }
  }

  lemma RemoveNodeBacked(v: View, id: string)
    requires Backed(v) && id in v
    ensures Backed(RemoveNode(v, id))
  {
    var w := RemoveNode(v, id);
    forall a, b | b in w && Times(w[b].dependents, a) > 0 ensures BackedAt(w, a, b) {
      CutTimes(v[b].dependents, id, Times(v[id].dependees, b), a);
      if Times(v[b].dependents, a) > 0 { assert BackedAt(v, a, b); }
      CutTimes(v[a].dependees, id, Times(v[id].dependents, a), b);
    }
  }

  /** Cutting `x` out `k` times lowers its own count only. */
  lemma {:induction false} CutTimes(s: seq<string>, x: string, k: nat, y: string)
    ensures Times(RemoveTimes(s, x, k), y) ==
            if y != x then Times(s, y) else if Times(s, x) > k then Times(s, x) - k else 0
  {
    if k > 0 {
      CutTimes(s, x, k - 1, y);
      RemoveFirstTimes(RemoveTimes(s, x, k - 1), x, y);
    }
  }

  /** Every graph that any calls at all can build is backed. */
  lemma {:induction false} BuiltGraphsBacked(ops: seq<Op>)
    ensures Backed(ApplyAll(map[], ops))
  {
    if ops != [] {
      var n := |ops| - 1;
      BuiltGraphsBacked(ops[..n]);
      var v := ApplyAll(map[], ops[..n]);
      match ops[n]
      case OpAddNode(id, deps) => if id !in v { AddNodeBacked(v, id, deps); }
      case OpAddDependency(from, to) => AddDependencyBacked(v, from, to);
      case OpRemoveNode(id) => if id in v { RemoveNodeBacked(v, id); }
    }
  }
}
