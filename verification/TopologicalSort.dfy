/** `TopologicalSort` (planning/planner.go:163-205). It counts in-degrees along the
    dependees but lowers them along the dependents. On any lists at all: what it
    drains, when it meets a missing node, and when it succeeds. */
module TopologicalSort {
  import opened Values
  import opened Adjacency
  import opened Planning

  /** A missing node in the queue is dereferenced. */
  datatype Outcome = Sorted(order: seq<string>) | HasCycles | Panic

  // ---------- sums over sets ----------

  ghost function Total(s: set<string>, f: string -> nat): nat {
    if s == {} then 0 else
      var a :| a in s;
      f(a) + Total(s - {a}, f)
  }

  lemma {:induction false} TotalTake(s: set<string>, f: string -> nat, a: string)
    requires a in s
    ensures Total(s, f) == f(a) + Total(s - {a}, f)
    decreases |s|
  {
    var b :| b in s && Total(s, f) == f(b) + Total(s - {b}, f);
    if b != a {
      TotalTake(s - {b}, f, a);
      TotalTake(s - {a}, f, b);
      assert s - {b} - {a} == s - {a} - {b};
    }
  }

  lemma TotalAdd(s: set<string>, f: string -> nat, a: string)
    requires a !in s
    ensures Total(s + {a}, f) == Total(s, f) + f(a)
  {
    TotalTake(s + {a}, f, a);
    assert s + {a} - {a} == s;
  }

  lemma {:induction false} TotalGrows(s: set<string>, t: set<string>, f: string -> nat)
    requires s <= t
    ensures Total(s, f) <= Total(t, f)
    decreases |s|
  {
    if s != {} {
      var a :| a in s;
      TotalTake(s, f, a);
      TotalTake(t, f, a);
      TotalGrows(s - {a}, t - {a}, f);
    }
  }

  lemma {:induction false} TotalZeroIff(s: set<string>, f: string -> nat)
    ensures Total(s, f) == 0 <==> forall a :: a in s ==> f(a) == 0
    decreases |s|
  {
    if s != {} {
      var b :| b in s;
      TotalTake(s, f, b);
      TotalZeroIff(s - {b}, f);
    }
  }

  // ---------- what the lists say ----------

  function Names(v: View, d: string): string -> nat {
    a => if a in v then Times(v[a].dependees, d) else 0
  }

  function Releases(v: View, d: string): string -> nat {
    a => if a in v then Times(v[a].dependents, d) else 0
  }

  ghost function InDegree(v: View, d: string): nat { Total(v.Keys, Names(v, d)) }

  /** How often the dependents of the nodes in `s` mention `d`. */
  ghost function Released(v: View, s: set<string>, d: string): nat { Total(s, Releases(v, d)) }

  /** Once `s` is drained, `d` has no in-degree left. */
  ghost predicate Ready(v: View, s: set<string>, d: string) {
    if InDegree(v, d) == 0 then d in v else Released(v, s, d) >= InDegree(v, d)
  }

  function Elements(s: seq<string>): set<string> { set x | x in s }

  /** An order in which nodes can be drained, each ready when its turn comes. */
  ghost predicate Drains(v: View, order: seq<string>) {
    && NoDuplicates(order)
    && forall i :: 0 <= i < |order| ==> order[i] in v && Ready(v, Elements(order[..i]), order[i])
  }

  ghost predicate DrainsAll(v: View, order: seq<string>) {
    Drains(v, order) && Enumerates(order, v.Keys)
  }

  /** Draining makes an id ready that has no node. */
  ghost predicate Crashes(v: View) {
    exists order, d :: Drains(v, order) && d !in v && Ready(v, Elements(order), d)
  }

  /** No node depends on an existing node. */
  ghost predicate NoEdges(v: View) {
    forall a, d :: a in v && d in v[a].dependees ==> d !in v
  }

  // ---------- counting ----------

  function DegreeOf(inDegree: map<string, int>, d: string): int { if d in inDegree then inDegree[d] else 0 }

  /** `inDegree[dep]++` for one node's dependees, which may add ids that have no node. */
  method CountDependees(inDegree: map<string, int>, dependees: seq<string>) returns (r: map<string, int>)
    ensures forall d :: DegreeOf(r, d) == DegreeOf(inDegree, d) + Times(dependees, d)
    ensures forall d :: d in r <==> d in inDegree || d in dependees
  {
    r := inDegree;
    var i := 0;
    while i < |dependees|
      invariant 0 <= i <= |dependees|
      invariant forall d :: DegreeOf(r, d) == DegreeOf(inDegree, d) + Times(dependees[..i], d)
      invariant forall d :: d in r <==> d in inDegree || d in dependees[..i]
    {
      assert dependees[..i + 1] == dependees[..i] + [dependees[i]];
      r := r[dependees[i] := DegreeOf(r, dependees[i]) + 1];
      i := i + 1;
    }
    assert dependees[..i] == dependees;
  }

  ghost predicate Counted(v: View, seen: set<string>, inDegree: map<string, int>) {
    && (forall d :: DegreeOf(inDegree, d) == Total(seen, Names(v, d)))
    && (forall d :: d in inDegree <==> d in v || DegreeOf(inDegree, d) > 0)
  }

  lemma CountStep(v: View, seen: set<string>, id: string, before: map<string, int>, after: map<string, int>)
    requires Counted(v, seen, before) && id in v && id !in seen
    requires forall d :: DegreeOf(after, d) == DegreeOf(before, d) + Times(v[id].dependees, d)
    requires forall d :: d in after <==> d in before || d in v[id].dependees
    ensures Counted(v, seen + {id}, after)
  {
    forall d ensures DegreeOf(after, d) == Total(seen + {id}, Names(v, d)) { TotalAdd(seen, Names(v, d), id); }
    forall d ensures d in after <==> d in v || DegreeOf(after, d) > 0 {
      assert DegreeOf(before, d) >= 0;
      assert d in v[id].dependees <==> d in multiset(v[id].dependees);
    }
  }

  lemma CountStart(v: View, zeros: map<string, int>)
    requires zeros == map id | id in v :: 0
    ensures Counted(v, {}, zeros)
  {
  }

  method CountNode(v: View, ghost rest: set<string>, id: string, inDegree: map<string, int>)
    returns (counted: map<string, int>)
    requires Counted(v, v.Keys - rest, inDegree) && id in v && id in rest
    ensures Counted(v, v.Keys - (rest - {id}), counted)
  {
    counted := CountDependees(inDegree, v[id].dependees);
    assert v.Keys - rest + {id} == v.Keys - (rest - {id});
    CountStep(v, v.Keys - rest, id, inDegree, counted);
  }

  lemma CountEnd(v: View, inDegree: map<string, int>)
    ensures Counted(v, v.Keys - {}, inDegree) <==> Counted(v, v.Keys, inDegree)
    ensures Counted(v, v.Keys - v.Keys, inDegree) <==> Counted(v, {}, inDegree)
  {
    assert v.Keys - {} == v.Keys && v.Keys - v.Keys == {};
  }

  /** The in-degree loops, over the nodes in any order. */
  method CountInDegrees(v: View) returns (inDegree: map<string, int>)
    ensures Counted(v, v.Keys, inDegree)
  {
    inDegree := map id | id in v :: 0;
    CountStart(v, inDegree);
    CountEnd(v, inDegree);
    var ids := v.Keys;
    while ids != {}
      invariant ids <= v.Keys
      invariant Counted(v, v.Keys - ids, inDegree)
    {
      var id :| id in ids;
      inDegree := CountNode(v, ids, id, inDegree);
      ids := ids - {id};
    }
    CountEnd(v, inDegree);
  }

  method Sources(inDegree: map<string, int>) returns (queue: seq<string>)
    ensures Enumerates(queue, set d | d in inDegree && inDegree[d] == 0)
  {
    queue := [];
    var ids := inDegree.Keys;
    while ids != {}
      invariant ids <= inDegree.Keys && NoDuplicates(queue)
      invariant forall d :: d in queue ==> d in inDegree && d !in ids && inDegree[d] == 0
      invariant forall d :: d in inDegree && d !in ids && inDegree[d] == 0 ==> d in queue
    {
      var id :| id in ids;
      if inDegree[id] == 0 { queue := queue + [id]; }
      ids := ids - {id};
    }
  }

  // ---------- draining ----------

  /** `d` was queued: it started at zero, or its counter has come down to zero. */
  ghost predicate Reached(v: View, inDegree: map<string, int>, d: string) {
    if InDegree(v, d) == 0 then d in v else DegreeOf(inDegree, d) <= 0
  }

  /** The queued ids are those reached, each once. */
  ghost predicate Queued(v: View, inDegree: map<string, int>, all: seq<string>) {
    NoDuplicates(all) && forall d :: d in all <==> Reached(v, inDegree, d)
  }

  /** Lower one dependent, and queue it when it comes to zero. */
  lemma LowerOne(v: View, before: map<string, int>, after: map<string, int>, all: seq<string>, dep: string)
    requires Queued(v, before, all) && after == before[dep := DegreeOf(before, dep) - 1]
    requires forall d :: InDegree(v, d) == 0 ==> DegreeOf(before, d) <= 0
    ensures Queued(v, after, if after[dep] == 0 then all + [dep] else all)
    ensures forall d :: InDegree(v, d) == 0 ==> DegreeOf(after, d) <= 0
  {
    var next := if after[dep] == 0 then all + [dep] else all;
    assert after[dep] == 0 ==> dep !in all;
    forall d ensures d in next <==> Reached(v, after, d) { assert d in all <==> Reached(v, before, d); }
  }

  /** The inner loop of the queue: lower each dependent, enqueue it at zero. */
  method Release(
      v: View, inDegree: map<string, int>, ghost popped: seq<string>, queue: seq<string>, dependents: seq<string>)
    returns (inDegree': map<string, int>, queue': seq<string>)
    requires Queued(v, inDegree, popped + queue)
    requires forall d :: InDegree(v, d) == 0 ==> DegreeOf(inDegree, d) <= 0
    ensures Queued(v, inDegree', popped + queue')
    ensures forall d :: DegreeOf(inDegree', d) == DegreeOf(inDegree, d) - Times(dependents, d)
  {
    inDegree', queue' := inDegree, queue;
    var i := 0;
    while i < |dependents|
      invariant 0 <= i <= |dependents| && Queued(v, inDegree', popped + queue')
      invariant forall d :: InDegree(v, d) == 0 ==> DegreeOf(inDegree', d) <= 0
      invariant forall d :: DegreeOf(inDegree', d) == DegreeOf(inDegree, d) - Times(dependents[..i], d)
    {
      var dep := dependents[i];
      assert dependents[..i + 1] == dependents[..i] + [dep];
      var lowered := inDegree'[dep := DegreeOf(inDegree', dep) - 1];
      LowerOne(v, inDegree', lowered, popped + queue', dep);
      inDegree' := lowered;
      assert popped + (queue' + [dep]) == popped + queue' + [dep];
      if inDegree'[dep] == 0 { queue' := queue' + [dep]; }
      i := i + 1;
    }
    assert dependents[..i] == dependents;
  }

  /** The counters after the nodes of `result` were drained. */
  ghost predicate Lowered(v: View, inDegree: map<string, int>, result: seq<string>) {
    forall d :: DegreeOf(inDegree, d) == InDegree(v, d) - Released(v, Elements(result), d)
  }

  lemma ReachedIsReady(v: View, inDegree: map<string, int>, result: seq<string>, d: string)
    requires Lowered(v, inDegree, result)
    ensures Reached(v, inDegree, d) <==> Ready(v, Elements(result), d)
  {
  }

  lemma LoweredMore(v: View, before: map<string, int>, after: map<string, int>, result: seq<string>, current: string)
    requires Lowered(v, before, result) && current in v && current !in result
    requires forall d :: DegreeOf(after, d) == DegreeOf(before, d) - Times(v[current].dependents, d)
    ensures Lowered(v, after, result + [current])
  {
    assert Elements(result + [current]) == Elements(result) + {current};
    forall d ensures DegreeOf(after, d) == InDegree(v, d) - Released(v, Elements(result + [current]), d) {
      TotalAdd(Elements(result), Releases(v, d), current);
    }
  }

  lemma DrainsMore(v: View, result: seq<string>, current: string)
    requires Drains(v, result) && current in v && current !in result && Ready(v, Elements(result), current)
    ensures Drains(v, result + [current])
  {
    var r := result + [current];
    forall i | 0 <= i < |r| ensures r[i] in v && Ready(v, Elements(r[..i]), r[i]) {
      assert r[..i] == result[..i];
      if i == |result| { assert result[..i] == result; }
    }
  }

  /** Nothing is ready that was not drained. */
  ghost predicate Exhausted(v: View, result: seq<string>) {
    Drains(v, result) && forall d :: Ready(v, Elements(result), d) ==> d in result
  }

  /** Where the queue loop stands. */
  ghost predicate Draining(v: View, inDegree: map<string, int>, result: seq<string>, queue: seq<string>) {
    && Drains(v, result) && Lowered(v, inDegree, result) && Queued(v, inDegree, result + queue)
    && forall d :: InDegree(v, d) == 0 ==> DegreeOf(inDegree, d) <= 0
  }

  lemma HeadIsReady(v: View, inDegree: map<string, int>, result: seq<string>, queue: seq<string>)
    requires Draining(v, inDegree, result, queue) && queue != []
    ensures queue[0] !in result && Ready(v, Elements(result), queue[0])
    ensures queue[0] in v ==> Drains(v, result + [queue[0]])
    ensures queue[0] in v || InDegree(v, queue[0]) > 0
  {
    assert (result + queue)[|result|] == queue[0];
    assert queue[0] in result + queue;
    ReachedIsReady(v, inDegree, result, queue[0]);
    forall i | 0 <= i < |result| ensures result[i] != queue[0] {
      assert (result + queue)[i] == result[i];
    }
    if queue[0] in v { DrainsMore(v, result, queue[0]); }
  }

  lemma MoveHead(result: seq<string>, queue: seq<string>)
    requires queue != []
    ensures result + queue == (result + [queue[0]]) + queue[1..]
    ensures Elements(result + [queue[0]]) == Elements(result) + {queue[0]}
  {
  }

  /** One iteration of the queue loop on a node. */
  method Pop(v: View, inDegree: map<string, int>, result: seq<string>, queue: seq<string>)
    returns (inDegree': map<string, int>, queue': seq<string>)
    requires Draining(v, inDegree, result, queue) && queue != [] && queue[0] in v
    ensures queue[0] !in result && Draining(v, inDegree', result + [queue[0]], queue')
  {
    HeadIsReady(v, inDegree, result, queue);
    MoveHead(result, queue);
    inDegree', queue' := Release(v, inDegree, result + [queue[0]], queue[1..], v[queue[0]].dependents);
    LoweredMore(v, inDegree, inDegree', result, queue[0]);
  }

  lemma NothingLeft(v: View, inDegree: map<string, int>, result: seq<string>)
    requires Draining(v, inDegree, result, [])
    ensures Exhausted(v, result)
  {
    assert result + [] == result;
    forall d | Ready(v, Elements(result), d) ensures d in result { ReachedIsReady(v, inDegree, result, d); }
  }

  /** The queue loop. */
  method Drain(v: View, sources: seq<string>, degrees: map<string, int>) returns (panic: bool, result: seq<string>)
    requires Counted(v, v.Keys, degrees) && Enumerates(sources, set d | d in degrees && degrees[d] == 0)
    ensures panic ==> Crashes(v)
    ensures !panic ==> Exhausted(v, result)
  {
    var queue, inDegree := sources, degrees;
    result := [];
    Start(v, sources, degrees);
    while |queue| > 0
      invariant Draining(v, inDegree, result, queue)
      decreases v.Keys - Elements(result)
    {
      var current := queue[0];
      HeadIsReady(v, inDegree, result, queue);
      if current !in v { return true, result; }
      MoveHead(result, queue);
      inDegree, queue := Pop(v, inDegree, result, queue);
      result := result + [current];
    }
    NothingLeft(v, inDegree, result);
    panic := false;
  }

  lemma Start(v: View, sources: seq<string>, degrees: map<string, int>)
    requires Counted(v, v.Keys, degrees) && Enumerates(sources, set d | d in degrees && degrees[d] == 0)
    ensures Draining(v, degrees, [], sources)
  {
    assert Elements([]) == {};
    assert [] + sources == sources;
    forall d ensures d in sources <==> Reached(v, degrees, d) { assert DegreeOf(degrees, d) == InDegree(v, d); }
  }

  lemma PrefixUnique<T>(s: seq<T>, n: nat)
    requires NoDuplicates(s) && n <= |s|
    ensures NoDuplicates(s[..n])
  {
  }

  lemma DrainsPrefix(v: View, order: seq<string>)
    requires Drains(v, order) && order != []
    ensures Drains(v, order[..|order| - 1])
  {
    var n := |order| - 1;
    var prefix := order[..n];
    PrefixUnique(order, n);
    forall i | 0 <= i < n ensures prefix[i] in v && Ready(v, Elements(prefix[..i]), prefix[i]) {
      assert prefix[..i] == order[..i] && prefix[i] == order[i];
    }
  }

  lemma DrainsLast(v: View, order: seq<string>)
    requires Drains(v, order) && order != []
    ensures order[|order| - 1] in v && Ready(v, Elements(order[..|order| - 1]), order[|order| - 1])
    ensures Elements(order) == Elements(order[..|order| - 1]) + {order[|order| - 1]}
  {
    MoveHead(order[..|order| - 1], [order[|order| - 1]]);
    assert order == order[..|order| - 1] + [order[|order| - 1]];
  }

  /** Whatever can be drained at all is drained. */
  lemma {:induction false} DrainedAnyway(v: View, result: seq<string>, order: seq<string>)
    requires Exhausted(v, result) && Drains(v, order)
    ensures Elements(order) <= Elements(result)
  {
    if order != [] {
      var n := |order| - 1;
      DrainsPrefix(v, order);
      DrainsLast(v, order);
      DrainedAnyway(v, result, order[..n]);
      StaysReady(v, Elements(order[..n]), Elements(result), order[n]);
    }
  }

  lemma StaysReady(v: View, s: set<string>, t: set<string>, d: string)
    requires s <= t && Ready(v, s, d)
    ensures Ready(v, t, d)
  {
    TotalGrows(s, t, Releases(v, d));
  }

  /** What an exhausted drain says about every other one. */
  lemma ExhaustedDecides(v: View, result: seq<string>)
    requires Exhausted(v, result)
    ensures !Crashes(v)
    ensures (exists order :: DrainsAll(v, order)) <==> |result| == |v|
    ensures |result| == |v| ==> DrainsAll(v, result)
  {
    forall order, d | Drains(v, order) && d !in v ensures !Ready(v, Elements(order), d) {
      DrainedAnyway(v, result, order);
      if Ready(v, Elements(order), d) { StaysReady(v, Elements(order), Elements(result), d); }
    }
    EnumerationSize(result, Elements(result));
    assert |v| == |v.Keys|;
    assert Elements(result) <= v.Keys;
    if |result| == |v| {
      if Elements(result) < v.Keys { ProperSubsetSmaller(Elements(result), v.Keys); }
      assert DrainsAll(v, result);
    }
    if exists order :: DrainsAll(v, order) {
      var order :| DrainsAll(v, order);
      DrainedAnyway(v, result, order);
      assert Elements(result) == v.Keys;
    }
  }

  lemma {:induction false} EnumerationSize<T>(s: seq<T>, elements: set<T>)
    requires Enumerates(s, elements)
    ensures |s| == |elements|
  {
    if s != [] {
      assert s[0] in elements;
      assert Enumerates(s[1..], elements - {s[0]}) by {
        forall x | x in elements - {s[0]} ensures x in s[1..] {
          var i :| 0 <= i < |s| && s[i] == x;
          assert s[1..][i - 1] == x;
        }
      }
      EnumerationSize(s[1..], elements - {s[0]});
    }
  }

  lemma {:induction false} ProperSubsetSmaller<T>(s: set<T>, t: set<T>)
    requires s < t
    ensures |s| < |t|
  {
    var extra := t - s;
    assert t == s + extra && extra != {};
    assert |t| == |s| + |extra|;
  }

  /** A panic exactly when draining makes a missing id ready, and else success exactly when
      all nodes can be drained. */
  ghost predicate Decided(v: View, outcome: Outcome) {
    && (outcome.Panic? <==> Crashes(v))
    && (outcome.Sorted? <==> !Crashes(v) && exists order :: DrainsAll(v, order))
    && (outcome.Sorted? ==> DrainsAll(v, outcome.order))
  }

  method Sort(v: View) returns (outcome: Outcome)
    ensures Decided(v, outcome)
  {
    var inDegree := CountInDegrees(v);
    var queue := Sources(inDegree);
    var panic, result := Drain(v, queue, inDegree);
    if panic { return Panic; }
    ExhaustedDecides(v, result);
    if |result| != |v| { return HasCycles; }
    return Sorted(result);
  }

  // ---------- graphs over slices of their own ----------

  lemma InDegreeZeroIff(v: View, d: string)
    ensures InDegree(v, d) == 0 <==> forall a :: a in v ==> d !in v[a].dependees
  {
    TotalZeroIff(v.Keys, Names(v, d));
    forall a | a in v ensures Names(v, d)(a) == 0 <==> d !in v[a].dependees {
      assert d in v[a].dependees <==> d in multiset(v[a].dependees);
    }
  }

  /** On a backed graph a node that nobody names has no dependents. */
  lemma UnnamedReleasesNothing(v: View, a: string, d: string)
    requires Backed(v) && a in v && InDegree(v, a) == 0
    ensures Releases(v, d)(a) == 0
  {
    InDegreeZeroIff(v, a);
    assert Times(v[a].dependents, d) > 0 ==> BackedAt(v, d, a);
    assert d in v ==> a !in multiset(v[d].dependees);
  }

  /** So draining a backed graph never gets past the nodes that nobody names. */
  lemma {:induction false} BackedDrainsUnnamed(v: View, order: seq<string>)
    requires Backed(v) && Drains(v, order)
    ensures forall a :: a in order ==> InDegree(v, a) == 0
    ensures forall d :: Released(v, Elements(order), d) == 0
  {
    if order != [] {
      var n := |order| - 1;
      DrainsPrefix(v, order);
      DrainsLast(v, order);
      BackedDrainsUnnamed(v, order[..n]);
      assert InDegree(v, order[n]) == 0;
    }
    forall d ensures Released(v, Elements(order), d) == 0 { UnnamedReleaseNothing(v, Elements(order), d); }
  }

  lemma UnnamedReleaseNothing(v: View, s: set<string>, d: string)
    requires Backed(v) && forall a :: a in s ==> a in v && InDegree(v, a) == 0
    ensures Released(v, s, d) == 0
  {
    forall a | a in s ensures Releases(v, d)(a) == 0 { UnnamedReleasesNothing(v, a, d); }
    TotalZeroIff(s, Releases(v, d));
  }

  /** On a backed graph TopologicalSort succeeds exactly when no node depends on an existing
      node: every graph with an edge is refused. */
  lemma BackedSortsIff(v: View)
    requires Backed(v)
    ensures !Crashes(v)
    ensures (exists order :: DrainsAll(v, order)) <==> NoEdges(v)
  {
    forall order, d | Drains(v, order) && d !in v ensures !Ready(v, Elements(order), d) {
      BackedDrainsUnnamed(v, order);
    }
    if exists order :: DrainsAll(v, order) {
      var order :| DrainsAll(v, order);
      BackedDrainsUnnamed(v, order);
      forall a, d | a in v && d in v[a].dependees ensures d !in v { InDegreeZeroIff(v, d); }
    }
    if NoEdges(v) {
      var order := Listed(v.Keys);
      forall i | 0 <= i < |order| ensures order[i] in v && Ready(v, Elements(order[..i]), order[i]) {
        InDegreeZeroIff(v, order[i]);
      }
      assert DrainsAll(v, order);
    }
  }

  lemma {:induction false} Listed(s: set<string>) returns (order: seq<string>)
    ensures Enumerates(order, s)
    decreases |s|
  {
    if s == {} { return []; }
    var a :| a in s;
    order := Listed(s - {a});
    order := order + [a];
  }

  /** The outcome on a backed graph. */
  lemma BackedOutcome(v: View, outcome: Outcome)
    requires Backed(v) && Decided(v, outcome)
    ensures !outcome.Panic? && (outcome.Sorted? <==> NoEdges(v))
  {
    BackedSortsIff(v);
  }

  /** TopologicalSort, on any lists. */
  method TopologicalSort(graph: DependencyGraph) returns (outcome: Outcome)
    ensures Decided(graph.Lists(), outcome)
  {
    var v := graph.AllLists();
    outcome := Sort(v);
    assert v == graph.Lists();
  }
}
