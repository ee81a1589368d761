/** Graphs that writes through shared slices leave behind, and what TopologicalSort makes of them. */
module SpoiledGraphs {
  import opened Values
  import opened Adjacency
  import opened TopologicalSort

  /** "a" and "b" shared a slice with a spare cell: "a" depended on "p" until "b" appended "q",
      "c" depends on "a", and "q" was removed. */
  predicate IsOverwritten(v: View) {
    && v.Keys == {"a", "b", "c", "p"}
    && v["a"] == Adj(["c"], ["q"]) && v["b"] == Adj([], [])
    && v["c"] == Adj([], ["a"]) && v["p"] == Adj(["a"], [])
  }

  lemma OverwrittenNames(v: View, d: string)
    requires IsOverwritten(v)
    ensures InDegree(v, d) == 0 <==> d != "a" && d != "q"
  {
    InDegreeZeroIff(v, d);
    assert "q" in v["a"].dependees && "a" in v["c"].dependees;
  }

  lemma OverwrittenDegree(v: View)
    requires IsOverwritten(v)
    ensures InDegree(v, "a") <= 1
  {
    TotalTake(v.Keys, Names(v, "a"), "c");
    TotalZeroIff(v.Keys - {"c"}, Names(v, "a"));
  }

  lemma OverwrittenReleases(v: View, s: set<string>)
    requires IsOverwritten(v)
    ensures "p" in s ==> Released(v, s, "a") >= 1
    ensures Released(v, s, "q") == 0
  {
    if "p" in s { TotalTake(s, Releases(v, "a"), "p"); }
    TotalZeroIff(s, Releases(v, "q"));
  }

  lemma OverwrittenReady(v: View, s: set<string>, d: string)
    requires IsOverwritten(v) && d in v && (d == "a" ==> "p" in s)
    ensures Ready(v, s, d)
  {
    OverwrittenNames(v, d);
    if d == "a" {
      OverwrittenDegree(v);
      OverwrittenReleases(v, s);
    }
  }

  lemma OverwrittenOrder(v: View, order: seq<string>)
    requires IsOverwritten(v) && order == ["b", "c", "p", "a"]
    ensures Enumerates(order, v.Keys)
  {
    assert order[0] == "b" && order[1] == "c" && order[2] == "p" && order[3] == "a";
  }

  lemma OverwrittenDrains(v: View, order: seq<string>)
    requires IsOverwritten(v) && order == ["b", "c", "p", "a"]
    ensures DrainsAll(v, order)
  {
    OverwrittenOrder(v, order);
    forall i | 0 <= i < |order| ensures order[i] in v && Ready(v, Elements(order[..i]), order[i]) {
      if i == 3 { assert order[..3][2] == "p"; }
      OverwrittenReady(v, Elements(order[..i]), order[i]);
    }
  }

  lemma OverwrittenNeverCrashes(v: View)
    requires IsOverwritten(v)
    ensures !Crashes(v)
  {
    forall order, d | Drains(v, order) && d !in v ensures !Ready(v, Elements(order), d) {
      OverwrittenNames(v, d);
      OverwrittenReleases(v, Elements(order));
    }
  }

  /** On that graph TopologicalSort succeeds although "c" depends on "a". */
  lemma OverwrittenSorts(v: View, outcome: Outcome)
    requires IsOverwritten(v) && Decided(v, outcome)
    ensures outcome.Sorted? && !NoEdges(v) && !Backed(v)
  {
    OverwrittenDrains(v, ["b", "c", "p", "a"]);
    OverwrittenNeverCrashes(v);
    assert "a" in v["c"].dependees;
    assert Times(v["p"].dependents, "a") > 0 && !BackedAt(v, "a", "p");
  }

  /** "a" was removed there, which left it among the dependents of "p", and "c" was added over it. */
  predicate IsDangling(v: View) {
    v.Keys == {"c", "p"} && v["c"] == Adj([], ["a"]) && v["p"] == Adj(["a"], [])
  }

  lemma DanglingReady(v: View, s: set<string>)
    requires IsDangling(v) && s == {"p"}
    ensures InDegree(v, "p") == 0 && InDegree(v, "a") == 1 && Ready(v, s, "a")
  {
    InDegreeZeroIff(v, "p");
    TotalTake(v.Keys, Names(v, "a"), "c");
    TotalZeroIff(v.Keys - {"c"}, Names(v, "a"));
    TotalTake(s, Releases(v, "a"), "p");
  }

  lemma CrashWitness(v: View, order: seq<string>, d: string)
    requires Drains(v, order) && d !in v && Ready(v, Elements(order), d)
    ensures Crashes(v)
  {
  }

  lemma DanglingDrains(v: View, order: seq<string>)
    requires IsDangling(v) && order == ["p"]
    ensures Drains(v, order) && Elements(order) == {"p"}
  {
    InDegreeZeroIff(v, "p");
  }

  /** There it dereferences the missing node. */
  lemma DanglingPanics(v: View, order: seq<string>, outcome: Outcome)
    requires IsDangling(v) && order == ["p"] && Decided(v, outcome)
    ensures outcome.Panic?
  {
    DanglingDrains(v, order);
    DanglingReady(v, Elements(order));
    CrashWitness(v, order, "a");
  }
}
