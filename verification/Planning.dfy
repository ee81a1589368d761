/** planning/planner.go: the goal dependency graph over linked node records. */
module Planning {
  import opened Values
  import opened Digraph
  import opened Adjacency

  class DependencyNode {
    const goalID: string
    var dependents: seq<string>
    var dependees: seq<string>

    constructor (goalID: string, dependees: seq<string>)
      ensures this.goalID == goalID && this.dependents == [] && this.dependees == dependees
    {
      this.goalID := goalID;
      this.dependents := [];
      this.dependees := dependees;
    }
  }

  class DependencyGraph {
    var nodes: map<string, DependencyNode>

    /** No record is filed under two ids. */
    ghost predicate Valid()
      reads this
    {
      forall a, b :: a in nodes && b in nodes && a != b ==> nodes[a] != nodes[b]
    }

    ghost function Lists(): View
      reads this, nodes.Values
    {
      map id | id in nodes :: Adj(nodes[id].dependents, nodes[id].dependees)
    }

    constructor ()
      ensures Valid() && Lists() == map[] && fresh(nodes.Values)
    {
      nodes := map[];
    }

    method SetDependents(id: string, s: seq<string>)
      requires Valid() && id in nodes
      modifies nodes[id]
      ensures Lists() == WithDependents(old(Lists()), id, s)
    {
      nodes[id].dependents := s;
    }

    method SetDependees(id: string, s: seq<string>)
      requires Valid() && id in nodes
      modifies nodes[id]
      ensures Lists() == WithDependees(old(Lists()), id, s)
    {
      nodes[id].dependees := s;
    }

    method AddNode(goalID: string, dependees: seq<string>) returns (ok: bool)
      requires Valid()
      modifies this, nodes.Values
      ensures Valid() && fresh(nodes.Values - old(nodes.Values))
      ensures ok == (goalID !in old(Lists()))
      ensures Lists() == Apply(old(Lists()), OpAddNode(goalID, dependees))
    {
      if goalID in nodes { return false; }
      LinkEachIsLink(Lists(), goalID, dependees);
      LinkDependents(goalID, dependees);
      var node := new DependencyNode(goalID, dependees);
      File(goalID, node);
      return true;
    }

    method LinkOne(goalID: string, x: string)
      requires Valid()
      modifies nodes.Values
      ensures Lists() == if x !in old(Lists()) then old(Lists())
                         else WithDependents(old(Lists()), x, old(Lists())[x].dependents + [goalID])
    {
      if x in nodes { SetDependents(x, nodes[x].dependents + [goalID]); }
    }

    method LinkDependents(goalID: string, listed: seq<string>)
      requires Valid()
      modifies nodes.Values
      ensures Lists() == LinkEach(old(Lists()), goalID, listed)
    {
      ghost var v := Lists();
      var i := 0;
      while i < |listed|
        invariant 0 <= i <= |listed|
        invariant Lists() == LinkEach(v, goalID, listed[..i])
      {
        assert listed[..i + 1][..i] == listed[..i];
        LinkOne(goalID, listed[i]);
        i := i + 1;
      }
      assert listed[..i] == listed;
    }

    /** `g.nodes[id] = node` for a new record. */
    method File(id: string, node: DependencyNode)
      requires Valid() && id !in nodes && node !in nodes.Values
      modifies this
      ensures Valid() && nodes == old(nodes)[id := node]
      ensures Lists() == old(Lists())[id := Adj(node.dependents, node.dependees)]
    {
      nodes := nodes[id := node];
    }

    method EnsureNode(id: string)
      requires Valid()
      modifies this
      ensures Valid() && fresh(nodes.Values - old(nodes.Values))
      ensures Lists() == Ensure(old(Lists()), id)
    {
      if id !in nodes {
        var node := new DependencyNode(id, []);
        File(id, node);
      }
    }

    method AddDependency(from: string, to: string)
      requires Valid()
      modifies this, nodes.Values
      ensures Valid() && fresh(nodes.Values - old(nodes.Values))
      ensures Lists() == Apply(old(Lists()), OpAddDependency(from, to))
    {
      EnsureNode(from);
      EnsureNode(to);
      ghost var v := Lists();
      assert from in v && to in v;
      SetDependees(from, nodes[from].dependees + [to]);
      SetDependents(to, nodes[to].dependents + [from]);
    }

    method CutOneDependee(goalID: string, x: string)
      requires Valid()
      modifies nodes.Values
      ensures Lists() == if x !in old(Lists()) then old(Lists())
                         else WithDependees(old(Lists()), x, RemoveFirst(old(Lists())[x].dependees, goalID))
    {
      if x in nodes {
        var cut := SpliceOut(nodes[x].dependees, goalID);
        SetDependees(x, cut);
      }
    }

    method CutFromDependees(goalID: string, listed: seq<string>)
      requires Valid()
      modifies nodes.Values
      ensures Lists() == CutEachDependees(old(Lists()), goalID, listed)
    {
      ghost var v := Lists();
      var i := 0;
      while i < |listed|
        invariant 0 <= i <= |listed|
        invariant Lists() == CutEachDependees(v, goalID, listed[..i])
      {
        assert listed[..i + 1][..i] == listed[..i];
        CutOneDependee(goalID, listed[i]);
        i := i + 1;
      }
      assert listed[..i] == listed;
    }

    method CutOneDependent(goalID: string, x: string)
      requires Valid()
      modifies nodes.Values
      ensures Lists() == if x !in old(Lists()) then old(Lists())
                         else WithDependents(old(Lists()), x, RemoveFirst(old(Lists())[x].dependents, goalID))
    {
      if x in nodes {
        var cut := SpliceOut(nodes[x].dependents, goalID);
        SetDependents(x, cut);
      }
    }

    method CutFromDependents(goalID: string, listed: seq<string>)
      requires Valid()
      modifies nodes.Values
      ensures Lists() == CutEachDependents(old(Lists()), goalID, listed)
    {
      ghost var v := Lists();
      var i := 0;
      while i < |listed|
        invariant 0 <= i <= |listed|
        invariant Lists() == CutEachDependents(v, goalID, listed[..i])
      {
        assert listed[..i + 1][..i] == listed[..i];
        CutOneDependent(goalID, listed[i]);
        i := i + 1;
      }
      assert listed[..i] == listed;
    }

    method RemoveNode(goalID: string) returns (ok: bool)
      requires Valid()
      modifies this, nodes.Values
      ensures Valid() && nodes.Values <= old(nodes.Values)
      ensures ok == (goalID in old(Lists()))
      ensures Lists() == Apply(old(Lists()), OpRemoveNode(goalID))
    {
      if goalID !in nodes { return false; }
      CutsRemoveNode(Lists(), goalID);
      CutEachDependeesIsCut(Lists(), goalID, nodes[goalID].dependents);
      CutFromDependees(goalID, nodes[goalID].dependents);
      CutEachDependentsIsCut(Lists(), goalID, nodes[goalID].dependees);
      CutFromDependents(goalID, nodes[goalID].dependees);
      Unfile(goalID);
      return true;
    }

    method DependeeLists() returns (g: Graph)
      ensures g == Dependees(Lists())
    {
      g := map id | id in nodes :: nodes[id].dependees;
    }

    method AllLists() returns (v: View)
      ensures v == Lists()
    {
      v := map id | id in nodes :: Adj(nodes[id].dependents, nodes[id].dependees);
    }

    /** `delete(g.nodes, id)`. */
    method Unfile(id: string)
      requires Valid()
      modifies this
      ensures Valid() && nodes == old(nodes) - {id}
      ensures Lists() == old(Lists()) - {id}
    {
      nodes := nodes - {id};
    }
  }
}
