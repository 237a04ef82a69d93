/** The dependency graph of the rules package: which rule group references
    which. The graph library is replaced by a set of node IDs and a set of
    directed edges. */
module RulesDependency {
  import opened Common

  /** The targets of the edges leaving `src`. */
  function Targets(edges: set<(string, string)>, src: string): set<string>
  {
    set e | e in edges && e.0 == src :: e.1
  }

  lemma TargetsConnect(edges: set<(string, string)>, src: string, dest: string, other: string)
    ensures Targets(edges + {(src, dest)}, src) == Targets(edges, src) + {dest}
    ensures other != src ==> Targets(edges + {(src, dest)}, other) == Targets(edges, other)
  {
    assert (src, dest).1 == dest;
  }

  lemma TargetsDisconnect(edges: set<(string, string)>, src: string, dest: string, other: string)
    ensures Targets(edges - {(src, dest)}, src) == Targets(edges, src) - {dest}
    ensures other != src ==> Targets(edges - {(src, dest)}, other) == Targets(edges, other)
  {
    forall d | d in Targets(edges, src) && d != dest
      ensures d in Targets(edges - {(src, dest)}, src)
    {
      assert (src, d) in edges - {(src, dest)};
    }
  }

  class DependencyGraph {
    var nodes: set<string>
    var edges: set<(string, string)>

    /** Every edge joins two nodes of the graph. */
    predicate Valid()
      reads this
    {
      forall e :: e in edges ==> e.0 in nodes && e.1 in nodes
    }

    /** NewDependencies: an empty graph. */
    constructor NewDependencies()
      ensures Valid()
      ensures nodes == {} && edges == {}
    {
      nodes, edges := {}, {};
    }

    /** Add: makes `id` a node; adding an existing node changes nothing. */
    method Add(id: string)
      requires Valid()
      modifies this
      ensures Valid()
      ensures nodes == old(nodes) + {id}
      ensures edges == old(edges)
      ensures Exists(id)
      ensures old(Exists(id)) ==> nodes == old(nodes)
      ensures Size() == old(Size()) + (if old(Exists(id)) then 0 else 1)
    {
      nodes := nodes + {id};
    }

    /** Connect: adds the edge src -> dest, creating either endpoint that is missing. */
    method Connect(src: string, dest: string) returns (r: Outcome<string>)
      requires Valid()
      modifies this
      ensures Valid()
      ensures r == Pass
      ensures nodes == old(nodes) + {src, dest}
      ensures edges == old(edges) + {(src, dest)}
      ensures Exists(src) && Exists(dest)
    {
      nodes := nodes + {src, dest};
      edges := edges + {(src, dest)};
      r := Pass;
    }

    /** Disconnect: fails unless both endpoints are nodes; otherwise removes exactly
        the edge src -> dest, keeping every node and every other edge. */
    method Disconnect(src: string, dest: string) returns (r: Outcome<string>)
      requires Valid()
      modifies this
      ensures Valid()
      ensures nodes == old(nodes)
      ensures r.Fail? <==> src !in old(nodes) || dest !in old(nodes)
      ensures r.Fail? ==> edges == old(edges)
      ensures r.Pass? ==> edges == old(edges) - {(src, dest)}
    {
      if !Exists(src) {
        return Fail("the source node: " + src + " does not exist in the graph data");
      }
      if !Exists(dest) {
        return Fail("the dest node: " + dest + " does not exist in the graph data");
      }
      edges := edges - {(src, dest)};
      r := Pass;
    }

    /** Delete as written: it removes nothing and always succeeds. */
    method Delete(src: string) returns (r: Outcome<string>)
      ensures r == Pass
    {
      r := Pass;
    }

    /** Exists: `name` is a node. */
    predicate Exists(name: string)
      reads this
    {
      name in nodes
    }

    /** Edges: fails for a node that does not exist; otherwise lists each target of an
        edge leaving `src` exactly once, with `found` telling whether there is any. */
    method Edges(src: string) returns (list: seq<string>, found: bool, err: Outcome<string>)
      ensures err.Fail? <==> src !in nodes
      ensures err.Fail? ==> list == [] && !found
      ensures err.Pass? ==> Elements(list) == Targets(edges, src) && Distinct(list)
      ensures err.Pass? ==> |list| == |Targets(edges, src)|
      ensures found <==> |list| > 0
    {
      if !Exists(src) {
        return [], false, Fail("the node: " + src + " does not exist");
      }
      list := ListOf(Targets(edges, src));
      found := false;
      if |list| > 0 {
        found := true;
      }
      err := Pass;
    }

    /** Size: the number of nodes. */
    function Size(): (n: nat)
      reads this
      ensures n == |nodes|
    {
      |nodes|
    }
  }

  /** The edge test: with A -> B, B -> C and A -> D, node A has two outbound edges;
      B -> C is not counted for A. */
  method EdgesOfA() returns (count: nat, found: bool)
    ensures count == 2 && found
  {
    var graph := new DependencyGraph.NewDependencies();
    var _ := graph.Connect("A", "B");
    TargetsConnect(graph.edges, "B", "C", "A");
    var _ := graph.Connect("B", "C");
    TargetsConnect(graph.edges, "A", "D", "A");
    var _ := graph.Connect("A", "D");
    assert Targets(graph.edges, "A") == {"B", "D"} by {
      TargetsConnect({}, "A", "B", "A");
      assert Targets({}, "A") == {};
    }
    var list, f, _ := graph.Edges("A");
    return |list|, f;
  }

  /** The disconnect test: three edges out of A, then two once A -> F is removed. */
  method DisconnectFromA() returns (before: nat, after: nat)
    ensures before == 3 && after == 2
  {
    var graph := new DependencyGraph.NewDependencies();
    assert Targets({}, "A") == {};
    TargetsConnect({}, "A", "B", "A");
    var _ := graph.Connect("A", "B");
    assert Targets(graph.edges, "A") == {"B"};
    TargetsConnect(graph.edges, "A", "C", "A");
    var _ := graph.Connect("A", "C");
    assert Targets(graph.edges, "A") == {"B", "C"};
    TargetsConnect(graph.edges, "A", "F", "A");
    var _ := graph.Connect("A", "F");
    assert Targets(graph.edges, "A") == {"B", "C", "F"};
    var list, _, _ := graph.Edges("A");
    before := |list|;
    TargetsDisconnect(graph.edges, "A", "F", "A");
    var _ := graph.Disconnect("A", "F");
    assert Targets(graph.edges, "A") == {"B", "C"};
    var list2, _, _ := graph.Edges("A");
    after := |list2|;
  }
}
