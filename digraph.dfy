/**
 * The directed adjacency every analysis builds from a node list and an edge
 * list, and reachability over it.
 *
 * Every node id gets an (initially empty) successor list, and every edge
 * appends its target to its source's list, whether or not either endpoint
 * is a node: the successors of `x` are the targets of the edges leaving
 * `x`, in edge order and with repetitions.
 */
module Digraph {
  import opened GraphTypes

  type Adjacency = map<string, seq<string>>

  /** `graph.get(x) || []`. */
  function Succ(adj: Adjacency, x: string): seq<string> {
    if x in adj then adj[x] else []
  }

  /** The targets of the edges whose source is `x`, in edge order. */
  function Targets(edges: seq<Edge>, x: string): (ts: seq<string>)
    ensures |ts| <= |edges|
  {
    if edges == [] then []
    else
      var last := edges[|edges| - 1];
      Targets(edges[..|edges| - 1], x) + (if last.source == x then [last.target] else [])
  }

  lemma {:induction false} TargetsMember(edges: seq<Edge>, x: string, y: string)
    ensures y in Targets(edges, x) <==> exists e :: e in edges && e.source == x && e.target == y
  {
    if edges != [] {
      var p := edges[..|edges| - 1];
      TargetsMember(p, x, y);
      assert edges == p + [edges[|edges| - 1]];
    }
  }

  function NodeIds(nodes: seq<Node>): set<string> {
    set n | n in nodes :: n.id
  }

  function Sources(edges: seq<Edge>): set<string> {
    set e | e in edges :: e.source
  }

  lemma NodeIdsExtend(nodes: seq<Node>, i: nat)
    requires i < |nodes|
    ensures NodeIds(nodes[..i + 1]) == NodeIds(nodes[..i]) + {nodes[i].id}
  {
    assert nodes[..i + 1] == nodes[..i] + [nodes[i]];
  }

  lemma EdgesExtend(edges: seq<Edge>, i: nat)
    requires i < |edges|
    ensures Sources(edges[..i + 1]) == Sources(edges[..i]) + {edges[i].source}
    ensures forall x :: Targets(edges[..i + 1], x)
                        == Targets(edges[..i], x) + (if edges[i].source == x then [edges[i].target] else [])
  {
    assert edges[..i + 1] == edges[..i] + [edges[i]];
    assert edges[..i + 1][..i] == edges[..i];
  }

  /**
   * The adjacency of a node and edge list: an entry for every node id and
   * every edge source, listing the targets of the edges leaving it.
   */
  function AdjacencyOf(nodes: seq<Node>, edges: seq<Edge>): (adj: Adjacency)
    ensures forall x :: Succ(adj, x) == Targets(edges, x)
  {
    assert forall x :: x !in Sources(edges) ==> Targets(edges, x) == [] by {
      forall x | x !in Sources(edges) ensures Targets(edges, x) == [] {
        if Targets(edges, x) != [] {
          TargetsMember(edges, x, Targets(edges, x)[0]);
        }
      }
    }
    map x | x in NodeIds(nodes) + Sources(edges) :: Targets(edges, x)
  }

  /** An edge leads from `x` to `y` exactly when some edge of the list goes from `x` to `y`. */
  lemma AdjacencyEdges(nodes: seq<Node>, edges: seq<Edge>, x: string, y: string)
    ensures y in Succ(AdjacencyOf(nodes, edges), x) <==> exists e :: e in edges && e.source == x && e.target == y
  {
    TargetsMember(edges, x, y);
  }

  /** The loops that open each of the analysis functions. */
  method BuildAdjacency(nodes: seq<Node>, edges: seq<Edge>) returns (adj: Adjacency)
    ensures adj == AdjacencyOf(nodes, edges)
  {
    adj := EmptyLists(nodes);
    adj := AppendEdges(nodes, edges, adj);
  }

  /** Every node id gets an empty successor list. */
  method EmptyLists(nodes: seq<Node>) returns (adj: Adjacency)
    ensures adj.Keys == NodeIds(nodes) && forall x :: Succ(adj, x) == []
  {
    adj := map[];
    for i := 0 to |nodes|
      invariant adj.Keys == NodeIds(nodes[..i])
      invariant forall x :: x in adj ==> adj[x] == []
    {
      NodeIdsExtend(nodes, i);
      adj := adj[nodes[i].id := []];
    }
    assert nodes[..|nodes|] == nodes;
  }

  /** Every edge appends its target to its source's list. */
  method AppendEdges(nodes: seq<Node>, edges: seq<Edge>, adj0: Adjacency) returns (adj: Adjacency)
    requires adj0.Keys == NodeIds(nodes) && forall x :: Succ(adj0, x) == []
    ensures adj == AdjacencyOf(nodes, edges)
  {
    adj := adj0;
    assert Sources(edges[..0]) == {};
    for i := 0 to |edges|
      invariant adj.Keys == NodeIds(nodes) + Sources(edges[..i])
      invariant forall x :: Succ(adj, x) == Targets(edges[..i], x)
    {
      EdgesExtend(edges, i);
      var adj' := adj[edges[i].source := Succ(adj, edges[i].source) + [edges[i].target]];
      AppendEdge(adj, adj', edges, i);
      adj := adj';
    }
    AdjacencyBuilt(nodes, edges, adj);
  }

  /** Appending the target of edge `i` to its source's list accounts for one more edge. */
  lemma AppendEdge(adj: Adjacency, adj': Adjacency, edges: seq<Edge>, i: nat)
    requires i < |edges| && forall x :: Succ(adj, x) == Targets(edges[..i], x)
    requires forall x :: Targets(edges[..i + 1], x)
                         == Targets(edges[..i], x) + (if edges[i].source == x then [edges[i].target] else [])
    requires adj' == adj[edges[i].source := Succ(adj, edges[i].source) + [edges[i].target]]
    ensures forall x :: Succ(adj', x) == Targets(edges[..i + 1], x)
  {
    forall x ensures Succ(adj', x) == Targets(edges[..i + 1], x) {
      if x != edges[i].source {
        assert Succ(adj', x) == Succ(adj, x);
      }
    }
  }

  lemma AdjacencyBuilt(nodes: seq<Node>, edges: seq<Edge>, adj: Adjacency)
    requires adj.Keys == NodeIds(nodes) + Sources(edges[..|edges|])
    requires forall x :: Succ(adj, x) == Targets(edges[..|edges|], x)
    ensures adj == AdjacencyOf(nodes, edges)
  {
    assert edges[..|edges|] == edges;
    ghost var spec := AdjacencyOf(nodes, edges);
    assert forall x :: x in adj ==> adj[x] == Succ(adj, x) == Targets(edges, x) == spec[x];
  }

  /** Every vertex the adjacency mentions: the keys and every listed successor. */
  function Vertices(adj: Adjacency): (vs: set<string>)
    ensures adj.Keys <= vs
    ensures forall x, y :: x in vs && y in Succ(adj, x) ==> y in vs
  {
    adj.Keys + set x, y | x in adj && y in adj[x] :: y
  }

  /** `p` is a walk along successor lists. */
  ghost predicate IsPath(adj: Adjacency, p: seq<string>) {
    |p| >= 1 && forall i, j {:trigger p[i], p[j]} :: 0 <= i && j == i + 1 && j < |p| ==> p[j] in Succ(adj, p[i])
  }

  lemma PathStep(adj: Adjacency, p: seq<string>, i: nat)
    requires IsPath(adj, p) && i + 1 < |p|
    ensures p[i + 1] in Succ(adj, p[i])
  {
  }

  ghost predicate IsPathFromTo(adj: Adjacency, p: seq<string>, x: string, y: string) {
    IsPath(adj, p) && p[0] == x && p[|p| - 1] == y
  }

  /** `y` can be reached from `x` by following zero or more edges. */
  ghost predicate Reaches(adj: Adjacency, x: string, y: string) {
    exists p :: IsPathFromTo(adj, p, x, y)
  }

  lemma ReachesRefl(adj: Adjacency, x: string)
    ensures Reaches(adj, x, x)
  {
    assert IsPathFromTo(adj, [x], x, x);
  }

  lemma ReachesEdge(adj: Adjacency, x: string, y: string)
    requires y in Succ(adj, x)
    ensures Reaches(adj, x, y)
  {
    assert IsPathFromTo(adj, [x, y], x, y);
  }

  lemma PathConcat(adj: Adjacency, p: seq<string>, q: seq<string>, x: string, y: string, z: string)
    requires IsPathFromTo(adj, p, x, y) && IsPathFromTo(adj, q, y, z)
    ensures IsPathFromTo(adj, p + q[1..], x, z)
  {
    var r := p + q[1..];
    forall i | 0 <= i < |r| - 1 ensures r[i + 1] in Succ(adj, r[i]) {
      if i < |p| - 1 {
        assert r[i] == p[i] && r[i + 1] == p[i + 1];
      } else {
        assert r[i] == q[i - |p| + 1] && r[i + 1] == q[i - |p| + 2];
      }
    }
  }

  lemma ReachesTrans(adj: Adjacency, x: string, y: string, z: string)
    requires Reaches(adj, x, y) && Reaches(adj, y, z)
    ensures Reaches(adj, x, z)
  {
    var p :| IsPathFromTo(adj, p, x, y);
    var q :| IsPathFromTo(adj, q, y, z);
    PathConcat(adj, p, q, x, y, z);
  }

  lemma ReachesStep(adj: Adjacency, x: string, y: string, z: string)
    requires Reaches(adj, x, y) && z in Succ(adj, y)
    ensures Reaches(adj, x, z)
  {
    ReachesEdge(adj, y, z);
    ReachesTrans(adj, x, y, z);
  }

  lemma StepReaches(adj: Adjacency, x: string, y: string, z: string)
    requires y in Succ(adj, x) && Reaches(adj, y, z)
    ensures Reaches(adj, x, z)
  {
    ReachesEdge(adj, x, y);
    ReachesTrans(adj, x, y, z);
  }

  /** A vertex without successors reaches only itself. */
  lemma SinkReachesItself(adj: Adjacency, x: string, y: string)
    requires Succ(adj, x) == [] && Reaches(adj, x, y)
    ensures y == x
  {
    var p :| IsPathFromTo(adj, p, x, y);
    if |p| > 1 {
      PathStep(adj, p, 0);
      assert false;
    }
  }

  /** A set closed under successors. */
  ghost predicate ClosedUnderSucc(adj: Adjacency, s: set<string>) {
    forall x, y :: x in s && y in Succ(adj, x) ==> y in s
  }

  /** Everything reachable from a member of a set closed under successors is in it. */
  lemma ClosedReaches(adj: Adjacency, s: set<string>, x: string, y: string)
    requires ClosedUnderSucc(adj, s) && Reaches(adj, x, y)
    ensures x in s ==> y in s
  {
    if x in s {
      var p :| IsPathFromTo(adj, p, x, y);
      var i := 0;
      while i < |p| - 1
        invariant 0 <= i < |p| && p[i] in s
      {
        i := i + 1;
      }
    }
  }
}
