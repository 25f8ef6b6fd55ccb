/**
 * `calculateMaxDepth`: Kahn's layered traversal over the node and edge
 * lists, as the graph builder runs it to report `maxDepth`.
 *
 * The in-degree map is keyed by every node id (at 0) and then by every edge
 * target, known node or not, counting its incoming edges; edges leaving an
 * id that is not a node are in the adjacency but their source is never a
 * key, so it is never queued and its targets never lose that edge. Every
 * key of in-degree 0 is queued at depth 0; a dequeued vertex lowers the
 * in-degree of each of its successors (once per edge) and queues a
 * successor whose in-degree reaches 0 exactly then, one layer deeper. The
 * result is the largest depth dequeued.
 *
 * What this computes: the vertices that are ever queued form the least set
 * that contains every key all of whose incoming edges leave the set
 * (`LeastClosed`), and `maxDepth` is the number of edges of the longest
 * walk inside that set (`LongestWalk`). `KahnDepth` says both, and pins the
 * result down uniquely (`KahnDepthUnique`).
 */
module MaxDepth {
  import opened GraphTypes
  import opened Seqs
  import opened Digraph

  // ---------------------------------------------------------------------
  // What the traversal computes.

  function TargetSet(edges: seq<Edge>): set<string> {
    set e | e in edges :: e.target
  }

  /** The node ids, in list order. */
  function IdList(nodes: seq<Node>): (ids: seq<string>)
    ensures |ids| == |nodes| && forall i :: 0 <= i < |nodes| ==> ids[i] == nodes[i].id
  {
    seq(|nodes|, i requires 0 <= i < |nodes| => nodes[i].id)
  }

  /** The edge targets, in list order. */
  function TargetList(edges: seq<Edge>): (ts: seq<string>)
    ensures |ts| == |edges| && forall i :: 0 <= i < |edges| ==> ts[i] == edges[i].target
  {
    seq(|edges|, i requires 0 <= i < |edges| => edges[i].target)
  }

  /** The keys of the in-degree map: node ids and edge targets. */
  function DegreeKeys(nodes: seq<Node>, edges: seq<Edge>): set<string> {
    NodeIds(nodes) + TargetSet(edges)
  }

  /** The number of edges into `v` whose source is not in `s`. */
  function Pending(edges: seq<Edge>, s: set<string>, v: string): (n: nat)
    ensures n <= |edges|
  {
    if edges == [] then 0
    else
      var last := edges[|edges| - 1];
      Pending(edges[..|edges| - 1], s, v) + (if last.target == v && last.source !in s then 1 else 0)
  }

  /** The number of edges into `v`. */
  function InDegree(edges: seq<Edge>, v: string): nat {
    Pending(edges, {}, v)
  }

  /** Every edge into `v` leaves a vertex of `s`. */
  ghost predicate AllSourcesIn(edges: seq<Edge>, v: string, s: set<string>) {
    forall e :: e in edges && e.target == v ==> e.source in s
  }

  /** A key all of whose incoming edges leave `s` is itself in `s`. */
  ghost predicate Closed(nodes: seq<Node>, edges: seq<Edge>, s: set<string>) {
    forall v {:trigger AllSourcesIn(edges, v, s)} ::
      v in DegreeKeys(nodes, edges) && AllSourcesIn(edges, v, s) ==> v in s
  }

  /** `s` is the least closed set: the vertices Kahn's traversal can peel. */
  ghost predicate LeastClosed(nodes: seq<Node>, edges: seq<Edge>, s: set<string>) {
    Closed(nodes, edges, s) && forall t {:trigger Closed(nodes, edges, t)} :: Closed(nodes, edges, t) ==> s <= t
  }

  ghost predicate Within(p: seq<string>, s: set<string>) {
    forall i :: 0 <= i < |p| ==> p[i] in s
  }

  /** `d` is the number of edges of a longest walk inside `s` (0 when `s` is empty). */
  ghost predicate LongestWalk(adj: Adjacency, s: set<string>, d: nat) {
    && (d == 0 || exists p :: IsPath(adj, p) && Within(p, s) && |p| == d + 1)
    && (forall p :: IsPath(adj, p) && Within(p, s) ==> |p| <= d + 1)
  }

  /** `d` is the depth Kahn's layered traversal reports for these lists. */
  ghost predicate KahnDepth(nodes: seq<Node>, edges: seq<Edge>, d: nat) {
    exists s :: LeastClosed(nodes, edges, s) && LongestWalk(AdjacencyOf(nodes, edges), s, d)
  }

  // ---------------------------------------------------------------------
  // Properties of the specification.

  /** Releasing the edges leaving `u` lowers the count of each target by its edges from `u`. */
  lemma {:induction false} PendingRelease(edges: seq<Edge>, s: set<string>, u: string, v: string)
    requires u !in s
    ensures Pending(edges, s, v) == Pending(edges, s + {u}, v) + Count(Targets(edges, u), v)
  {
    if edges != [] {
      var p := edges[..|edges| - 1];
      PendingRelease(p, s, u, v);
      var last := edges[|edges| - 1];
      CountAppend(Targets(p, u), if last.source == u then [last.target] else [], v);
    }
  }

  /** No edge into `v` is pending exactly when every edge into `v` leaves `s`. */
  lemma {:induction false} PendingZero(edges: seq<Edge>, s: set<string>, v: string)
    ensures Pending(edges, s, v) == 0 <==> AllSourcesIn(edges, v, s)
  {
    if edges != [] {
      var p := edges[..|edges| - 1];
      PendingZero(p, s, v);
      assert edges == p + [edges[|edges| - 1]];
    }
  }

  /** The set of all keys is closed, so the least closed set holds keys only. */
  lemma LeastWithinKeys(nodes: seq<Node>, edges: seq<Edge>, s: set<string>)
    requires LeastClosed(nodes, edges, s)
    ensures s <= DegreeKeys(nodes, edges)
  {
    assert Closed(nodes, edges, DegreeKeys(nodes, edges));
  }

  /** The traversal's depth is determined by the lists. */
  lemma KahnDepthUnique(nodes: seq<Node>, edges: seq<Edge>, d1: nat, d2: nat)
    requires KahnDepth(nodes, edges, d1) && KahnDepth(nodes, edges, d2)
    ensures d1 == d2
  {
    var adj := AdjacencyOf(nodes, edges);
    var s1 :| LeastClosed(nodes, edges, s1) && LongestWalk(adj, s1, d1);
    var s2 :| LeastClosed(nodes, edges, s2) && LongestWalk(adj, s2, d2);
    assert s1 == s2;
    if d1 != 0 {
      var p :| IsPath(adj, p) && Within(p, s1) && |p| == d1 + 1;
    }
    if d2 != 0 {
      var p :| IsPath(adj, p) && Within(p, s2) && |p| == d2 + 1;
    }
  }

  /** Without edges every walk is a single vertex, so the depth is 0. */
  lemma NoEdgesNoDepth(nodes: seq<Node>, edges: seq<Edge>, d: nat)
    requires edges == [] && KahnDepth(nodes, edges, d)
    ensures d == 0
  {
    var adj := AdjacencyOf(nodes, edges);
    var s :| LeastClosed(nodes, edges, s) && LongestWalk(adj, s, d);
    if exists p :: IsPath(adj, p) && Within(p, s) && |p| == d + 1 {
      var p :| IsPath(adj, p) && Within(p, s) && |p| == d + 1;
      SingleVertexWalks(adj, p);
    }
  }

  /** With no successors anywhere, a walk is a single vertex. */
  lemma SingleVertexWalks(adj: Adjacency, p: seq<string>)
    requires forall x :: Succ(adj, x) == []
    requires IsPath(adj, p)
    ensures |p| == 1
  {
    if |p| > 1 {
      PathStep(adj, p, 0);
      assert false;
    }
  }

  /**
   * An edge from an id that is neither a node nor a target holds its target
   * back forever: that source is never queued, so the edge is never released.
   */
  lemma UnknownSourceBlocks(nodes: seq<Node>, edges: seq<Edge>, s: set<string>, e: Edge)
    requires LeastClosed(nodes, edges, s) && e in edges && e.source !in DegreeKeys(nodes, edges)
    ensures e.target !in s
  {
    LeastWithinKeys(nodes, edges, s);
    var t := s - {e.target};
    forall v | v in DegreeKeys(nodes, edges) && AllSourcesIn(edges, v, t) ensures v in t {
      assert AllSourcesIn(edges, v, s);
      assert v != e.target by {
        assert e.source !in t;
      }
    }
    assert Closed(nodes, edges, t);
  }

  /**
   * An edge target that is not a node still counts: one node with one edge
   * to an unknown id has depth 1.
   */
  lemma UnknownTargetCounts(n: Node, e: Edge, d: nat)
    requires e.source == n.id && e.target != n.id && KahnDepth([n], [e], d)
    ensures d == 1
  {
    var nodes, edges := [n], [e];
    var adj := AdjacencyOf(nodes, edges);
    var s :| LeastClosed(nodes, edges, s) && LongestWalk(adj, s, d);
    SingleEdgeSucc(n, e);
    assert n in nodes && e in edges;
    assert AllSourcesIn(edges, n.id, s);
    assert n.id in s;
    assert AllSourcesIn(edges, e.target, s);
    assert e.target in s;
    var p := [n.id, e.target];
    assert IsPath(adj, p) && Within(p, s);
    forall q | IsPath(adj, q) ensures |q| <= 2 {
      SingleEdgeWalks(n, e, q);
    }
  }

  lemma SingleEdgeSucc(n: Node, e: Edge)
    requires e.source == n.id && e.target != n.id
    ensures Succ(AdjacencyOf([n], [e]), n.id) == [e.target]
    ensures forall x :: x != n.id ==> Succ(AdjacencyOf([n], [e]), x) == []
  {
    assert [e][..0] == [];
  }

  lemma SingleEdgeWalks(n: Node, e: Edge, q: seq<string>)
    requires e.source == n.id && e.target != n.id && IsPath(AdjacencyOf([n], [e]), q)
    ensures |q| <= 2
  {
    SingleEdgeSucc(n, e);
    if |q| > 2 {
      PathStep(AdjacencyOf([n], [e]), q, 0);
      PathStep(AdjacencyOf([n], [e]), q, 1);
      assert false;
    }
  }

  /** The node list is a simple chain: distinct ids, edge `i` from node `i` to node `i + 1`. */
  ghost predicate IsChain(nodes: seq<Node>, edges: seq<Edge>) {
    && |nodes| >= 1 && |edges| == |nodes| - 1
    && (forall i, j :: 0 <= i < j < |nodes| ==> nodes[i].id != nodes[j].id)
    && (forall i :: 0 <= i < |edges| ==> edges[i].source == nodes[i].id && edges[i].target == nodes[i + 1].id)
  }

  /** A chain of `k + 1` nodes has depth `k`. */
  lemma ChainDepth(nodes: seq<Node>, edges: seq<Edge>, d: nat)
    requires IsChain(nodes, edges) && KahnDepth(nodes, edges, d)
    ensures d == |nodes| - 1
  {
    var adj := AdjacencyOf(nodes, edges);
    var s :| LeastClosed(nodes, edges, s) && LongestWalk(adj, s, d);
    ChainPeeled(nodes, edges, s);
    ChainTargetsAreNodes(nodes, edges);
    var ids := IdList(nodes);
    ChainIsPath(nodes, edges);
    assert Within(ids, s);
    if d != 0 {
      var p :| IsPath(adj, p) && Within(p, s) && |p| == d + 1;
      LeastWithinKeys(nodes, edges, s);
      ChainWalk(nodes, edges, p);
    }
  }

  lemma ChainTargetsAreNodes(nodes: seq<Node>, edges: seq<Edge>)
    requires IsChain(nodes, edges)
    ensures DegreeKeys(nodes, edges) == NodeIds(nodes)
  {
    forall e | e in edges ensures e.target in NodeIds(nodes) {
      var k :| 0 <= k < |edges| && edges[k] == e;
      assert nodes[k + 1] in nodes;
    }
  }

  /** The successors of chain node `i` are node `i + 1` alone, or none for the last node. */
  lemma ChainSucc(nodes: seq<Node>, edges: seq<Edge>, i: nat)
    requires IsChain(nodes, edges) && i < |nodes|
    ensures Succ(AdjacencyOf(nodes, edges), nodes[i].id) == if i + 1 < |nodes| then [nodes[i + 1].id] else []
  {
    ChainTargets(nodes, edges, |edges|, i);
    assert edges[..|edges|] == edges;
  }

  lemma {:induction false} ChainTargets(nodes: seq<Node>, edges: seq<Edge>, n: nat, i: nat)
    requires IsChain(nodes, edges) && n <= |edges| && i < |nodes|
    ensures Targets(edges[..n], nodes[i].id) == if i < n then [nodes[i + 1].id] else []
  {
    if n > 0 {
      ChainTargets(nodes, edges, n - 1, i);
      assert edges[..n][..n - 1] == edges[..n - 1];
    }
  }

  lemma ChainIsPath(nodes: seq<Node>, edges: seq<Edge>)
    requires IsChain(nodes, edges)
    ensures IsPath(AdjacencyOf(nodes, edges), IdList(nodes))
  {
    var ids := IdList(nodes);
    forall i, j | 0 <= i && j == i + 1 && j < |ids| ensures ids[j] in Succ(AdjacencyOf(nodes, edges), ids[i]) {
      ChainSucc(nodes, edges, i);
    }
  }

  /** Every chain node is peeled: its only incoming edge leaves the node before it. */
  lemma ChainPeeled(nodes: seq<Node>, edges: seq<Edge>, s: set<string>)
    requires IsChain(nodes, edges) && Closed(nodes, edges, s)
    ensures forall i :: 0 <= i < |nodes| ==> nodes[i].id in s
  {
    forall i | 0 <= i < |nodes| ensures nodes[i].id in s {
      ChainPeeledAt(nodes, edges, s, i);
    }
  }

  lemma {:induction false} ChainPeeledAt(nodes: seq<Node>, edges: seq<Edge>, s: set<string>, i: nat)
    requires IsChain(nodes, edges) && Closed(nodes, edges, s) && i < |nodes|
    ensures nodes[i].id in s
  {
    if i > 0 {
      ChainPeeledAt(nodes, edges, s, i - 1);
    }
    forall e | e in edges && e.target == nodes[i].id ensures e.source in s {
      var k :| 0 <= k < |edges| && edges[k] == e;
      assert nodes[k + 1].id == nodes[i].id;
    }
    assert AllSourcesIn(edges, nodes[i].id, s);
    assert nodes[i].id in NodeIds(nodes) by { assert nodes[i] in nodes; }
  }

  /** A walk over chain nodes follows the chain, so it has at most as many vertices as there are nodes. */
  lemma ChainWalk(nodes: seq<Node>, edges: seq<Edge>, p: seq<string>)
    requires IsChain(nodes, edges) && IsPath(AdjacencyOf(nodes, edges), p)
    requires forall i :: 0 <= i < |p| ==> p[i] in NodeIds(nodes)
    ensures |p| <= |nodes|
  {
    assert p[0] in NodeIds(nodes);
    var n :| n in nodes && n.id == p[0];
    var a :| 0 <= a < |nodes| && nodes[a] == n;
    ChainWalkFrom(nodes, edges, p, a, 0);
  }

  lemma {:induction false} ChainWalkFrom(nodes: seq<Node>, edges: seq<Edge>, p: seq<string>, a: nat, j: nat)
    requires IsChain(nodes, edges) && IsPath(AdjacencyOf(nodes, edges), p)
    requires a < |nodes| && j < |p| && p[j] == nodes[a].id && a >= j
    ensures |p| - j <= |nodes| - a
    decreases |p| - j
  {
    if j + 1 < |p| {
      ChainSucc(nodes, edges, a);
      assert p[j + 1] in Succ(AdjacencyOf(nodes, edges), p[j]);
      ChainWalkFrom(nodes, edges, p, a + 1, j + 1);
    }
  }

  // ---------------------------------------------------------------------
  // The traversal.

  /**
   * `calculateMaxDepth`: build the adjacency and the in-degree map, queue
   * the keys of in-degree 0 at depth 0, then drain the queue layer by layer.
   */
  method CalculateMaxDepth(nodes: seq<Node>, edges: seq<Edge>) returns (maxDepth: nat)
    ensures KahnDepth(nodes, edges, maxDepth)
  {
    var graph := BuildAdjacency(nodes, edges);
    var keys, inDegree := CountInDegrees(nodes, edges);
    var queue, depth := SeedQueue(keys, inDegree);
    SeedsDraining(nodes, edges, graph, keys, inDegree, queue, depth);
    maxDepth := Drain(nodes, edges, graph, inDegree, queue, depth);
  }

  /**
   * The in-degree map: every node id at 0, then one more for every edge
   * into a target. `keys` lists the map's keys in insertion order, the
   * order a `Map` iterates in.
   */
  method CountInDegrees(nodes: seq<Node>, edges: seq<Edge>) returns (keys: seq<string>, inDegree: map<string, int>)
    ensures keys == Dedup(IdList(nodes) + TargetList(edges))
    ensures inDegree.Keys == DegreeKeys(nodes, edges)
    ensures forall v :: v in inDegree ==> inDegree[v] == InDegree(edges, v)
  {
    keys, inDegree := CountNodes(nodes);
    keys, inDegree := CountEdges(IdList(nodes), edges, keys, inDegree);
    CountedKeys(nodes, edges);
  }

  /** Every node id at in-degree 0, keys in first-insertion order. */
  method CountNodes(nodes: seq<Node>) returns (keys: seq<string>, inDegree: map<string, int>)
    ensures keys == Dedup(IdList(nodes))
    ensures forall v :: v in inDegree <==> v in IdList(nodes)
    ensures forall v :: v in inDegree ==> inDegree[v] == 0
  {
    ghost var ids := IdList(nodes);
    keys, inDegree := [], map[];
    for i := 0 to |nodes|
      invariant keys == Dedup(ids[..i])
      invariant forall v :: v in inDegree <==> v in ids[..i]
      invariant forall v :: v in inDegree ==> inDegree[v] == 0
    {
      keys, inDegree := CountNode(ids, nodes[i].id, i, keys, inDegree);
    }
    assert ids[..|nodes|] == ids;
  }

  /** `inDegree.set(node.id, 0)` for node `i`, a new id joining the keys. */
  method CountNode(ghost ids: seq<string>, id: string, i: nat, keys0: seq<string>, inDegree0: map<string, int>)
    returns (keys: seq<string>, inDegree: map<string, int>)
    requires i < |ids| && ids[i] == id
    requires keys0 == Dedup(ids[..i])
    requires forall v :: v in inDegree0 <==> v in ids[..i]
    requires forall v :: v in inDegree0 ==> inDegree0[v] == 0
    ensures keys == Dedup(ids[..i + 1])
    ensures forall v :: v in inDegree <==> v in ids[..i + 1]
    ensures forall v :: v in inDegree ==> inDegree[v] == 0
  {
    PrefixSnoc(ids, i);
    DedupSnoc(ids[..i], id);
    keys := keys0;
    if id !in inDegree0 {
      keys := keys + [id];
    }
    inDegree := inDegree0[id := 0];
  }

  /** One more for every edge into a target, new targets appended to the keys. */
  method CountEdges(ids: seq<string>, edges: seq<Edge>, keys0: seq<string>, inDegree0: map<string, int>)
    returns (keys: seq<string>, inDegree: map<string, int>)
    requires keys0 == Dedup(ids)
    requires forall v :: v in inDegree0 <==> v in ids
    requires forall v :: v in inDegree0 ==> inDegree0[v] == 0
    ensures keys == Dedup(ids + TargetList(edges))
    ensures forall v :: v in inDegree <==> v in ids + TargetList(edges)
    ensures forall v :: v in inDegree ==> inDegree[v] == InDegree(edges, v)
  {
    ghost var ts := TargetList(edges);
    keys, inDegree := keys0, inDegree0;
    assert ids + ts[..0] == ids;
    for i := 0 to |edges|
      invariant keys == Dedup(ids + ts[..i])
      invariant forall v :: v in inDegree <==> v in ids + ts[..i]
      invariant forall v :: v in inDegree ==> inDegree[v] == InDegree(edges[..i], v)
    {
      var target := edges[i].target;
      AppendPrefixSnoc(ids, ts, i);
      DedupSnoc(ids + ts[..i], target);
      if target !in inDegree {
        keys := keys + [target];
        NoEdgesInto(edges, i, target);
      }
      inDegree := CountEdge(edges, i, inDegree);
    }
    assert ts[..|edges|] == ts && edges[..|edges|] == edges;
  }

  /** `inDegree.set(target, (inDegree.get(target) || 0) + 1)` for edge `i`. */
  method CountEdge(edges: seq<Edge>, i: nat, inDegree0: map<string, int>) returns (inDegree: map<string, int>)
    requires i < |edges|
    requires forall v :: v in inDegree0 ==> inDegree0[v] == InDegree(edges[..i], v)
    requires edges[i].target !in inDegree0 ==> InDegree(edges[..i], edges[i].target) == 0
    ensures inDegree.Keys == inDegree0.Keys + {edges[i].target}
    ensures forall v :: v in inDegree ==> inDegree[v] == InDegree(edges[..i + 1], v)
  {
    var target := edges[i].target;
    InDegreeSnoc(edges, i);
    inDegree := inDegree0[target := (if target in inDegree0 then inDegree0[target] else 0) + 1];
  }

  lemma InDegreeSnoc(edges: seq<Edge>, i: nat)
    requires i < |edges|
    ensures forall v :: InDegree(edges[..i + 1], v) == InDegree(edges[..i], v) + (if edges[i].target == v then 1 else 0)
  {
    assert edges[..i + 1][..i] == edges[..i];
  }

  /** A target no edge leads to has in-degree 0. */
  lemma NoEdgesInto(edges: seq<Edge>, n: nat, v: string)
    requires n <= |edges| && v !in TargetList(edges)[..n]
    ensures InDegree(edges[..n], v) == 0
  {
    PendingZero(edges[..n], {}, v);
    forall e | e in edges[..n] ensures e.target != v {
      var k :| 0 <= k < n && edges[k] == e;
      assert TargetList(edges)[..n][k] == e.target;
    }
  }

  /** The keys listed while counting are the node ids and the edge targets. */
  lemma CountedKeys(nodes: seq<Node>, edges: seq<Edge>)
    ensures forall v :: v in IdList(nodes) + TargetList(edges) <==> v in DegreeKeys(nodes, edges)
  {
    forall v ensures v in IdList(nodes) + TargetList(edges) <==> v in DegreeKeys(nodes, edges) {
      if v in IdList(nodes) {
        var i :| 0 <= i < |nodes| && IdList(nodes)[i] == v;
        assert nodes[i] in nodes;
      } else if v in TargetList(edges) {
        var i :| 0 <= i < |edges| && TargetList(edges)[i] == v;
        assert edges[i] in edges;
      }
      if v in NodeIds(nodes) {
        var n :| n in nodes && n.id == v;
        var i :| 0 <= i < |nodes| && nodes[i] == n;
        assert IdList(nodes)[i] == v;
      }
      if v in TargetSet(edges) {
        var e :| e in edges && e.target == v;
        var i :| 0 <= i < |edges| && edges[i] == e;
        assert TargetList(edges)[i] == v;
      }
    }
  }

  /** The start of the queue: every key of in-degree 0, in key order, at depth 0. */
  method SeedQueue(keys: seq<string>, inDegree: map<string, int>) returns (queue: seq<string>, depth: map<string, nat>)
    requires Distinct(keys) && forall v :: v in keys ==> v in inDegree
    ensures Distinct(queue)
    ensures forall v :: v in queue <==> v in keys && inDegree[v] == 0
    ensures forall v :: v in depth <==> v in queue
    ensures forall v :: v in depth ==> depth[v] == 0
  {
    queue, depth := [], map[];
    for i := 0 to |keys|
      invariant Distinct(queue)
      invariant forall v :: v in queue <==> v in keys[..i] && inDegree[v] == 0
      invariant forall v :: v in depth <==> v in queue
      invariant forall v :: v in depth ==> depth[v] == 0
    {
      assert keys[..i + 1] == keys[..i] + [keys[i]];
      if inDegree[keys[i]] == 0 {
        queue := queue + [keys[i]];
        depth := depth[keys[i] := 0];
      }
    }
    assert keys[..|keys|] == keys;
  }

  // ---------------------------------------------------------------------
  // The state of the queue loop.

  /**
   * The in-degree bookkeeping: the keys never change, what was ever queued
   * (`seen`) has no repeats, and the in-degree of each key counts the
   * edges into it whose source is not in `released`, less those among the
   * first `j` successors already handled; a key has been queued exactly
   * when that count is 0.
   */
  ghost predicate Counted(nodes: seq<Node>, edges: seq<Edge>, inDegree: map<string, int>, released: set<string>,
                          seen: seq<string>, nb: seq<string>, j: nat)
  {
    Tally(nodes, edges, inDegree, released, nb, j) && Queued(nodes, edges, inDegree, seen)
  }

  /** The in-degree of each key counts its edges from outside `released`, less the first `j` of `nb`. */
  ghost predicate Tally(nodes: seq<Node>, edges: seq<Edge>, inDegree: map<string, int>, released: set<string>,
                        nb: seq<string>, j: nat)
  {
    && j <= |nb|
    && inDegree.Keys == DegreeKeys(nodes, edges)
    && (forall v :: v in inDegree ==> inDegree[v] == Pending(edges, released, v) - Count(nb[..j], v))
  }

  /** `seen` lists, once each, exactly the keys of in-degree 0. */
  ghost predicate Queued(nodes: seq<Node>, edges: seq<Edge>, inDegree: map<string, int>, seen: seq<string>) {
    && Distinct(seen) && (forall x :: x in seen ==> x in DegreeKeys(nodes, edges))
    && (forall v :: v in inDegree ==> (v in seen <==> inDegree[v] == 0))
  }

  /** Everything queued belongs to every closed set. */
  ghost predicate Least(nodes: seq<Node>, edges: seq<Edge>, seen: seq<string>) {
    forall t {:trigger Closed(nodes, edges, t)} :: Closed(nodes, edges, t) ==> Elems(seen) <= t
  }

  /** Depths never decrease along `s`. */
  ghost predicate Monotone(s: seq<string>, depth: map<string, nat>) {
    forall i, j :: 0 <= i < j < |s| && s[i] in depth && s[j] in depth ==> depth[s[i]] <= depth[s[j]]
  }

  /** A queued vertex deeper than 0 was queued by a successor edge from a vertex of `fin` one layer up. */
  ghost predicate Parented(adj: Adjacency, fin: seq<string>, seen: seq<string>, depth: map<string, nat>,
                           parent: map<string, string>)
  {
    forall v :: v in seen && v in depth && depth[v] > 0 ==>
      && v in parent && parent[v] in fin && parent[v] in depth
      && v in Succ(adj, parent[v]) && depth[parent[v]] + 1 == depth[v]
  }

  /** Every successor edge from a vertex of `fin` to a queued vertex goes one layer down or more. */
  ghost predicate Deepening(adj: Adjacency, fin: seq<string>, seen: seq<string>, depth: map<string, nat>) {
    forall u, v :: u in fin && v in Succ(adj, u) && v in seen && u in depth && v in depth ==> depth[u] < depth[v]
  }

  /** The depth of the last dequeued vertex, 0 before the first. */
  ghost function LastDepth(done: seq<string>, depth: map<string, nat>): nat {
    if done != [] && done[|done| - 1] in depth then depth[done[|done| - 1]] else 0
  }

  /** The depths between dequeues: `done` were dequeued in order, `queue` is waiting. */
  ghost predicate Layered(adj: Adjacency, done: seq<string>, queue: seq<string>, depth: map<string, nat>,
                          parent: map<string, string>)
  {
    && (forall x :: x in depth <==> x in done + queue)
    && Monotone(done + queue, depth)
    && (forall x :: x in queue && x in depth ==> depth[x] <= LastDepth(done, depth) + 1)
    && Parented(adj, done, done + queue, depth, parent)
    && Deepening(adj, done, done + queue, depth)
  }

  /** The depths while the successors of `current` are handled, the first `j` of them so far. */
  ghost predicate LayeredDuring(adj: Adjacency, done: seq<string>, current: string, queue: seq<string>,
                                depth: map<string, nat>, parent: map<string, string>, nb: seq<string>, j: nat)
  {
    && current in depth
    && (forall x :: x in depth <==> x in done + [current] + queue)
    && Monotone(done + [current] + queue, depth)
    && (forall x :: x in queue && x in depth ==> depth[x] <= depth[current] + 1)
    && Parented(adj, done + [current], done + [current] + queue, depth, parent)
    && Deepening(adj, done, done + [current] + queue, depth)
    && j <= |nb| && (forall k :: 0 <= k < j && nb[k] in depth ==> depth[nb[k]] == depth[current] + 1)
  }

  /** The invariant of the queue loop. */
  ghost predicate Draining(nodes: seq<Node>, edges: seq<Edge>, adj: Adjacency, inDegree: map<string, int>,
                           done: seq<string>, queue: seq<string>, depth: map<string, nat>, parent: map<string, string>)
  {
    && Counted(nodes, edges, inDegree, Elems(done), done + queue, [], 0)
    && Least(nodes, edges, done + queue)
    && Layered(adj, done, queue, depth, parent)
  }

  /** The invariant of the loop over the successors of `current`. */
  ghost predicate Releasing(nodes: seq<Node>, edges: seq<Edge>, adj: Adjacency, inDegree: map<string, int>,
                            done: seq<string>, current: string, queue: seq<string>, depth: map<string, nat>,
                            parent: map<string, string>, nb: seq<string>, j: nat)
  {
    && Counted(nodes, edges, inDegree, Elems(done), done + [current] + queue, nb, j)
    && Least(nodes, edges, done + [current] + queue)
    && LayeredDuring(adj, done, current, queue, depth, parent, nb, j)
  }

  // ---------------------------------------------------------------------
  // The queue loop.

  /** The queue loop: dequeue, record the depth, release the successors. */
  method Drain(nodes: seq<Node>, edges: seq<Edge>, graph: Adjacency, inDegree0: map<string, int>,
               queue0: seq<string>, depth0: map<string, nat>) returns (maxDepth: nat)
    requires graph == AdjacencyOf(nodes, edges)
    requires Draining(nodes, edges, graph, inDegree0, [], queue0, depth0, map[])
    ensures KahnDepth(nodes, edges, maxDepth)
  {
    var inDegree, queue, depth := inDegree0, queue0, depth0;
    ghost var done: seq<string> := [];
    ghost var parent: map<string, string> := map[];
    maxDepth := 0;
    while queue != []
      invariant Draining(nodes, edges, graph, inDegree, done, queue, depth, parent)
      invariant maxDepth == LastDepth(done, depth)
      decreases DegreeKeys(nodes, edges) - Elems(done)
    {
      var current := queue[0];
      DequeueReady(nodes, edges, graph, inDegree, done, queue, depth, parent);
      queue := queue[1..];
      var currentDepth := if current in depth then depth[current] else 0;
      maxDepth := Max(maxDepth, currentDepth);
      inDegree, queue, depth, parent := Release(nodes, edges, graph, inDegree, done, current, currentDepth, queue, depth, parent);
      done := done + [current];
    }
    DrainedResult(nodes, edges, graph, inDegree, done, depth, parent, maxDepth);
  }

  /** Lowers the in-degree of each successor of `current`, queueing those that reach 0 one layer deeper. */
  method Release(nodes: seq<Node>, edges: seq<Edge>, graph: Adjacency, inDegree0: map<string, int>,
                 ghost done: seq<string>, current: string, currentDepth: nat, queue0: seq<string>,
                 depth0: map<string, nat>, ghost parent0: map<string, string>)
    returns (inDegree: map<string, int>, queue: seq<string>, depth: map<string, nat>, ghost parent: map<string, string>)
    requires graph == AdjacencyOf(nodes, edges)
    requires Releasing(nodes, edges, graph, inDegree0, done, current, queue0, depth0, parent0, Succ(graph, current), 0)
    requires current in depth0 && currentDepth == depth0[current]
    ensures Draining(nodes, edges, graph, inDegree, done + [current], queue, depth, parent)
    ensures LastDepth(done + [current], depth) == currentDepth
    ensures DegreeKeys(nodes, edges) - Elems(done + [current]) < DegreeKeys(nodes, edges) - Elems(done)
  {
    inDegree, queue, depth, parent := inDegree0, queue0, depth0, parent0;
    var neighbors := if current in graph then graph[current] else [];
    for j := 0 to |neighbors|
      invariant Releasing(nodes, edges, graph, inDegree, done, current, queue, depth, parent, neighbors, j)
      invariant current in depth && depth[current] == currentDepth
    {
      inDegree, queue, depth, parent := ReleaseEdge(nodes, edges, graph, inDegree, done, current, currentDepth,
                                                    queue, depth, parent, neighbors, j);
    }
    Released(nodes, edges, graph, inDegree, done, current, queue, depth, parent);
  }

  /** One successor edge: `newDegree = inDegree - 1`, and the successor is queued when that reaches 0. */
  method ReleaseEdge(nodes: seq<Node>, edges: seq<Edge>, graph: Adjacency, inDegree0: map<string, int>,
                     ghost done: seq<string>, current: string, currentDepth: nat, queue0: seq<string>,
                     depth0: map<string, nat>, ghost parent0: map<string, string>, neighbors: seq<string>, j: nat)
    returns (inDegree: map<string, int>, queue: seq<string>, depth: map<string, nat>, ghost parent: map<string, string>)
    requires graph == AdjacencyOf(nodes, edges) && neighbors == Succ(graph, current) && j < |neighbors|
    requires Releasing(nodes, edges, graph, inDegree0, done, current, queue0, depth0, parent0, neighbors, j)
    requires current in depth0 && currentDepth == depth0[current]
    ensures Releasing(nodes, edges, graph, inDegree, done, current, queue, depth, parent, neighbors, j + 1)
    ensures current in depth && depth[current] == currentDepth
  {
    var neighbor := neighbors[j];
    var newDegree := (if neighbor in inDegree0 then inDegree0[neighbor] else 0) - 1;
    inDegree := inDegree0[neighbor := newDegree];
    queue, depth, parent := queue0, depth0, parent0;
    if newDegree == 0 {
      queue := queue + [neighbor];
      depth := depth[neighbor := currentDepth + 1];
      parent := parent[neighbor := current];
    }
    ReleaseStep(nodes, edges, graph, inDegree0, inDegree, newDegree, done, current, currentDepth, queue0, queue,
                depth0, depth, parent0, parent, neighbors, j);
  }

  /** Both outcomes of one successor edge keep the invariant of the successor loop. */
  lemma ReleaseStep(nodes: seq<Node>, edges: seq<Edge>, adj: Adjacency, inDegree: map<string, int>,
                    inDegree': map<string, int>, newDegree: int, done: seq<string>, c: string, d: nat,
                    queue: seq<string>, queue': seq<string>, depth: map<string, nat>, depth': map<string, nat>,
                    parent: map<string, string>, parent': map<string, string>, nb: seq<string>, j: nat)
    requires adj == AdjacencyOf(nodes, edges) && nb == Succ(adj, c) && j < |nb|
    requires Releasing(nodes, edges, adj, inDegree, done, c, queue, depth, parent, nb, j)
    requires newDegree == (if nb[j] in inDegree then inDegree[nb[j]] else 0) - 1
    requires inDegree' == inDegree[nb[j] := newDegree]
    requires c in depth && d == depth[c]
    requires newDegree == 0 ==> queue' == queue + [nb[j]] && depth' == depth[nb[j] := d + 1] && parent' == parent[nb[j] := c]
    requires newDegree != 0 ==> queue' == queue && depth' == depth && parent' == parent
    ensures Releasing(nodes, edges, adj, inDegree', done, c, queue', depth', parent', nb, j + 1)
    ensures c in depth' && depth'[c] == d
  {
    NeighbourFresh(nodes, edges, adj, inDegree, done, c, queue, nb, j);
    if newDegree == 0 {
      PushStep(nodes, edges, adj, inDegree, inDegree', done, c, queue, depth, parent, nb, j);
    } else {
      KeepStep(nodes, edges, adj, inDegree, inDegree', done, c, queue, depth, parent, nb, j);
    }
  }

  // ---------------------------------------------------------------------
  // Why the loops keep their invariants.

  /** The start: every key of in-degree 0 queued at depth 0, nothing dequeued. */
  lemma SeedsDraining(nodes: seq<Node>, edges: seq<Edge>, graph: Adjacency, keys: seq<string>,
                      inDegree: map<string, int>, queue: seq<string>, depth: map<string, nat>)
    requires keys == Dedup(IdList(nodes) + TargetList(edges))
    requires inDegree.Keys == DegreeKeys(nodes, edges)
    requires forall v :: v in inDegree ==> inDegree[v] == InDegree(edges, v)
    requires Distinct(queue)
    requires forall v :: v in queue <==> v in keys && v in inDegree && inDegree[v] == 0
    requires forall v :: v in depth <==> v in queue
    requires forall v :: v in depth ==> depth[v] == 0
    ensures Draining(nodes, edges, graph, inDegree, [], queue, depth, map[])
  {
    assert [] + queue == queue;
    assert Elems<string>([]) == {};
    SeedsCounted(nodes, edges, keys, inDegree, queue);
    SeedsLeast(nodes, edges, inDegree, queue);
  }

  lemma SeedsCounted(nodes: seq<Node>, edges: seq<Edge>, keys: seq<string>, inDegree: map<string, int>,
                     queue: seq<string>)
    requires keys == Dedup(IdList(nodes) + TargetList(edges))
    requires inDegree.Keys == DegreeKeys(nodes, edges)
    requires forall v :: v in inDegree ==> inDegree[v] == InDegree(edges, v)
    requires Distinct(queue)
    requires forall v :: v in queue <==> v in keys && v in inDegree && inDegree[v] == 0
    ensures Counted(nodes, edges, inDegree, {}, queue, [], 0)
  {
    CountedKeys(nodes, edges);
    DedupMembers(IdList(nodes) + TargetList(edges));
  }

  lemma SeedsLeast(nodes: seq<Node>, edges: seq<Edge>, inDegree: map<string, int>, queue: seq<string>)
    requires inDegree.Keys == DegreeKeys(nodes, edges)
    requires forall v :: v in inDegree ==> inDegree[v] == InDegree(edges, v)
    requires forall v :: v in queue ==> v in inDegree && inDegree[v] == 0
    ensures Least(nodes, edges, queue)
  {
    forall t | Closed(nodes, edges, t) ensures Elems(queue) <= t {
      forall x | x in queue ensures x in t {
        PendingZero(edges, {}, x);
        assert x in DegreeKeys(nodes, edges);
        assert AllSourcesIn(edges, x, t);
      }
    }
  }

  /** Dequeueing `queue[0]`: its depth is at least that of the last vertex dequeued. */
  lemma DequeueReady(nodes: seq<Node>, edges: seq<Edge>, adj: Adjacency, inDegree: map<string, int>,
                     done: seq<string>, queue: seq<string>, depth: map<string, nat>, parent: map<string, string>)
    requires Draining(nodes, edges, adj, inDegree, done, queue, depth, parent) && queue != []
    ensures Releasing(nodes, edges, adj, inDegree, done, queue[0], queue[1..], depth, parent, Succ(adj, queue[0]), 0)
    ensures queue[0] in depth && depth[queue[0]] >= LastDepth(done, depth)
  {
    var c := queue[0];
    assert done + queue == done + [c] + queue[1..];
    var s := done + queue;
    assert s[|done|] == c;
    if done != [] {
      assert s[|done| - 1] == done[|done| - 1];
    }
  }

  /** The successor being released is a key not yet queued, with at least one pending edge. */
  lemma NeighbourFresh(nodes: seq<Node>, edges: seq<Edge>, adj: Adjacency, inDegree: map<string, int>,
                       done: seq<string>, current: string, queue: seq<string>, nb: seq<string>, j: nat)
    requires adj == AdjacencyOf(nodes, edges) && nb == Succ(adj, current) && j < |nb|
    requires Counted(nodes, edges, inDegree, Elems(done), done + [current] + queue, nb, j)
    ensures nb[j] in inDegree && inDegree[nb[j]] >= 1
    ensures inDegree[nb[j]] == 1 ==> Pending(edges, Elems(done) + {current}, nb[j]) == 0
    ensures nb[j] !in done + [current] + queue
  {
    var v := nb[j];
    var S := Elems(done);
    CurrentNotDone(done, current, queue);
    TargetsMember(edges, current, v);
    var e :| e in edges && e.source == current && e.target == v;
    assert v in TargetSet(edges);
    assert v in inDegree;
    assert inDegree[v] == Pending(edges, S, v) - Count(nb[..j], v);
    PendingRelease(edges, S, current, v);
    assert Targets(edges, current) == nb;
    CountPrefixBound(nb, j);
  }

  lemma CurrentNotDone(done: seq<string>, current: string, queue: seq<string>)
    requires Distinct(done + [current] + queue)
    ensures current !in Elems(done)
  {
    var seen := done + [current] + queue;
    forall i | 0 <= i < |done| ensures done[i] != current {
      assert seen[i] == done[i] && seen[|done|] == current;
    }
  }

  /** The in-degree bookkeeping after one successor edge. */
  lemma CountStep(nodes: seq<Node>, edges: seq<Edge>, inDegree: map<string, int>, inDegree': map<string, int>,
                  released: set<string>, seen: seq<string>, seen': seq<string>, nb: seq<string>, j: nat)
    requires Counted(nodes, edges, inDegree, released, seen, nb, j) && j < |nb|
    requires nb[j] in inDegree && nb[j] !in seen
    requires inDegree' == inDegree[nb[j] := inDegree[nb[j]] - 1]
    requires seen' == if inDegree[nb[j]] == 1 then seen + [nb[j]] else seen
    ensures Counted(nodes, edges, inDegree', released, seen', nb, j + 1)
  {
    TallyStep(nodes, edges, inDegree, inDegree', released, nb, j);
    if inDegree[nb[j]] == 1 {
      DistinctSnoc(seen, nb[j]);
    }
  }

  lemma TallyStep(nodes: seq<Node>, edges: seq<Edge>, inDegree: map<string, int>, inDegree': map<string, int>,
                  released: set<string>, nb: seq<string>, j: nat)
    requires Tally(nodes, edges, inDegree, released, nb, j) && j < |nb| && nb[j] in inDegree
    requires inDegree' == inDegree[nb[j] := inDegree[nb[j]] - 1]
    ensures Tally(nodes, edges, inDegree', released, nb, j + 1)
  {
    CountPrefixSnoc(nb, j);
  }

  /** A successor whose last pending edge is released belongs to every closed set. */
  lemma LeastStep(nodes: seq<Node>, edges: seq<Edge>, seen: seq<string>, released: set<string>, v: string)
    requires Least(nodes, edges, seen) && released <= Elems(seen)
    requires v in DegreeKeys(nodes, edges) && Pending(edges, released, v) == 0
    ensures Least(nodes, edges, seen + [v])
  {
    PendingZero(edges, released, v);
    forall t | Closed(nodes, edges, t) ensures Elems(seen + [v]) <= t {
      assert Elems(seen) <= t;
      assert AllSourcesIn(edges, v, t);
    }
  }

  /** Depths along `s` stay nondecreasing when a vertex at least as deep as all of them is appended. */
  lemma MonotoneSnoc(s: seq<string>, depth: map<string, nat>, v: string, d: nat)
    requires Monotone(s, depth) && v !in s && v !in depth
    requires forall x :: x in s && x in depth ==> depth[x] <= d
    ensures Monotone(s + [v], depth[v := d])
  {
    var s' := s + [v];
    var depth' := depth[v := d];
    forall i, j | 0 <= i < j < |s'| && s'[i] in depth' && s'[j] in depth' ensures depth'[s'[i]] <= depth'[s'[j]] {
      assert s'[i] == s[i];
      if j < |s| {
        assert s'[j] == s[j];
      }
    }
  }

  /** The depths after a successor is queued one layer below `current`. */
  lemma LayerPush(adj: Adjacency, done: seq<string>, c: string, queue: seq<string>, depth: map<string, nat>,
                  parent: map<string, string>, nb: seq<string>, j: nat)
    requires LayeredDuring(adj, done, c, queue, depth, parent, nb, j) && j < |nb|
    requires nb == Succ(adj, c) && nb[j] !in done + [c] + queue
    ensures LayeredDuring(adj, done, c, queue + [nb[j]], depth[nb[j] := depth[c] + 1], parent[nb[j] := c], nb, j + 1)
  {
    var v := nb[j];
    var s := done + [c] + queue;
    DepthsCapped(done, c, queue, depth);
    MonotoneSnoc(s, depth, v, depth[c] + 1);
    SeenSnoc(done, c, queue, v);
    ParentedPush(adj, done + [c], s, depth, parent, c, v);
    DeepeningPush(adj, done, s, depth, v, depth[c] + 1);
  }

  /** No vertex seen so far is deeper than one layer below `c`, and none dequeued before `c` is deeper than `c`. */
  lemma DepthsCapped(done: seq<string>, c: string, queue: seq<string>, depth: map<string, nat>)
    requires c in depth && Monotone(done + [c] + queue, depth)
    requires forall x :: x in depth <==> x in done + [c] + queue
    requires forall x :: x in queue && x in depth ==> depth[x] <= depth[c] + 1
    ensures forall x :: x in done + [c] + queue && x in depth ==> depth[x] <= depth[c] + 1
    ensures forall u :: u in done && u in depth ==> depth[u] <= depth[c]
  {
    var s := done + [c] + queue;
    assert s[|done|] == c;
    forall u | u in done && u in depth ensures depth[u] <= depth[c] {
      var i :| 0 <= i < |done| && done[i] == u;
      assert s[i] == u;
    }
  }

  lemma ParentedPush(adj: Adjacency, fin: seq<string>, s: seq<string>, depth: map<string, nat>,
                     parent: map<string, string>, c: string, v: string)
    requires Parented(adj, fin, s, depth, parent) && c in fin && c in depth && v in Succ(adj, c)
    requires v !in depth && forall x :: x in s ==> x in depth
    ensures Parented(adj, fin, s + [v], depth[v := depth[c] + 1], parent[v := c])
  {
  }

  lemma DeepeningPush(adj: Adjacency, fin: seq<string>, s: seq<string>, depth: map<string, nat>, v: string, d: nat)
    requires Deepening(adj, fin, s, depth) && v !in depth && v !in fin
    requires forall u :: u in fin && u in depth ==> depth[u] < d
    ensures Deepening(adj, fin, s + [v], depth[v := d])
  {
  }

  /** The successor stays waiting: nothing about the depths changes. */
  lemma LayerKeep(adj: Adjacency, done: seq<string>, c: string, queue: seq<string>, depth: map<string, nat>,
                  parent: map<string, string>, nb: seq<string>, j: nat)
    requires LayeredDuring(adj, done, c, queue, depth, parent, nb, j) && j < |nb|
    requires nb[j] !in done + [c] + queue
    ensures LayeredDuring(adj, done, c, queue, depth, parent, nb, j + 1)
  {
  }

  lemma PushStep(nodes: seq<Node>, edges: seq<Edge>, adj: Adjacency, inDegree: map<string, int>,
                 inDegree': map<string, int>, done: seq<string>, c: string, queue: seq<string>,
                 depth: map<string, nat>, parent: map<string, string>, nb: seq<string>, j: nat)
    requires adj == AdjacencyOf(nodes, edges) && nb == Succ(adj, c) && j < |nb|
    requires Releasing(nodes, edges, adj, inDegree, done, c, queue, depth, parent, nb, j)
    requires nb[j] in inDegree && inDegree[nb[j]] == 1
    requires Pending(edges, Elems(done) + {c}, nb[j]) == 0 && nb[j] !in done + [c] + queue
    requires inDegree' == inDegree[nb[j] := 0]
    ensures Releasing(nodes, edges, adj, inDegree', done, c, queue + [nb[j]], depth[nb[j] := depth[c] + 1],
                      parent[nb[j] := c], nb, j + 1)
  {
    var v := nb[j];
    var seen := done + [c] + queue;
    SeenSnoc(done, c, queue, v);
    CountStep(nodes, edges, inDegree, inDegree', Elems(done), seen, seen + [v], nb, j);
    LeastStep(nodes, edges, seen, Elems(done) + {c}, v);
    LayerPush(adj, done, c, queue, depth, parent, nb, j);
  }

  lemma SeenSnoc(done: seq<string>, c: string, queue: seq<string>, v: string)
    ensures done + [c] + queue + [v] == done + [c] + (queue + [v])
    ensures Elems(done) + {c} <= Elems(done + [c] + queue)
  {
  }

  lemma KeepStep(nodes: seq<Node>, edges: seq<Edge>, adj: Adjacency, inDegree: map<string, int>,
                 inDegree': map<string, int>, done: seq<string>, c: string, queue: seq<string>,
                 depth: map<string, nat>, parent: map<string, string>, nb: seq<string>, j: nat)
    requires j < |nb|
    requires Releasing(nodes, edges, adj, inDegree, done, c, queue, depth, parent, nb, j)
    requires nb[j] in inDegree && inDegree[nb[j]] > 1 && nb[j] !in done + [c] + queue
    requires inDegree' == inDegree[nb[j] := inDegree[nb[j]] - 1]
    ensures Releasing(nodes, edges, adj, inDegree', done, c, queue, depth, parent, nb, j + 1)
  {
    var seen := done + [c] + queue;
    CountStep(nodes, edges, inDegree, inDegree', Elems(done), seen, seen, nb, j);
    LayerKeep(adj, done, c, queue, depth, parent, nb, j);
  }

  /** All successors of `current` released: `current` joins the dequeued vertices. */
  lemma Released(nodes: seq<Node>, edges: seq<Edge>, adj: Adjacency, inDegree: map<string, int>,
                 done: seq<string>, c: string, queue: seq<string>, depth: map<string, nat>, parent: map<string, string>)
    requires adj == AdjacencyOf(nodes, edges)
    requires Releasing(nodes, edges, adj, inDegree, done, c, queue, depth, parent, Succ(adj, c), |Succ(adj, c)|)
    ensures Draining(nodes, edges, adj, inDegree, done + [c], queue, depth, parent)
    ensures LastDepth(done + [c], depth) == depth[c]
    ensures DegreeKeys(nodes, edges) - Elems(done + [c]) < DegreeKeys(nodes, edges) - Elems(done)
  {
    var nb := Succ(adj, c);
    CurrentNotDone(done, c, queue);
    DoneSnoc(done, c, DegreeKeys(nodes, edges));
    TallyReleased(nodes, edges, inDegree, Elems(done), c, nb);
    LayeredReleased(adj, done, c, queue, depth, parent, nb);
  }

  /** Dequeueing a key not dequeued before leaves fewer keys to dequeue. */
  lemma DoneSnoc(done: seq<string>, c: string, keys: set<string>)
    requires c !in Elems(done) && c in keys
    ensures Elems(done + [c]) == Elems(done) + {c}
    ensures keys - Elems(done + [c]) < keys - Elems(done)
  {
    assert Elems(done + [c]) == Elems(done) + {c};
    assert c in keys - Elems(done);
  }

  /** Releasing every edge leaving `c` is releasing `c`. */
  lemma TallyReleased(nodes: seq<Node>, edges: seq<Edge>, inDegree: map<string, int>, released: set<string>,
                      c: string, nb: seq<string>)
    requires nb == Targets(edges, c) && c !in released
    requires Tally(nodes, edges, inDegree, released, nb, |nb|)
    ensures Tally(nodes, edges, inDegree, released + {c}, [], 0)
  {
    assert nb[..|nb|] == nb;
    forall v | v in inDegree ensures inDegree[v] == Pending(edges, released + {c}, v) - Count([][..0], v) {
      PendingRelease(edges, released, c, v);
    }
  }

  lemma LayeredReleased(adj: Adjacency, done: seq<string>, c: string, queue: seq<string>, depth: map<string, nat>,
                        parent: map<string, string>, nb: seq<string>)
    requires nb == Succ(adj, c) && LayeredDuring(adj, done, c, queue, depth, parent, nb, |nb|)
    ensures Layered(adj, done + [c], queue, depth, parent)
  {
    assert LastDepth(done + [c], depth) == depth[c];
    DeepeningReleased(adj, done, c, done + [c] + queue, depth, nb);
  }

  lemma DeepeningReleased(adj: Adjacency, done: seq<string>, c: string, s: seq<string>, depth: map<string, nat>,
                          nb: seq<string>)
    requires nb == Succ(adj, c) && Deepening(adj, done, s, depth) && c in depth
    requires forall k :: 0 <= k < |nb| && nb[k] in depth ==> depth[nb[k]] == depth[c] + 1
    ensures Deepening(adj, done + [c], s, depth)
  {
    forall u, v | u in done + [c] && v in Succ(adj, u) && v in s && u in depth && v in depth
      ensures depth[u] < depth[v]
    {
      if u == c {
        var k :| 0 <= k < |nb| && nb[k] == v;
      }
    }
  }

  /** At the end: the dequeued vertices are the least closed set, and `maxDepth` its longest walk. */
  lemma DrainedResult(nodes: seq<Node>, edges: seq<Edge>, adj: Adjacency, inDegree: map<string, int>,
                      done: seq<string>, depth: map<string, nat>, parent: map<string, string>, maxDepth: nat)
    requires adj == AdjacencyOf(nodes, edges)
    requires Draining(nodes, edges, adj, inDegree, done, [], depth, parent) && maxDepth == LastDepth(done, depth)
    ensures KahnDepth(nodes, edges, maxDepth)
  {
    assert done + [] == done;
    DoneClosed(nodes, edges, inDegree, done);
    assert LeastClosed(nodes, edges, Elems(done));
    DoneLongest(adj, done, depth, parent, maxDepth);
  }

  /** `maxDepth` is the longest walk among the dequeued vertices: no walk is longer, and the parent chain of the last one is that long. */
  lemma DoneLongest(adj: Adjacency, done: seq<string>, depth: map<string, nat>, parent: map<string, string>,
                    maxDepth: nat)
    requires Layered(adj, done, [], depth, parent) && maxDepth == LastDepth(done, depth)
    ensures LongestWalk(adj, Elems(done), maxDepth)
  {
    assert done + [] == done;
    WalksBounded(adj, done, depth, parent, maxDepth);
    if maxDepth != 0 {
      var p := ParentChain(adj, done, depth, parent, done[|done| - 1]);
      assert Within(p, Elems(done)) && |p| == maxDepth + 1;
    }
  }

  /** Once the queue is empty, every key whose edges all leave dequeued vertices was itself dequeued. */
  lemma DoneClosed(nodes: seq<Node>, edges: seq<Edge>, inDegree: map<string, int>, done: seq<string>)
    requires Counted(nodes, edges, inDegree, Elems(done), done, [], 0)
    ensures Closed(nodes, edges, Elems(done))
  {
    forall v | v in DegreeKeys(nodes, edges) && AllSourcesIn(edges, v, Elems(done)) ensures v in Elems(done) {
      PendingZero(edges, Elems(done), v);
    }
  }

  /** A walk among the dequeued vertices goes strictly deeper at each step, so it has at most `maxDepth` edges. */
  lemma WalksBounded(adj: Adjacency, done: seq<string>, depth: map<string, nat>, parent: map<string, string>,
                     maxDepth: nat)
    requires Layered(adj, done, [], depth, parent) && maxDepth == LastDepth(done, depth)
    ensures forall p :: IsPath(adj, p) && Within(p, Elems(done)) ==> |p| <= maxDepth + 1
  {
    assert done + [] == done;
    forall p | IsPath(adj, p) && Within(p, Elems(done)) ensures |p| <= maxDepth + 1 {
      var k := |p| - 1;
      WalkDeepens(adj, done, depth, p, k);
      assert p[k] in done;
      var i :| 0 <= i < |done| && done[i] == p[k];
      if i < |done| - 1 {
        assert depth[done[i]] <= depth[done[|done| - 1]];
      }
    }
  }

  lemma {:induction false} WalkDeepens(adj: Adjacency, done: seq<string>, depth: map<string, nat>, p: seq<string>, k: nat)
    requires (forall x :: x in depth <==> x in done) && Deepening(adj, done, done, depth)
    requires IsPath(adj, p) && Within(p, Elems(done)) && k < |p|
    ensures p[k] in depth && depth[p[k]] >= k
  {
    assert p[k] in Elems(done);
    if k > 0 {
      WalkDeepens(adj, done, depth, p, k - 1);
      PathStep(adj, p, k - 1);
      assert p[k - 1] in Elems(done);
    }
  }

  /** Following parents up from a dequeued vertex gives a walk with one vertex per layer above it. */
  lemma {:induction false} ParentChain(adj: Adjacency, done: seq<string>, depth: map<string, nat>,
                                       parent: map<string, string>, x: string) returns (p: seq<string>)
    requires (forall y :: y in depth <==> y in done) && Parented(adj, done, done, depth, parent)
    requires x in done
    ensures IsPath(adj, p) && Within(p, Elems(done)) && |p| == depth[x] + 1 && p[|p| - 1] == x
    decreases depth[x]
  {
    if depth[x] == 0 {
      p := [x];
    } else {
      var q := ParentChain(adj, done, depth, parent, parent[x]);
      p := q + [x];
      forall i, j | 0 <= i && j == i + 1 && j < |p| ensures p[j] in Succ(adj, p[i]) {
        if j < |q| {
          PathStep(adj, q, i);
        }
      }
    }
  }
}
