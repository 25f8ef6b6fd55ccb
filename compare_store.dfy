/**
 * The comparison store: a baseline and a candidate processed graph, and
 * the diff between them, recomputed whenever both are present.
 */
module Comparison {
  import opened GraphTypes
  import opened Seqs
  import opened MaxDepth
  import opened GraphBuilder

  // ---------------------------------------------------------------------
  // The diff.

  /** `${e.source}-${e.target}-${e.kind}`: what the diff compares edges by. */
  function EdgeKey(e: Edge): string {
    e.source + "-" + e.target + "-" + EdgeKindName(e.kind)
  }

  function EdgeKeys(es: seq<Edge>): set<string> {
    set e | e in es :: EdgeKey(e)
  }

  /** `ns.filter(n => !ids.has(n.id))`. */
  function NodesWithoutIds(ns: seq<Node>, ids: set<string>): seq<Node> {
    if ns == [] then []
    else
      var n := ns[|ns| - 1];
      NodesWithoutIds(ns[..|ns| - 1], ids) + (if n.id !in ids then [n] else [])
  }

  /** `es.filter(e => !keys.has(key(e)))`. */
  function EdgesWithoutKeys(es: seq<Edge>, keys: set<string>): seq<Edge> {
    if es == [] then []
    else
      var e := es[|es| - 1];
      EdgesWithoutKeys(es[..|es| - 1], keys) + (if EdgeKey(e) !in keys then [e] else [])
  }

  /**
   * For each id of `ids` present in both node maps (built from the node
   * lists, the last record per id winning), the pair of records when they
   * differ.
   */
  function ChangedFor(before: seq<Node>, after: seq<Node>, ids: seq<string>): seq<NodeChange> {
    if ids == [] then []
    else
      var id := ids[|ids| - 1];
      ChangedFor(before, after, ids[..|ids| - 1]) + ChangeAt(before, after, id)
  }

  /** The change recorded for one id: both last records, when both exist and differ. */
  function ChangeAt(before: seq<Node>, after: seq<Node>, id: string): seq<NodeChange> {
    match (LastWrite(before, id), LastWrite(after, id))
    case (Some(x), Some(y)) => if x != y then [NodeChange(x, y)] else []
    case _ => []
  }

  function DeltaOf(b: Metrics, c: Metrics): MetricsDelta {
    MetricsDelta(c.nodeCount - b.nodeCount, c.edgeCount - b.edgeCount,
                 c.cycleCount - b.cycleCount, c.maxDepth - b.maxDepth)
  }

  /** `computeGraphDiff(baseline, candidate)`. */
  function GraphDiffOf(b: ProcessedGraph, c: ProcessedGraph): GraphDiff {
    GraphDiff(
      NodesWithoutIds(c.nodes, Elems(IdList(b.nodes))),
      NodesWithoutIds(b.nodes, Elems(IdList(c.nodes))),
      ChangedFor(b.nodes, c.nodes, Dedup(IdList(b.nodes))),
      EdgesWithoutKeys(c.edges, EdgeKeys(b.edges)),
      EdgesWithoutKeys(b.edges, EdgeKeys(c.edges)),
      DeltaOf(b.metrics, c.metrics))
  }

  /**
   * `computeGraphDiff(baseline, candidate)`: the node filters, the loop over
   * the baseline ids in insertion order collecting changed records, the
   * edge filters and the metric deltas.
   */
  method ComputeGraphDiff(b: ProcessedGraph, c: ProcessedGraph) returns (d: GraphDiff)
    ensures d == GraphDiffOf(b, c)
  {
    var baselineNodeIds := Dedup(IdList(b.nodes));
    var candidateNodeIds := Elems(IdList(c.nodes));
    var addedNodes := NodesWithoutIds(c.nodes, Elems(IdList(b.nodes)));
    var removedNodes := NodesWithoutIds(b.nodes, candidateNodeIds);
    var changedNodes: seq<NodeChange> := [];
    for k := 0 to |baselineNodeIds|
      invariant changedNodes == ChangedFor(b.nodes, c.nodes, baselineNodeIds[..k])
    {
      var nodeId := baselineNodeIds[k];
      assert baselineNodeIds[..k + 1][..k] == baselineNodeIds[..k];
      if nodeId in candidateNodeIds {
        var beforeNode := LastWrite(b.nodes, nodeId).value;
        var afterNode := LastWrite(c.nodes, nodeId).value;
        if beforeNode != afterNode {
          changedNodes := changedNodes + [NodeChange(beforeNode, afterNode)];
        }
      }
    }
    assert baselineNodeIds[..|baselineNodeIds|] == baselineNodeIds;
    var addedEdges := EdgesWithoutKeys(c.edges, EdgeKeys(b.edges));
    var removedEdges := EdgesWithoutKeys(b.edges, EdgeKeys(c.edges));
    d := GraphDiff(addedNodes, removedNodes, changedNodes, addedEdges, removedEdges, DeltaOf(b.metrics, c.metrics));
  }

  // ---------------------------------------------------------------------
  // What the diff says.

  /** The node filter keeps exactly the nodes whose id is not among `ids`. */
  lemma {:induction false} NodesWithoutIdsMembers(ns: seq<Node>, ids: set<string>, n: Node)
    ensures n in NodesWithoutIds(ns, ids) <==> n in ns && n.id !in ids
  {
    if ns != [] {
      NodesWithoutIdsMembers(ns[..|ns| - 1], ids, n);
      assert ns == ns[..|ns| - 1] + [ns[|ns| - 1]];
    }
  }

  /** The edge filter keeps exactly the edges whose key is not among `keys`. */
  lemma {:induction false} EdgesWithoutKeysMembers(es: seq<Edge>, keys: set<string>, e: Edge)
    ensures e in EdgesWithoutKeys(es, keys) <==> e in es && EdgeKey(e) !in keys
  {
    if es != [] {
      EdgesWithoutKeysMembers(es[..|es| - 1], keys, e);
      assert es == es[..|es| - 1] + [es[|es| - 1]];
    }
  }

  /** A change is listed exactly when some listed id has differing last records on the two sides. */
  lemma {:induction false} ChangedForMembers(before: seq<Node>, after: seq<Node>, ids: seq<string>, ch: NodeChange)
    ensures ch in ChangedFor(before, after, ids) <==>
      exists id :: id in ids && LastWrite(before, id) == Some(ch.before) && LastWrite(after, id) == Some(ch.after) && ch.before != ch.after
  {
    if ids != [] {
      var init := ids[..|ids| - 1];
      var id := ids[|ids| - 1];
      ChangedForMembers(before, after, init, ch);
      assert ids == init + [id];
      ChangeAtMembers(before, after, id, ch);
      if ch in ChangeAt(before, after, id) {
        assert id in ids;
      }
      if x :| x in ids && LastWrite(before, x) == Some(ch.before) && LastWrite(after, x) == Some(ch.after) && ch.before != ch.after {
        if x != id {
          assert x in init;
        }
      }
    }
  }

  lemma ChangeAtMembers(before: seq<Node>, after: seq<Node>, id: string, ch: NodeChange)
    ensures ch in ChangeAt(before, after, id) <==>
      LastWrite(before, id) == Some(ch.before) && LastWrite(after, id) == Some(ch.after) && ch.before != ch.after
  {
  }

  /**
   * Added nodes are the candidate nodes whose id the baseline lacks, removed
   * nodes the baseline nodes whose id the candidate lacks.
   */
  lemma DiffNodes(b: ProcessedGraph, c: ProcessedGraph, n: Node)
    ensures n in GraphDiffOf(b, c).addedNodes <==> n in c.nodes && n.id !in IdList(b.nodes)
    ensures n in GraphDiffOf(b, c).removedNodes <==> n in b.nodes && n.id !in IdList(c.nodes)
  {
    NodesWithoutIdsMembers(c.nodes, Elems(IdList(b.nodes)), n);
    NodesWithoutIdsMembers(b.nodes, Elems(IdList(c.nodes)), n);
  }

  /**
   * A change is reported exactly for an id present on both sides whose
   * last records differ; both records carry that id.
   */
  lemma DiffChanges(b: ProcessedGraph, c: ProcessedGraph, ch: NodeChange)
    ensures ch in GraphDiffOf(b, c).changedNodes <==>
      exists id :: id in IdList(b.nodes) && LastWrite(b.nodes, id) == Some(ch.before) &&
        LastWrite(c.nodes, id) == Some(ch.after) && ch.before != ch.after
    ensures ch in GraphDiffOf(b, c).changedNodes ==> ch.before.id == ch.after.id
  {
    ChangedForMembers(b.nodes, c.nodes, Dedup(IdList(b.nodes)), ch);
    DedupMembers(IdList(b.nodes));
  }

  /** Every change of `cs` carries an id listed in `ids`. */
  predicate IdsWithin(cs: seq<NodeChange>, ids: seq<string>) {
    forall k :: 0 <= k < |cs| ==> cs[k].before.id in ids
  }

  /** No two changes of `cs` carry the same id. */
  predicate IdsDistinct(cs: seq<NodeChange>) {
    forall i, j :: 0 <= i < j < |cs| ==> cs[i].before.id != cs[j].before.id
  }

  /**
   * Over distinct ids, every change carries one of those ids and no two
   * changes carry the same id.
   */
  lemma {:induction false} ChangedForIds(before: seq<Node>, after: seq<Node>, ids: seq<string>)
    requires Distinct(ids)
    ensures IdsWithin(ChangedFor(before, after, ids), ids)
    ensures IdsDistinct(ChangedFor(before, after, ids))
  {
    if ids != [] {
      var init, id := ids[..|ids| - 1], ids[|ids| - 1];
      assert Distinct(init) by {
        forall i, j | 0 <= i < j < |init| ensures init[i] != init[j] {
          assert init[i] == ids[i] && init[j] == ids[j];
        }
      }
      assert id !in init by {
        forall i | 0 <= i < |init| ensures init[i] != id {
          assert init[i] == ids[i];
        }
      }
      ChangedForIds(before, after, init);
      ChangeAtId(before, after, id);
      assert ids == init + [id];
      AppendChangeIds(ChangedFor(before, after, init), ChangeAt(before, after, id), init, id);
    }
  }

  /** Appending at most one change for a fresh id keeps the change ids distinct. */
  lemma AppendChangeIds(cs0: seq<NodeChange>, last: seq<NodeChange>, init: seq<string>, id: string)
    requires IdsWithin(cs0, init) && IdsDistinct(cs0)
    requires |last| <= 1 && IdsWithin(last, [id])
    requires id !in init
    ensures IdsWithin(cs0 + last, init + [id]) && IdsDistinct(cs0 + last)
  {
    var cs := cs0 + last;
    forall k | 0 <= k < |cs| ensures cs[k].before.id in init + [id] {
      if k < |cs0| { assert cs[k] == cs0[k]; } else { assert cs[k] == last[k - |cs0|]; }
    }
    forall i, j | 0 <= i < j < |cs| ensures cs[i].before.id != cs[j].before.id {
      if j >= |cs0| {
        assert cs[i] == cs0[i] && cs[j] == last[0];
      } else {
        assert cs[i] == cs0[i] && cs[j] == cs0[j];
      }
    }
  }

  /** The change recorded for one id, if any, carries that id. */
  lemma ChangeAtId(before: seq<Node>, after: seq<Node>, id: string)
    ensures |ChangeAt(before, after, id)| <= 1 && IdsWithin(ChangeAt(before, after, id), [id])
  {
  }

  /**
   * Each baseline id is reported at most once, so no two changes carry the
   * same id and no change is listed twice.
   */
  lemma DiffChangesDistinct(b: ProcessedGraph, c: ProcessedGraph)
    ensures IdsDistinct(GraphDiffOf(b, c).changedNodes)
    ensures Distinct(GraphDiffOf(b, c).changedNodes)
  {
    var cs := GraphDiffOf(b, c).changedNodes;
    ChangedForIds(b.nodes, c.nodes, Dedup(IdList(b.nodes)));
    forall i, j | 0 <= i < j < |cs| ensures cs[i] != cs[j] {
      assert cs[i].before.id != cs[j].before.id;
    }
  }

  /**
   * Added edges are the candidate edges whose key no baseline edge has,
   * removed edges the baseline edges whose key no candidate edge has.
   */
  lemma DiffEdges(b: ProcessedGraph, c: ProcessedGraph, e: Edge)
    ensures e in GraphDiffOf(b, c).addedEdges <==> e in c.edges && forall f :: f in b.edges ==> EdgeKey(f) != EdgeKey(e)
    ensures e in GraphDiffOf(b, c).removedEdges <==> e in b.edges && forall f :: f in c.edges ==> EdgeKey(f) != EdgeKey(e)
  {
    EdgesWithoutKeysMembers(c.edges, EdgeKeys(b.edges), e);
    EdgesWithoutKeysMembers(b.edges, EdgeKeys(c.edges), e);
  }

  /** A graph compared with itself has no differences. */
  lemma SelfDiffEmpty(g: ProcessedGraph)
    ensures GraphDiffOf(g, g) == GraphDiff([], [], [], [], [], MetricsDelta(0, 0, 0, 0))
  {
    var d := GraphDiffOf(g, g);
    if d.addedNodes != [] {
      DiffNodes(g, g, d.addedNodes[0]);
      assert false;
    }
    if d.changedNodes != [] {
      var ch := d.changedNodes[0];
      DiffChanges(g, g, ch);
    }
    if d.addedEdges != [] {
      var e := d.addedEdges[0];
      DiffEdges(g, g, e);
    }
  }

  /**
   * Swapping the sides swaps added and removed, reverses each change and
   * negates the deltas.
   */
  lemma DiffSwap(b: ProcessedGraph, c: ProcessedGraph, ch: NodeChange)
    ensures GraphDiffOf(c, b).addedNodes == GraphDiffOf(b, c).removedNodes
    ensures GraphDiffOf(c, b).addedEdges == GraphDiffOf(b, c).removedEdges
    ensures ch in GraphDiffOf(c, b).changedNodes <==> NodeChange(ch.after, ch.before) in GraphDiffOf(b, c).changedNodes
    ensures var d, e := GraphDiffOf(b, c).metricsDelta, GraphDiffOf(c, b).metricsDelta;
      e.nodeCountDelta == -d.nodeCountDelta && e.edgeCountDelta == -d.edgeCountDelta &&
      e.cycleCountDelta == -d.cycleCountDelta && e.maxDepthDelta == -d.maxDepthDelta
  {
    DiffChanges(c, b, ch);
    DiffChanges(b, c, NodeChange(ch.after, ch.before));
  }

  /**
   * Edges are compared by their key string, and ids containing `-` make two
   * different edges share one: a baseline edge `a-b -> c` and a candidate
   * edge `a -> b-c` of the same kind are reported as neither added nor
   * removed.
   */
  lemma EdgeKeyCollision()
    ensures var e1, e2 := Edge("edge-0", "a-b", "c", Needs), Edge("edge-0", "a", "b-c", Needs);
      && e1.source != e2.source && EdgeKey(e1) == EdgeKey(e2)
      && EdgesWithoutKeys([e2], EdgeKeys([e1])) == []
      && EdgesWithoutKeys([e1], EdgeKeys([e2])) == []
  {
    var e1, e2 := Edge("edge-0", "a-b", "c", Needs), Edge("edge-0", "a", "b-c", Needs);
    assert EdgeKey(e1) == "a-b-c-needs" == EdgeKey(e2);
    assert EdgeKeys([e1]) == {EdgeKey(e1)};
    assert EdgeKeys([e2]) == {EdgeKey(e2)};
    assert [e1][..0] == [] && [e2][..0] == [];
  }

  /** The graph `buildRenderableGraph(g)` returns, as a store keeps it. */
  method BuildGraph(g: GraphJson) returns (pg: ProcessedGraph)
    ensures Processed(g, pg)
  {
    var sccs;
    pg, sccs := BuildRenderableGraph(g);
  }

  // ---------------------------------------------------------------------
  // The store.

  class CompareStore {
    var baselineGraph: Option<ProcessedGraph>
    var candidateGraph: Option<ProcessedGraph>
    var diff: Option<GraphDiff>

    /** The diff shown is the diff of the two graphs shown, and there is one exactly when both are. */
    ghost predicate Valid()
      reads this
    {
      diff == if baselineGraph.Some? && candidateGraph.Some? then Some(GraphDiffOf(baselineGraph.value, candidateGraph.value)) else None
    }

    constructor()
      ensures baselineGraph == None && candidateGraph == None && diff == None
      ensures Valid()
    {
      baselineGraph, candidateGraph, diff := None, None, None;
    }

    /**
     * `setBaselineGraph(graphJson)`: build the graph and show it as the
     * baseline, recomputing the diff when a candidate is shown; a document
     * the builder throws on changes nothing.
     */
    method SetBaselineGraph(doc: Document)
      requires Valid()
      modifies this
      ensures Valid()
      ensures doc.Wellformed? ==> baselineGraph.Some? && Processed(doc.graph, baselineGraph.value)
      ensures doc.Malformed? ==> baselineGraph == old(baselineGraph) && diff == old(diff)
      ensures candidateGraph == old(candidateGraph)
    {
      if doc.Wellformed? {
        var processedGraph := BuildGraph(doc.graph);
        ShowBaseline(processedGraph);
      }
    }

    /** `set({ baselineGraph })`, then the diff when a candidate is shown. */
    method ShowBaseline(pg: ProcessedGraph)
      requires Valid()
      modifies this
      ensures baselineGraph == Some(pg) && candidateGraph == old(candidateGraph)
      ensures Valid()
    {
      baselineGraph := Some(pg);
      if candidateGraph.Some? {
        ComputeDiff();
      }
    }

    /** `setCandidateGraph(graphJson)`: the same for the candidate side. */
    method SetCandidateGraph(doc: Document)
      requires Valid()
      modifies this
      ensures Valid()
      ensures doc.Wellformed? ==> candidateGraph.Some? && Processed(doc.graph, candidateGraph.value)
      ensures doc.Malformed? ==> candidateGraph == old(candidateGraph) && diff == old(diff)
      ensures baselineGraph == old(baselineGraph)
    {
      if doc.Wellformed? {
        var processedGraph := BuildGraph(doc.graph);
        ShowCandidate(processedGraph);
      }
    }

    /** `set({ candidateGraph })`, then the diff when a baseline is shown. */
    method ShowCandidate(pg: ProcessedGraph)
      requires Valid()
      modifies this
      ensures candidateGraph == Some(pg) && baselineGraph == old(baselineGraph)
      ensures Valid()
    {
      candidateGraph := Some(pg);
      if baselineGraph.Some? {
        ComputeDiff();
      }
    }

    /** `clearComparison()`: drop both graphs and the diff. */
    method ClearComparison()
      modifies this
      ensures baselineGraph == None && candidateGraph == None && diff == None
      ensures Valid()
    {
      baselineGraph, candidateGraph, diff := None, None, None;
    }

    /** `computeDiff()`: the diff of the two graphs when both are shown, otherwise none. */
    method ComputeDiff()
      modifies this
      ensures baselineGraph == old(baselineGraph) && candidateGraph == old(candidateGraph)
      ensures Valid()
    {
      if baselineGraph.None? || candidateGraph.None? {
        diff := None;
        return;
      }
      var d := ComputeGraphDiff(baselineGraph.value, candidateGraph.value);
      diff := Some(d);
    }
  }
}
