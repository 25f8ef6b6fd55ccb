/**
 * `buildRenderableGraph`: the input document becomes one node list, one
 * edge list, the module and package lists and the summary metrics.
 *
 * Nodes go through an insertion-ordered map keyed by id, written with the
 * types, then the providers, then the consumers: an id keeps the position
 * of its first insertion and the record of its last write. Every input edge
 * becomes edge `edge-i`, and raises the fan-out of its source and the fan-in
 * of its target where those are nodes.
 */
module GraphBuilder {
  import opened GraphTypes
  import opened Seqs
  import opened Text
  import opened Digraph
  import Tarjan
  import MaxDepth

  // ---------------------------------------------------------------------
  // Display labels.

  /**
   * `getShortName`: the last two dot-separated segments joined by `.`, or
   * just the class segment when the member is a constructor (`<init>`); a
   * name without a dot is its own label.
   */
  function ShortName(fullName: string): string {
    var parts := Split(fullName, '.');
    if |parts| > 1 then
      var className := parts[|parts| - 2];
      var memberName := parts[|parts| - 1];
      if memberName == "<init>" then className else className + "." + memberName
    else fullName
  }

  /** A name without a dot is its own label. */
  lemma ShortNameUndotted(name: string)
    requires '.' !in name
    ensures ShortName(name) == name
  {
    SplitCount(name, '.');
  }

  /**
   * The label of a dotted name given by its segments: the class and member
   * segments, or the class segment alone for a constructor.
   */
  lemma ShortNameOfSegments(segs: seq<string>)
    requires |segs| >= 2 && forall k :: 0 <= k < |segs| ==> '.' !in segs[k]
    ensures ShortName(Join(segs, '.')) ==
      if segs[|segs| - 1] == "<init>" then segs[|segs| - 2] else segs[|segs| - 2] + "." + segs[|segs| - 1]
  {
    var name := Join(segs, '.');
    SplitJoin(segs, '.');
    var parts := Split(name, '.');
    assert parts == segs;
    assert ShortName(name) ==
      if parts[|parts| - 1] == "<init>" then parts[|parts| - 2] else parts[|parts| - 2] + "." + parts[|parts| - 1];
  }

  /** A label holds at most one dot: it never has more than two segments. */
  lemma ShortNameSegments(fullName: string)
    ensures |Split(ShortName(fullName), '.')| <= 2
  {
    var parts := Split(fullName, '.');
    if |parts| > 1 {
      var className := parts[|parts| - 2];
      var memberName := parts[|parts| - 1];
      if memberName != "<init>" {
        assert Join([className, memberName], '.') == className + "." + memberName;
        SplitJoin([className, memberName], '.');
      } else {
        SplitCount(className, '.');
      }
    }
  }

  // ---------------------------------------------------------------------
  // The node records, as written into the map.

  function TypeNode(t: TypeEntry): Node {
    Node(t.id, ShortName(t.id), t.moduleId, TypeDetail(t.package), 0, 0)
  }

  function ProviderNode(p: ProviderEntry): Node {
    Node(p.id, ShortName(p.id), p.moduleId, ProviderDetail(p.owner, p.providedType, p.requiredTypes), 0, 0)
  }

  function ConsumerNode(c: ConsumerEntry): Node {
    Node(c.id, ShortName(c.id), c.moduleId, ConsumerDetail(c.owner, c.needs), 0, 0)
  }

  function TypeNodes(ts: seq<TypeEntry>): (ns: seq<Node>)
    ensures |ns| == |ts| && forall i :: 0 <= i < |ts| ==> ns[i] == TypeNode(ts[i])
  {
    seq(|ts|, i requires 0 <= i < |ts| => TypeNode(ts[i]))
  }

  function ProviderNodes(ps: seq<ProviderEntry>): (ns: seq<Node>)
    ensures |ns| == |ps| && forall i :: 0 <= i < |ps| ==> ns[i] == ProviderNode(ps[i])
  {
    seq(|ps|, i requires 0 <= i < |ps| => ProviderNode(ps[i]))
  }

  function ConsumerNodes(cs: seq<ConsumerEntry>): (ns: seq<Node>)
    ensures |ns| == |cs| && forall i :: 0 <= i < |cs| ==> ns[i] == ConsumerNode(cs[i])
  {
    seq(|cs|, i requires 0 <= i < |cs| => ConsumerNode(cs[i]))
  }

  /** Every write into the node map, in order. */
  function Writes(g: GraphJson): seq<Node> {
    TypeNodes(g.types) + ProviderNodes(g.providers) + ConsumerNodes(g.consumers)
  }

  /** Records enter the map with both counters at zero. */
  lemma WriteUnfanned(g: GraphJson, n: Node)
    requires n in Writes(g)
    ensures n.fanIn == 0 && n.fanOut == 0
  {
    if n in TypeNodes(g.types) {
      var i :| 0 <= i < |g.types| && TypeNodes(g.types)[i] == n;
    } else if n in ProviderNodes(g.providers) {
      var i :| 0 <= i < |g.providers| && ProviderNodes(g.providers)[i] == n;
    } else {
      var i :| 0 <= i < |g.consumers| && ConsumerNodes(g.consumers)[i] == n;
    }
  }

  /** The record written last under `id`, if any write has that id. */
  function LastWrite(ws: seq<Node>, id: string): (r: Option<Node>)
    ensures r.Some? <==> id in MaxDepth.IdList(ws)
    ensures r.Some? ==> r.value in ws && r.value.id == id
  {
    if ws == [] then None
    else
      var p := ws[..|ws| - 1];
      assert MaxDepth.IdList(ws) == MaxDepth.IdList(p) + [ws[|ws| - 1].id];
      if ws[|ws| - 1].id == id then Some(ws[|ws| - 1]) else LastWrite(p, id)
  }

  /** No write after the one `LastWrite` picks has the same id. */
  lemma {:induction false} LastWriteIsLast(ws: seq<Node>, id: string) returns (k: nat)
    requires id in MaxDepth.IdList(ws)
    ensures k < |ws| && Some(ws[k]) == LastWrite(ws, id)
    ensures forall j :: k < j < |ws| ==> ws[j].id != id
  {
    var p := ws[..|ws| - 1];
    if ws[|ws| - 1].id == id {
      k := |ws| - 1;
    } else {
      assert MaxDepth.IdList(ws) == MaxDepth.IdList(p) + [ws[|ws| - 1].id];
      k := LastWriteIsLast(p, id);
    }
  }

  /** One more write replaces the record of its own id only. */
  lemma LastWriteSnoc(ws: seq<Node>, n: Node, id: string)
    ensures LastWrite(ws + [n], id) == if id == n.id then Some(n) else LastWrite(ws, id)
  {
    assert (ws + [n])[..|ws|] == ws;
  }

  function Froms(es: seq<InputEdge>): (fs: seq<string>)
    ensures |fs| == |es| && forall i :: 0 <= i < |es| ==> fs[i] == es[i].from
  {
    seq(|es|, i requires 0 <= i < |es| => es[i].from)
  }

  function Tos(es: seq<InputEdge>): (ts: seq<string>)
    ensures |ts| == |es| && forall i :: 0 <= i < |es| ==> ts[i] == es[i].to
  {
    seq(|es|, i requires 0 <= i < |es| => es[i].to)
  }

  /** `n` with its counters set from the input edges. */
  function WithFans(n: Node, es: seq<InputEdge>): Node {
    n.(fanIn := Count(Tos(es), n.id), fanOut := Count(Froms(es), n.id))
  }

  /**
   * The node list: one record per distinct id, at the position of the id's
   * first write, holding its last write with its edge counters.
   */
  function BuiltNodes(g: GraphJson): seq<Node> {
    var ws := Writes(g);
    var order := Dedup(MaxDepth.IdList(ws));
    seq(|order|, k requires 0 <= k < |order| => WithFans(LastWrite(ws, order[k]).value, g.edges))
  }

  function RenderEdge(e: InputEdge, i: nat): Edge {
    Edge(Numbered("edge-", i), e.from, e.to, e.kind)
  }

  /** Input edge `i` as edge `edge-i`. */
  function RenderEdges(es: seq<InputEdge>): (rs: seq<Edge>)
    ensures |rs| == |es| && forall i :: 0 <= i < |es| ==> rs[i] == RenderEdge(es[i], i)
  {
    seq(|es|, i requires 0 <= i < |es| => RenderEdge(es[i], i))
  }

  /** `nodes.map(n => n.module).filter(Boolean)`: the non-empty modules, in node order. */
  function ModuleValues(ns: seq<Node>): seq<string> {
    if ns == [] then []
    else
      var n := ns[|ns| - 1];
      ModuleValues(ns[..|ns| - 1]) + (if n.moduleId.Some? && n.moduleId.value != "" then [n.moduleId.value] else [])
  }

  /** The same for packages, which only type nodes carry. */
  function PackageValues(ns: seq<Node>): seq<string> {
    if ns == [] then []
    else
      var n := ns[|ns| - 1];
      PackageValues(ns[..|ns| - 1]) + (if n.Package().Some? && n.Package().value != "" then [n.Package().value] else [])
  }

  /** `sccs.filter(scc => scc.length > 1).length`. */
  function CycleCount(sccs: seq<seq<string>>): (n: nat)
    ensures n <= |sccs|
  {
    if sccs == [] then 0
    else CycleCount(sccs[..|sccs| - 1]) + (if |sccs[|sccs| - 1]| > 1 then 1 else 0)
  }

  // ---------------------------------------------------------------------
  // The builder.

  /** The cycle count is the number of multi-vertex components of some component list of the graph. */
  ghost predicate CyclesCountedBy(pg: ProcessedGraph) {
    exists sccs :: Tarjan.SccList(AdjacencyOf(pg.nodes, pg.edges), pg.nodes, sccs) && pg.metrics.cycleCount == CycleCount(sccs)
  }

  /** `pg` is what `buildRenderableGraph(g)` returns. */
  ghost predicate Processed(g: GraphJson, pg: ProcessedGraph) {
    && pg.nodes == BuiltNodes(g) && pg.edges == RenderEdges(g.edges)
    && pg.modules == Dedup(ModuleValues(pg.nodes)) && pg.packages == Dedup(PackageValues(pg.nodes))
    && pg.metrics.nodeCount == |pg.nodes| && pg.metrics.edgeCount == |pg.edges|
    && pg.metrics.moduleCount == |pg.modules| && pg.metrics.packageCount == |pg.packages|
    && CyclesCountedBy(pg)
    && MaxDepth.KahnDepth(pg.nodes, pg.edges, pg.metrics.maxDepth)
  }

  /** The node map after the writes `ws`: key order, key set and stored records. */
  ghost predicate MapHolds(order: seq<string>, nodeMap: map<string, Node>, ws: seq<Node>) {
    && order == Dedup(MaxDepth.IdList(ws))
    && (forall id :: id in nodeMap <==> id in MaxDepth.IdList(ws))
    && (forall id :: id in nodeMap ==> LastWrite(ws, id) == Some(nodeMap[id]))
  }

  method BuildRenderableGraph(g: GraphJson) returns (pg: ProcessedGraph, sccs: seq<seq<string>>)
    ensures pg.nodes == BuiltNodes(g)
    ensures pg.edges == RenderEdges(g.edges)
    ensures pg.modules == Dedup(ModuleValues(pg.nodes)) && pg.packages == Dedup(PackageValues(pg.nodes))
    ensures pg.metrics.nodeCount == |pg.nodes| && pg.metrics.edgeCount == |pg.edges|
    ensures pg.metrics.moduleCount == |pg.modules| && pg.metrics.packageCount == |pg.packages|
    ensures Tarjan.SccList(AdjacencyOf(pg.nodes, pg.edges), pg.nodes, sccs) && pg.metrics.cycleCount == CycleCount(sccs)
    ensures MaxDepth.KahnDepth(pg.nodes, pg.edges, pg.metrics.maxDepth)
  {
    var nodes, edges := NodesAndEdges(g);
    var modules := Dedup(ModuleValues(nodes));
    var packages := Dedup(PackageValues(nodes));
    sccs := Tarjan.FindStronglyConnectedComponents(nodes, edges);
    var cycleCount := CycleCount(sccs);
    var maxDepth := MaxDepth.CalculateMaxDepth(nodes, edges);
    pg := ProcessedGraph(nodes, edges, modules, packages,
                         Metrics(|nodes|, |edges|, |modules|, |packages|, cycleCount, maxDepth));
  }

  /** The node map filled and counted, read out in key order, and the rendered edges. */
  method NodesAndEdges(g: GraphJson) returns (nodes: seq<Node>, edges: seq<Edge>)
    ensures nodes == BuiltNodes(g) && edges == RenderEdges(g.edges)
  {
    var order, nodeMap := WriteNodes(g);
    ghost var written := nodeMap;
    edges, nodeMap := AddEdges(g.edges, nodeMap);
    CountedNodes(g, order, written, nodeMap);
    nodes := Values(order, nodeMap);
    ReadOut(g, order, nodeMap, nodes);
  }

  /** `Array.from(nodeMap.values())`: the stored records, in key order. */
  method Values(order: seq<string>, nodeMap: map<string, Node>) returns (nodes: seq<Node>)
    requires forall k :: 0 <= k < |order| ==> order[k] in nodeMap
    ensures |nodes| == |order| && forall k :: 0 <= k < |order| ==> nodes[k] == nodeMap[order[k]]
  {
    nodes := seq(|order|, k requires 0 <= k < |order| => nodeMap[order[k]]);
  }

  /** Read out in key order, the counted map is the node list. */
  lemma ReadOut(g: GraphJson, order: seq<string>, nodeMap: map<string, Node>, nodes: seq<Node>)
    requires order == Dedup(MaxDepth.IdList(Writes(g)))
    requires forall k :: 0 <= k < |order| ==> order[k] in nodeMap
    requires forall id :: id in nodeMap ==> id in MaxDepth.IdList(Writes(g))
    requires forall id :: id in nodeMap ==> nodeMap[id] == WithFans(LastWrite(Writes(g), id).value, g.edges)
    requires |nodes| == |order| && forall k :: 0 <= k < |order| ==> nodes[k] == nodeMap[order[k]]
    ensures nodes == BuiltNodes(g)
  {
  }

  /** After the edge loop every key of the map holds its last write with its counters. */
  lemma CountedNodes(g: GraphJson, order: seq<string>, written: map<string, Node>, nodeMap: map<string, Node>)
    requires MapHolds(order, written, Writes(g)) && nodeMap.Keys == written.Keys
    requires forall id :: id in nodeMap ==> nodeMap[id] == Tallied(written[id], id, g.edges)
    ensures forall k :: 0 <= k < |order| ==> order[k] in nodeMap
    ensures forall id :: id in nodeMap ==> id in MaxDepth.IdList(Writes(g))
    ensures forall id :: id in nodeMap ==> nodeMap[id] == WithFans(LastWrite(Writes(g), id).value, g.edges)
  {
    var ws := Writes(g);
    DedupMembers(MaxDepth.IdList(ws));
    forall id | id in nodeMap ensures nodeMap[id] == WithFans(LastWrite(ws, id).value, g.edges) {
      var n := LastWrite(ws, id).value;
      WriteUnfanned(g, n);
      UnfannedTallied(n, g.edges);
    }
  }

  lemma UnfannedTallied(n: Node, es: seq<InputEdge>)
    requires n.fanIn == 0 && n.fanOut == 0
    ensures Tallied(n, n.id, es) == WithFans(n, es)
  {
  }

  /** The three loops that fill the node map. */
  method WriteNodes(g: GraphJson) returns (order: seq<string>, nodeMap: map<string, Node>)
    ensures MapHolds(order, nodeMap, Writes(g))
  {
    ghost var ts, ps, cs := TypeNodes(g.types), ProviderNodes(g.providers), ConsumerNodes(g.consumers);
    order, nodeMap := [], map[];
    assert MapHolds(order, nodeMap, []) by {
      assert MaxDepth.IdList([]) == [];
    }
    order, nodeMap := WriteTypes(g.types, order, nodeMap, []);
    assert [] + ts == ts;
    order, nodeMap := WriteProviders(g.providers, order, nodeMap, ts);
    order, nodeMap := WriteConsumers(g.consumers, order, nodeMap, ts + ps);
  }

  /** One node per type entry. */
  method WriteTypes(types: seq<TypeEntry>, order0: seq<string>, nodeMap0: map<string, Node>, ghost ws: seq<Node>)
    returns (order: seq<string>, nodeMap: map<string, Node>)
    requires MapHolds(order0, nodeMap0, ws)
    ensures MapHolds(order, nodeMap, ws + TypeNodes(types))
  {
    order, nodeMap := order0, nodeMap0;
    ghost var ts := TypeNodes(types);
    assert ws + ts[..0] == ws;
    for i := 0 to |types|
      invariant MapHolds(order, nodeMap, ws + ts[..i])
    {
      AppendPrefixSnoc(ws, ts, i);
      order, nodeMap := SetNode(order, nodeMap, ws + ts[..i], TypeNode(types[i]));
    }
    assert ts[..|types|] == ts;
  }

  /** One node per provider entry. */
  method WriteProviders(providers: seq<ProviderEntry>, order0: seq<string>, nodeMap0: map<string, Node>, ghost ws: seq<Node>)
    returns (order: seq<string>, nodeMap: map<string, Node>)
    requires MapHolds(order0, nodeMap0, ws)
    ensures MapHolds(order, nodeMap, ws + ProviderNodes(providers))
  {
    order, nodeMap := order0, nodeMap0;
    ghost var ps := ProviderNodes(providers);
    assert ws + ps[..0] == ws;
    for i := 0 to |providers|
      invariant MapHolds(order, nodeMap, ws + ps[..i])
    {
      AppendPrefixSnoc(ws, ps, i);
      order, nodeMap := SetNode(order, nodeMap, ws + ps[..i], ProviderNode(providers[i]));
    }
    assert ps[..|providers|] == ps;
  }

  /** One node per consumer entry. */
  method WriteConsumers(consumers: seq<ConsumerEntry>, order0: seq<string>, nodeMap0: map<string, Node>, ghost ws: seq<Node>)
    returns (order: seq<string>, nodeMap: map<string, Node>)
    requires MapHolds(order0, nodeMap0, ws)
    ensures MapHolds(order, nodeMap, ws + ConsumerNodes(consumers))
  {
    order, nodeMap := order0, nodeMap0;
    ghost var cs := ConsumerNodes(consumers);
    assert ws + cs[..0] == ws;
    for i := 0 to |consumers|
      invariant MapHolds(order, nodeMap, ws + cs[..i])
    {
      AppendPrefixSnoc(ws, cs, i);
      order, nodeMap := SetNode(order, nodeMap, ws + cs[..i], ConsumerNode(consumers[i]));
    }
    assert cs[..|consumers|] == cs;
  }

  /** `nodeMap.set(n.id, n)`: a new id joins the key order, an old one keeps its place. */
  method SetNode(order0: seq<string>, nodeMap0: map<string, Node>, ghost ws: seq<Node>, n: Node)
    returns (order: seq<string>, nodeMap: map<string, Node>)
    requires MapHolds(order0, nodeMap0, ws)
    ensures MapHolds(order, nodeMap, ws + [n])
  {
    order := if n.id in nodeMap0 then order0 else order0 + [n.id];
    nodeMap := nodeMap0[n.id := n];
    SetStep(order0, nodeMap0, ws, n, order, nodeMap);
  }

  lemma SetStep(order0: seq<string>, nodeMap0: map<string, Node>, ws: seq<Node>, n: Node,
                order: seq<string>, nodeMap: map<string, Node>)
    requires MapHolds(order0, nodeMap0, ws)
    requires order == (if n.id in nodeMap0 then order0 else order0 + [n.id]) && nodeMap == nodeMap0[n.id := n]
    ensures order == Dedup(MaxDepth.IdList(ws + [n]))
    ensures forall id :: id in nodeMap <==> id in MaxDepth.IdList(ws + [n])
    ensures forall id :: id in nodeMap ==> LastWrite(ws + [n], id) == Some(nodeMap[id])
  {
    IdListSnoc(ws, n);
    SetOrder(order0, nodeMap0, MaxDepth.IdList(ws), n.id, order);
    SetKeys(nodeMap0, ws, n, nodeMap);
    SetRecords(nodeMap0, ws, n, nodeMap);
  }

  lemma IdListSnoc(ws: seq<Node>, n: Node)
    ensures MaxDepth.IdList(ws + [n]) == MaxDepth.IdList(ws) + [n.id]
  {
  }

  /** A new id joins the key order at its end. */
  lemma SetOrder(order0: seq<string>, nodeMap0: map<string, Node>, ids: seq<string>, id: string, order: seq<string>)
    requires order0 == Dedup(ids) && (forall k :: k in nodeMap0 <==> k in ids)
    requires order == if id in nodeMap0 then order0 else order0 + [id]
    ensures order == Dedup(ids + [id])
  {
    DedupSnoc(ids, id);
  }

  /** The key set gains the written id. */
  lemma SetKeys(nodeMap0: map<string, Node>, ws: seq<Node>, n: Node, nodeMap: map<string, Node>)
    requires forall id :: id in nodeMap0 <==> id in MaxDepth.IdList(ws)
    requires nodeMap == nodeMap0[n.id := n]
    ensures forall id :: id in nodeMap <==> id in MaxDepth.IdList(ws + [n])
  {
    IdListSnoc(ws, n);
  }

  /** Each key stores the last record written under it. */
  lemma SetRecords(nodeMap0: map<string, Node>, ws: seq<Node>, n: Node, nodeMap: map<string, Node>)
    requires forall id :: id in nodeMap0 ==> LastWrite(ws, id) == Some(nodeMap0[id])
    requires nodeMap == nodeMap0[n.id := n]
    ensures forall id :: id in nodeMap ==> LastWrite(ws + [n], id) == Some(nodeMap[id])
  {
    forall id | id in nodeMap ensures LastWrite(ws + [n], id) == Some(nodeMap[id]) {
      LastWriteSnoc(ws, n, id);
    }
  }

  /** `n`, stored under `id`, after the edges `es` have raised its counters. */
  ghost function Tallied(n: Node, id: string, es: seq<InputEdge>): Node {
    n.(fanIn := n.fanIn + Count(Tos(es), id), fanOut := n.fanOut + Count(Froms(es), id))
  }

  lemma TalliedSnoc(n: Node, id: string, es: seq<InputEdge>, e: InputEdge)
    ensures Tallied(n, id, es + [e]) ==
      Tallied(n, id, es).(fanIn := Tallied(n, id, es).fanIn + (if e.to == id then 1 else 0),
                          fanOut := Tallied(n, id, es).fanOut + (if e.from == id then 1 else 0))
  {
    assert Tos(es + [e]) == Tos(es) + [e.to];
    assert Froms(es + [e]) == Froms(es) + [e.from];
    CountAppend(Tos(es), [e.to], id);
    CountAppend(Froms(es), [e.from], id);
  }

  /** The edge loop: render each edge and count it at its known endpoints. */
  method AddEdges(es: seq<InputEdge>, nodeMap0: map<string, Node>)
    returns (edges: seq<Edge>, nodeMap: map<string, Node>)
    ensures edges == RenderEdges(es)
    ensures nodeMap.Keys == nodeMap0.Keys
    ensures forall id :: id in nodeMap ==> nodeMap[id] == Tallied(nodeMap0[id], id, es)
  {
    edges, nodeMap := [], nodeMap0;
    for i := 0 to |es|
      invariant edges == RenderEdges(es)[..i]
      invariant nodeMap.Keys == nodeMap0.Keys
      invariant forall id :: id in nodeMap ==> nodeMap[id] == Tallied(nodeMap0[id], id, es[..i])
    {
      PrefixSnoc(RenderEdges(es), i);
      PrefixSnoc(es, i);
      edges := edges + [RenderEdge(es[i], i)];
      nodeMap := CountEnds(es[..i], es[i], nodeMap0, nodeMap);
    }
    assert RenderEdges(es)[..|es|] == RenderEdges(es);
    assert es[..|es|] == es;
  }

  /** `if (sourceNode) sourceNode.fanOut++; if (targetNode) targetNode.fanIn++;` for edge `e`. */
  method CountEnds(done: seq<InputEdge>, e: InputEdge, ghost nodeMap0: map<string, Node>, nodeMap1: map<string, Node>)
    returns (nodeMap: map<string, Node>)
    requires nodeMap1.Keys == nodeMap0.Keys
    requires forall id :: id in nodeMap1 ==> nodeMap1[id] == Tallied(nodeMap0[id], id, done)
    ensures nodeMap.Keys == nodeMap0.Keys
    ensures forall id :: id in nodeMap ==> nodeMap[id] == Tallied(nodeMap0[id], id, done + [e])
  {
    var counted := CountSource(nodeMap1, e.from);
    nodeMap := CountTarget(counted, e.to);
    forall id | id in nodeMap ensures nodeMap[id] == Tallied(nodeMap0[id], id, done + [e]) {
      TalliedSnoc(nodeMap0[id], id, done, e);
    }
  }

  /** `if (sourceNode) sourceNode.fanOut++`. */
  method CountSource(nodeMap0: map<string, Node>, from: string) returns (nodeMap: map<string, Node>)
    ensures nodeMap.Keys == nodeMap0.Keys
    ensures forall id :: id in nodeMap ==>
      nodeMap[id] == nodeMap0[id].(fanOut := nodeMap0[id].fanOut + if id == from then 1 else 0)
  {
    nodeMap := nodeMap0;
    if from in nodeMap {
      nodeMap := nodeMap[from := nodeMap[from].(fanOut := nodeMap[from].fanOut + 1)];
    }
  }

  /** `if (targetNode) targetNode.fanIn++`. */
  method CountTarget(nodeMap0: map<string, Node>, to: string) returns (nodeMap: map<string, Node>)
    ensures nodeMap.Keys == nodeMap0.Keys
    ensures forall id :: id in nodeMap ==>
      nodeMap[id] == nodeMap0[id].(fanIn := nodeMap0[id].fanIn + if id == to then 1 else 0)
  {
    nodeMap := nodeMap0;
    if to in nodeMap {
      nodeMap := nodeMap[to := nodeMap[to].(fanIn := nodeMap[to].fanIn + 1)];
    }
  }

  // ---------------------------------------------------------------------
  // What the built graph satisfies.

  lemma BuiltIds(g: GraphJson)
    ensures MaxDepth.IdList(BuiltNodes(g)) == Dedup(MaxDepth.IdList(Writes(g)))
  {
  }

  /**
   * One node per written id, no id twice, and the nodes in the order in
   * which their ids were first written.
   */
  lemma BuiltNodeIds(g: GraphJson)
    ensures Distinct(MaxDepth.IdList(BuiltNodes(g)))
    ensures forall id :: id in MaxDepth.IdList(BuiltNodes(g)) <==> id in MaxDepth.IdList(Writes(g))
    ensures forall i, j :: 0 <= i < j < |BuiltNodes(g)| ==>
      FirstIndex(MaxDepth.IdList(Writes(g)), BuiltNodes(g)[i].id) < FirstIndex(MaxDepth.IdList(Writes(g)), BuiltNodes(g)[j].id)
  {
    var ids := MaxDepth.IdList(Writes(g));
    BuiltIds(g);
    DedupMembers(ids);
    DedupOrder(ids);
  }

  /** A node holds the last record written under its id, with its counters. */
  lemma BuiltNodeIsLastWrite(g: GraphJson, k: nat) returns (j: nat)
    requires k < |BuiltNodes(g)|
    ensures j < |Writes(g)| && BuiltNodes(g)[k] == WithFans(Writes(g)[j], g.edges)
    ensures forall j' :: j < j' < |Writes(g)| ==> Writes(g)[j'].id != BuiltNodes(g)[k].id
  {
    var ws := Writes(g);
    var id := Dedup(MaxDepth.IdList(ws))[k];
    j := LastWriteIsLast(ws, id);
  }

  /** The edges keep their input order and endpoints and get pairwise different ids. */
  lemma RenderedEdgeIds(es: seq<InputEdge>)
    ensures forall i, j :: 0 <= i < |es| && 0 <= j < |es| && i != j ==> RenderEdges(es)[i].id != RenderEdges(es)[j].id
  {
    forall i, j | 0 <= i < |es| && 0 <= j < |es| && i != j
      ensures RenderEdges(es)[i].id != RenderEdges(es)[j].id
    {
      NumberedInjective("edge-", i, j);
    }
  }

  function FanInTotal(ns: seq<Node>): nat {
    if ns == [] then 0 else FanInTotal(ns[..|ns| - 1]) + ns[|ns| - 1].fanIn
  }

  function FanOutTotal(ns: seq<Node>): nat {
    if ns == [] then 0 else FanOutTotal(ns[..|ns| - 1]) + ns[|ns| - 1].fanOut
  }

  lemma {:induction false} FanInSum(ns: seq<Node>, tos: seq<string>)
    requires forall k :: 0 <= k < |ns| ==> ns[k].fanIn == Count(tos, ns[k].id)
    ensures FanInTotal(ns) == SumCounts(tos, MaxDepth.IdList(ns))
  {
    if ns != [] {
      var p := ns[..|ns| - 1];
      FanInSum(p, tos);
      assert MaxDepth.IdList(ns)[..|ns| - 1] == MaxDepth.IdList(p);
    }
  }

  lemma {:induction false} FanOutSum(ns: seq<Node>, froms: seq<string>)
    requires forall k :: 0 <= k < |ns| ==> ns[k].fanOut == Count(froms, ns[k].id)
    ensures FanOutTotal(ns) == SumCounts(froms, MaxDepth.IdList(ns))
  {
    if ns != [] {
      var p := ns[..|ns| - 1];
      FanOutSum(p, froms);
      assert MaxDepth.IdList(ns)[..|ns| - 1] == MaxDepth.IdList(p);
    }
  }

  /**
   * Every edge is counted once in the fan-in of its target and once in the
   * fan-out of its source when that endpoint is a node, and never otherwise.
   */
  lemma FanTotals(g: GraphJson)
    ensures FanInTotal(BuiltNodes(g)) == CountIn(Tos(g.edges), MaxDepth.IdList(BuiltNodes(g)))
    ensures FanOutTotal(BuiltNodes(g)) == CountIn(Froms(g.edges), MaxDepth.IdList(BuiltNodes(g)))
  {
    var ns := BuiltNodes(g);
    BuiltNodeIds(g);
    FanInSum(ns, Tos(g.edges));
    FanOutSum(ns, Froms(g.edges));
    SumCountsIsCountIn(Tos(g.edges), MaxDepth.IdList(ns));
    SumCountsIsCountIn(Froms(g.edges), MaxDepth.IdList(ns));
  }

  /** The module list holds exactly the non-empty modules of the nodes. */
  lemma {:induction false} ModuleValuesMembers(ns: seq<Node>, m: string)
    ensures m in ModuleValues(ns) <==> m != "" && exists n :: n in ns && n.moduleId == Some(m)
  {
    if ns != [] {
      var p := ns[..|ns| - 1];
      ModuleValuesMembers(p, m);
      assert ns == p + [ns[|ns| - 1]];
      assert forall n :: n in ns <==> n in p || n == ns[|ns| - 1];
    }
  }

  /** The package list holds exactly the non-empty packages of the type nodes. */
  lemma {:induction false} PackageValuesMembers(ns: seq<Node>, pk: string)
    ensures pk in PackageValues(ns) <==> pk != "" && exists n :: n in ns && n.Package() == Some(pk)
  {
    if ns != [] {
      var p := ns[..|ns| - 1];
      PackageValuesMembers(p, pk);
      assert ns == p + [ns[|ns| - 1]];
      assert forall n :: n in ns <==> n in p || n == ns[|ns| - 1];
    }
  }

  /** The cycle count is positive exactly when some component has more than one vertex. */
  lemma {:induction false} CycleCountPositive(sccs: seq<seq<string>>)
    ensures CycleCount(sccs) > 0 <==> exists k :: 0 <= k < |sccs| && |sccs[k]| > 1
  {
    if sccs != [] {
      var p := sccs[..|sccs| - 1];
      CycleCountPositive(p);
      assert forall k :: 0 <= k < |p| ==> p[k] == sccs[k];
    }
  }

  /**
   * A positive cycle count means two different vertices, the first
   * reachable from node `n`, that reach each other.
   */
  lemma CyclesFound(adj: Adjacency, nodes: seq<Node>, sccs: seq<seq<string>>) returns (x: string, y: string, n: Node)
    requires forall k :: 0 <= k < |sccs| ==> sccs[k] != [] && Distinct(sccs[k])
    requires forall k, x :: 0 <= k < |sccs| && x in sccs[k] ==> exists n :: n in nodes && Reaches(adj, n.id, x)
    requires Tarjan.MutualReachClasses(adj, sccs) && CycleCount(sccs) > 0
    ensures x != y && Reaches(adj, x, y) && Reaches(adj, y, x)
    ensures n in nodes && Reaches(adj, n.id, x)
  {
    CycleCountPositive(sccs);
    var k :| 0 <= k < |sccs| && |sccs[k]| > 1;
    x, y := sccs[k][0], sccs[k][1];
    assert x in sccs[k] && y in sccs[k];
    n :| n in nodes && Reaches(adj, n.id, x);
  }

  lemma TwoMembers(c: seq<string>, x: string, y: string)
    requires x in c && y in c && x != y
    ensures |c| > 1
  {
  }

  /**
   * Two different vertices that reach each other, the first reachable from
   * node `n`, make the cycle count positive, whether or not they are nodes.
   */
  lemma CyclesCounted(adj: Adjacency, nodes: seq<Node>, sccs: seq<seq<string>>, n: Node, x: string, y: string)
    requires forall n, x :: n in nodes && Reaches(adj, n.id, x) ==> Tarjan.Listed(sccs, x)
    requires Tarjan.MutualReachClasses(adj, sccs)
    requires n in nodes && Reaches(adj, n.id, x)
    requires x != y && Reaches(adj, x, y) && Reaches(adj, y, x)
    ensures CycleCount(sccs) > 0
  {
    assert Tarjan.Listed(sccs, x);
    var k :| 0 <= k < |sccs| && x in sccs[k];
    assert y in sccs[k];
    TwoMembers(sccs[k], x, y);
    CycleCountPositive(sccs);
  }
}
