# knitscope-explorer: graph processing and stores, in Dafny

This project models the core of the knitscope-explorer dependency-graph
explorer. That core turns an exported dependency graph into the
renderable graph the explorer shows, runs the analyses behind its metrics
panel, and keeps two stores: the explorer's store and the comparison store.

- `GraphBuilder` (`graph_builder.dfy`) is `buildRenderableGraph`. Nodes go
  through an insertion-ordered map keyed by id. Types are written first,
  then providers, then consumers. Each input edge becomes edge `edge-i` and
  bumps the fan counters of its ends. Module and package lists are
  de-duplicated. The summary metrics come from `Tarjan` (cycle count) and
  `MaxDepth` (Kahn depth). `getShortName` is `ShortName`.
- `Tarjan` (`tarjan.dfy`) is Tarjan's algorithm exactly as the source runs
  it: recursive `strongConnect`, shared index, lowlink and stack,
  `onStack`, and one search started from each node in turn. It is proved to
  emit disjoint components that together hold exactly the vertices
  reachable from a node, edge-only ids included. Each component is a class
  of mutually reachable vertices, so a vertex on no cycle is a component of
  its own.
- `MaxDepth` (`max_depth.dfy`) is `calculateMaxDepth`, Kahn's layered
  traversal. Its result is proved to be the number of edges of the longest
  walk inside the least "peelable" set of keys (`KahnDepth`). That value is
  unique, and the traversal's quirks are proved as lemmas.
- `Algorithms` (`algorithms.dfy`), `LongestPaths` (`longest_paths.dfy`),
  `ShortestPath` (`shortest_path.dfy`) and `Smells` (`smells.dfy`) are the
  analysis functions:
  - `computeGraphMetrics`, with its top-ten fan rankings and `scc-i` records;
  - `findLongestPaths`, a capped depth-first search;
  - `findShortestPath`, a breadth-first search with parent links, proved to
    return a shortest path exactly when one exists;
  - `detectDependencySmells`.
- `Comparison` (`compare_store.dfy`) is the comparison store:
  - `computeGraphDiff` is specified by `GraphDiffOf`, with membership,
    self-diff and symmetry lemmas;
  - class `CompareStore` keeps the diff equal to the diff of the two graphs
    it shows.
- `Exploration` (`graph_store.dfy`) is the explorer's store, class
  `GraphStore`. It has one method per action, and a validity invariant: the
  metrics shown are the metrics of the graph shown.
- `GraphTypes`, `Seqs`, `Text` and `Digraph` hold the shared pieces: the
  records, sequence helpers (first-occurrence de-duplication and a stable
  descending sort, proved stable), decimal rendering and splitting, and adjacency lists
  with paths and reachability.

A thrown exception is an input case. `Document.Malformed` stands for a
document `buildRenderableGraph` throws on, and it carries the error
message when there is one.

## Model

| member | source | states |
|---|---|---|
| GraphBuilder.BuildRenderableGraph | src/lib/graph-builder.ts:3-92 | Nodes are one record per distinct id, in first-write order, each the id's last write with its fan counters. Edge `i` is `edge-i` with the input's ends and kind. Modules and packages are the de-duplicated non-empty values. The counts are the list lengths. The cycle count is the number of multi-vertex components of a component list satisfying `SccList`. `maxDepth` satisfies `KahnDepth`. |
| GraphBuilder.NodesAndEdges | src/lib/graph-builder.ts:4-67 | The map and the edge loop produce exactly `BuiltNodes(g)` and `RenderEdges(g.edges)`. |
| GraphBuilder.WriteNodes | src/lib/graph-builder.ts:7-47 | After the three write loops, the map's key order is the first-occurrence order of all written ids. Its keys are exactly those ids, and each stores its last write. |
| GraphBuilder.WriteTypes | src/lib/graph-builder.ts:8-18 | Writing the type records extends the map invariant by those writes. |
| GraphBuilder.WriteProviders | src/lib/graph-builder.ts:21-33 | Writing the provider records extends the map invariant by those writes. |
| GraphBuilder.WriteConsumers | src/lib/graph-builder.ts:36-47 | Writing the consumer records extends the map invariant by those writes. |
| GraphBuilder.SetNode | src/lib/graph-builder.ts:9-17 | `nodeMap.set(id, record)`: an existing key keeps its position and takes the new record; a new key is appended. |
| GraphBuilder.SetOrder | src/lib/graph-builder.ts:9-17 | A `set` under an id not yet in the map appends it to the key order. A `set` under a present id leaves the order alone. Either way the order is the first-occurrence order of the written ids. |
| GraphBuilder.SetKeys | src/lib/graph-builder.ts:9-17 | After a `set`, the map's keys are exactly the ids written so far. |
| GraphBuilder.SetRecords | src/lib/graph-builder.ts:9-17 | After a `set`, every key stores the last record written under it. |
| GraphBuilder.AddEdges | src/lib/graph-builder.ts:50-65 | The edge list is `edge-i` per input edge. The map keeps its keys. Each node's counters rise by its number of outgoing and incoming edges. |
| GraphBuilder.CountEnds | src/lib/graph-builder.ts:60-64 | One edge raises its source's fan-out and its target's fan-in when they are nodes, and changes nothing else. |
| GraphBuilder.CountSource | src/lib/graph-builder.ts:63 | Only the source's fan-out rises, by one. |
| GraphBuilder.CountTarget | src/lib/graph-builder.ts:64 | Only the target's fan-in rises, by one. |
| GraphBuilder.LastWrite | src/lib/graph-builder.ts:8-47 | A record is found for an id exactly when some write has that id, and it is one of the writes, with that id. |
| GraphBuilder.LastWriteIsLast | src/lib/graph-builder.ts:8-47 | The record found is the last write with that id: no later write has it. |
| GraphBuilder.WriteUnfanned | src/lib/graph-builder.ts:15-16 | Every record enters the map with fan-in and fan-out 0. |
| GraphBuilder.BuiltIds | src/lib/graph-builder.ts:67 | The ids of the node list are the written ids de-duplicated in first-occurrence order. |
| GraphBuilder.BuiltNodeIds | src/lib/graph-builder.ts:67 | Node ids are pairwise distinct, are exactly the written ids, and follow the order of each id's first write. |
| GraphBuilder.BuiltNodeIsLastWrite | src/lib/graph-builder.ts:8-67 | Each node is some write with its counters set, and no later write has its id. |
| GraphBuilder.RenderedEdgeIds | src/lib/graph-builder.ts:52 | Edge ids `edge-i` are pairwise distinct. |
| GraphBuilder.FanTotals | src/lib/graph-builder.ts:50-65 | Total fan-in is the number of edges whose target is a node. Total fan-out is the number whose source is a node. |
| GraphBuilder.FanInSum | src/lib/graph-builder.ts:64 | Per-node fan-in counts add up to the edge targets that are node ids. |
| GraphBuilder.FanOutSum | src/lib/graph-builder.ts:63 | Per-node fan-out counts add up to the edge sources that are node ids. |
| GraphBuilder.ModuleValuesMembers | src/lib/graph-builder.ts:68 | A module is listed exactly when it is non-empty and some node has it. |
| GraphBuilder.PackageValuesMembers | src/lib/graph-builder.ts:69 | A package is listed exactly when it is non-empty and some node has it. |
| GraphBuilder.CycleCountPositive | src/lib/graph-builder.ts:73 | The cycle count is positive exactly when some component has more than one vertex. |
| GraphBuilder.CyclesFound | src/lib/graph-builder.ts:72-73 | A positive cycle count yields two distinct, mutually reachable vertices, the first reachable from a node. |
| GraphBuilder.CyclesCounted | src/lib/graph-builder.ts:72-73 | Two distinct mutually reachable vertices reachable from a node, whether or not they are nodes, make the cycle count positive. |
| GraphBuilder.ShortNameUndotted | src/lib/graph-builder.ts:94-105 | A name without a dot is its own label. |
| GraphBuilder.ShortNameOfSegments | src/lib/graph-builder.ts:94-103 | A name of two or more dot-free segments is labelled `class.member`, or just `class` when the member is `<init>`. |
| GraphBuilder.ShortNameSegments | src/lib/graph-builder.ts:94-105 | A label has at most two dot-separated segments. |
| Text.JoinSplit | src/lib/graph-builder.ts:95 | Joining the parts of `split(".")` gives back the name. |
| Text.SplitJoin | src/lib/graph-builder.ts:95 | Splitting dot-free parts joined by dots gives back the parts. |
| Text.SplitCount | src/lib/graph-builder.ts:96 | A split yields more than one part exactly when the separator occurs. |
| Text.NatToStringRoundTrip | src/lib/graph-builder.ts:52 | The decimal rendering of an index reads back as that index. |
| Text.NumberedInjective | src/lib/algorithms.ts:28 | `prefix + i` and `prefix + j` are equal exactly when `i == j`. |
| Digraph.BuildAdjacency | src/lib/graph-builder.ts:111-119 | The adjacency map: every node id with an empty list, then each edge's target appended to its source's list in edge order, with non-node sources added as keys. |
| Digraph.AdjacencyEdges | src/lib/graph-builder.ts:114-119 | `y` is a successor of `x` exactly when some edge goes from `x` to `y`. |
| Digraph.TargetsMember | src/lib/graph-builder.ts:115-118 | A source's neighbour list holds exactly the targets of its edges. |
| Tarjan.FindStronglyConnectedComponents | src/lib/graph-builder.ts:107-165 | Components are non-empty and duplicate-free, pairwise disjoint, and cover every node. Each member is reachable from a node, and every vertex reachable from a node is in some component. Each component holds exactly the vertices mutually reachable with any one of its members. |
| Tarjan.SearchFromNodes | src/lib/graph-builder.ts:158-164 | The outer loop over the nodes, with the same six guarantees over the built adjacency. |
| Tarjan.OnNoCycleAlone | src/lib/graph-builder.ts:146-155 | A vertex reachable from a node and mutually reachable with no other vertex is emitted as a one-vertex component. |
| Tarjan.SinkAlone | src/lib/graph-builder.ts:114-119 | An edge target with no outgoing edge, reached from a node, is emitted as a one-vertex component, even when it is not a node. |
| Tarjan.VisitRoot | src/lib/graph-builder.ts:158-162 | An unnumbered node starts a search. Afterwards the first `i + 1` nodes are numbered and the search invariant holds. |
| Tarjan.StrongConnect | src/lib/graph-builder.ts:129-156 | `strongConnect(v)` keeps the shared-state invariant and touches only vertices reachable from `v`. Afterwards `v` is numbered and its lowlink is witnessed. Either `v` was the root and its component was emitted, or `v` stays stacked above the caller with a smaller lowlink. |
| Tarjan.StartVertex | src/lib/graph-builder.ts:130-134 | `v` gets the next index as its index and lowlink, and is pushed on the stack and added to `onStack`. |
| Tarjan.VisitNeighbours | src/lib/graph-builder.ts:136-144 | After the loop over all successors, every successor is numbered. The lowlink reflects each tree child's lowlink and each stacked successor's index. |
| Tarjan.CloseVertex | src/lib/graph-builder.ts:146-155 | When the lowlink equals the index, exactly the vertices stacked from `v` up are popped and emitted as one component. |
| Tarjan.PopComponent | src/lib/graph-builder.ts:147-153 | The do-while loop pops the stack down to and including `v`, removes the popped vertices from `onStack`, and returns them in pop order. |
| Tarjan.PopIsScc | src/lib/graph-builder.ts:146-155 | The popped vertices are pairwise mutually reachable, and every vertex mutually reachable with one of them is among them. |
| Tarjan.ComponentsMutual | src/lib/graph-builder.ts:154 | Strongly connected emitted components are exactly the classes of mutual reachability. |
| MaxDepth.CalculateMaxDepth | src/lib/graph-builder.ts:167-215 | The result is the depth `KahnDepth` defines: the edge count of the longest walk inside the least set containing every key all of whose incoming edges leave the set. |
| MaxDepth.KahnDepthUnique | src/lib/graph-builder.ts:167-215 | That depth is determined by the node and edge lists. |
| MaxDepth.CountInDegrees | src/lib/graph-builder.ts:171-182 | Keys are the node ids, then the new edge targets, in insertion order. Each key's value is its number of incoming edges. |
| MaxDepth.CountNodes | src/lib/graph-builder.ts:172-175 | Every node id is set to 0, with keys in first-insertion order. |
| MaxDepth.CountEdges | src/lib/graph-builder.ts:177-182 | Each target's count rises by one per edge into it. Unknown targets become keys. |
| MaxDepth.CountEdge | src/lib/graph-builder.ts:181 | One edge adds its target as a key if needed and raises its count. |
| MaxDepth.SeedQueue | src/lib/graph-builder.ts:185-194 | The queue holds exactly the keys of in-degree 0, once each and in key order, all at depth 0. |
| MaxDepth.Drain | src/lib/graph-builder.ts:196-212 | Draining the seeded queue returns the `KahnDepth` of the lists. |
| MaxDepth.Release | src/lib/graph-builder.ts:202-211 | Handling every successor of the dequeued vertex keeps the traversal invariant and leaves fewer keys to dequeue. |
| MaxDepth.ReleaseEdge | src/lib/graph-builder.ts:204-210 | One successor edge lowers the successor's in-degree by one. The successor is queued one layer deeper exactly when that reaches 0. |
| MaxDepth.PendingRelease | src/lib/graph-builder.ts:204-205 | Releasing a vertex lowers each target's pending count by its number of edges from that vertex. |
| MaxDepth.PendingZero | src/lib/graph-builder.ts:207 | No edge into `v` is pending exactly when every edge into `v` leaves a released vertex. |
| MaxDepth.LeastWithinKeys | src/lib/graph-builder.ts:189-209 | Only keys of the in-degree map are ever queued. |
| MaxDepth.NoEdgesNoDepth | src/lib/graph-builder.ts:196-214 | Without edges the depth is 0. |
| MaxDepth.ChainDepth | src/lib/graph-builder.ts:196-214 | A simple chain of `k + 1` nodes has depth `k`. |
| MaxDepth.UnknownSourceBlocks | src/lib/graph-builder.ts:177-182 | An edge from an id that is neither a node nor a target is never released, so its target is never queued. |
| MaxDepth.UnknownTargetCounts | src/lib/graph-builder.ts:181 | An edge target that is not a node is still queued. One node with one edge to an unknown id has depth 1. |
| Algorithms.ComputeGraphMetrics | src/lib/algorithms.ts:3-33 | Both fan rankings, the five longest paths (`LongestPathsOf` with `maxPaths` 5), and component records that read back as a component list satisfying `SccList`, numbered `scc-i`. |
| Algorithms.FanInRankingIsTop | src/lib/algorithms.ts:10-13 | The fan-in ranking has min(10, #nodes) entries, copies each ranked node's id and fan-in, and is non-increasing in fan-in. |
| Algorithms.FanInRankingComplete | src/lib/algorithms.ts:10-13 | Ranked nodes are drawn from the input, no omitted node has a higher fan-in than a ranked one, and with ten nodes or fewer all are ranked. |
| Algorithms.FanOutRankingIsTop | src/lib/algorithms.ts:15-18 | The same as FanInRankingIsTop for fan-out. |
| Algorithms.FanOutRankingComplete | src/lib/algorithms.ts:15-18 | The same as FanInRankingComplete for fan-out. |
| Algorithms.SccRecordsFaithful | src/lib/algorithms.ts:27-31 | Record `i` has id `scc-i`, the component's members and its size. Ids are distinct, and the member lists read back. |
| Seqs.SortDesc | src/lib/algorithms.ts:11 | The sort is a permutation of its input and is non-increasing by the key. |
| Seqs.SortDescStable | src/lib/algorithms.ts:11 | The sort is stable: the elements with any one key value come out in their input order. |
| Seqs.WithKeyPrefix | src/lib/algorithms.ts:12 | Cutting a list to a prefix cuts the elements of each key value to a prefix of them. |
| Algorithms.FanInTiesInInputOrder | src/lib/algorithms.ts:10-13 | Nodes with equal fan-in are ranked in input order: those ranked are the first input nodes with that value. |
| Algorithms.FanOutTiesInInputOrder | src/lib/algorithms.ts:15-18 | The same for fan-out. |
| Seqs.TakeOfSortedIsTop | src/lib/algorithms.ts:11-12 | The first `n` of a descending sort are input elements, and no element left out has a larger key. |
| Seqs.DedupOrder | src/lib/graph-builder.ts:68 | `Array.from(new Set(xs))` keeps first occurrences in order. |
| Seqs.DedupMembers | src/lib/graph-builder.ts:68-69 | De-duplication keeps exactly the elements of the input. |
| LongestPaths.FindLongestPaths | src/lib/algorithms.ts:95-142 | The result is `LongestPathsOf`: all recorded paths, stably sorted by decreasing length, cut to `maxPaths`. |
| LongestPaths.Dfs | src/lib/algorithms.ts:113-130 | `dfs(node, path)` appends exactly the paths `Explore` records from that path, in push order. |
| LongestPaths.LongestPathsShape | src/lib/algorithms.ts:95-142 | At most `maxPaths` records, by non-increasing length. Each record's length is its path's length. Each path is a simple path of 2 to 20 vertices from a node that no successor extends. |
| LongestPaths.ExploreRecorded | src/lib/algorithms.ts:113-130 | Every path a search records extends its start, follows edges, repeats no vertex, has at most 20 entries and cannot be extended. |
| LongestPaths.GatherRecorded | src/lib/algorithms.ts:133-137 | Every path gathered by the outer loop is recorded by the search from some node. |
| LongestPaths.TiesInSearchOrder | src/lib/algorithms.ts:139-141 | Paths of equal length are returned in the order the searches recorded them: those returned are the first recorded paths of that length. |
| LongestPaths.LoneNodeNoPaths | src/lib/algorithms.ts:127-129 | A single node without edges has no paths: a one-vertex path is never recorded. |
| ShortestPath.FindShortestPath | src/lib/algorithms.ts:144-191 | A path is returned exactly when the target is reachable. It starts at the source, ends at the target and follows edges, and no path between them is shorter. Source equal to target gives `[source]`. |
| ShortestPath.Reconstruct | src/lib/algorithms.ts:168-178 | Following parent links back from the target gives a path from the source whose length is the target's layer plus one. |
| ShortestPath.Expand | src/lib/algorithms.ts:180-187 | Every unvisited successor of `current` is marked visited, given `current` as parent and queued, in successor order. Nothing else changes. |
| ShortestPath.Found | src/lib/algorithms.ts:166-177 | When the target leaves the queue, the reconstructed path is a shortest path. |
| ShortestPath.NotFound | src/lib/algorithms.ts:190 | When the queue empties without the target, the target is unreachable. |
| ShortestPath.Dequeued | src/lib/algorithms.ts:165-188 | One turn of the search loop keeps the breadth-first invariant: a parent tree, queue layers, closed dequeued vertices, and layers no longer than any path. |
| Smells.DetectDependencySmells | src/lib/algorithms.ts:193-253 | The findings are `SmellsOf(nodes)`: duplicate providers per provided type in first-seen order, then high fan-out, then high fan-in. |
| Smells.GroupProviders | src/lib/algorithms.ts:210-217 | The map is keyed by the provided types in first-seen order, each holding exactly that type's providers in node order. |
| Smells.DuplicateFindings | src/lib/algorithms.ts:219-230 | One finding per type whose providers span modules, in key order. |
| Smells.AppendFanFindings | src/lib/algorithms.ts:233-250 | Appends one finding per node whose fan count exceeds 5, in node order. |
| Smells.DuplicateFindingsSound | src/lib/algorithms.ts:219-230 | Every duplicate-provider finding names all providers of one type, and those span two named modules. |
| Smells.DuplicateFindingComplete | src/lib/algorithms.ts:219-230 | Every type whose providers span two named modules is reported. |
| Smells.FanFindingsExact | src/lib/algorithms.ts:233-250 | A fan finding exists for a node exactly when its fan count exceeds 5. |
| Smells.FanFindingsListed | src/lib/algorithms.ts:233-250 | The findings of one fan kind, in order, are one finding per node with fan count above 5, in node order, each naming only that node with the count in its description. |
| Smells.HighFanMembers | src/lib/algorithms.ts:233-243 | `nodes.filter(n => n.fan > 5)` keeps exactly the nodes whose count exceeds 5. |
| Smells.ModulesSpanned | src/lib/algorithms.ts:220-222 | "More than one provider and more than one distinct named module" is exactly "two providers in different named modules". |
| Smells.ProvidedTypesMembers | src/lib/algorithms.ts:211-212 | A type is grouped exactly when some provider node provides it. |
| Smells.ProvidersOfMembers | src/lib/algorithms.ts:211-215 | A type's group holds exactly the provider nodes that provide it. |
| Comparison.ComputeGraphDiff | src/store/compare-store.ts:69-116 | The diff is `GraphDiffOf(baseline, candidate)`. |
| Comparison.DiffNodes | src/store/compare-store.ts:76-77 | A node is added exactly when it is a candidate node whose id the baseline lacks. Removed is the converse. |
| Comparison.DiffChanges | src/store/compare-store.ts:80-91 | A change is reported exactly for an id on both sides whose map records differ. Both records carry that id. |
| Comparison.DiffChangesDistinct | src/store/compare-store.ts:80-91 | No two changes carry the same id, so no change is listed twice. |
| Comparison.ChangedForIds | src/store/compare-store.ts:81-91 | Over distinct ids, each change carries one of them and no two changes carry the same one. |
| Comparison.DiffEdges | src/store/compare-store.ts:94-98 | An edge is added exactly when it is a candidate edge whose key no baseline edge has. Removed is the converse. |
| Comparison.SelfDiffEmpty | src/store/compare-store.ts:69-116 | A graph compared with itself has no added, removed or changed nodes or edges, and zero deltas. |
| Comparison.DiffSwap | src/store/compare-store.ts:69-116 | Swapping the sides swaps added and removed, reverses each change and negates every delta. |
| Comparison.EdgeKeyCollision | src/store/compare-store.ts:94-98 | Two different edges `a-b → c` and `a → b-c` of the same kind share one key, so neither is reported. |
| Comparison.NodesWithoutIdsMembers | src/store/compare-store.ts:76-77 | The node filter keeps exactly the nodes whose id is outside the set. |
| Comparison.EdgesWithoutKeysMembers | src/store/compare-store.ts:97-98 | The edge filter keeps exactly the edges whose key is outside the set. |
| Comparison.ChangedForMembers | src/store/compare-store.ts:81-91 | The loop's output holds exactly the changed record pairs of the visited ids. |
| Comparison.CompareStore.constructor | src/store/compare-store.ts:15-17 | No graphs and no diff. |
| Comparison.CompareStore.SetBaselineGraph | src/store/compare-store.ts:20-32 | A well-formed document becomes the baseline, built by `buildRenderableGraph`, and the diff is kept equal to the diff of the two graphs shown. A malformed one changes nothing. The candidate is untouched. |
| Comparison.CompareStore.SetCandidateGraph | src/store/compare-store.ts:34-46 | The same, for the candidate side. |
| Comparison.BuildGraph | src/store/compare-store.ts:22 | The graph kept is `buildRenderableGraph`'s output for the document. |
| Comparison.CompareStore.ShowBaseline | src/store/compare-store.ts:23-28 | The baseline becomes the built graph, the candidate is kept, and the diff is recomputed when a candidate is shown, so it stays that of the two graphs. |
| Comparison.CompareStore.ShowCandidate | src/store/compare-store.ts:37-42 | The same, for the candidate side. |
| Comparison.CompareStore.ClearComparison | src/store/compare-store.ts:48-54 | Both graphs and the diff are dropped. |
| Comparison.CompareStore.ComputeDiff | src/store/compare-store.ts:56-66 | The graphs are kept. The diff becomes theirs when both are present, otherwise none. |
| Exploration.ToggleTwice | src/store/graph-store.ts:89-100 | Toggling the same element twice restores the set. |
| Exploration.ToggleCommutes | src/store/graph-store.ts:122-138 | Toggles of two elements commute. |
| Exploration.Toggle | src/store/graph-store.ts:89-100 | The element is in the result exactly when it was not in the set, and no other element changes. |
| Exploration.MergeLaws | src/store/graph-store.ts:102-110 | An empty update is the identity, a full update replaces every field, and an update applied twice is applied once. |
| Exploration.MergeThen | src/store/graph-store.ts:102-110 | Two updates in a row are one update in which the later fields win. |
| Exploration.ClusterKeys | src/store/graph-store.ts:194-205 | The computed key of each mode is the name of its own flag: `byModule` and `byPackage`. |
| Exploration.ClusterKeyNamesFlag | src/store/graph-store.ts:194-205 | Each mode sets its own flag and keeps the other. |
| Exploration.BuildAndMeasure | src/store/graph-store.ts:49-50 | The graph is `buildRenderableGraph`'s output and the metrics are `computeGraphMetrics` of its nodes and edges. |
| Exploration.GraphStore.constructor | src/store/graph-store.ts:6-16 | The initial state: no graph, no selection, the initial filters, no metrics, not loading, no error. |
| Exploration.GraphStore.LoadGraph | src/store/graph-store.ts:45-73 | A well-formed document shows the built graph and its metrics, empties the module and package filters and the selection, and clears the error. A malformed one keeps everything and records its message or "Failed to load graph". Loading is over either way, and the metrics stay those of the graph shown. |
| Exploration.GraphStore.ShowLoaded | src/store/graph-store.ts:59-66 | The state a successful load sets. |
| Exploration.GraphStore.ClearGraph | src/store/graph-store.ts:75-83 | Graph, selection, filters, metrics and error return to the initial values. The loading flag is kept. |
| Exploration.GraphStore.SetSelectedNodes | src/store/graph-store.ts:85-87 | The selection becomes exactly the given ids. Nothing else changes. |
| Exploration.GraphStore.ToggleNodeSelection | src/store/graph-store.ts:89-100 | The node's selection flips. Nothing else changes. |
| Exploration.GraphStore.UpdateFilters | src/store/graph-store.ts:102-110 | The given filter fields replace the current ones. Nothing else changes. |
| Exploration.GraphStore.SetSearchTerm | src/store/graph-store.ts:112-120 | The update that sets only the search term. Nothing else changes. |
| Exploration.GraphStore.ToggleNodeKind | src/store/graph-store.ts:122-138 | The node kind's visibility flips. Nothing else changes. |
| Exploration.GraphStore.ToggleEdgeKind | src/store/graph-store.ts:140-156 | The edge kind's visibility flips. Nothing else changes. |
| Exploration.GraphStore.ToggleModule | src/store/graph-store.ts:158-174 | The module's membership in the module filter flips. Nothing else changes. |
| Exploration.GraphStore.TogglePackage | src/store/graph-store.ts:176-192 | The package's membership in the package filter flips. Nothing else changes. |
| Exploration.GraphStore.SetClusterMode | src/store/graph-store.ts:194-205 | The flag named by the mode's computed key takes the value, and the other flag is kept. Nothing else changes. |
| Exploration.GraphStore.SetError | src/store/graph-store.ts:207-209 | Only the error changes. |
| Exploration.GraphStore.SetLoading | src/store/graph-store.ts:211-213 | Only the loading flag changes. |

## Left out

- Input validation (`validateGraphJson`) and the UI components are not part of this model. An exception thrown by `buildRenderableGraph` is modelled as `Document.Malformed`, with the message of the `Error` when there is one.
- `findStronglyConnectedComponents` appears twice in the source, as identical code: src/lib/graph-builder.ts:107-165 and src/lib/algorithms.ts:35-93 (the exported one, which `computeGraphMetrics` calls). It is modelled once, as `Tarjan.FindStronglyConnectedComponents`, and the table cites the first copy.
- The adjacency list of `findLongestPaths` and `findShortestPath` is the same construction as the builder's, so it is modelled once, as `Digraph.BuildAdjacency`.
- The `visited` set of `findLongestPaths` is created but never used, so it is not modelled.
- The `moduleGroups` map of `detectDependencySmells` is built and never read, and its `edges` parameter is unused. Neither affects the result, so `Smells.DetectDependencySmells` takes `edges` and ignores it.
- `JSON.stringify(before) !== JSON.stringify(after)` in `computeGraphDiff` is modelled as inequality of the node records. This relies on records of the same kind being built with their keys in the same order, which the builder guarantees.
- `console.error` in the comparison store's catch blocks is I/O and is left out. The model keeps only its effect, which is that nothing changes.
- `loadGraph` first sets `isLoading: true, error: null` and then overwrites both before returning, since the action is synchronous. Only the final state is modelled.
- Exploration.GraphStore.LoadGraph: the source comment speaks of updating the filters "with available modules and packages", but the code empties both sets. The model follows the code.
- Exploration.GraphStore.LoadGraph: the contract does not state the `isLoading`/`error` state between the first `set` and the last one, for the reason above.
- Exploration.GraphStore.Valid ties the metrics to the graph shown. It does not also require the graph to be some document's builder output; `LoadGraph`'s postcondition (`Processed`) states that instead.
- Exploration.GraphStore.UpdateFilters: a `Partial<GraphFilters>` whose field is present but explicitly `undefined` (which the spread would copy) is not modelled. A field is either given or absent.
- Comparison.EdgeKeyCollision: the diff compares edges by the concatenated string, as the source does. The collision this allows is exhibited by the lemma rather than corrected.
- `findLongestPaths` takes `maxPaths` as a parameter. The metrics call it with its default of 5 (`Algorithms.PathCount`).
- JavaScript numbers are modelled as unbounded integers. No count in this core comes near 2^53.
