/**
 * The explorer's store: the graph being explored, its analysis metrics,
 * the selected nodes, the view filters, and the loading and error flags.
 */
module Exploration {
  import opened GraphTypes
  import opened Seqs
  import opened GraphBuilder
  import opened Algorithms

  // ---------------------------------------------------------------------
  // Filters.

  /** The filters of a fresh store: every kind shown, no module or package filter, clusters by module. */
  const InitialFilters: GraphFilters := GraphFilters(
    "",
    {TypeKind, ProviderKind, ConsumerKind},
    {Provides, Requires, Needs},
    {},
    {},
    ShowClusters(true, false))

  /** `Set.has(x) ? delete(x) : add(x)` on a copy of the set. */
  function Toggle<T>(s: set<T>, x: T): (r: set<T>)
    ensures x in r <==> x !in s
    ensures r - {x} == s - {x}
  {
    if x in s then s - {x} else s + {x}
  }

  /** Toggling the same element twice restores the set. */
  lemma ToggleTwice<T>(s: set<T>, x: T)
    ensures Toggle(Toggle(s, x), x) == s
  {
    var t := Toggle(Toggle(s, x), x);
    assert x in t <==> x in s;
    assert t - {x} == s - {x};
    assert forall y :: y in t <==> y in s;
  }

  /** Toggles of two elements commute. */
  lemma ToggleCommutes<T>(s: set<T>, x: T, y: T)
    ensures Toggle(Toggle(s, x), y) == Toggle(Toggle(s, y), x)
  {
  }

  /** A `Partial<GraphFilters>`: the fields an update sets. */
  datatype FilterUpdate = FilterUpdate(
    searchTerm: Option<string>,
    nodeKinds: Option<set<NodeKind>>,
    edgeKinds: Option<set<EdgeKind>>,
    modules: Option<set<string>>,
    packages: Option<set<string>>,
    showClusters: Option<ShowClusters>)

  const NoUpdate: FilterUpdate := FilterUpdate(None, None, None, None, None, None)

  function Pick<T>(given: Option<T>, current: T): T {
    if given.Some? then given.value else current
  }

  /** `{ ...filters, ...update }`. */
  function Merge(f: GraphFilters, u: FilterUpdate): GraphFilters {
    GraphFilters(
      Pick(u.searchTerm, f.searchTerm),
      Pick(u.nodeKinds, f.nodeKinds),
      Pick(u.edgeKinds, f.edgeKinds),
      Pick(u.modules, f.modules),
      Pick(u.packages, f.packages),
      Pick(u.showClusters, f.showClusters))
  }

  /** `{ ...first, ...second }` of two partial updates: the later field wins. */
  function Then(first: FilterUpdate, second: FilterUpdate): FilterUpdate {
    FilterUpdate(
      if second.searchTerm.Some? then second.searchTerm else first.searchTerm,
      if second.nodeKinds.Some? then second.nodeKinds else first.nodeKinds,
      if second.edgeKinds.Some? then second.edgeKinds else first.edgeKinds,
      if second.modules.Some? then second.modules else first.modules,
      if second.packages.Some? then second.packages else first.packages,
      if second.showClusters.Some? then second.showClusters else first.showClusters)
  }

  /** The update of all fields of `f`. */
  function Whole(f: GraphFilters): FilterUpdate {
    FilterUpdate(Some(f.searchTerm), Some(f.nodeKinds), Some(f.edgeKinds), Some(f.modules), Some(f.packages), Some(f.showClusters))
  }

  /**
   * An empty update changes nothing, a full update replaces everything, and
   * applying an update twice is applying it once.
   */
  lemma MergeLaws(f: GraphFilters, g: GraphFilters, u: FilterUpdate)
    ensures Merge(f, NoUpdate) == f
    ensures Merge(f, Whole(g)) == g
    ensures Merge(Merge(f, u), u) == Merge(f, u)
  {
  }

  /** Two updates in a row are the one update in which the later fields win. */
  lemma MergeThen(f: GraphFilters, u: FilterUpdate, v: FilterUpdate)
    ensures Merge(Merge(f, u), v) == Merge(f, Then(u, v))
  {
  }

  /** `"by" + mode.charAt(0).toUpperCase() + mode.slice(1)`: the cluster flag a mode names. */
  function ClusterKey(mode: ClusterMode): string {
    var name := if mode == ByModule then "module" else "package";
    "by" + Capitalized(name)
  }

  /** Upper-cases the first character when it is an ASCII lower-case letter. */
  function Capitalized(s: string): string {
    if s == [] then s
    else if 'a' <= s[0] <= 'z' then [(s[0] as int - 32) as char] + s[1..]
    else s
  }

  /** `{ ...showClusters, [key]: enabled }` for the two keys the flags have. */
  function WithCluster(sc: ShowClusters, key: string, enabled: bool): ShowClusters {
    if key == "byModule" then sc.(byModule := enabled)
    else if key == "byPackage" then sc.(byPackage := enabled)
    else sc
  }

  /** The computed key of each mode is the name of its own flag. */
  lemma ClusterKeys()
    ensures ClusterKey(ByModule) == "byModule" && ClusterKey(ByPackage) == "byPackage"
  {
    var m, p := "module", "package";
    assert m[0] == 'm' && ('m' as int - 32) as char == 'M' && m[1..] == "odule";
    assert Capitalized(m) == "Module";
    assert p[0] == 'p' && ('p' as int - 32) as char == 'P' && p[1..] == "ackage";
    assert Capitalized(p) == "Package";
  }

  /** So each mode sets its own flag and keeps the other. */
  lemma ClusterKeyNamesFlag(sc: ShowClusters, mode: ClusterMode, enabled: bool)
    ensures var r := WithCluster(sc, ClusterKey(mode), enabled);
      if mode == ByModule then r.byModule == enabled && r.byPackage == sc.byPackage
      else r.byPackage == enabled && r.byModule == sc.byModule
  {
    ClusterKeys();
  }

  /** `error instanceof Error ? error.message : "Failed to load graph"`. */
  function LoadError(message: Option<string>): string {
    if message.Some? then message.value else "Failed to load graph"
  }

  /** The work of a successful load: build the processed graph, then compute the metrics of its nodes and edges. */
  method BuildAndMeasure(g: GraphJson) returns (pg: ProcessedGraph, m: GraphMetrics)
    ensures Processed(g, pg) && MetricsFor(pg.nodes, pg.edges, m)
  {
    var sccs;
    pg, sccs := BuildRenderableGraph(g);
    m := ComputeGraphMetrics(pg.nodes, pg.edges);
  }

  // ---------------------------------------------------------------------
  // The store.

  class GraphStore {
    var currentGraph: Option<ProcessedGraph>
    var selectedNodes: set<string>
    var filters: GraphFilters
    var metrics: Option<GraphMetrics>
    var isLoading: bool
    var error: Option<string>

    /**
     * A graph is shown exactly when metrics are, and the metrics shown are
     * those of the graph's nodes and edges.
     */
    ghost predicate Valid()
      reads this`currentGraph, this`metrics
    {
      && (currentGraph.Some? <==> metrics.Some?)
      && (currentGraph.Some? ==> MetricsFor(currentGraph.value.nodes, currentGraph.value.edges, metrics.value))
    }

    constructor()
      ensures currentGraph == None && selectedNodes == {} && filters == InitialFilters
      ensures metrics == None && !isLoading && error == None
      ensures Valid()
    {
      currentGraph := None;
      selectedNodes := {};
      filters := InitialFilters;
      metrics := None;
      isLoading := false;
      error := None;
    }

    /**
     * `loadGraph(graphJson)`: build the graph and compute its metrics, show
     * both, clear the module and package filters and the selection; a
     * document the builder throws on leaves the graph as it was and records
     * the error. Loading ends in both cases.
     */
    method LoadGraph(doc: Document)
      requires Valid()
      modifies this
      ensures Valid()
      ensures !isLoading
      ensures doc.Wellformed? ==>
        && currentGraph.Some? && Processed(doc.graph, currentGraph.value) && metrics.Some?
        && filters == old(filters).(modules := {}, packages := {})
        && selectedNodes == {} && error == None
      ensures doc.Malformed? ==>
        && currentGraph == old(currentGraph) && metrics == old(metrics)
        && filters == old(filters) && selectedNodes == old(selectedNodes)
        && error == Some(LoadError(doc.message))
    {
      if doc.Malformed? {
        isLoading, error := false, Some(LoadError(doc.message));
        return;
      }
      var processedGraph, m := BuildAndMeasure(doc.graph);
      ShowLoaded(processedGraph, m);
    }

    /**
     * The state a successful load sets: the graph and its metrics, the
     * current filters with the module and package filters emptied, no
     * selection, no error, loading over.
     */
    method ShowLoaded(pg: ProcessedGraph, m: GraphMetrics)
      modifies this
      ensures currentGraph == Some(pg) && metrics == Some(m)
      ensures filters == old(filters).(modules := {}, packages := {}) && selectedNodes == {}
      ensures !isLoading && error == None
    {
      currentGraph := Some(pg);
      metrics := Some(m);
      filters := filters.(modules := {}, packages := {});
      selectedNodes := {};
      isLoading := false;
      error := None;
    }

    /** `clearGraph()`: back to the initial graph, selection, filters, metrics and error; the loading flag is kept. */
    method ClearGraph()
      modifies this
      ensures currentGraph == None && selectedNodes == {} && filters == InitialFilters
      ensures metrics == None && error == None && isLoading == old(isLoading)
      ensures Valid()
    {
      currentGraph, selectedNodes, filters, metrics, error := None, {}, InitialFilters, None, None;
    }

    /** `setSelectedNodes(nodeIds)`: the selection becomes the set of the given ids. */
    method SetSelectedNodes(nodeIds: seq<string>)
      modifies this
      ensures selectedNodes == Elems(nodeIds)
      ensures forall id :: id in selectedNodes <==> id in nodeIds
      ensures currentGraph == old(currentGraph) && filters == old(filters) && metrics == old(metrics)
      ensures isLoading == old(isLoading) && error == old(error)
    {
      selectedNodes := Elems(nodeIds);
    }

    /** `toggleNodeSelection(nodeId)`: select the node when unselected, unselect it when selected. */
    method ToggleNodeSelection(nodeId: string)
      modifies this
      ensures selectedNodes == Toggle(old(selectedNodes), nodeId)
      ensures currentGraph == old(currentGraph) && filters == old(filters) && metrics == old(metrics)
      ensures isLoading == old(isLoading) && error == old(error)
    {
      selectedNodes := Toggle(selectedNodes, nodeId);
    }

    /** `updateFilters(newFilters)`: the given fields replace the current ones. */
    method UpdateFilters(u: FilterUpdate)
      modifies this
      ensures filters == Merge(old(filters), u)
      ensures currentGraph == old(currentGraph) && selectedNodes == old(selectedNodes) && metrics == old(metrics)
      ensures isLoading == old(isLoading) && error == old(error)
    {
      filters := Merge(filters, u);
    }

    /** `setSearchTerm(term)`: the update that sets the search term only. */
    method SetSearchTerm(term: string)
      modifies this
      ensures filters == Merge(old(filters), NoUpdate.(searchTerm := Some(term)))
      ensures filters.searchTerm == term
      ensures currentGraph == old(currentGraph) && selectedNodes == old(selectedNodes) && metrics == old(metrics)
      ensures isLoading == old(isLoading) && error == old(error)
    {
      filters := filters.(searchTerm := term);
    }

    /** `toggleNodeKind(kind)`: show a hidden node kind, hide a shown one. */
    method ToggleNodeKind(kind: NodeKind)
      modifies this
      ensures filters == old(filters).(nodeKinds := Toggle(old(filters).nodeKinds, kind))
      ensures currentGraph == old(currentGraph) && selectedNodes == old(selectedNodes) && metrics == old(metrics)
      ensures isLoading == old(isLoading) && error == old(error)
    {
      filters := filters.(nodeKinds := Toggle(filters.nodeKinds, kind));
    }

    /** `toggleEdgeKind(kind)`: show a hidden edge kind, hide a shown one. */
    method ToggleEdgeKind(kind: EdgeKind)
      modifies this
      ensures filters == old(filters).(edgeKinds := Toggle(old(filters).edgeKinds, kind))
      ensures currentGraph == old(currentGraph) && selectedNodes == old(selectedNodes) && metrics == old(metrics)
      ensures isLoading == old(isLoading) && error == old(error)
    {
      filters := filters.(edgeKinds := Toggle(filters.edgeKinds, kind));
    }

    /** `toggleModule(module)`: add the module to the module filter or remove it. */
    method ToggleModule(moduleId: string)
      modifies this
      ensures filters == old(filters).(modules := Toggle(old(filters).modules, moduleId))
      ensures currentGraph == old(currentGraph) && selectedNodes == old(selectedNodes) && metrics == old(metrics)
      ensures isLoading == old(isLoading) && error == old(error)
    {
      filters := filters.(modules := Toggle(filters.modules, moduleId));
    }

    /** `togglePackage(pkg)`: add the package to the package filter or remove it. */
    method TogglePackage(pkg: string)
      modifies this
      ensures filters == old(filters).(packages := Toggle(old(filters).packages, pkg))
      ensures currentGraph == old(currentGraph) && selectedNodes == old(selectedNodes) && metrics == old(metrics)
      ensures isLoading == old(isLoading) && error == old(error)
    {
      filters := filters.(packages := Toggle(filters.packages, pkg));
    }

    /** `setClusterMode(mode, enabled)`: set the flag the mode's computed key names. */
    method SetClusterMode(mode: ClusterMode, enabled: bool)
      modifies this
      ensures filters == old(filters).(showClusters := WithCluster(old(filters).showClusters, ClusterKey(mode), enabled))
      ensures mode == ByModule ==> filters.showClusters == old(filters).showClusters.(byModule := enabled)
      ensures mode == ByPackage ==> filters.showClusters == old(filters).showClusters.(byPackage := enabled)
      ensures currentGraph == old(currentGraph) && selectedNodes == old(selectedNodes) && metrics == old(metrics)
      ensures isLoading == old(isLoading) && error == old(error)
    {
      ClusterKeyNamesFlag(filters.showClusters, mode, enabled);
      filters := filters.(showClusters := WithCluster(filters.showClusters, ClusterKey(mode), enabled));
    }

    /** `setError(error)`. */
    method SetError(e: Option<string>)
      modifies this
      ensures error == e
      ensures currentGraph == old(currentGraph) && selectedNodes == old(selectedNodes) && filters == old(filters)
      ensures metrics == old(metrics) && isLoading == old(isLoading)
    {
      error := e;
    }

    /** `setLoading(loading)`. */
    method SetLoading(loading: bool)
      modifies this
      ensures isLoading == loading
      ensures currentGraph == old(currentGraph) && selectedNodes == old(selectedNodes) && filters == old(filters)
      ensures metrics == old(metrics) && error == old(error)
    {
      isLoading := loading;
    }
  }
}
