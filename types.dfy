/**
 * The shapes shared by the builder, the analyses, the diff engine and the
 * stores: the raw input document, the processed graph with its nodes and
 * edges, the analysis records and the filter record of the graph store.
 */
module GraphTypes {

  datatype Option<T> = None | Some(value: T)

  /** The three edge kinds of the input document. */
  datatype EdgeKind = Provides | Requires | Needs

  /** The wire name of an edge kind, as used in the diff key. */
  function EdgeKindName(k: EdgeKind): (name: string)
    ensures |name| > 0
  {
    match k
    case Provides => "provides"
    case Requires => "requires"
    case Needs => "needs"
  }

  /** The discriminant of a node: what the filter store toggles. */
  datatype NodeKind = TypeKind | ProviderKind | ConsumerKind

  /**
   * The kind-specific part of a node. A type node may carry a package; a
   * provider names its owner, the type it provides and what it requires;
   * a consumer names its owner and the type it needs.
   */
  datatype NodeDetail =
    | TypeDetail(package: Option<string>)
    | ProviderDetail(owner: string, providesType: string, requiredTypes: seq<string>)
    | ConsumerDetail(owner: string, needs: string)

  /** A node of the processed graph, with its derived degree counters. */
  datatype Node = Node(
    id: string,
    displayLabel: string,
    moduleId: Option<string>,
    detail: NodeDetail,
    fanIn: nat,
    fanOut: nat)
  {
    function Kind(): NodeKind {
      match detail
      case TypeDetail(_) => TypeKind
      case ProviderDetail(_, _, _) => ProviderKind
      case ConsumerDetail(_, _) => ConsumerKind
    }

    /** Only type nodes carry a package. */
    function Package(): Option<string> {
      if detail.TypeDetail? then detail.package else None
    }
  }

  /** An edge of the processed graph, with its synthetic id `edge-i`. */
  datatype Edge = Edge(id: string, source: string, target: string, kind: EdgeKind)

  // The raw input document.
  datatype TypeEntry = TypeEntry(id: string, moduleId: Option<string>, package: Option<string>)
  datatype ProviderEntry = ProviderEntry(id: string, providedType: string, owner: string, moduleId: Option<string>, requiredTypes: seq<string>)
  datatype ConsumerEntry = ConsumerEntry(id: string, needs: string, owner: string, moduleId: Option<string>)
  datatype InputEdge = InputEdge(from: string, to: string, kind: EdgeKind)
  datatype GraphJson = GraphJson(
    types: seq<TypeEntry>,
    providers: seq<ProviderEntry>,
    consumers: seq<ConsumerEntry>,
    edges: seq<InputEdge>)

  /**
   * What a store action receives: a document of the expected shape, or one
   * the builder throws on, with the message of the thrown `Error` when it
   * is one.
   */
  datatype Document = Wellformed(graph: GraphJson) | Malformed(message: Option<string>)

  /** The summary counts of a processed graph. */
  datatype Metrics = Metrics(
    nodeCount: nat,
    edgeCount: nat,
    moduleCount: nat,
    packageCount: nat,
    cycleCount: nat,
    maxDepth: nat)

  datatype ProcessedGraph = ProcessedGraph(
    nodes: seq<Node>,
    edges: seq<Edge>,
    modules: seq<string>,
    packages: seq<string>,
    metrics: Metrics)

  // Analysis results.
  datatype StronglyConnectedComponent = StronglyConnectedComponent(id: string, nodes: seq<string>, size: nat)
  datatype FanInEntry = FanInEntry(nodeId: string, fanIn: nat)
  datatype FanOutEntry = FanOutEntry(nodeId: string, fanOut: nat)
  datatype PathRecord = PathRecord(path: seq<string>, length: nat)
  datatype GraphMetrics = GraphMetrics(
    highFanInNodes: seq<FanInEntry>,
    highFanOutNodes: seq<FanOutEntry>,
    longestPaths: seq<PathRecord>,
    stronglyConnectedComponents: seq<StronglyConnectedComponent>)

  // The diff of two processed graphs.
  datatype NodeChange = NodeChange(before: Node, after: Node)
  datatype MetricsDelta = MetricsDelta(
    nodeCountDelta: int,
    edgeCountDelta: int,
    cycleCountDelta: int,
    maxDepthDelta: int)
  datatype GraphDiff = GraphDiff(
    addedNodes: seq<Node>,
    removedNodes: seq<Node>,
    changedNodes: seq<NodeChange>,
    addedEdges: seq<Edge>,
    removedEdges: seq<Edge>,
    metricsDelta: MetricsDelta)

  // The view state of the graph store.
  datatype ClusterMode = ByModule | ByPackage
  datatype ShowClusters = ShowClusters(byModule: bool, byPackage: bool)
  datatype GraphFilters = GraphFilters(
    searchTerm: string,
    nodeKinds: set<NodeKind>,
    edgeKinds: set<EdgeKind>,
    modules: set<string>,
    packages: set<string>,
    showClusters: ShowClusters)
}
