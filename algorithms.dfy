/**
 * `computeGraphMetrics`: the analysis summary shown in the metrics panel —
 * the ten nodes with the highest fan-in and fan-out, the longest simple
 * paths, and the strongly connected components under `scc-i` ids.
 */
module Algorithms {
  import opened GraphTypes
  import opened Seqs
  import opened Text
  import opened Digraph
  import Tarjan
  import LongestPaths

  /** How many nodes each fan ranking lists (`slice(0, 10)`). */
  const RankingSize: nat := 10

  /** How many paths the metrics ask for (the default `maxPaths` of `findLongestPaths`). */
  const PathCount: nat := 5

  function FanInKey(n: Node): int { n.fanIn }
  function FanOutKey(n: Node): int { n.fanOut }

  /** The nodes of the fan-in ranking: sorted by non-increasing fan-in, the first ten. */
  function TopByFanIn(nodes: seq<Node>): seq<Node> {
    Take(SortDesc(nodes, FanInKey), RankingSize)
  }

  function TopByFanOut(nodes: seq<Node>): seq<Node> {
    Take(SortDesc(nodes, FanOutKey), RankingSize)
  }

  /** `{ nodeId: node.id, fanIn: node.fanIn }` for each ranked node. */
  function FanInEntries(top: seq<Node>): (r: seq<FanInEntry>)
    ensures |r| == |top|
    ensures forall i :: 0 <= i < |r| ==> r[i].nodeId == top[i].id && r[i].fanIn == top[i].fanIn
  {
    if top == [] then [] else [FanInEntry(top[0].id, top[0].fanIn)] + FanInEntries(top[1..])
  }

  function FanOutEntries(top: seq<Node>): (r: seq<FanOutEntry>)
    ensures |r| == |top|
    ensures forall i :: 0 <= i < |r| ==> r[i].nodeId == top[i].id && r[i].fanOut == top[i].fanOut
  {
    if top == [] then [] else [FanOutEntry(top[0].id, top[0].fanOut)] + FanOutEntries(top[1..])
  }

  function FanInRanking(nodes: seq<Node>): seq<FanInEntry> {
    FanInEntries(TopByFanIn(nodes))
  }

  function FanOutRanking(nodes: seq<Node>): seq<FanOutEntry> {
    FanOutEntries(TopByFanOut(nodes))
  }

  /**
   * The fan-in ranking has min(10, |nodes|) entries, copies id and fan-in
   * of the ranked nodes, and lists them by non-increasing fan-in.
   */
  lemma FanInRankingIsTop(nodes: seq<Node>)
    ensures var top := TopByFanIn(nodes); var r := FanInRanking(nodes);
      && |r| == Min(RankingSize, |nodes|)
      && (forall i :: 0 <= i < |r| ==> r[i] == FanInEntry(top[i].id, top[i].fanIn))
      && (forall i, j :: 0 <= i < j < |r| ==> r[i].fanIn >= r[j].fanIn)
  {
    var sorted := SortDesc(nodes, FanInKey);
    var top := TopByFanIn(nodes);
    assert forall i :: 0 <= i < |top| ==> top[i] == sorted[i];
  }

  /**
   * The ranked nodes are nodes of the input, no node left out ranks above a
   * listed one, and with ten nodes or fewer every node is listed.
   */
  lemma FanInRankingComplete(nodes: seq<Node>)
    ensures var top := TopByFanIn(nodes);
      && multiset(top) <= multiset(nodes)
      && (|nodes| <= RankingSize ==> multiset(top) == multiset(nodes))
      && forall n :: n in multiset(nodes) - multiset(top) ==> forall i :: 0 <= i < |top| ==> n.fanIn <= top[i].fanIn
  {
    TakeOfSortedIsTop(nodes, FanInKey, RankingSize);
    var sorted := SortDesc(nodes, FanInKey);
    var top := TopByFanIn(nodes);
    if |nodes| <= RankingSize {
      assert |top| == |sorted|;
      assert top == sorted[..|sorted|] == sorted;
    }
  }

  /** The same for the fan-out ranking. */
  lemma FanOutRankingIsTop(nodes: seq<Node>)
    ensures var top := TopByFanOut(nodes); var r := FanOutRanking(nodes);
      && |r| == Min(RankingSize, |nodes|)
      && (forall i :: 0 <= i < |r| ==> r[i] == FanOutEntry(top[i].id, top[i].fanOut))
      && (forall i, j :: 0 <= i < j < |r| ==> r[i].fanOut >= r[j].fanOut)
  {
    var sorted := SortDesc(nodes, FanOutKey);
    var top := TopByFanOut(nodes);
    assert forall i :: 0 <= i < |top| ==> top[i] == sorted[i];
  }

  /**
   * The ranked nodes are nodes of the input, no node left out ranks above a
   * listed one, and with ten nodes or fewer every node is listed.
   */
  lemma FanOutRankingComplete(nodes: seq<Node>)
    ensures var top := TopByFanOut(nodes);
      && multiset(top) <= multiset(nodes)
      && (|nodes| <= RankingSize ==> multiset(top) == multiset(nodes))
      && forall n :: n in multiset(nodes) - multiset(top) ==> forall i :: 0 <= i < |top| ==> n.fanOut <= top[i].fanOut
  {
    TakeOfSortedIsTop(nodes, FanOutKey, RankingSize);
    var sorted := SortDesc(nodes, FanOutKey);
    var top := TopByFanOut(nodes);
    if |nodes| <= RankingSize {
      assert |top| == |sorted|;
      assert top == sorted[..|sorted|] == sorted;
    }
  }

  /**
   * Ties keep the input order: the ranked nodes with any one fan-in value
   * are the first nodes of the input with that value, in input order.
   */
  lemma FanInTiesInInputOrder(nodes: seq<Node>, v: int)
    ensures WithKey(TopByFanIn(nodes), FanInKey, v) <= WithKey(nodes, FanInKey, v)
  {
    var sorted := SortDesc(nodes, FanInKey);
    SortDescStable(nodes, FanInKey, v);
    WithKeyPrefix(sorted, |TopByFanIn(nodes)|, FanInKey, v);
  }

  /** The same for the fan-out ranking. */
  lemma FanOutTiesInInputOrder(nodes: seq<Node>, v: int)
    ensures WithKey(TopByFanOut(nodes), FanOutKey, v) <= WithKey(nodes, FanOutKey, v)
  {
    var sorted := SortDesc(nodes, FanOutKey);
    SortDescStable(nodes, FanOutKey, v);
    WithKeyPrefix(sorted, |TopByFanOut(nodes)|, FanOutKey, v);
  }

  /** `sccs.map((nodes, index) => ({ id: `scc-${index}`, nodes, size: nodes.length }))`. */
  function SccRecords(sccs: seq<seq<string>>): (r: seq<StronglyConnectedComponent>)
    ensures |r| == |sccs|
  {
    if sccs == [] then []
    else SccRecords(sccs[..|sccs| - 1]) + [StronglyConnectedComponent(Numbered("scc-", |sccs| - 1), sccs[|sccs| - 1], |sccs[|sccs| - 1]|)]
  }

  /** The member lists of a list of component records. */
  function ComponentNodes(records: seq<StronglyConnectedComponent>): (r: seq<seq<string>>)
    ensures |r| == |records|
  {
    if records == [] then [] else ComponentNodes(records[..|records| - 1]) + [records[|records| - 1].nodes]
  }

  /**
   * Component `i` gets id `scc-i`, keeps its member list and records its
   * size; the ids are pairwise different, and the member lists can be read
   * back from the records.
   */
  lemma {:induction false} SccRecordsFaithful(sccs: seq<seq<string>>)
    ensures var r := SccRecords(sccs);
      && (forall i :: 0 <= i < |r| ==> r[i].id == Numbered("scc-", i) && r[i].nodes == sccs[i] && r[i].size == |sccs[i]|)
      && (forall i, j :: 0 <= i < j < |r| ==> r[i].id != r[j].id)
      && ComponentNodes(r) == sccs
  {
    var r := SccRecords(sccs);
    if sccs != [] {
      var init := sccs[..|sccs| - 1];
      SccRecordsFaithful(init);
      assert r[..|r| - 1] == SccRecords(init);
      forall i | 0 <= i < |r| ensures r[i].id == Numbered("scc-", i) && r[i].nodes == sccs[i] && r[i].size == |sccs[i]| {
        if i < |r| - 1 {
          assert r[i] == SccRecords(init)[i];
        }
      }
      forall i, j | 0 <= i < j < |r| ensures r[i].id != r[j].id {
        NumberedInjective("scc-", i, j);
      }
      assert sccs == init + [sccs[|sccs| - 1]];
    }
  }

  /** `m` is what `computeGraphMetrics(nodes, edges)` returns. */
  ghost predicate MetricsFor(nodes: seq<Node>, edges: seq<Edge>, m: GraphMetrics) {
    && m.highFanInNodes == FanInRanking(nodes) && m.highFanOutNodes == FanOutRanking(nodes)
    && m.longestPaths == LongestPaths.LongestPathsOf(nodes, edges, PathCount)
    && Tarjan.SccList(AdjacencyOf(nodes, edges), nodes, ComponentNodes(m.stronglyConnectedComponents))
    && m.stronglyConnectedComponents == SccRecords(ComponentNodes(m.stronglyConnectedComponents))
  }

  /**
   * `computeGraphMetrics(nodes, edges)`: both fan rankings, the five
   * longest paths, and one record per strongly connected component.
   */
  method ComputeGraphMetrics(nodes: seq<Node>, edges: seq<Edge>) returns (m: GraphMetrics)
    ensures m.highFanInNodes == FanInRanking(nodes) && m.highFanOutNodes == FanOutRanking(nodes)
    ensures m.longestPaths == LongestPaths.LongestPathsOf(nodes, edges, PathCount)
    ensures Tarjan.SccList(AdjacencyOf(nodes, edges), nodes, ComponentNodes(m.stronglyConnectedComponents))
    ensures m.stronglyConnectedComponents == SccRecords(ComponentNodes(m.stronglyConnectedComponents))
  {
    var sccs := Tarjan.FindStronglyConnectedComponents(nodes, edges);
    var highFanIn := FanInRanking(nodes);
    var highFanOut := FanOutRanking(nodes);
    var longest := LongestPaths.FindLongestPaths(nodes, edges, PathCount);
    SccRecordsFaithful(sccs);
    m := GraphMetrics(highFanIn, highFanOut, longest, SccRecords(sccs));
  }
}
