/**
 * `findLongestPaths`: a depth-first search from every node that records
 * each simple path it cannot extend, with the path length capped at 20 and
 * the search stopped once enough paths are recorded; the longest few are
 * returned.
 */
module LongestPaths {
  import opened GraphTypes
  import opened Seqs
  import opened Digraph

  /** Paths longer than this are cut off before they are explored. */
  const MaxPathLength: nat := 20

  // ---------------------------------------------------------------------
  // What one call of `dfs` records.

  /** Some neighbour is not on the path yet. */
  predicate Extendable(path: seq<string>, ns: seq<string>) {
    exists k :: 0 <= k < |ns| && ns[k] !in path
  }

  /**
   * The paths `dfs(path[last], path)` pushes, in push order: those of each
   * neighbour not on the path, then the path itself when no neighbour
   * extends it and it has at least two entries.
   */
  function Explore(adj: Adjacency, path: seq<string>): seq<seq<string>>
    requires 1 <= |path| <= MaxPathLength + 1
    decreases MaxPathLength + 1 - |path|, 1
  {
    if |path| > MaxPathLength then []
    else
      var ns := Succ(adj, path[|path| - 1]);
      ExploreEach(adj, path, ns) + (if !Extendable(path, ns) && |path| > 1 then [path] else [])
  }

  /** The paths pushed by the recursive calls on the neighbours `ns`, in order. */
  function ExploreEach(adj: Adjacency, path: seq<string>, ns: seq<string>): seq<seq<string>>
    requires 1 <= |path| <= MaxPathLength
    decreases MaxPathLength + 1 - |path|, 0, |ns|
  {
    if ns == [] then []
    else
      var x := ns[|ns| - 1];
      ExploreEach(adj, path, ns[..|ns| - 1]) + (if x in path then [] else Explore(adj, path + [x]))
  }

  /** A path `dfs` may record: along edges, no vertex twice, two to twenty entries. */
  ghost predicate SimplePath(adj: Adjacency, p: seq<string>) {
    IsPath(adj, p) && Distinct(p) && 2 <= |p| <= MaxPathLength
  }

  /** Every successor of the last vertex is already on the path: the search could not go on. */
  predicate Maximal(adj: Adjacency, p: seq<string>)
    requires p != []
  {
    forall y :: y in Succ(adj, p[|p| - 1]) ==> y in p
  }

  /** What every recorded path satisfies, given the path the search started from. */
  ghost predicate Recorded(adj: Adjacency, start: seq<string>, p: seq<string>) {
    SimplePath(adj, p) && |start| <= |p| && p[..|start|] == start && Maximal(adj, p)
  }

  /**
   * Every path recorded from a simple start path extends it, follows edges,
   * repeats no vertex, has two to twenty entries and ends where no
   * neighbour is left to visit.
   */
  lemma {:induction false} ExploreRecorded(adj: Adjacency, path: seq<string>)
    requires 1 <= |path| <= MaxPathLength + 1 && IsPath(adj, path) && Distinct(path)
    ensures forall p :: p in Explore(adj, path) ==> Recorded(adj, path, p)
    decreases MaxPathLength + 1 - |path|, 1
  {
    if |path| <= MaxPathLength {
      var ns := Succ(adj, path[|path| - 1]);
      ExploreEachRecorded(adj, path, ns);
      if !Extendable(path, ns) && |path| > 1 {
        assert Maximal(adj, path) by {
          forall y | y in Succ(adj, path[|path| - 1]) ensures y in path {
            var k :| 0 <= k < |ns| && ns[k] == y;
          }
        }
        assert path[..|path|] == path;
      }
    }
  }

  lemma {:induction false} ExploreEachRecorded(adj: Adjacency, path: seq<string>, ns: seq<string>)
    requires 1 <= |path| <= MaxPathLength && IsPath(adj, path) && Distinct(path)
    requires forall y :: y in ns ==> y in Succ(adj, path[|path| - 1])
    ensures forall p :: p in ExploreEach(adj, path, ns) ==> Recorded(adj, path, p)
    decreases MaxPathLength + 1 - |path|, 0, |ns|
  {
    if ns != [] {
      var x := ns[|ns| - 1];
      var init := ns[..|ns| - 1];
      forall y | y in init ensures y in Succ(adj, path[|path| - 1]) {
        var k :| 0 <= k < |init| && init[k] == y;
        assert ns[k] == y && y in ns;
      }
      ExploreEachRecorded(adj, path, init);
      if x !in path {
        var q := path + [x];
        assert IsPath(adj, q) by {
          forall i, j | 0 <= i && j == i + 1 && j < |q| ensures q[j] in Succ(adj, q[i]) {
            assert q[i] == path[i];
            if j < |path| {
              PathStep(adj, path, i);
            } else {
              assert x in ns;
            }
          }
        }
        ExploreRecorded(adj, q);
        forall p | p in Explore(adj, q) ensures Recorded(adj, path, p) {
          assert p[..|path|] == p[..|q|][..|path|];
        }
      }
    }
  }

  // ---------------------------------------------------------------------
  // The whole search.

  /**
   * The outer loop: a search from each node in turn, until `limit` paths
   * or more are recorded before a node's turn comes.
   */
  function Gather(adj: Adjacency, nodes: seq<Node>, limit: nat, acc: seq<seq<string>>): seq<seq<string>> {
    if nodes == [] || |acc| >= limit then acc
    else Gather(adj, nodes[1..], limit, acc + Explore(adj, [nodes[0].id]))
  }

  function PathLength(r: PathRecord): int {
    r.length
  }

  function Records(paths: seq<seq<string>>): (rs: seq<PathRecord>)
    ensures |rs| == |paths| && forall k :: 0 <= k < |paths| ==> rs[k] == PathRecord(paths[k], |paths[k]|)
  {
    seq(|paths|, k requires 0 <= k < |paths| => PathRecord(paths[k], |paths[k]|))
  }

  /** The returned records: all recorded paths, stably sorted by decreasing length, cut to `maxPaths`. */
  function LongestPathsOf(nodes: seq<Node>, edges: seq<Edge>, maxPaths: nat): seq<PathRecord> {
    var adj := AdjacencyOf(nodes, edges);
    Take(SortDesc(Records(Gather(adj, nodes, maxPaths * 10, [])), PathLength), maxPaths)
  }

  /**
   * Paths of equal length keep the order in which the searches recorded
   * them: the returned records of any one length are the first recorded
   * paths of that length.
   */
  lemma TiesInSearchOrder(nodes: seq<Node>, edges: seq<Edge>, maxPaths: nat, v: int)
    ensures var all := Records(Gather(AdjacencyOf(nodes, edges), nodes, maxPaths * 10, []));
      WithKey(LongestPathsOf(nodes, edges, maxPaths), PathLength, v) <= WithKey(all, PathLength, v)
  {
    var all := Records(Gather(AdjacencyOf(nodes, edges), nodes, maxPaths * 10, []));
    var sorted := SortDesc(all, PathLength);
    SortDescStable(all, PathLength, v);
    WithKeyPrefix(sorted, |LongestPathsOf(nodes, edges, maxPaths)|, PathLength, v);
  }

  /** Every gathered path is recorded by the search from some node. */
  lemma {:induction false} GatherRecorded(adj: Adjacency, nodes: seq<Node>, all: seq<Node>, limit: nat, acc: seq<seq<string>>)
    requires forall n :: n in nodes ==> n in all
    requires forall p :: p in acc ==> exists n :: n in all && Recorded(adj, [n.id], p)
    ensures forall p :: p in Gather(adj, nodes, limit, acc) ==> exists n :: n in all && Recorded(adj, [n.id], p)
  {
    if nodes != [] && |acc| < limit {
      var n := nodes[0];
      ExploreRecorded(adj, [n.id]);
      var acc' := acc + Explore(adj, [n.id]);
      forall p | p in acc' ensures exists m :: m in all && Recorded(adj, [m.id], p) {
        if p !in acc {
          assert n in all && Recorded(adj, [n.id], p);
        }
      }
      GatherRecorded(adj, nodes[1..], all, limit, acc');
    }
  }

  /**
   * At most `maxPaths` records, by non-increasing length, each holding the
   * length of its path and a path that starts at a node, follows edges,
   * repeats no vertex, has two to twenty entries and cannot be extended.
   */
  lemma LongestPathsShape(nodes: seq<Node>, edges: seq<Edge>, maxPaths: nat)
    ensures var rs := LongestPathsOf(nodes, edges, maxPaths);
      && |rs| <= maxPaths
      && (forall i, j :: 0 <= i < j < |rs| ==> rs[i].length >= rs[j].length)
      && forall r :: r in rs ==>
           r.length == |r.path| &&
           exists n :: n in nodes && Recorded(AdjacencyOf(nodes, edges), [n.id], r.path)
  {
    var adj := AdjacencyOf(nodes, edges);
    var paths := Gather(adj, nodes, maxPaths * 10, []);
    GatherRecorded(adj, nodes, nodes, maxPaths * 10, []);
    var sorted := SortDesc(Records(paths), PathLength);
    var rs := Take(sorted, maxPaths);
    forall r | r in rs
      ensures r.length == |r.path| && exists n :: n in nodes && Recorded(adj, [n.id], r.path)
    {
      RecordOfPath(paths, sorted, r);
    }
    forall i, j | 0 <= i < j < |rs| ensures rs[i].length >= rs[j].length {
      assert rs[i] == sorted[i] && rs[j] == sorted[j];
      assert PathLength(sorted[i]) >= PathLength(sorted[j]);
    }
  }

  /** A record of a reordering of `Records(paths)` holds one of the paths and its length. */
  lemma RecordOfPath(paths: seq<seq<string>>, sorted: seq<PathRecord>, r: PathRecord)
    requires multiset(sorted) == multiset(Records(paths)) && r in sorted
    ensures r.path in paths && r.length == |r.path|
  {
    assert r in multiset(Records(paths));
    var k :| 0 <= k < |paths| && Records(paths)[k] == r;
  }

  /** Nothing is recorded before a search reaches its second vertex: a lone node yields no path. */
  lemma LoneNodeNoPaths(n: Node, maxPaths: nat)
    ensures LongestPathsOf([n], [], maxPaths) == []
  {
    var adj := AdjacencyOf([n], []);
    assert Succ(adj, n.id) == [];
    assert Explore(adj, [n.id]) == [];
    assert Gather(adj, [n], maxPaths * 10, []) == [];
  }

  // ---------------------------------------------------------------------
  // The search as the source runs it.

  /** `dfs(nodeId, currentPath)`: pushes onto `paths0` what `Explore` describes. */
  method Dfs(adj: Adjacency, nodeId: string, currentPath: seq<string>, paths0: seq<seq<string>>)
    returns (paths: seq<seq<string>>)
    requires 1 <= |currentPath| <= MaxPathLength + 1 && nodeId == currentPath[|currentPath| - 1]
    ensures paths == paths0 + Explore(adj, currentPath)
    decreases MaxPathLength + 1 - |currentPath|
  {
    paths := paths0;
    if |currentPath| > MaxPathLength {
      return;
    }
    var neighbors := Succ(adj, nodeId);
    var hasUnvisitedNeighbor := false;
    for i := 0 to |neighbors|
      invariant paths == paths0 + ExploreEach(adj, currentPath, neighbors[..i])
      invariant hasUnvisitedNeighbor <==> Extendable(currentPath, neighbors[..i])
    {
      var neighbor := neighbors[i];
      ExploreEachStep(adj, currentPath, neighbors, i);
      ExtendableStep(currentPath, neighbors, i);
      if neighbor !in currentPath {
        hasUnvisitedNeighbor := true;
        paths := Dfs(adj, neighbor, currentPath + [neighbor], paths);
      }
    }
    assert neighbors[..|neighbors|] == neighbors;
    if !hasUnvisitedNeighbor && |currentPath| > 1 {
      paths := paths + [currentPath];
    }
  }

  /** One more neighbour adds the paths of its call, when it is not on the path. */
  lemma ExploreEachStep(adj: Adjacency, path: seq<string>, ns: seq<string>, i: nat)
    requires 1 <= |path| <= MaxPathLength && i < |ns|
    ensures ExploreEach(adj, path, ns[..i + 1]) ==
      ExploreEach(adj, path, ns[..i]) + (if ns[i] in path then [] else Explore(adj, path + [ns[i]]))
  {
    assert ns[..i + 1][..i] == ns[..i];
  }

  /** One more neighbour makes the path extendable exactly when it is not on the path. */
  lemma ExtendableStep(path: seq<string>, ns: seq<string>, i: nat)
    requires i < |ns|
    ensures Extendable(path, ns[..i + 1]) <==> Extendable(path, ns[..i]) || ns[i] !in path
  {
    if Extendable(path, ns[..i]) {
      var k :| 0 <= k < i && ns[..i][k] !in path;
      assert ns[..i + 1][k] !in path;
    }
    if Extendable(path, ns[..i + 1]) {
      var k :| 0 <= k < i + 1 && ns[..i + 1][k] !in path;
      if k < i {
        assert ns[..i][k] !in path;
      }
    }
    if ns[i] !in path {
      assert ns[..i + 1][i] !in path;
    }
  }

  /** `findLongestPaths(nodes, edges, maxPaths)`. */
  method FindLongestPaths(nodes: seq<Node>, edges: seq<Edge>, maxPaths: nat) returns (result: seq<PathRecord>)
    ensures result == LongestPathsOf(nodes, edges, maxPaths)
  {
    var adj := BuildAdjacency(nodes, edges);
    var paths: seq<seq<string>> := [];
    var i := 0;
    while i < |nodes|
      invariant i <= |nodes|
      invariant Gather(adj, nodes[i..], maxPaths * 10, paths) == Gather(adj, nodes, maxPaths * 10, [])
    {
      if |paths| >= maxPaths * 10 {
        break;
      }
      assert nodes[i..][1..] == nodes[i + 1..];
      paths := Dfs(adj, nodes[i].id, [nodes[i].id], paths);
      i := i + 1;
    }
    assert Gather(adj, nodes[i..], maxPaths * 10, paths) == paths;
    var records := Records(paths);
    result := Take(SortDesc(records, PathLength), maxPaths);
  }
}
