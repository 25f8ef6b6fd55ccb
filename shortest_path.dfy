/**
 * `findShortestPath`: a breadth-first search from the source that records
 * for every vertex it discovers the vertex it was discovered from, and
 * walks those parent links back from the target once the target leaves
 * the queue.
 */
module ShortestPath {
  import opened GraphTypes
  import opened Seqs
  import opened Digraph

  // ---------------------------------------------------------------------
  // The search state.

  /**
   * The parent links form a tree rooted at `s` over the visited vertices:
   * each link follows an edge, and `dist` (a proof-only layer number) grows
   * by one along it.
   */
  ghost predicate Tree(adj: Adjacency, s: string, visited: set<string>, parent: map<string, string>, dist: map<string, nat>) {
    && s in visited && dist.Keys == visited && dist[s] == 0
    && parent.Keys == visited - {s}
    && forall v :: v in parent ==> parent[v] in visited && v in Succ(adj, parent[v]) && dist[v] == dist[parent[v]] + 1
  }

  /** The queue holds visited vertices by non-decreasing layer, spanning at most two layers. */
  ghost predicate Layered(queue: seq<string>, dist: map<string, nat>) {
    && (forall i :: 0 <= i < |queue| ==> queue[i] in dist)
    && (forall i, j :: 0 <= i < j < |queue| ==> dist[queue[i]] <= dist[queue[j]])
    && (forall i :: 0 <= i < |queue| ==> dist[queue[i]] <= dist[queue[0]] + 1)
  }

  /** Every successor of a dequeued vertex has been visited. */
  ghost predicate Closed(adj: Adjacency, done: set<string>, visited: set<string>) {
    forall u, y :: u in done && y in Succ(adj, u) ==> y in visited
  }

  /** No path from `s` to a visited vertex has fewer edges than its layer. */
  ghost predicate Shortest(adj: Adjacency, s: string, visited: set<string>, dist: map<string, nat>)
    requires visited <= dist.Keys
  {
    forall v, p :: v in visited && IsPathFromTo(adj, p, s, v) ==> dist[v] < |p|
  }

  /** Every vertex reachable from `s` in fewer than `level` edges has been dequeued. */
  ghost predicate Frontier(adj: Adjacency, s: string, done: set<string>, level: nat) {
    forall v, p :: IsPathFromTo(adj, p, s, v) && |p| <= level ==> v in done
  }

  /** The invariant of the search loop. */
  ghost predicate Searching(adj: Adjacency, s: string, t: string, visited: set<string>, parent: map<string, string>,
                            queue: seq<string>, dist: map<string, nat>, done: set<string>)
  {
    && Tree(adj, s, visited, parent, dist)
    && Layered(queue, dist)
    && visited == done + Elems(queue)
    && Closed(adj, done, visited)
    && Shortest(adj, s, visited, dist)
    && (queue != [] ==> Frontier(adj, s, done, dist[queue[0]]))
    && t !in done
    && (s in done || (queue == [s] && done == {}))
  }

  // ---------------------------------------------------------------------
  // The search.

  /**
   * `findShortestPath(nodes, edges, sourceId, targetId)`: a path exactly
   * when the target is reachable from the source, and then one that starts
   * at the source, ends at the target, follows edges and is no longer than
   * any other such path.
   */
  method FindShortestPath(nodes: seq<Node>, edges: seq<Edge>, sourceId: string, targetId: string)
    returns (result: Option<seq<string>>)
    ensures result.Some? <==> Reaches(AdjacencyOf(nodes, edges), sourceId, targetId)
    ensures result.Some? ==>
      && IsPathFromTo(AdjacencyOf(nodes, edges), result.value, sourceId, targetId)
      && forall p :: IsPathFromTo(AdjacencyOf(nodes, edges), p, sourceId, targetId) ==> |result.value| <= |p|
    ensures sourceId == targetId ==> result == Some([sourceId])
  {
    var adj := BuildAdjacency(nodes, edges);
    var queue := [sourceId];
    var visited := {sourceId};
    var parent: map<string, string> := map[];
    ghost var dist: map<string, nat> := map[sourceId := 0];
    ghost var done: set<string> := {};
    ghost var all := Vertices(adj) + {sourceId};
    InitialSearch(adj, sourceId, targetId);
    while queue != []
      invariant Searching(adj, sourceId, targetId, visited, parent, queue, dist, done)
      invariant visited <= all
      decreases all - visited, |queue|
    {
      var current := queue[0];
      if current == targetId {
        var path := Reconstruct(adj, sourceId, targetId, visited, parent, dist);
        Found(adj, sourceId, targetId, visited, dist, path);
        return Some(path);
      }
      var visited', parent', queue';
      ghost var dist';
      visited', parent', queue', dist' := Expand(adj, current, visited, parent, queue, dist);
      Dequeued(adj, sourceId, targetId, visited, parent, queue, dist, done, visited', parent', queue', dist');
      Progress(adj, all, visited, queue, visited', queue');
      visited, parent, queue, dist, done := visited', parent', queue'[1..], dist', done + {current};
    }
    NotFound(adj, sourceId, targetId, visited, parent, dist, done);
    result := None;
  }

  /**
   * `while (node !== sourceId) { path.unshift(node); node = parent.get(node)!; }`
   * then `path.unshift(sourceId)`: the parent links from the target back to
   * the source, one per layer.
   */
  method Reconstruct(adj: Adjacency, s: string, t: string, visited: set<string>, parent: map<string, string>,
                     ghost dist: map<string, nat>) returns (path: seq<string>)
    requires Tree(adj, s, visited, parent, dist) && t in visited
    ensures IsPathFromTo(adj, path, s, t) && |path| == dist[t] + 1
  {
    path := [];
    var node := t;
    while node != s
      invariant node in visited
      invariant IsPathFromTo(adj, [node] + path, node, t)
      invariant |path| + dist[node] == dist[t]
      decreases dist[node]
    {
      ConsPath(adj, parent[node], [node] + path);
      path := [node] + path;
      node := parent[node];
    }
    path := [s] + path;
  }

  /** A path with one more vertex in front, along an edge. */
  lemma ConsPath(adj: Adjacency, x: string, p: seq<string>)
    requires IsPath(adj, p) && p[0] in Succ(adj, x)
    ensures IsPath(adj, [x] + p)
  {
    var q := [x] + p;
    forall i, j | 0 <= i && j == i + 1 && j < |q| ensures q[j] in Succ(adj, q[i]) {
      if i > 0 {
        PathStep(adj, p, i - 1);
      }
    }
  }

  lemma InitialSearch(adj: Adjacency, s: string, t: string)
    ensures Searching(adj, s, t, {s}, map[], [s], map[s := 0], {})
  {
    assert Elems([s]) == {s};
  }

  /** The target leaves the queue: the rebuilt path is a shortest one. */
  lemma Found(adj: Adjacency, s: string, t: string, visited: set<string>, dist: map<string, nat>, path: seq<string>)
    requires visited <= dist.Keys && s in visited && t in visited && Shortest(adj, s, visited, dist) && dist[s] == 0
    requires IsPathFromTo(adj, path, s, t) && |path| == dist[t] + 1
    ensures Reaches(adj, s, t)
    ensures forall p :: IsPathFromTo(adj, p, s, t) ==> |path| <= |p|
    ensures s == t ==> path == [s]
  {
  }

  /** The queue runs dry before the target is dequeued: the target is unreachable. */
  lemma NotFound(adj: Adjacency, s: string, t: string, visited: set<string>, parent: map<string, string>,
                 dist: map<string, nat>, done: set<string>)
    requires Searching(adj, s, t, visited, parent, [], dist, done)
    ensures !Reaches(adj, s, t) && s != t
  {
    assert Elems<string>([]) == {};
    assert ClosedUnderSucc(adj, done);
    if Reaches(adj, s, t) {
      ClosedReaches(adj, done, s, t);
      assert false;
    }
  }

  /** `visited.add(neighbor); parent.set(neighbor, current); queue.push(neighbor)` for each new successor. */
  method Expand(adj: Adjacency, current: string, visited0: set<string>, parent0: map<string, string>,
                queue0: seq<string>, ghost dist0: map<string, nat>)
    returns (visited: set<string>, parent: map<string, string>, queue: seq<string>, ghost dist: map<string, nat>)
    requires current in dist0 && dist0.Keys == visited0
    ensures visited == visited0 + Elems(Succ(adj, current))
    ensures |queue0| <= |queue| && queue[..|queue0|] == queue0
    ensures visited == visited0 ==> queue == queue0
    ensures forall k :: |queue0| <= k < |queue| ==> queue[k] in visited - visited0
    ensures visited - visited0 <= Elems(queue[|queue0|..])
    ensures dist.Keys == dist0.Keys + (visited - visited0)
    ensures forall v :: v in dist0 ==> dist[v] == dist0[v]
    ensures parent.Keys == parent0.Keys + (visited - visited0)
    ensures forall v :: v in parent0 && v !in visited - visited0 ==> parent[v] == parent0[v]
    ensures forall v :: v in visited - visited0 ==> parent[v] == current && dist[v] == dist0[current] + 1
  {
    var neighbors := Succ(adj, current);
    ghost var d := dist0[current] + 1;
    visited, parent, queue, dist := visited0, parent0, queue0, dist0;
    for i := 0 to |neighbors|
      invariant visited == visited0 + Elems(neighbors[..i])
      invariant Grown(current, d, visited0, parent0, queue0, dist0, visited, parent, queue, dist)
    {
      var neighbor := neighbors[i];
      SeenSnoc(neighbors, i);
      if neighbor !in visited {
        GrownStep(current, d, visited0, parent0, queue0, dist0, visited, parent, queue, dist, neighbor);
        visited, parent, queue, dist := Visit(visited, parent, queue, dist, neighbor, current, d);
      }
    }
    assert neighbors[..|neighbors|] == neighbors;
  }

  /** What the loop of `Expand` has added so far: new vertices, queued in order, one layer below `u`. */
  ghost predicate Grown(u: string, d: nat, visited0: set<string>, parent0: map<string, string>, queue0: seq<string>,
                       dist0: map<string, nat>, visited: set<string>, parent: map<string, string>, queue: seq<string>,
                       dist: map<string, nat>)
  {
    && visited0 <= visited
    && |queue0| <= |queue| && queue[..|queue0|] == queue0
    && (visited == visited0 ==> queue == queue0)
    && (forall k :: |queue0| <= k < |queue| ==> queue[k] in visited - visited0)
    && visited - visited0 <= Elems(queue[|queue0|..])
    && dist.Keys == visited
    && (forall v :: v in dist0 ==> v in dist && dist[v] == dist0[v])
    && parent.Keys == parent0.Keys + (visited - visited0)
    && (forall v :: v in parent0 && v !in visited - visited0 ==> parent[v] == parent0[v])
    && (forall v :: v in visited - visited0 ==> parent[v] == u && dist[v] == d)
  }

  lemma GrownStep(u: string, d: nat, visited0: set<string>, parent0: map<string, string>, queue0: seq<string>,
                  dist0: map<string, nat>, visited: set<string>, parent: map<string, string>, queue: seq<string>,
                  dist: map<string, nat>, w: string)
    requires Grown(u, d, visited0, parent0, queue0, dist0, visited, parent, queue, dist) && w !in visited
    ensures Grown(u, d, visited0, parent0, queue0, dist0, visited + {w}, parent[w := u], queue + [w], dist[w := d])
  {
    SuffixSnoc(queue, |queue0|, w);
  }

  lemma SuffixSnoc(q: seq<string>, n: nat, w: string)
    requires n <= |q|
    ensures (q + [w])[n..] == q[n..] + [w]
  {
  }

  lemma SeenSnoc(s: seq<string>, i: nat)
    requires i < |s|
    ensures Elems(s[..i + 1]) == Elems(s[..i]) + {s[i]}
  {
    assert s[..i + 1] == s[..i] + [s[i]];
  }

  /** Visit one new vertex. */
  method Visit(visited0: set<string>, parent0: map<string, string>, queue0: seq<string>, ghost dist0: map<string, nat>,
               w: string, current: string, ghost d: nat)
    returns (visited: set<string>, parent: map<string, string>, queue: seq<string>, ghost dist: map<string, nat>)
    ensures visited == visited0 + {w} && parent == parent0[w := current] && queue == queue0 + [w] && dist == dist0[w := d]
  {
    visited := visited0 + {w};
    parent := parent0[w := current];
    queue := queue0 + [w];
    dist := dist0[w := d];
  }

  /** One round of the loop keeps the invariant. */
  lemma Dequeued(adj: Adjacency, s: string, t: string,
                 visited: set<string>, parent: map<string, string>, queue: seq<string>, dist: map<string, nat>, done: set<string>,
                 visited': set<string>, parent': map<string, string>, queue': seq<string>, dist': map<string, nat>)
    requires Searching(adj, s, t, visited, parent, queue, dist, done) && queue != [] && queue[0] != t
    requires visited' == visited + Elems(Succ(adj, queue[0]))
    requires |queue| <= |queue'| && queue'[..|queue|] == queue
    requires forall k :: |queue| <= k < |queue'| ==> queue'[k] in visited' - visited
    requires visited' - visited <= Elems(queue'[|queue|..])
    requires dist'.Keys == dist.Keys + (visited' - visited)
    requires forall v :: v in dist ==> dist'[v] == dist[v]
    requires parent'.Keys == parent.Keys + (visited' - visited)
    requires forall v :: v in parent && v !in visited' - visited ==> parent'[v] == parent[v]
    requires forall v :: v in visited' - visited ==> parent'[v] == queue[0] && dist'[v] == dist[queue[0]] + 1
    ensures Searching(adj, s, t, visited', parent', queue'[1..], dist', done + {queue[0]})
  {
    DequeuedTree(adj, s, visited, parent, queue, dist, visited', parent', queue', dist');
    DequeuedSets(adj, visited, queue, done, visited', queue');
    DequeuedSearch(adj, s, t, visited, parent, queue, dist, done, visited', parent', queue', dist');
  }

  /** The round keeps the tree and the layering of the queue. */
  lemma DequeuedTree(adj: Adjacency, s: string, visited: set<string>, parent: map<string, string>, queue: seq<string>,
                     dist: map<string, nat>, visited': set<string>, parent': map<string, string>, queue': seq<string>,
                     dist': map<string, nat>)
    requires Tree(adj, s, visited, parent, dist) && Layered(queue, dist) && queue != [] && queue[0] in visited
    requires visited' == visited + Elems(Succ(adj, queue[0]))
    requires |queue| <= |queue'| && queue'[..|queue|] == queue
    requires forall k :: |queue| <= k < |queue'| ==> queue'[k] in visited' - visited
    requires dist'.Keys == dist.Keys + (visited' - visited)
    requires forall v :: v in dist ==> dist'[v] == dist[v]
    requires parent'.Keys == parent.Keys + (visited' - visited)
    requires forall v :: v in parent && v !in visited' - visited ==> parent'[v] == parent[v]
    requires forall v :: v in visited' - visited ==> parent'[v] == queue[0] && dist'[v] == dist[queue[0]] + 1
    ensures Tree(adj, s, visited', parent', dist') && Layered(queue'[1..], dist')
    ensures forall i :: 0 <= i < |queue'| - 1 ==> dist[queue[0]] <= dist'[queue'[1..][i]] <= dist[queue[0]] + 1
  {
    TreeStep(adj, s, visited, parent, dist, queue[0], visited', parent', dist');
    LayeredStep(queue, dist, queue', dist');
  }

  /** The round moves `queue[0]` to the dequeued vertices, queues the new ones and keeps the dequeued ones closed. */
  lemma DequeuedSets(adj: Adjacency, visited: set<string>, queue: seq<string>, done: set<string>,
                     visited': set<string>, queue': seq<string>)
    requires visited == done + Elems(queue) && Closed(adj, done, visited) && queue != []
    requires visited' == visited + Elems(Succ(adj, queue[0]))
    requires |queue| <= |queue'| && queue'[..|queue|] == queue
    requires forall k :: |queue| <= k < |queue'| ==> queue'[k] in visited' - visited
    requires visited' - visited <= Elems(queue'[|queue|..])
    ensures visited' == (done + {queue[0]}) + Elems(queue'[1..])
    ensures Closed(adj, done + {queue[0]}, visited')
  {
    ElemsStep(queue, queue');
    assert Elems(queue'[|queue|..]) == visited' - visited;
    ClosedStep(adj, done, visited, queue[0], visited');
  }

  /** The round keeps the layers shortest and the frontier complete. */
  lemma DequeuedSearch(adj: Adjacency, s: string, t: string,
                 visited: set<string>, parent: map<string, string>, queue: seq<string>, dist: map<string, nat>, done: set<string>,
                 visited': set<string>, parent': map<string, string>, queue': seq<string>, dist': map<string, nat>)
    requires Tree(adj, s, visited, parent, dist) && Layered(queue, dist) && queue != []
    requires visited == done + Elems(queue) && Closed(adj, done, visited) && Shortest(adj, s, visited, dist)
    requires Frontier(adj, s, done, dist[queue[0]]) && (s in done || queue == [s])
    requires visited' == visited + Elems(Succ(adj, queue[0]))
    requires |queue| <= |queue'| && queue'[..|queue|] == queue
    requires forall k :: |queue| <= k < |queue'| ==> queue'[k] in visited' - visited
    requires visited' - visited <= Elems(queue'[|queue|..])
    requires dist'.Keys == dist.Keys + (visited' - visited)
    requires forall v :: v in dist ==> dist'[v] == dist[v]
    requires parent'.Keys == parent.Keys + (visited' - visited)
    requires forall v :: v in parent && v !in visited' - visited ==> parent'[v] == parent[v]
    requires forall v :: v in visited' - visited ==> parent'[v] == queue[0] && dist'[v] == dist[queue[0]] + 1
    ensures visited' <= dist'.Keys && Shortest(adj, s, visited', dist')
    ensures queue'[1..] != [] ==> Frontier(adj, s, done + {queue[0]}, dist'[queue'[1..][0]])
  {
    var u := queue[0];
    var d := dist[u];
    var q := queue'[1..];
    LayeredStep(queue, dist, queue', dist');
    ShortestStep(adj, s, visited, dist, done, d, visited', dist');
    assert q[..|queue| - 1] == queue[1..];
    FrontierStep(adj, s, visited, queue, dist, done, q, dist');
  }

  /** The round either visits a new vertex or shortens the queue. */
  lemma Progress(adj: Adjacency, all: set<string>, visited: set<string>, queue: seq<string>,
                 visited': set<string>, queue': seq<string>)
    requires Vertices(adj) <= all && queue != [] && queue[0] in visited && visited <= all
    requires visited' == visited + Elems(Succ(adj, queue[0])) && |queue| <= |queue'|
    requires visited' == visited ==> |queue'| == |queue|
    ensures visited' <= all
    ensures all - visited' < all - visited || (all - visited' == all - visited && |queue'[1..]| < |queue|)
  {
  }

  lemma TreeStep(adj: Adjacency, s: string, visited: set<string>, parent: map<string, string>, dist: map<string, nat>,
                 u: string, visited': set<string>, parent': map<string, string>, dist': map<string, nat>)
    requires Tree(adj, s, visited, parent, dist) && u in visited
    requires visited' == visited + Elems(Succ(adj, u))
    requires dist'.Keys == dist.Keys + (visited' - visited)
    requires forall v :: v in dist ==> dist'[v] == dist[v]
    requires parent'.Keys == parent.Keys + (visited' - visited)
    requires forall v :: v in parent && v !in visited' - visited ==> parent'[v] == parent[v]
    requires forall v :: v in visited' - visited ==> parent'[v] == u && dist'[v] == dist[u] + 1
    ensures Tree(adj, s, visited', parent', dist')
  {
    forall v | v in parent'
      ensures parent'[v] in visited' && v in Succ(adj, parent'[v]) && dist'[v] == dist'[parent'[v]] + 1
    {
      if v in visited' - visited {
        assert v in Elems(Succ(adj, u));
      }
    }
  }

  lemma LayeredStep(queue: seq<string>, dist: map<string, nat>, queue': seq<string>, dist': map<string, nat>)
    requires Layered(queue, dist) && queue != []
    requires |queue| <= |queue'| && queue'[..|queue|] == queue
    requires forall k :: |queue| <= k < |queue'| ==> queue'[k] in dist' && dist'[queue'[k]] == dist[queue[0]] + 1
    requires forall v :: v in dist ==> v in dist' && dist'[v] == dist[v]
    ensures Layered(queue'[1..], dist')
    ensures forall i :: 0 <= i < |queue'| - 1 ==> dist[queue[0]] <= dist'[queue'[1..][i]] <= dist[queue[0]] + 1
  {
    var q := queue'[1..];
    var d := dist[queue[0]];
    forall i | 0 <= i < |q| ensures q[i] in dist' && d <= dist'[q[i]] <= d + 1 {
      if i + 1 < |queue| {
        assert q[i] == queue[i + 1];
      }
    }
    assert forall i :: 0 <= i < |q| ==> d <= dist'[q[i]] <= d + 1;
    forall i, j | 0 <= i < j < |q| ensures dist'[q[i]] <= dist'[q[j]] {
      if j + 1 < |queue| {
        assert q[i] == queue[i + 1] && q[j] == queue[j + 1];
      }
    }
  }

  lemma ElemsStep(queue: seq<string>, queue': seq<string>)
    requires queue != [] && |queue| <= |queue'| && queue'[..|queue|] == queue
    ensures Elems(queue) + Elems(queue'[|queue|..]) == {queue[0]} + Elems(queue'[1..])
  {
    assert queue' == queue + queue'[|queue|..];
    assert queue'[1..] == queue[1..] + queue'[|queue|..];
    assert queue == [queue[0]] + queue[1..];
  }

  /** A newly visited vertex sits one layer below the dequeued one, and no path to it is shorter. */
  lemma ShortestStep(adj: Adjacency, s: string, visited: set<string>, dist: map<string, nat>, done: set<string>, d: nat,
                     visited': set<string>, dist': map<string, nat>)
    requires visited <= dist.Keys && Shortest(adj, s, visited, dist) && s in visited
    requires Closed(adj, done, visited) && Frontier(adj, s, done, d)
    requires visited <= visited' <= dist'.Keys && forall v :: v in visited ==> dist'[v] == dist[v]
    requires forall v :: v in visited' - visited ==> dist'[v] == d + 1
    ensures Shortest(adj, s, visited', dist')
  {
    forall v, p | v in visited' && IsPathFromTo(adj, p, s, v) ensures dist'[v] < |p| {
      if |p| >= 2 {
        PrefixPath(adj, p, s);
        PathStep(adj, p, |p| - 2);
      }
    }
  }

  /** The prefix of a path of at least two vertices is a path to the next-to-last vertex. */
  lemma PrefixPath(adj: Adjacency, p: seq<string>, s: string)
    requires IsPath(adj, p) && |p| >= 2 && p[0] == s
    ensures IsPathFromTo(adj, p[..|p| - 1], s, p[|p| - 2])
  {
    var pre := p[..|p| - 1];
    forall i, j | 0 <= i && j == i + 1 && j < |pre| ensures pre[j] in Succ(adj, pre[i]) {
      PathStep(adj, p, i);
    }
  }

  /** After the round, every vertex reachable in fewer edges than the new head's layer has been dequeued. */
  lemma FrontierStep(adj: Adjacency, s: string, visited: set<string>, queue: seq<string>, dist: map<string, nat>,
                     done: set<string>, q: seq<string>, dist': map<string, nat>)
    requires queue != [] && Layered(queue, dist) && visited == done + Elems(queue)
    requires visited <= dist.Keys && Closed(adj, done, visited) && Shortest(adj, s, visited, dist)
    requires Frontier(adj, s, done, dist[queue[0]])
    requires s in done || queue == [s]
    requires |queue| - 1 <= |q| && q[..|queue| - 1] == queue[1..]
    requires Layered(q, dist') && dist.Keys <= dist'.Keys && forall v :: v in dist ==> dist'[v] == dist[v]
    requires forall i :: 0 <= i < |q| ==> dist[queue[0]] <= dist'[q[i]] <= dist[queue[0]] + 1
    ensures q != [] ==> Frontier(adj, s, done + {queue[0]}, dist'[q[0]])
  {
    var u, d := queue[0], dist[queue[0]];
    if q != [] {
      forall v, p | IsPathFromTo(adj, p, s, v) && |p| <= dist'[q[0]] ensures v in done + {u} {
        if |p| >= 2 {
          PrefixPath(adj, p, s);
          PathStep(adj, p, |p| - 2);
        }
      }
    }
  }

  /** The dequeued vertex has all its successors visited. */
  lemma ClosedStep(adj: Adjacency, done: set<string>, visited: set<string>, u: string, visited': set<string>)
    requires Closed(adj, done, visited) && visited' == visited + Elems(Succ(adj, u))
    ensures Closed(adj, done + {u}, visited')
  {
  }
}
