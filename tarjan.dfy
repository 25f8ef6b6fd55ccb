/**
 * Tarjan's strongly-connected-components algorithm, as both the graph
 * builder and the analysis module run it: a recursive `strongConnect` over
 * shared `index`/`lowlink` maps, an explicit stack with an `onStack` set,
 * and a discovery counter, started from every node in node order.
 *
 * A neighbour that has no index yet is visited whether or not it is a node,
 * so an edge target that is not a node becomes a vertex (and a singleton
 * component) of its own.
 */
module Tarjan {
  import opened GraphTypes
  import opened Digraph
  import opened Seqs

  /** The variables `strongConnect` shares, except `lowlink`. */
  datatype TarjanState = TarjanState(
    index: map<string, nat>,
    onStack: set<string>,
    stack: seq<string>,
    sccs: seq<seq<string>>,
    currentIndex: nat)

  const Initial := TarjanState(map[], {}, [], [], 0)

  /** The opening statements of `strongConnect`: number `v` and push it. */
  function Discover(st: TarjanState, v: string): TarjanState {
    st.(index := st.index[v := st.currentIndex],
        currentIndex := st.currentIndex + 1,
        stack := st.stack + [v],
        onStack := st.onStack + {v})
  }

  /** Every vertex that some emitted component lists. */
  ghost function Emitted(sccs: seq<seq<string>>): set<string> {
    set k, x | 0 <= k < |sccs| && x in sccs[k] :: x
  }

  lemma EmittedSnoc(sccs: seq<seq<string>>, c: seq<string>)
    ensures Emitted(sccs + [c]) == Emitted(sccs) + Elems(c)
  {
    var s' := sccs + [c];
    forall x | x in Emitted(s') ensures x in Emitted(sccs) || x in c {
      var k :| 0 <= k < |s'| && x in s'[k];
      if k < |sccs| {
        assert x in sccs[k];
      }
    }
    forall x | x in Emitted(sccs) ensures x in Emitted(s') {
      var k :| 0 <= k < |sccs| && x in sccs[k];
      assert s'[k] == sccs[k];
    }
    forall x | x in c ensures x in Emitted(s') {
      assert s'[|sccs|] == c;
    }
  }

  /** A maximal set of mutually reachable vertices. */
  ghost predicate IsScc(adj: Adjacency, c: seq<string>) {
    && (forall x, y :: x in c && y in c ==> Reaches(adj, x, y))
    && (forall x, y :: x in c && Reaches(adj, x, y) && Reaches(adj, y, x) ==> y in c)
  }

  // ---------------------------------------------------------------------
  // The invariant of the shared state. `grays` lists the vertices whose
  // `strongConnect` call is still running, outermost first.

  ghost predicate StackWf(st: TarjanState) {
    && (forall x :: x in st.onStack <==> x in st.stack)
    && (forall i :: 0 <= i < |st.stack| ==> st.stack[i] in st.index)
    && (forall i, j :: 0 <= i < j < |st.stack| ==> st.index[st.stack[i]] < st.index[st.stack[j]])
    && (forall x :: x in st.index ==> st.index[x] < st.currentIndex)
  }

  ghost predicate SccsWf(st: TarjanState) {
    && (forall k :: 0 <= k < |st.sccs| ==> st.sccs[k] != [] && Distinct(st.sccs[k]))
    && (forall k, l, x :: 0 <= k < l < |st.sccs| && x in st.sccs[k] ==> x !in st.sccs[l])
    && (forall x :: x in st.index <==> x in st.stack || x in Emitted(st.sccs))
    && (forall x :: x in st.stack ==> x !in Emitted(st.sccs))
  }

  ghost predicate GraysWf(st: TarjanState, grays: seq<string>) {
    && (forall g :: g in grays ==> g in st.stack)
    && (forall i, j :: 0 <= i < j < |grays| && grays[i] in st.index && grays[j] in st.index ==>
          st.index[grays[i]] < st.index[grays[j]])
  }

  /** A vertex whose call has finished has every successor numbered. */
  ghost predicate NoBlackToWhite(adj: Adjacency, st: TarjanState, grays: seq<string>) {
    forall x, y :: x in st.index && x !in grays && y in Succ(adj, x) ==> y in st.index
  }

  /** A vertex on the stack reaches every vertex pushed after it. */
  ghost predicate StackReach(adj: Adjacency, st: TarjanState) {
    forall x, y ::
      x in st.stack && y in st.stack && x in st.index && y in st.index && st.index[x] <= st.index[y]
      ==> Reaches(adj, x, y)
  }

  /** `x` reaches a running vertex numbered no later than itself. */
  ghost predicate ReachesGray(adj: Adjacency, st: TarjanState, grays: seq<string>, x: string)
    requires x in st.index
  {
    exists g :: g in grays && g in st.index && st.index[g] <= st.index[x] && Reaches(adj, x, g)
  }

  /** Every vertex on the stack reaches a running vertex numbered no later than itself. */
  ghost predicate GrayWitness(adj: Adjacency, st: TarjanState, grays: seq<string>) {
    forall x {:trigger ReachesGray(adj, st, grays, x)} ::
      x in st.stack && x in st.index ==> ReachesGray(adj, st, grays, x)
  }

  ghost predicate SccsCorrect(adj: Adjacency, st: TarjanState) {
    && (forall k {:trigger IsScc(adj, st.sccs[k])} :: 0 <= k < |st.sccs| ==> IsScc(adj, st.sccs[k]))
    && ClosedUnderSucc(adj, Emitted(st.sccs))
  }

  ghost predicate Inv(adj: Adjacency, st: TarjanState, grays: seq<string>) {
    && StackWf(st)
    && SccsWf(st)
    && GraysWf(st, grays)
    && NoBlackToWhite(adj, st, grays)
    && StackReach(adj, st)
    && GrayWitness(adj, st, grays)
    && SccsCorrect(adj, st)
  }

  /** `st'` is a later state than `st` of the same run. */
  ghost predicate Extends(st: TarjanState, st': TarjanState) {
    && (forall x :: x in st.index ==> x in st'.index && st'.index[x] == st.index[x])
    && |st.stack| <= |st'.stack| && st'.stack[..|st.stack|] == st.stack
    && |st.sccs| <= |st'.sccs| && st'.sccs[..|st.sccs|] == st.sccs
    && st.currentIndex <= st'.currentIndex
  }

  lemma ExtendsTrans(a: TarjanState, b: TarjanState, c: TarjanState)
    requires Extends(a, b) && Extends(b, c)
    ensures Extends(a, c)
  {
    assert c.stack[..|a.stack|] == c.stack[..|b.stack|][..|a.stack|];
    assert c.sccs[..|a.sccs|] == c.sccs[..|b.sccs|][..|a.sccs|];
  }

  /**
   * Every edge from the part of the stack pushed since `st0` to a vertex
   * that was already on the stack is bounded by `v`'s lowlink, once its
   * source is not `v` or it is one of the `checked` successors of `v`.
   */
  ghost predicate CrossEdgesBounded(adj: Adjacency, st0: TarjanState, st: TarjanState,
                                    lowlink: map<string, nat>, v: string, checked: seq<string>)
    requires |st0.stack| <= |st.stack| && v in lowlink
  {
    forall x, y ::
      && x in st.stack[|st0.stack|..] && y in st0.stack && y in st.index && y in Succ(adj, x)
      && (x == v ==> y in checked)
      ==> lowlink[v] <= st.index[y]
  }

  lemma InitialInv(adj: Adjacency)
    ensures Inv(adj, Initial, [])
  {
    assert Emitted([]) == {};
  }

  /** With no call running, nothing is on the stack. */
  lemma NoGraysNoStack(adj: Adjacency, st: TarjanState)
    requires StackWf(st) && GrayWitness(adj, st, [])
    ensures st.stack == []
  {
    assert st.stack != [] ==> st.stack[0] in st.stack && st.stack[0] in st.index && ReachesGray(adj, st, [], st.stack[0]);
  }

  /** Positions on the stack follow the numbering. */
  lemma StackOrder(st: TarjanState, i: nat, j: nat)
    requires StackWf(st) && i < |st.stack| && j < |st.stack|
    ensures st.index[st.stack[i]] <= st.index[st.stack[j]] <==> i <= j
  {
  }

  /** The part of the stack below position `p` and the part from `p` on share no vertex. */
  lemma StackSplit(st: TarjanState, p: nat)
    requires StackWf(st) && p <= |st.stack|
    ensures forall x :: x in st.stack <==> x in st.stack[..p] || x in st.stack[p..]
    ensures forall x :: x in st.stack[..p] ==> x !in st.stack[p..]
  {
    assert st.stack == st.stack[..p] + st.stack[p..];
    forall x | x in st.stack[..p] ensures x !in st.stack[p..] {
      var r :| 0 <= r < p && st.stack[r] == x;
      forall k | 0 <= k < |st.stack| - p ensures st.stack[p..][k] != x {
        assert st.stack[p..][k] == st.stack[p + k];
      }
    }
  }

  // ---------------------------------------------------------------------
  // Discovering a vertex.

  lemma DiscoverStack(st: TarjanState, grays: seq<string>, v: string)
    requires StackWf(st) && SccsWf(st) && GraysWf(st, grays) && v !in st.index
    ensures StackWf(Discover(st, v)) && SccsWf(Discover(st, v)) && GraysWf(Discover(st, v), grays + [v])
  {
    var st' := Discover(st, v);
    var g' := grays + [v];
    assert StackWf(st') by {
      forall i, j | 0 <= i < j < |st'.stack| ensures st'.index[st'.stack[i]] < st'.index[st'.stack[j]] {
        assert st'.stack[i] == st.stack[i];
        if j < |st.stack| {
          assert st'.stack[j] == st.stack[j];
        }
      }
    }
    assert GraysWf(st', g') by {
      forall i, j | 0 <= i < j < |g'| && g'[i] in st'.index && g'[j] in st'.index
        ensures st'.index[g'[i]] < st'.index[g'[j]]
      {
        assert g'[i] == grays[i] && g'[i] in st.stack;
        if j < |grays| {
          assert g'[j] == grays[j];
        }
      }
    }
  }

  lemma DiscoverReach(adj: Adjacency, st: TarjanState, grays: seq<string>, v: string)
    requires StackWf(st) && GraysWf(st, grays) && StackReach(adj, st) && GrayWitness(adj, st, grays)
    requires v !in st.index
    requires grays == [] ==> st.stack == []
    requires grays != [] ==> v in Succ(adj, grays[|grays| - 1])
    ensures StackReach(adj, Discover(st, v)) && GrayWitness(adj, Discover(st, v), grays + [v])
  {
    var st' := Discover(st, v);
    var g' := grays + [v];
    forall x | x in st.stack ensures Reaches(adj, x, v) {
      assert ReachesGray(adj, st, grays, x);
      var g :| g in grays && g in st.index && st.index[g] <= st.index[x] && Reaches(adj, x, g);
      var top := grays[|grays| - 1];
      var i :| 0 <= i < |grays| && grays[i] == g;
      assert top in st.stack && top in st.index;
      assert st.index[g] <= st.index[top];
      ReachesTrans(adj, x, g, top);
      ReachesStep(adj, x, top, v);
    }
    ReachesRefl(adj, v);
    forall x, y | x in st'.stack && y in st'.stack && x in st'.index && y in st'.index &&
                  st'.index[x] <= st'.index[y]
      ensures Reaches(adj, x, y)
    {
      if y != v {
        assert y in st.stack;
        assert x in st.stack;
      }
    }
    forall x | x in st'.stack && x in st'.index
      ensures ReachesGray(adj, st', g', x)
    {
      if x == v {
        assert v in g';
      } else {
        assert x in st.stack && ReachesGray(adj, st, grays, x);
        var g :| g in grays && g in st.index && st.index[g] <= st.index[x] && Reaches(adj, x, g);
        assert g in g';
      }
    }
  }

  lemma DiscoverPreservesInv(adj: Adjacency, st: TarjanState, grays: seq<string>, v: string)
    requires Inv(adj, st, grays) && v !in st.index
    requires grays == [] ==> st.stack == []
    requires grays != [] ==> v in Succ(adj, grays[|grays| - 1])
    ensures Inv(adj, Discover(st, v), grays + [v])
  {
    DiscoverStack(st, grays, v);
    DiscoverReach(adj, st, grays, v);
  }

  // ---------------------------------------------------------------------
  // Ending the call of `v` without popping.

  lemma FinishKeepsInv(adj: Adjacency, st: TarjanState, grays: seq<string>, v: string, y: string)
    requires Inv(adj, st, grays + [v]) && v in st.index
    requires forall w :: w in Succ(adj, v) ==> w in st.index
    requires y in st.stack && y in st.index && st.index[y] < st.index[v] && Reaches(adj, v, y)
    ensures Inv(adj, st, grays)
  {
    var g' := grays + [v];
    assert GraysWf(st, grays) by {
      forall i, j | 0 <= i < j < |grays| && grays[i] in st.index && grays[j] in st.index
        ensures st.index[grays[i]] < st.index[grays[j]]
      {
        assert grays[i] == g'[i] && grays[j] == g'[j];
      }
    }
    FinishWitness(adj, st, grays, v, y);
  }

  lemma FinishWitness(adj: Adjacency, st: TarjanState, grays: seq<string>, v: string, y: string)
    requires GrayWitness(adj, st, grays + [v]) && v in st.index
    requires y in st.stack && y in st.index && st.index[y] < st.index[v] && Reaches(adj, v, y)
    ensures GrayWitness(adj, st, grays)
  {
    var g' := grays + [v];
    assert ReachesGray(adj, st, g', y);
    var gy :| gy in g' && gy in st.index && st.index[gy] <= st.index[y] && Reaches(adj, y, gy);
    assert gy in grays;
    forall x | x in st.stack && x in st.index
      ensures ReachesGray(adj, st, grays, x)
    {
      assert ReachesGray(adj, st, g', x);
      var g :| g in g' && g in st.index && st.index[g] <= st.index[x] && Reaches(adj, x, g);
      if g == v {
        ReachesTrans(adj, x, v, y);
        ReachesTrans(adj, x, y, gy);
      } else {
        assert g in grays;
      }
    }
  }

  // ---------------------------------------------------------------------
  // Popping the component rooted at `v`.

  /** `component` lists the stack from its top down to position `p`, as the do-while pops it. */
  ghost predicate PoppedFrom(st: TarjanState, p: nat, component: seq<string>) {
    && p <= |st.stack|
    && |component| == |st.stack| - p
    && forall k :: 0 <= k < |component| ==> component[k] == st.stack[|st.stack| - 1 - k]
  }

  ghost function AfterPop(st: TarjanState, p: nat, component: seq<string>): TarjanState
    requires p <= |st.stack|
  {
    st.(stack := st.stack[..p], onStack := st.onStack - Elems(component), sccs := st.sccs + [component])
  }

  lemma PoppedElems(st: TarjanState, p: nat, component: seq<string>)
    requires StackWf(st) && PoppedFrom(st, p, component)
    ensures Elems(component) == Elems(st.stack[p..])
    ensures Distinct(component)
  {
    forall x | x in st.stack[p..] ensures x in component {
      var k :| 0 <= k < |st.stack| - p && st.stack[p..][k] == x;
      assert component[|st.stack| - 1 - (p + k)] == x;
    }
    forall i, j | 0 <= i < j < |component| ensures component[i] != component[j] {
      StackOrder(st, |st.stack| - 1 - j, |st.stack| - 1 - i);
    }
  }

  /** The popped vertices together with the components emitted before are closed under successors. */
  lemma PopClosed(adj: Adjacency, st: TarjanState, grays: seq<string>, v: string, p: nat, lowlink: map<string, nat>)
    requires StackWf(st) && SccsWf(st) && NoBlackToWhite(adj, st, grays + [v])
    requires ClosedUnderSucc(adj, Emitted(st.sccs))
    requires p < |st.stack| && st.stack[p] == v
    requires forall g :: g in grays ==> g in st.stack[..p]
    requires forall w :: w in Succ(adj, v) ==> w in st.index
    requires v in lowlink && lowlink[v] == st.index[v]
    requires forall x, y :: x in st.stack[p..] && y in st.stack[..p] && y in st.index && y in Succ(adj, x) ==>
      lowlink[v] <= st.index[y]
    ensures ClosedUnderSucc(adj, Emitted(st.sccs) + Elems(st.stack[p..]))
  {
    var e := Emitted(st.sccs);
    var c := Elems(st.stack[p..]);
    StackSplit(st, p);
    forall x, y | x in e + c && y in Succ(adj, x) ensures y in e + c {
      if x in c {
        var k := StackPosition(st.stack, p, x);
        StackOrder(st, p, k);
        assert x !in grays;
        assert y in st.index;
      }
    }
  }

  /** A position at or above `p` where `x` sits in the stack `s`. */
  lemma StackPosition(s: seq<string>, p: nat, x: string) returns (k: nat)
    requires p <= |s| && x in s[p..]
    ensures p <= k < |s| && s[k] == x
  {
    var m :| 0 <= m < |s| - p && s[p..][m] == x;
    k := p + m;
  }

  /** The popped vertices are mutually reachable, and nothing else reaches and is reached by them. */
  lemma PopIsScc(adj: Adjacency, st: TarjanState, grays: seq<string>, v: string, p: nat)
    requires StackWf(st) && SccsWf(st) && GrayWitness(adj, st, grays + [v]) && StackReach(adj, st)
    requires p < |st.stack| && st.stack[p] == v
    requires forall g :: g in grays ==> g in st.stack[..p]
    requires ClosedUnderSucc(adj, Emitted(st.sccs) + Elems(st.stack[p..]))
    requires ClosedUnderSucc(adj, Emitted(st.sccs))
    ensures forall x, y :: x in st.stack[p..] && y in st.stack[p..] ==> Reaches(adj, x, y)
    ensures forall x, y :: x in st.stack[p..] && Reaches(adj, x, y) && Reaches(adj, y, x) ==> y in st.stack[p..]
  {
    var e := Emitted(st.sccs);
    var c := Elems(st.stack[p..]);
    StackSplit(st, p);
    forall x | x in st.stack[p..] ensures Reaches(adj, x, v) && Reaches(adj, v, x) {
      var k :| 0 <= k < |st.stack| - p && st.stack[p..][k] == x;
      assert st.stack[p + k] == x;
      StackOrder(st, p, p + k);
      assert ReachesGray(adj, st, grays + [v], x);
      var g :| g in grays + [v] && g in st.index && st.index[g] <= st.index[x] && Reaches(adj, x, g);
      assert x in c;
      ClosedReaches(adj, e + c, x, g);
      assert g !in grays;
    }
    forall x, y | x in st.stack[p..] && y in st.stack[p..] ensures Reaches(adj, x, y) {
      ReachesTrans(adj, x, v, y);
    }
    forall x, y | x in st.stack[p..] && Reaches(adj, x, y) && Reaches(adj, y, x) ensures y in st.stack[p..] {
      assert x in c && x in st.stack;
      ClosedReaches(adj, e + c, x, y);
      ClosedReaches(adj, e, y, x);
    }
  }

  lemma PopKeepsInv(adj: Adjacency, st: TarjanState, grays: seq<string>, v: string, p: nat,
                    lowlink: map<string, nat>, component: seq<string>)
    requires Inv(adj, st, grays + [v])
    requires p < |st.stack| && st.stack[p] == v
    requires forall g :: g in grays ==> g in st.stack[..p]
    requires forall w :: w in Succ(adj, v) ==> w in st.index
    requires v in lowlink && lowlink[v] == st.index[v]
    requires forall x, y :: x in st.stack[p..] && y in st.stack[..p] && y in st.index && y in Succ(adj, x) ==>
      lowlink[v] <= st.index[y]
    requires PoppedFrom(st, p, component)
    ensures Inv(adj, AfterPop(st, p, component), grays)
  {
    var st' := AfterPop(st, p, component);
    var g' := grays + [v];
    var e := Emitted(st.sccs);
    PoppedElems(st, p, component);
    StackSplit(st, p);
    EmittedSnoc(st.sccs, component);
    assert Emitted(st'.sccs) == e + Elems(st.stack[p..]);
    PopClosed(adj, st, grays, v, p, lowlink);
    PopIsScc(adj, st, grays, v, p);
    assert IsScc(adj, component) by {
      assert forall x :: x in component <==> x in st.stack[p..];
    }
    assert SccsCorrect(adj, st') by {
      forall k | 0 <= k < |st'.sccs| ensures IsScc(adj, st'.sccs[k]) {
        if k < |st.sccs| {
          assert st'.sccs[k] == st.sccs[k];
        }
      }
    }
    PopStackParts(adj, st, grays, v, p, component);
  }

  lemma PopStackParts(adj: Adjacency, st: TarjanState, grays: seq<string>, v: string, p: nat,
                      component: seq<string>)
    requires StackWf(st) && SccsWf(st) && GraysWf(st, grays + [v]) && GrayWitness(adj, st, grays + [v])
    requires StackReach(adj, st)
    requires p < |st.stack| && st.stack[p] == v
    requires forall g :: g in grays ==> g in st.stack[..p]
    requires PoppedFrom(st, p, component)
    requires Elems(component) == Elems(st.stack[p..]) && Distinct(component)
    requires forall x :: x in st.stack <==> x in st.stack[..p] || x in st.stack[p..]
    requires forall x :: x in st.stack[..p] ==> x !in st.stack[p..]
    requires Emitted(st.sccs + [component]) == Emitted(st.sccs) + Elems(st.stack[p..])
    ensures StackWf(AfterPop(st, p, component)) && SccsWf(AfterPop(st, p, component))
    ensures GraysWf(AfterPop(st, p, component), grays) && GrayWitness(adj, AfterPop(st, p, component), grays)
    ensures StackReach(adj, AfterPop(st, p, component))
  {
    PopStackWf(st, p, component);
    PopSccsWf(st, p, component);
    PopGrays(adj, st, grays, v, p, component);
  }

  lemma PopStackWf(st: TarjanState, p: nat, component: seq<string>)
    requires StackWf(st) && PoppedFrom(st, p, component)
    requires Elems(component) == Elems(st.stack[p..])
    requires forall x :: x in st.stack <==> x in st.stack[..p] || x in st.stack[p..]
    requires forall x :: x in st.stack[..p] ==> x !in st.stack[p..]
    ensures StackWf(AfterPop(st, p, component))
  {
    assert forall x :: x in component <==> x in st.stack[p..] by {
      forall x ensures x in component <==> x in Elems(component) { }
    }
  }

  lemma PopSccsWf(st: TarjanState, p: nat, component: seq<string>)
    requires StackWf(st) && SccsWf(st)
    requires PoppedFrom(st, p, component)
    requires Elems(component) == Elems(st.stack[p..]) && Distinct(component)
    requires forall x :: x in st.stack <==> x in st.stack[..p] || x in st.stack[p..]
    requires forall x :: x in st.stack[..p] ==> x !in st.stack[p..]
    requires Emitted(st.sccs + [component]) == Emitted(st.sccs) + Elems(st.stack[p..])
    requires p < |st.stack|
    ensures SccsWf(AfterPop(st, p, component))
  {
    var st' := AfterPop(st, p, component);
    assert forall x :: x in component <==> x in st.stack[p..] by {
      forall x ensures x in component <==> x in Elems(component) { }
    }
    assert st.stack[p] in st.stack[p..];
    forall k, l, x | 0 <= k < l < |st'.sccs| && x in st'.sccs[k] ensures x !in st'.sccs[l] {
      if l == |st.sccs| {
        assert x in Emitted(st.sccs);
      } else {
        assert st'.sccs[k] == st.sccs[k] && st'.sccs[l] == st.sccs[l];
      }
    }
  }

  lemma PopGrays(adj: Adjacency, st: TarjanState, grays: seq<string>, v: string, p: nat,
                 component: seq<string>)
    requires StackWf(st) && GraysWf(st, grays + [v]) && GrayWitness(adj, st, grays + [v])
    requires StackReach(adj, st)
    requires p < |st.stack| && st.stack[p] == v
    requires forall g :: g in grays ==> g in st.stack[..p]
    requires forall x :: x in st.stack[..p] ==> x in st.stack
    ensures GraysWf(AfterPop(st, p, component), grays) && GrayWitness(adj, AfterPop(st, p, component), grays)
    ensures StackReach(adj, AfterPop(st, p, component))
  {
    var st' := AfterPop(st, p, component);
    var g' := grays + [v];
    forall i, j | 0 <= i < j < |grays| && grays[i] in st'.index && grays[j] in st'.index
      ensures st'.index[grays[i]] < st'.index[grays[j]]
    {
      assert grays[i] == g'[i] && grays[j] == g'[j];
    }
    forall x | x in st'.stack && x in st'.index
      ensures ReachesGray(adj, st', grays, x)
    {
      var r :| 0 <= r < p && st.stack[..p][r] == x;
      assert st.stack[r] == x;
      StackOrder(st, r, p);
      assert ReachesGray(adj, st, g', x);
      var g :| g in g' && g in st.index && st.index[g] <= st.index[x] && Reaches(adj, x, g);
      assert g in grays;
    }
  }

  lemma FewerUnvisited(vs: set<string>, before: set<string>, after: set<string>, v: string)
    requires v in vs && v !in before && before + {v} <= after
    ensures |vs - after| < |vs - before|
  {
    var a := vs - after;
    var b := vs - before;
    assert a <= b - {v};
    SubsetCard(a, b - {v});
  }

  lemma SubsetCard(a: set<string>, b: set<string>)
    requires a <= b
    ensures |a| <= |b|
    decreases b
  {
    if b != {} {
      var x :| x in b;
      SubsetCard(a - {x}, b - {x});
    }
  }

  // ---------------------------------------------------------------------
  // The state of one call of `strongConnect`, split into the parts its
  // proof handles one at a time.

  /** Some vertex on the stack that `v` reaches carries `v`'s lowlink as its index. */
  ghost predicate LowlinkWitnessed(adj: Adjacency, st: TarjanState, lowlink: map<string, nat>, v: string)
    requires v in lowlink
  {
    exists y :: y in st.stack && y in st.index && st.index[y] == lowlink[v] && Reaches(adj, v, y)
  }

  /** The same, with the witness already on the stack `st0` the call of `v` started from. */
  ghost predicate LowlinkWitnessedBelow(adj: Adjacency, st0: TarjanState, st: TarjanState,
                                        lowlink: map<string, nat>, v: string)
    requires v in lowlink
  {
    exists y :: y in st0.stack && y in st.index && st.index[y] == lowlink[v] && Reaches(adj, v, y)
  }

  /** Every vertex numbered since `st0` is reachable from `v`. */
  ghost predicate ReachedFrom(adj: Adjacency, v: string, st0: TarjanState, st: TarjanState) {
    forall x :: x in st.index && x !in st0.index ==> Reaches(adj, v, x)
  }

  /** The first `i` successors of `v` are numbered. */
  ghost predicate Scanned(adj: Adjacency, v: string, st: TarjanState, i: nat) {
    i <= |Succ(adj, v)| && forall k :: 0 <= k < i ==> Succ(adj, v)[k] in st.index
  }

  /**
   * How a state inside the call of `v` relates to the state `st0` the call
   * started from: only vertices of `vs` are numbered, earlier numbers and
   * lowlinks are kept, `v` sits on the stack right above `st0`'s, and its
   * lowlink is at most its own number.
   */
  ghost predicate ScanFrame(vs: set<string>, v: string, st0: TarjanState, lowlink0: map<string, nat>,
                            st: TarjanState, lowlink: map<string, nat>)
  {
    && v !in st0.index && lowlink0.Keys == st0.index.Keys
    && st.index.Keys <= vs && lowlink.Keys == st.index.Keys
    && Extends(st0, st)
    && v in st.index && st.index[v] == st0.currentIndex
    && |st0.stack| < |st.stack| && st.stack[|st0.stack|] == v
    && (forall x :: x in lowlink0 ==> x in lowlink && lowlink[x] == lowlink0[x])
    && v in lowlink && lowlink[v] <= st0.currentIndex
  }

  /** How the state after the call of `v` relates to the state `st0` it started from. */
  ghost predicate CallFrame(vs: set<string>, v: string, st0: TarjanState, lowlink0: map<string, nat>,
                            st: TarjanState, lowlink: map<string, nat>)
  {
    && st.index.Keys <= vs && lowlink.Keys == st.index.Keys
    && Extends(st0, st)
    && (forall x :: x in lowlink0 ==> x in lowlink && lowlink[x] == lowlink0[x])
    && v in st.index && st.index[v] == st0.currentIndex
    && v in lowlink && lowlink[v] <= st.index[v]
  }

  /**
   * How the call of `v` ended: either `v` closed a component (the stack is
   * back as it was and `v` is its own lowlink) or `v` stays on the stack
   * with a lowlink naming an older stack entry that it reaches.
   */
  ghost predicate CallOutcome(adj: Adjacency, v: string, st0: TarjanState, st: TarjanState,
                              lowlink: map<string, nat>)
    requires v in lowlink && v in st.index
  {
    && (v !in st.onStack ==> st.stack == st0.stack && lowlink[v] == st.index[v])
    && (v in st.onStack ==> LowlinkWitnessedBelow(adj, st0, st, lowlink, v))
  }

  /**
   * What `strongConnect(v)` leaves behind, started from `st0`: the invariant
   * holds again with `v` no longer running, everything numbered since was
   * reached from `v`, and every edge from what is still stacked above `st0`
   * back into `st0`'s stack is bounded by `v`'s lowlink.
   */
  ghost predicate Connected(adj: Adjacency, vs: set<string>, v: string, st0: TarjanState,
                            lowlink0: map<string, nat>, grays: seq<string>,
                            st: TarjanState, lowlink: map<string, nat>)
  {
    && Inv(adj, st, grays)
    && CallFrame(vs, v, st0, lowlink0, st, lowlink)
    && ReachedFrom(adj, v, st0, st)
    && CallOutcome(adj, v, st0, st, lowlink)
    && CrossEdgesBounded(adj, st0, st, lowlink, v, Succ(adj, v))
  }

  /**
   * The state of `strongConnect(v)` after its first `i` successors: `v` is
   * running, every successor looked at is numbered, and `v`'s lowlink is
   * witnessed and bounds every edge back into the older stack seen so far.
   */
  ghost predicate Scanning(adj: Adjacency, vs: set<string>, v: string, st0: TarjanState,
                           lowlink0: map<string, nat>, grays: seq<string>,
                           st: TarjanState, lowlink: map<string, nat>, i: nat)
  {
    && ScanFrame(vs, v, st0, lowlink0, st, lowlink)
    && Inv(adj, st, grays + [v])
    && LowlinkWitnessed(adj, st, lowlink, v)
    && Scanned(adj, v, st, i)
    && ReachedFrom(adj, v, st0, st)
    && CrossEdgesBounded(adj, st0, st, lowlink, v, Succ(adj, v)[..i])
  }

  // ---------------------------------------------------------------------
  // Popping a component.

  /** A vertex on the stack numbered before `v` was already on it when `v` was discovered. */
  lemma BelowRootIsOld(st0: TarjanState, st: TarjanState, p: nat, v: string, y: string)
    requires StackWf(st) && p == |st0.stack| && Extends(st0, st)
    requires p < |st.stack| && st.stack[p] == v
    requires y in st.stack && y in st.index && st.index[y] < st.index[v]
    ensures y in st0.stack
  {
    var r :| 0 <= r < |st.stack| && st.stack[r] == y;
    StackOrder(st, p, r);
    assert st0.stack[r] == y;
  }

  /** The do-while loop of `strongConnect`: pop the stack down to `v`, collecting what it pops. */
  method PopComponent(st0: TarjanState, v: string, ghost p: nat) returns (st: TarjanState, component: seq<string>)
    requires StackWf(st0) && p < |st0.stack| && st0.stack[p] == v
    ensures st == st0.(stack := st0.stack[..p], onStack := st0.onStack - Elems(component))
    ensures PoppedFrom(st0, p, component)
  {
    st := st0;
    component := [];
    var w: string;
    var popping := true;
    while popping
      invariant p <= |st.stack| <= |st0.stack|
      invariant popping <==> p < |st.stack|
      invariant st == st0.(stack := st.stack, onStack := st.onStack)
      invariant st.stack == st0.stack[..|st.stack|]
      invariant st.onStack == st0.onStack - Elems(component)
      invariant PoppedFrom(st0, |st.stack|, component)
      decreases |st.stack|
    {
      w := st.stack[|st.stack| - 1];
      assert Elems(component + [w]) == Elems(component) + {w};
      st := st.(stack := st.stack[..|st.stack| - 1], onStack := st.onStack - {w});
      component := component + [w];
      popping := w != v;
      if p < |st.stack| {
        StackOrder(st0, p, |st.stack|);
      }
    }
  }

  // ---------------------------------------------------------------------
  // `strongConnect` itself.

  /**
   * `strongConnect(v)`: number `v`, visit its successors, and pop a
   * component if `v` is its root.
   */
  method StrongConnect(adj: Adjacency, ghost vs: set<string>, v: string, st0: TarjanState,
                       lowlink0: map<string, nat>, ghost grays: seq<string>)
      returns (st: TarjanState, lowlink: map<string, nat>)
    requires ClosedUnderSucc(adj, vs) && v in vs && st0.index.Keys <= vs
    requires Inv(adj, st0, grays) && lowlink0.Keys == st0.index.Keys && v !in st0.index
    requires grays == [] ==> st0.stack == []
    requires grays != [] ==> v in Succ(adj, grays[|grays| - 1])
    ensures Connected(adj, vs, v, st0, lowlink0, grays, st, lowlink)
    decreases |vs - st0.index.Keys|, 1
  {
    st, lowlink := StartVertex(adj, vs, v, st0, lowlink0, grays);
    st, lowlink := VisitNeighbours(adj, vs, v, st0, lowlink0, grays, st, lowlink);
    st := CloseVertex(adj, vs, v, st0, lowlink0, grays, st, lowlink);
  }

  /** The opening of `strongConnect(v)`: `index`, `lowlink`, the stack and `onStack` take `v`. */
  method StartVertex(adj: Adjacency, ghost vs: set<string>, v: string, st0: TarjanState,
                     lowlink0: map<string, nat>, ghost grays: seq<string>)
      returns (st: TarjanState, lowlink: map<string, nat>)
    requires v in vs && st0.index.Keys <= vs
    requires Inv(adj, st0, grays) && lowlink0.Keys == st0.index.Keys && v !in st0.index
    requires grays == [] ==> st0.stack == []
    requires grays != [] ==> v in Succ(adj, grays[|grays| - 1])
    ensures st == Discover(st0, v) && lowlink == lowlink0[v := st0.currentIndex]
    ensures Scanning(adj, vs, v, st0, lowlink0, grays, st, lowlink, 0)
  {
    st := Discover(st0, v);
    lowlink := lowlink0[v := st0.currentIndex];
    DiscoverPreservesInv(adj, st0, grays, v);
    ScanStart(adj, vs, v, st0, lowlink0);
  }

  /** Numbering and pushing `v` starts the scan of its successors. */
  lemma ScanStart(adj: Adjacency, vs: set<string>, v: string, st0: TarjanState, lowlink0: map<string, nat>)
    requires v in vs && st0.index.Keys <= vs && lowlink0.Keys == st0.index.Keys && v !in st0.index
    ensures ScanFrame(vs, v, st0, lowlink0, Discover(st0, v), lowlink0[v := st0.currentIndex])
    ensures LowlinkWitnessed(adj, Discover(st0, v), lowlink0[v := st0.currentIndex], v)
    ensures Scanned(adj, v, Discover(st0, v), 0) && ReachedFrom(adj, v, st0, Discover(st0, v))
    ensures CrossEdgesBounded(adj, st0, Discover(st0, v), lowlink0[v := st0.currentIndex], v, Succ(adj, v)[..0])
  {
    var st := Discover(st0, v);
    ReachesRefl(adj, v);
    assert st.stack[..|st0.stack|] == st0.stack;
    assert st.stack[|st0.stack|..] == [v];
    assert v in st.stack;
  }

  /** The loop of `strongConnect(v)` over its successors, in adjacency order. */
  method VisitNeighbours(adj: Adjacency, ghost vs: set<string>, v: string, st0: TarjanState,
                         lowlink0: map<string, nat>, ghost grays: seq<string>,
                         st1: TarjanState, lowlink1: map<string, nat>)
      returns (st: TarjanState, lowlink: map<string, nat>)
    requires ClosedUnderSucc(adj, vs) && v in vs
    requires Scanning(adj, vs, v, st0, lowlink0, grays, st1, lowlink1, 0)
    ensures Scanning(adj, vs, v, st0, lowlink0, grays, st, lowlink, |Succ(adj, v)|)
    decreases |vs - st0.index.Keys|, 0
  {
    st, lowlink := st1, lowlink1;
    var neighbors := Succ(adj, v);
    for i := 0 to |neighbors|
      invariant Scanning(adj, vs, v, st0, lowlink0, grays, st, lowlink, i)
    {
      ScanFewer(vs, v, st0, lowlink0, st, lowlink);
      st, lowlink := VisitNeighbour(adj, vs, v, st0, lowlink0, grays, st, lowlink, i);
    }
  }

  /** Inside the call of `v`, more vertices of `vs` are numbered than when it started. */
  lemma ScanFewer(vs: set<string>, v: string, st0: TarjanState, lowlink0: map<string, nat>,
                  st: TarjanState, lowlink: map<string, nat>)
    requires v in vs && ScanFrame(vs, v, st0, lowlink0, st, lowlink)
    ensures |vs - st.index.Keys| < |vs - st0.index.Keys|
  {
    FewerUnvisited(vs, st0.index.Keys, st.index.Keys, v);
  }

  /** One turn of the loop over `v`'s successors. */
  method VisitNeighbour(adj: Adjacency, ghost vs: set<string>, v: string, st0: TarjanState,
                        lowlink0: map<string, nat>, ghost grays: seq<string>,
                        st: TarjanState, lowlink: map<string, nat>, i: nat)
      returns (st': TarjanState, lowlink': map<string, nat>)
    requires ClosedUnderSucc(adj, vs) && v in vs
    requires Scanning(adj, vs, v, st0, lowlink0, grays, st, lowlink, i) && i < |Succ(adj, v)|
    ensures Scanning(adj, vs, v, st0, lowlink0, grays, st', lowlink', i + 1)
    decreases |vs - st.index.Keys|, 2
  {
    var w := Succ(adj, v)[i];
    if w !in st.index {
      ChildReady(adj, vs, v, st0, lowlink0, grays, st, lowlink, i);
      var st2, lowlink2 := StrongConnect(adj, vs, w, st, lowlink, grays + [v]);
      lowlink' := LowerAfterChild(adj, vs, v, st0, lowlink0, grays, st, lowlink, i, st2, lowlink2);
      st' := st2;
    } else if w in st.onStack {
      lowlink' := LowerAfterOnStack(adj, vs, v, st0, lowlink0, grays, st, lowlink, i);
      st' := st;
    } else {
      ScanningAfterDone(adj, vs, v, st0, lowlink0, grays, st, lowlink, i);
      st', lowlink' := st, lowlink;
    }
  }

  /** After the search from the child `w` returns, `lowlink[v]` takes the smaller of its own and `w`'s. */
  method LowerAfterChild(adj: Adjacency, ghost vs: set<string>, v: string, ghost st0: TarjanState,
                         ghost lowlink0: map<string, nat>, ghost grays: seq<string>,
                         ghost st: TarjanState, ghost lowlink: map<string, nat>, i: nat,
                         st2: TarjanState, lowlink2: map<string, nat>)
      returns (lowlink': map<string, nat>)
    requires Scanning(adj, vs, v, st0, lowlink0, grays, st, lowlink, i) && i < |Succ(adj, v)|
    requires Succ(adj, v)[i] !in st.index
    requires Connected(adj, vs, Succ(adj, v)[i], st, lowlink, grays + [v], st2, lowlink2)
    ensures Scanning(adj, vs, v, st0, lowlink0, grays, st2, lowlink', i + 1)
  {
    ScanningAfterChild(adj, vs, v, st0, lowlink0, grays, st, lowlink, i, st2, lowlink2);
    var w := Succ(adj, v)[i];
    lowlink' := lowlink2[v := Min(lowlink2[v], lowlink2[w])];
  }

  /** A successor `w` still on the stack lowers `lowlink[v]` to at most `w`'s index. */
  method LowerAfterOnStack(adj: Adjacency, ghost vs: set<string>, v: string, ghost st0: TarjanState,
                           ghost lowlink0: map<string, nat>, ghost grays: seq<string>,
                           st: TarjanState, lowlink: map<string, nat>, i: nat)
      returns (lowlink': map<string, nat>)
    requires Scanning(adj, vs, v, st0, lowlink0, grays, st, lowlink, i) && i < |Succ(adj, v)|
    requires Succ(adj, v)[i] in st.index && Succ(adj, v)[i] in st.onStack
    ensures Scanning(adj, vs, v, st0, lowlink0, grays, st, lowlink', i + 1)
  {
    ScanningAfterOnStack(adj, vs, v, st0, lowlink0, grays, st, lowlink, i);
    var w := Succ(adj, v)[i];
    lowlink' := lowlink[v := Min(lowlink[v], st.index[w])];
  }

  /** An unnumbered successor of `v` may be searched from the loop's state, with `v` running. */
  lemma ChildReady(adj: Adjacency, vs: set<string>, v: string, st0: TarjanState,
                   lowlink0: map<string, nat>, grays: seq<string>,
                   st: TarjanState, lowlink: map<string, nat>, i: nat)
    requires ClosedUnderSucc(adj, vs) && ScanFrame(vs, v, st0, lowlink0, st, lowlink) && i < |Succ(adj, v)|
    ensures Succ(adj, v)[i] in vs && (grays + [v])[|grays + [v]| - 1] == v
  {
  }

  // ---------------------------------------------------------------------
  // After searching an unnumbered successor `w` of `v`.

  lemma ScanningAfterChild(adj: Adjacency, vs: set<string>, v: string, st0: TarjanState,
                           lowlink0: map<string, nat>, grays: seq<string>,
                           st: TarjanState, lowlink: map<string, nat>, i: nat,
                           st2: TarjanState, lowlink2: map<string, nat>)
    requires Scanning(adj, vs, v, st0, lowlink0, grays, st, lowlink, i) && i < |Succ(adj, v)|
    requires Succ(adj, v)[i] !in st.index
    requires Connected(adj, vs, Succ(adj, v)[i], st, lowlink, grays + [v], st2, lowlink2)
    ensures v in lowlink2
    ensures Scanning(adj, vs, v, st0, lowlink0, grays, st2,
                     lowlink2[v := Min(lowlink2[v], lowlink2[Succ(adj, v)[i]])], i + 1)
  {
    var w := Succ(adj, v)[i];
    AfterChildFrame(vs, v, w, st0, lowlink0, st, lowlink, st2, lowlink2);
    AfterChildWitness(adj, vs, v, w, st0, lowlink0, st, lowlink, st2, lowlink2);
    AfterChildScanned(adj, v, st, st2, i);
    AfterChildReached(adj, v, st0, st, st2, i);
    AfterChildCross(adj, vs, v, st0, lowlink0, st, lowlink, st2, lowlink2, i);
  }

  lemma AfterChildFrame(vs: set<string>, v: string, w: string, st0: TarjanState, lowlink0: map<string, nat>,
                        st: TarjanState, lowlink: map<string, nat>, st2: TarjanState, lowlink2: map<string, nat>)
    requires ScanFrame(vs, v, st0, lowlink0, st, lowlink) && w !in st.index
    requires CallFrame(vs, w, st, lowlink, st2, lowlink2)
    ensures v in lowlink2 && lowlink2[v] == lowlink[v] && w in lowlink2
    ensures ScanFrame(vs, v, st0, lowlink0, st2, lowlink2[v := Min(lowlink2[v], lowlink2[w])])
  {
    ExtendsTrans(st0, st, st2);
    assert st2.stack[|st0.stack|] == st2.stack[..|st.stack|][|st0.stack|];
  }

  lemma AfterChildWitness(adj: Adjacency, vs: set<string>, v: string, w: string, st0: TarjanState,
                          lowlink0: map<string, nat>, st: TarjanState, lowlink: map<string, nat>,
                          st2: TarjanState, lowlink2: map<string, nat>)
    requires ScanFrame(vs, v, st0, lowlink0, st, lowlink) && w !in st.index && w in Succ(adj, v)
    requires LowlinkWitnessed(adj, st, lowlink, v)
    requires CallFrame(vs, w, st, lowlink, st2, lowlink2) && CallOutcome(adj, w, st, st2, lowlink2)
    ensures v in lowlink2
    ensures LowlinkWitnessed(adj, st2, lowlink2[v := Min(lowlink2[v], lowlink2[w])], v)
  {
    var l3 := lowlink2[v := Min(lowlink2[v], lowlink2[w])];
    PrefixElems(st.stack, st2.stack);
    var y0 :| y0 in st.stack && y0 in st.index && st.index[y0] == lowlink[v] && Reaches(adj, v, y0);
    assert lowlink2[v] == lowlink[v];
    if lowlink2[w] < lowlink[v] {
      assert w in st2.onStack;
      var y :| y in st.stack && y in st2.index && st2.index[y] == lowlink2[w] && Reaches(adj, w, y);
      StepReaches(adj, v, w, y);
      assert y in st2.stack && st2.index[y] == l3[v];
    } else {
      assert y0 in st2.stack && st2.index[y0] == l3[v];
    }
  }

  lemma AfterChildScanned(adj: Adjacency, v: string, st: TarjanState, st2: TarjanState, i: nat)
    requires Scanned(adj, v, st, i) && i < |Succ(adj, v)| && Succ(adj, v)[i] in st2.index
    requires Extends(st, st2)
    ensures Scanned(adj, v, st2, i + 1)
  {
  }

  lemma AfterChildReached(adj: Adjacency, v: string, st0: TarjanState, st: TarjanState, st2: TarjanState, i: nat)
    requires i < |Succ(adj, v)| && ReachedFrom(adj, v, st0, st) && ReachedFrom(adj, Succ(adj, v)[i], st, st2)
    ensures ReachedFrom(adj, v, st0, st2)
  {
    forall x | x in st2.index && x !in st0.index ensures Reaches(adj, v, x) {
      if x !in st.index {
        StepReaches(adj, v, Succ(adj, v)[i], x);
      }
    }
  }

  lemma AfterChildCross(adj: Adjacency, vs: set<string>, v: string, st0: TarjanState, lowlink0: map<string, nat>,
                        st: TarjanState, lowlink: map<string, nat>, st2: TarjanState, lowlink2: map<string, nat>,
                        i: nat)
    requires ScanFrame(vs, v, st0, lowlink0, st, lowlink) && StackWf(st)
    requires i < |Succ(adj, v)| && Succ(adj, v)[i] !in st.index
    requires CallFrame(vs, Succ(adj, v)[i], st, lowlink, st2, lowlink2)
    requires CrossEdgesBounded(adj, st0, st, lowlink, v, Succ(adj, v)[..i])
    requires CrossEdgesBounded(adj, st, st2, lowlink2, Succ(adj, v)[i], Succ(adj, Succ(adj, v)[i]))
    ensures v in lowlink2 && |st0.stack| <= |st2.stack|
    ensures CrossEdgesBounded(adj, st0, st2, lowlink2[v := Min(lowlink2[v], lowlink2[Succ(adj, v)[i]])], v,
                              Succ(adj, v)[..i + 1])
  {
    var neighbors := Succ(adj, v);
    var w := neighbors[i];
    var p := |st0.stack|;
    var l3 := lowlink2[v := Min(lowlink2[v], lowlink2[w])];
    assert lowlink2[v] == lowlink[v];
    PrefixElems(st0.stack, st.stack);
    assert neighbors[..i + 1] == neighbors[..i] + [w];
    forall x, y | && x in st2.stack[p..] && y in st0.stack && y in st2.index && y in Succ(adj, x)
                  && (x == v ==> y in neighbors[..i + 1])
      ensures l3[v] <= st2.index[y]
    {
      StackedAbove(st.stack, st2.stack, p, x);
      assert y in st.stack && y in st.index && st2.index[y] == st.index[y];
    }
  }

  /** What is stacked above position `p` of a longer stack sits above `p` in the shorter one or above it. */
  lemma StackedAbove(s: seq<string>, s2: seq<string>, p: nat, x: string)
    requires p <= |s| <= |s2| && s2[..|s|] == s && x in s2[p..]
    ensures x in s[p..] || x in s2[|s|..]
  {
    var k :| 0 <= k < |s2| - p && s2[p..][k] == x;
    if p + k < |s| {
      assert s[p..][k] == s2[..|s|][p + k];
    } else {
      assert s2[|s|..][p + k - |s|] == x;
    }
  }

  // ---------------------------------------------------------------------
  // After a successor that is already numbered.

  lemma ScannedNext(adj: Adjacency, v: string, st: TarjanState, i: nat)
    requires Scanned(adj, v, st, i) && i < |Succ(adj, v)| && Succ(adj, v)[i] in st.index
    ensures Scanned(adj, v, st, i + 1)
  {
  }

  /** Lowering `v`'s lowlink keeps the frame of its call. */
  lemma LowerLowlinkFrame(vs: set<string>, v: string, st0: TarjanState, lowlink0: map<string, nat>,
                          st: TarjanState, lowlink: map<string, nat>, m: nat)
    requires ScanFrame(vs, v, st0, lowlink0, st, lowlink)
    ensures ScanFrame(vs, v, st0, lowlink0, st, lowlink[v := Min(lowlink[v], m)])
  {
  }

  lemma ScanningAfterOnStack(adj: Adjacency, vs: set<string>, v: string, st0: TarjanState,
                             lowlink0: map<string, nat>, grays: seq<string>,
                             st: TarjanState, lowlink: map<string, nat>, i: nat)
    requires Scanning(adj, vs, v, st0, lowlink0, grays, st, lowlink, i) && i < |Succ(adj, v)|
    requires Succ(adj, v)[i] in st.index && Succ(adj, v)[i] in st.onStack
    ensures Scanning(adj, vs, v, st0, lowlink0, grays, st,
                     lowlink[v := Min(lowlink[v], st.index[Succ(adj, v)[i]])], i + 1)
  {
    LowerLowlinkFrame(vs, v, st0, lowlink0, st, lowlink, st.index[Succ(adj, v)[i]]);
    ScannedNext(adj, v, st, i);
    AfterOnStackNeighbour(adj, vs, v, st0, lowlink0, st, lowlink, i);
  }

  lemma AfterOnStackNeighbour(adj: Adjacency, vs: set<string>, v: string, st0: TarjanState,
                              lowlink0: map<string, nat>, st: TarjanState, lowlink: map<string, nat>, i: nat)
    requires ScanFrame(vs, v, st0, lowlink0, st, lowlink) && StackWf(st)
    requires i < |Succ(adj, v)| && Succ(adj, v)[i] in st.index && Succ(adj, v)[i] in st.onStack
    requires LowlinkWitnessed(adj, st, lowlink, v)
    requires CrossEdgesBounded(adj, st0, st, lowlink, v, Succ(adj, v)[..i])
    ensures v in lowlink[v := Min(lowlink[v], st.index[Succ(adj, v)[i]])]
    ensures LowlinkWitnessed(adj, st, lowlink[v := Min(lowlink[v], st.index[Succ(adj, v)[i]])], v)
    ensures CrossEdgesBounded(adj, st0, st, lowlink[v := Min(lowlink[v], st.index[Succ(adj, v)[i]])], v,
                              Succ(adj, v)[..i + 1])
  {
    var neighbors := Succ(adj, v);
    var w := neighbors[i];
    var l3 := lowlink[v := Min(lowlink[v], st.index[w])];
    ReachesEdge(adj, v, w);
    if st.index[w] < lowlink[v] {
      assert w in st.stack && st.index[w] == l3[v];
    }
    assert neighbors[..i + 1] == neighbors[..i] + [w];
  }

  lemma ScanningAfterDone(adj: Adjacency, vs: set<string>, v: string, st0: TarjanState,
                          lowlink0: map<string, nat>, grays: seq<string>,
                          st: TarjanState, lowlink: map<string, nat>, i: nat)
    requires Scanning(adj, vs, v, st0, lowlink0, grays, st, lowlink, i) && i < |Succ(adj, v)|
    requires Succ(adj, v)[i] in st.index && Succ(adj, v)[i] !in st.onStack
    ensures Scanning(adj, vs, v, st0, lowlink0, grays, st, lowlink, i + 1)
  {
    ScannedNext(adj, v, st, i);
    AfterDoneNeighbour(adj, vs, v, st0, lowlink0, st, lowlink, i);
  }

  lemma AfterDoneNeighbour(adj: Adjacency, vs: set<string>, v: string, st0: TarjanState,
                           lowlink0: map<string, nat>, st: TarjanState, lowlink: map<string, nat>, i: nat)
    requires ScanFrame(vs, v, st0, lowlink0, st, lowlink) && StackWf(st)
    requires i < |Succ(adj, v)| && Succ(adj, v)[i] !in st.onStack
    requires CrossEdgesBounded(adj, st0, st, lowlink, v, Succ(adj, v)[..i])
    ensures CrossEdgesBounded(adj, st0, st, lowlink, v, Succ(adj, v)[..i + 1])
  {
    var neighbors := Succ(adj, v);
    PrefixElems(st0.stack, st.stack);
    assert neighbors[..i + 1] == neighbors[..i] + [neighbors[i]];
  }

  // ---------------------------------------------------------------------
  // The end of the call.

  /** Once the loop is done every successor of `v` is numbered. */
  lemma ScannedAll(adj: Adjacency, v: string, st: TarjanState)
    requires Scanned(adj, v, st, |Succ(adj, v)|)
    ensures forall w :: w in Succ(adj, v) ==> w in st.index
    ensures Succ(adj, v)[..|Succ(adj, v)|] == Succ(adj, v)
  {
  }

  /** The end of `strongConnect(v)`: pop a component when `v` is its own lowlink. */
  method CloseVertex(adj: Adjacency, ghost vs: set<string>, v: string, st0: TarjanState,
                     lowlink0: map<string, nat>, ghost grays: seq<string>,
                     st1: TarjanState, lowlink: map<string, nat>)
      returns (st: TarjanState)
    requires Scanning(adj, vs, v, st0, lowlink0, grays, st1, lowlink, |Succ(adj, v)|)
    ensures Connected(adj, vs, v, st0, lowlink0, grays, st, lowlink)
  {
    if lowlink[v] == st1.index[v] {
      var st2, component := PopComponent(st1, v, |st0.stack|);
      st := st2.(sccs := st2.sccs + [component]);
      assert st == AfterPop(st1, |st0.stack|, component);
      ClosedAsRoot(adj, vs, v, st0, lowlink0, grays, st1, lowlink, component);
    } else {
      st := st1;
      ClosedBelowRoot(adj, vs, v, st0, lowlink0, grays, st1, lowlink);
    }
  }

  lemma ClosedAsRoot(adj: Adjacency, vs: set<string>, v: string, st0: TarjanState,
                     lowlink0: map<string, nat>, grays: seq<string>,
                     st: TarjanState, lowlink: map<string, nat>, component: seq<string>)
    requires Scanning(adj, vs, v, st0, lowlink0, grays, st, lowlink, |Succ(adj, v)|)
    requires lowlink[v] == st.index[v]
    requires PoppedFrom(st, |st0.stack|, component)
    ensures Connected(adj, vs, v, st0, lowlink0, grays, AfterPop(st, |st0.stack|, component), lowlink)
  {
    var p := |st0.stack|;
    ScannedAll(adj, v, st);
    GraysBelow(st, grays, v, p);
    RootCross(adj, vs, v, st0, lowlink0, st, lowlink);
    PopKeepsInv(adj, st, grays, v, p, lowlink, component);
    RootFrame(adj, vs, v, st0, lowlink0, st, lowlink, component);
  }

  /** The vertices whose calls are running around `v`'s lie below `v` on the stack. */
  lemma GraysBelow(st: TarjanState, grays: seq<string>, v: string, p: nat)
    requires StackWf(st) && GraysWf(st, grays + [v]) && p < |st.stack| && st.stack[p] == v
    ensures forall g :: g in grays ==> g in st.stack[..p]
  {
    var g' := grays + [v];
    forall g | g in grays ensures g in st.stack[..p] {
      var i :| 0 <= i < |grays| && grays[i] == g;
      assert g'[i] == g && g'[|grays|] == v && g in g';
      var r :| 0 <= r < |st.stack| && st.stack[r] == g;
      StackOrder(st, r, p);
      assert st.stack[..p][r] == g;
    }
  }

  /** Every edge from the part of the stack above `st0`'s back into it is bounded by `v`'s lowlink. */
  lemma RootCross(adj: Adjacency, vs: set<string>, v: string, st0: TarjanState, lowlink0: map<string, nat>,
                  st: TarjanState, lowlink: map<string, nat>)
    requires ScanFrame(vs, v, st0, lowlink0, st, lowlink)
    requires CrossEdgesBounded(adj, st0, st, lowlink, v, Succ(adj, v))
    ensures forall x, y ::
      x in st.stack[|st0.stack|..] && y in st.stack[..|st0.stack|] && y in st.index && y in Succ(adj, x)
      ==> lowlink[v] <= st.index[y]
  {
  }

  /** Popping down to `v` ends its call with `v` a closed root. */
  lemma RootFrame(adj: Adjacency, vs: set<string>, v: string, st0: TarjanState, lowlink0: map<string, nat>,
                  st: TarjanState, lowlink: map<string, nat>, component: seq<string>)
    requires ScanFrame(vs, v, st0, lowlink0, st, lowlink) && lowlink[v] == st.index[v]
    requires PoppedFrom(st, |st0.stack|, component) && ReachedFrom(adj, v, st0, st)
    ensures CallFrame(vs, v, st0, lowlink0, AfterPop(st, |st0.stack|, component), lowlink)
    ensures ReachedFrom(adj, v, st0, AfterPop(st, |st0.stack|, component))
    ensures CallOutcome(adj, v, st0, AfterPop(st, |st0.stack|, component), lowlink)
    ensures CrossEdgesBounded(adj, st0, AfterPop(st, |st0.stack|, component), lowlink, v, Succ(adj, v))
  {
    var p := |st0.stack|;
    var st' := AfterPop(st, p, component);
    assert component[|component| - 1] == v;
    assert st'.sccs[..|st0.sccs|] == st.sccs[..|st0.sccs|];
  }

  lemma ClosedBelowRoot(adj: Adjacency, vs: set<string>, v: string, st0: TarjanState,
                        lowlink0: map<string, nat>, grays: seq<string>,
                        st: TarjanState, lowlink: map<string, nat>)
    requires Scanning(adj, vs, v, st0, lowlink0, grays, st, lowlink, |Succ(adj, v)|)
    requires lowlink[v] != st.index[v]
    ensures Connected(adj, vs, v, st0, lowlink0, grays, st, lowlink)
  {
    ScannedAll(adj, v, st);
    var y :| y in st.stack && y in st.index && st.index[y] == lowlink[v] && Reaches(adj, v, y);
    BelowRootFrame(adj, vs, v, st0, lowlink0, st, lowlink, y);
    FinishKeepsInv(adj, st, grays, v, y);
  }

  /** Ending the call of `v` with `v` left on the stack, below a lowlink witnessed further down. */
  lemma BelowRootFrame(adj: Adjacency, vs: set<string>, v: string, st0: TarjanState, lowlink0: map<string, nat>,
                       st: TarjanState, lowlink: map<string, nat>, y: string)
    requires ScanFrame(vs, v, st0, lowlink0, st, lowlink) && StackWf(st) && lowlink[v] != st.index[v]
    requires y in st.stack && y in st.index && st.index[y] == lowlink[v] && Reaches(adj, v, y)
    ensures st.index[y] < st.index[v]
    ensures CallFrame(vs, v, st0, lowlink0, st, lowlink) && CallOutcome(adj, v, st0, st, lowlink)
  {
    BelowRootIsOld(st0, st, |st0.stack|, v, y);
  }

  /** Some component of `sccs` lists `x`. */
  ghost predicate Listed(sccs: seq<seq<string>>, x: string) {
    exists k :: 0 <= k < |sccs| && x in sccs[k]
  }

  /**
   * `sccs` is an answer `findStronglyConnectedComponents` may give for
   * `nodes` over `adj`: non-empty components without repeats, pairwise
   * disjoint, covering every node, holding exactly the vertices reachable
   * from a node, each one a class of mutually reachable vertices.
   */
  ghost predicate SccList(adj: Adjacency, nodes: seq<Node>, sccs: seq<seq<string>>) {
    && (forall k :: 0 <= k < |sccs| ==> sccs[k] != [] && Distinct(sccs[k]))
    && (forall k, l, x :: 0 <= k < l < |sccs| && x in sccs[k] ==> x !in sccs[l])
    && (forall n :: n in nodes ==> exists k :: 0 <= k < |sccs| && n.id in sccs[k])
    && (forall k, x :: 0 <= k < |sccs| && x in sccs[k] ==> exists n :: n in nodes && Reaches(adj, n.id, x))
    && (forall n, x :: n in nodes && Reaches(adj, n.id, x) ==> Listed(sccs, x))
    && MutualReachClasses(adj, sccs)
  }

  /**
   * `findStronglyConnectedComponents`: the components Tarjan's algorithm
   * emits, in the order it emits them, over every vertex reachable from a
   * node.
   */
  method FindStronglyConnectedComponents(nodes: seq<Node>, edges: seq<Edge>) returns (sccs: seq<seq<string>>)
    ensures forall k :: 0 <= k < |sccs| ==> sccs[k] != [] && Distinct(sccs[k])
    ensures forall k, l, x :: 0 <= k < l < |sccs| && x in sccs[k] ==> x !in sccs[l]
    ensures forall n :: n in nodes ==> exists k :: 0 <= k < |sccs| && n.id in sccs[k]
    ensures forall k, x :: 0 <= k < |sccs| && x in sccs[k] ==>
      exists n :: n in nodes && Reaches(AdjacencyOf(nodes, edges), n.id, x)
    ensures forall n, x :: n in nodes && Reaches(AdjacencyOf(nodes, edges), n.id, x) ==>
      Listed(sccs, x)
    ensures MutualReachClasses(AdjacencyOf(nodes, edges), sccs)
  {
    var adj := BuildAdjacency(nodes, edges);
    assert forall n :: n in nodes ==> n.id in adj by {
      forall n | n in nodes ensures n.id in adj {
        assert n.id in NodeIds(nodes);
      }
    }
    sccs := SearchFromNodes(adj, nodes);
  }

  /** The outer loop of `findStronglyConnectedComponents`, over a built adjacency. */
  method SearchFromNodes(adj: Adjacency, nodes: seq<Node>) returns (sccs: seq<seq<string>>)
    requires forall n :: n in nodes ==> n.id in adj
    ensures forall k :: 0 <= k < |sccs| ==> sccs[k] != [] && Distinct(sccs[k])
    ensures forall k, l, x :: 0 <= k < l < |sccs| && x in sccs[k] ==> x !in sccs[l]
    ensures forall n :: n in nodes ==> exists k :: 0 <= k < |sccs| && n.id in sccs[k]
    ensures forall k, x :: 0 <= k < |sccs| && x in sccs[k] ==>
      exists n :: n in nodes && Reaches(adj, n.id, x)
    ensures forall n, x :: n in nodes && Reaches(adj, n.id, x) ==>
      Listed(sccs, x)
    ensures MutualReachClasses(adj, sccs)
  {
    ghost var vs := Vertices(adj);
    var st := Initial;
    var lowlink: map<string, nat> := map[];
    InitialInv(adj);
    for i := 0 to |nodes|
      invariant Searched(adj, vs, nodes, i, st, lowlink)
    {
      st, lowlink := VisitRoot(adj, vs, nodes, i, st, lowlink);
    }
    sccs := st.sccs;
    SearchResult(adj, vs, nodes, st, lowlink);
  }

  /** The outer loop's invariant after the first `i` nodes. */
  ghost predicate Searched(adj: Adjacency, vs: set<string>, nodes: seq<Node>, i: nat,
                           st: TarjanState, lowlink: map<string, nat>)
  {
    && Inv(adj, st, []) && st.index.Keys <= vs && lowlink.Keys == st.index.Keys
    && RootsNumbered(nodes, i, st)
    && NumberedReachable(adj, nodes, i, st)
  }

  /** The first `i` nodes are numbered. */
  ghost predicate RootsNumbered(nodes: seq<Node>, i: nat, st: TarjanState) {
    forall k :: 0 <= k < i && k < |nodes| ==> nodes[k].id in st.index
  }

  /** After the last node the emitted components are the answer. */
  lemma SearchResult(adj: Adjacency, vs: set<string>, nodes: seq<Node>, st: TarjanState, lowlink: map<string, nat>)
    requires Searched(adj, vs, nodes, |nodes|, st, lowlink)
    ensures forall k :: 0 <= k < |st.sccs| ==> st.sccs[k] != [] && Distinct(st.sccs[k])
    ensures forall k, l, x :: 0 <= k < l < |st.sccs| && x in st.sccs[k] ==> x !in st.sccs[l]
    ensures forall n :: n in nodes ==> exists k :: 0 <= k < |st.sccs| && n.id in st.sccs[k]
    ensures forall k, x :: 0 <= k < |st.sccs| && x in st.sccs[k] ==>
      exists n :: n in nodes && Reaches(adj, n.id, x)
    ensures forall n, x :: n in nodes && Reaches(adj, n.id, x) ==>
      Listed(st.sccs, x)
    ensures MutualReachClasses(adj, st.sccs)
  {
    NoGraysNoStack(adj, st);
    FinalComponents(adj, st, nodes);
    ComponentsMutual(adj, st.sccs);
  }

  /** One turn of the outer loop: a node not yet numbered starts a new search. */
  method VisitRoot(adj: Adjacency, ghost vs: set<string>, nodes: seq<Node>, i: nat,
                   st0: TarjanState, lowlink0: map<string, nat>)
      returns (st: TarjanState, lowlink: map<string, nat>)
    requires vs == Vertices(adj) && i < |nodes| && nodes[i].id in adj
    requires Searched(adj, vs, nodes, i, st0, lowlink0)
    ensures Searched(adj, vs, nodes, i + 1, st, lowlink)
  {
    if nodes[i].id !in st0.index {
      RootReady(adj, vs, nodes, i, st0, lowlink0);
      st, lowlink := StrongConnect(adj, vs, nodes[i].id, st0, lowlink0, []);
      RootVisited(adj, vs, nodes, i, st0, lowlink0, st, lowlink);
    } else {
      st, lowlink := st0, lowlink0;
      RootSkipped(adj, vs, nodes, i, st, lowlink);
    }
  }

  /** A node not yet numbered may start a search with nothing running. */
  lemma RootReady(adj: Adjacency, vs: set<string>, nodes: seq<Node>, i: nat,
                  st0: TarjanState, lowlink0: map<string, nat>)
    requires vs == Vertices(adj) && i < |nodes| && nodes[i].id in adj
    requires Searched(adj, vs, nodes, i, st0, lowlink0)
    ensures ClosedUnderSucc(adj, vs) && nodes[i].id in vs && st0.stack == []
  {
    NoGraysNoStack(adj, st0);
  }

  /** The search from a new root keeps the outer loop's invariant. */
  lemma RootVisited(adj: Adjacency, vs: set<string>, nodes: seq<Node>, i: nat,
                    st0: TarjanState, lowlink0: map<string, nat>, st: TarjanState, lowlink: map<string, nat>)
    requires i < |nodes| && RootsNumbered(nodes, i, st0) && NumberedReachable(adj, nodes, i, st0)
    requires Inv(adj, st, []) && CallFrame(vs, nodes[i].id, st0, lowlink0, st, lowlink)
    requires ReachedFrom(adj, nodes[i].id, st0, st)
    ensures Searched(adj, vs, nodes, i + 1, st, lowlink)
  {
    RootReached(adj, nodes, i, st0, st);
  }

  /** Everything the search from node `i` numbers is reachable from node `i`. */
  lemma RootReached(adj: Adjacency, nodes: seq<Node>, i: nat, st0: TarjanState, st: TarjanState)
    requires i < |nodes| && NumberedReachable(adj, nodes, i, st0)
    requires ReachedFrom(adj, nodes[i].id, st0, st)
    ensures NumberedReachable(adj, nodes, i + 1, st)
  {
    forall x | x in st.index ensures ReachableFromNodes(adj, nodes, i + 1, x) {
      if x in st0.index {
        assert ReachableFromNodes(adj, nodes, i, x);
        var k :| 0 <= k < i && k < |nodes| && Reaches(adj, nodes[k].id, x);
      } else {
        assert Reaches(adj, nodes[i].id, x);
      }
    }
  }

  /** A node already numbered leaves the outer loop's invariant as it is. */
  lemma RootSkipped(adj: Adjacency, vs: set<string>, nodes: seq<Node>, i: nat,
                    st: TarjanState, lowlink: map<string, nat>)
    requires i < |nodes| && Searched(adj, vs, nodes, i, st, lowlink) && nodes[i].id in st.index
    ensures Searched(adj, vs, nodes, i + 1, st, lowlink)
  {
    forall x | x in st.index ensures ReachableFromNodes(adj, nodes, i + 1, x) {
      assert ReachableFromNodes(adj, nodes, i, x);
      var k :| 0 <= k < i && k < |nodes| && Reaches(adj, nodes[k].id, x);
    }
  }

  /** Every numbered vertex is reachable from one of the first `n` nodes. */
  ghost predicate NumberedReachable(adj: Adjacency, nodes: seq<Node>, n: nat, st: TarjanState) {
    forall x {:trigger ReachableFromNodes(adj, nodes, n, x)} ::
      x in st.index ==> ReachableFromNodes(adj, nodes, n, x)
  }

  /** `x` is reachable from one of the first `n` nodes. */
  ghost predicate ReachableFromNodes(adj: Adjacency, nodes: seq<Node>, n: nat, x: string) {
    exists k :: 0 <= k < n && k < |nodes| && Reaches(adj, nodes[k].id, x)
  }

  /** Once every node has been visited, the emitted components are the answer. */
  lemma FinalComponents(adj: Adjacency, st: TarjanState, nodes: seq<Node>)
    requires SccsWf(st) && SccsCorrect(adj, st) && st.stack == []
    requires forall k :: 0 <= k < |nodes| ==> nodes[k].id in st.index
    requires NumberedReachable(adj, nodes, |nodes|, st)
    ensures forall n :: n in nodes ==> exists k :: 0 <= k < |st.sccs| && n.id in st.sccs[k]
    ensures forall k, x :: 0 <= k < |st.sccs| && x in st.sccs[k] ==> exists n :: n in nodes && Reaches(adj, n.id, x)
    ensures forall n, x :: n in nodes && Reaches(adj, n.id, x) ==> Listed(st.sccs, x)
  {
    forall n | n in nodes ensures exists k :: 0 <= k < |st.sccs| && n.id in st.sccs[k] {
      var i :| 0 <= i < |nodes| && nodes[i] == n;
      assert n.id in Emitted(st.sccs);
    }
    forall k, x | 0 <= k < |st.sccs| && x in st.sccs[k]
      ensures exists n :: n in nodes && Reaches(adj, n.id, x)
    {
      assert x in Emitted(st.sccs) && x in st.index;
      assert ReachableFromNodes(adj, nodes, |nodes|, x);
      var j :| 0 <= j < |nodes| && Reaches(adj, nodes[j].id, x);
      assert nodes[j] in nodes;
    }
    forall n, x | n in nodes && Reaches(adj, n.id, x)
      ensures Listed(st.sccs, x)
    {
      var i :| 0 <= i < |nodes| && nodes[i] == n;
      assert n.id in Emitted(st.sccs);
      ClosedReaches(adj, Emitted(st.sccs), n.id, x);
      assert x in Emitted(st.sccs);
    }
  }

  /**
   * Each listed component holds exactly the vertices that are mutually
   * reachable with any one of its members.
   */
  ghost predicate MutualReachClasses(adj: Adjacency, sccs: seq<seq<string>>) {
    forall k, x, y :: 0 <= k < |sccs| && x in sccs[k] ==>
      (y in sccs[k] <==> Reaches(adj, x, y) && Reaches(adj, y, x))
  }

  /** Components each of which is strongly connected hold exactly the vertices mutually reachable with any of their members. */
  lemma ComponentsMutual(adj: Adjacency, sccs: seq<seq<string>>)
    requires forall k :: 0 <= k < |sccs| ==> IsScc(adj, sccs[k])
    ensures MutualReachClasses(adj, sccs)
  {
    forall k | 0 <= k < |sccs|
      ensures forall x, y :: x in sccs[k] ==> (y in sccs[k] <==> Reaches(adj, x, y) && Reaches(adj, y, x))
    {
      SccMutual(adj, sccs[k]);
    }
  }


  /** A strongly connected component holds exactly the vertices mutually reachable with any of its members. */
  lemma SccMutual(adj: Adjacency, c: seq<string>)
    requires IsScc(adj, c)
    ensures forall x, y :: x in c ==> (y in c <==> Reaches(adj, x, y) && Reaches(adj, y, x))
  {
  }

  /** A vertex reachable from a node that lies on no cycle is a component of its own. */
  lemma OnNoCycleAlone(adj: Adjacency, nodes: seq<Node>, sccs: seq<seq<string>>, n: Node, x: string) returns (k: nat)
    requires forall k :: 0 <= k < |sccs| ==> sccs[k] != [] && Distinct(sccs[k])
    requires forall n, x :: n in nodes && Reaches(adj, n.id, x) ==> Listed(sccs, x)
    requires MutualReachClasses(adj, sccs)
    requires n in nodes && Reaches(adj, n.id, x)
    requires forall y :: Reaches(adj, x, y) && Reaches(adj, y, x) ==> y == x
    ensures k < |sccs| && sccs[k] == [x]
  {
    assert Listed(sccs, x);
    k :| 0 <= k < |sccs| && x in sccs[k];
    var c := sccs[k];
    var first, last := c[0], c[|c| - 1];
    assert first in sccs[k] && last in sccs[k];
    assert Reaches(adj, x, first) && Reaches(adj, first, x);
    assert Reaches(adj, x, last) && Reaches(adj, last, x);
    assert |c| == 1;
  }

  /**
   * An edge target that leaves no edge of its own, reached from a node, is
   * a singleton component; so is in particular a target that is not a node.
   */
  lemma SinkAlone(nodes: seq<Node>, edges: seq<Edge>, sccs: seq<seq<string>>, n: Node, e: Edge) returns (k: nat)
    requires forall k :: 0 <= k < |sccs| ==> sccs[k] != [] && Distinct(sccs[k])
    requires forall n, x :: n in nodes && Reaches(AdjacencyOf(nodes, edges), n.id, x) ==> Listed(sccs, x)
    requires MutualReachClasses(AdjacencyOf(nodes, edges), sccs)
    requires e in edges && e.target !in Sources(edges)
    requires n in nodes && Reaches(AdjacencyOf(nodes, edges), n.id, e.source)
    ensures k < |sccs| && sccs[k] == [e.target]
  {
    var adj := AdjacencyOf(nodes, edges);
    AdjacencyEdges(nodes, edges, e.source, e.target);
    ReachesStep(adj, n.id, e.source, e.target);
    assert Succ(adj, e.target) == [] by {
      if Succ(adj, e.target) != [] {
        AdjacencyEdges(nodes, edges, e.target, Succ(adj, e.target)[0]);
      }
    }
    forall y | Reaches(adj, e.target, y) && Reaches(adj, y, e.target) ensures y == e.target {
      SinkReachesItself(adj, e.target, y);
    }
    k := OnNoCycleAlone(adj, nodes, sccs, n, e.target);
  }
}
