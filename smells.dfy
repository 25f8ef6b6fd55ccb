/**
 * `detectDependencySmells`: three kinds of findings over the nodes of a
 * processed graph — one per provided type that several providers in more
 * than one module provide, then one per node with a fan-out above five,
 * then one per node with a fan-in above five.
 */
module Smells {
  import opened GraphTypes
  import opened Seqs
  import opened Text
  import opened MaxDepth
  import opened GraphBuilder

  datatype SmellType = DuplicateProviders | HighFanOut | HighFanIn

  /** The `type` string of a finding. */
  function SmellTypeName(t: SmellType): (name: string)
    ensures |name| > 0
  {
    match t
    case DuplicateProviders => "duplicate_providers"
    case HighFanOut => "high_fan_out"
    case HighFanIn => "high_fan_in"
  }

  datatype Smell = Smell(smellType: SmellType, description: string, nodeIds: seq<string>)

  /** A fan count above this is a finding. */
  const FanThreshold: nat := 5

  // ---------------------------------------------------------------------
  // The specification.

  /** The type a provider node provides, when the node is a provider and names one (`provider.provides` is truthy). */
  function ProvidedType(n: Node): Option<string> {
    if n.Kind() == ProviderKind && n.detail.providesType != "" then Some(n.detail.providesType) else None
  }

  /** The provided types in node order, with repeats. */
  function ProvidedTypes(ns: seq<Node>): seq<string> {
    if ns == [] then []
    else
      var n := ns[|ns| - 1];
      ProvidedTypes(ns[..|ns| - 1]) + (if ProvidedType(n).Some? then [ProvidedType(n).value] else [])
  }

  /** A type is listed exactly when some node provides it. */
  lemma {:induction false} ProvidedTypesMembers(ns: seq<Node>, ty: string)
    ensures ty in ProvidedTypes(ns) <==> exists n :: n in ns && ProvidedType(n) == Some(ty)
  {
    if ns != [] {
      var init := ns[..|ns| - 1];
      ProvidedTypesMembers(init, ty);
      assert ns == init + [ns[|ns| - 1]];
    }
  }

  /** The providers of `ty`, in node order. */
  function ProvidersOf(ns: seq<Node>, ty: string): seq<Node> {
    if ns == [] then []
    else
      var n := ns[|ns| - 1];
      ProvidersOf(ns[..|ns| - 1], ty) + (if ProvidedType(n) == Some(ty) then [n] else [])
  }

  /** The providers of `ty` are exactly the nodes that provide it. */
  lemma {:induction false} ProvidersOfMembers(ns: seq<Node>, ty: string, n: Node)
    ensures n in ProvidersOf(ns, ty) <==> n in ns && ProvidedType(n) == Some(ty)
  {
    if ns != [] {
      var init := ns[..|ns| - 1];
      ProvidersOfMembers(init, ty, n);
      assert ns == init + [ns[|ns| - 1]];
    }
  }

  /** `parts.join(sep)`. */
  function JoinWith(parts: seq<string>, sep: string): string {
    if parts == [] then ""
    else if |parts| == 1 then parts[0]
    else parts[0] + sep + JoinWith(parts[1..], sep)
  }

  /** The distinct non-empty modules of a list of nodes, in first-occurrence order (`new Set(... .filter(Boolean))`). */
  function ModuleSet(ps: seq<Node>): seq<string> {
    Dedup(ModuleValues(ps))
  }

  /** The finding for provided type `ty`, if its providers span more than one module. */
  function DuplicateSmell(ns: seq<Node>, ty: string): seq<Smell> {
    var ps := ProvidersOf(ns, ty);
    var modules := ModuleSet(ps);
    if |ps| > 1 && |modules| > 1 then
      [Smell(DuplicateProviders,
             "Multiple providers for " + ty + " across modules: " + JoinWith(modules, ", "),
             IdList(ps))]
    else []
  }

  /** The duplicate-provider findings for the types `tys`, in that order. */
  function DuplicateSmells(ns: seq<Node>, tys: seq<string>): seq<Smell> {
    if tys == [] then [] else DuplicateSmells(ns, tys[..|tys| - 1]) + DuplicateSmell(ns, tys[|tys| - 1])
  }

  /** The fan count a fan finding is about. */
  function FanOf(kind: SmellType, n: Node): nat {
    if kind == HighFanOut then n.fanOut else n.fanIn
  }

  function FanDescription(kind: SmellType, n: Node): string {
    if kind == HighFanOut then "High fan-out (" + NatToString(n.fanOut) + ") suggests potential god object"
    else "High fan-in (" + NatToString(n.fanIn) + ") suggests potential bottleneck"
  }

  /** One finding of `kind` per node whose fan count of that kind exceeds five, in node order. */
  function FanSmells(ns: seq<Node>, kind: SmellType): seq<Smell> {
    if ns == [] then []
    else
      var n := ns[|ns| - 1];
      FanSmells(ns[..|ns| - 1], kind) + (if FanOf(kind, n) > FanThreshold then [Smell(kind, FanDescription(kind, n), [n.id])] else [])
  }

  /** Every finding of `detectDependencySmells(nodes, edges)`, in the order it reports them. */
  function SmellsOf(ns: seq<Node>): seq<Smell> {
    DuplicateSmells(ns, Dedup(ProvidedTypes(ns))) + FanSmells(ns, HighFanOut) + FanSmells(ns, HighFanIn)
  }

  /** Two providers of the list sit in different, named modules. */
  ghost predicate SpansModules(ps: seq<Node>) {
    exists a, b :: a in ps && b in ps && a.moduleId.Some? && b.moduleId.Some? &&
      a.moduleId.value != "" && b.moduleId.value != "" && a.moduleId != b.moduleId
  }

  // ---------------------------------------------------------------------
  // The imperative search.

  /**
   * `detectDependencySmells(nodes, edges)`: group the providers by the type
   * they provide in a map that remembers insertion order, report the types
   * whose providers span modules, then the high fan-out and the high fan-in
   * nodes. The `moduleGroups` map and the `edges` argument do not affect
   * the result.
   */
  method DetectDependencySmells(nodes: seq<Node>, edges: seq<Edge>) returns (smells: seq<Smell>)
    ensures smells == SmellsOf(nodes)
  {
    var typeProviders, order := GroupProviders(nodes);
    smells := DuplicateFindings(nodes, typeProviders, order);
    smells := AppendFanFindings(nodes, HighFanOut, smells);
    smells := AppendFanFindings(nodes, HighFanIn, smells);
  }

  /** `typeProviders.forEach(...)`: a finding per grouped type whose providers span modules, in insertion order. */
  method DuplicateFindings(nodes: seq<Node>, typeProviders: map<string, seq<Node>>, order: seq<string>) returns (smells: seq<Smell>)
    requires typeProviders.Keys == Elems(order)
    requires forall ty :: ty in typeProviders ==> typeProviders[ty] == ProvidersOf(nodes, ty)
    ensures smells == DuplicateSmells(nodes, order)
  {
    smells := [];
    for k := 0 to |order|
      invariant smells == DuplicateSmells(nodes, order[..k])
    {
      var ty := order[k];
      assert ty in Elems(order);
      var providers := typeProviders[ty];
      if |providers| > 1 {
        var modules := ModuleSet(providers);
        if |modules| > 1 {
          smells := smells + [Smell(DuplicateProviders,
                                    "Multiple providers for " + ty + " across modules: " + JoinWith(modules, ", "),
                                    IdList(providers))];
        }
      }
      assert order[..k + 1][..k] == order[..k];
    }
    assert order[..|order|] == order;
  }

  /**
   * `nodes.filter(n => n.fanOut > 5).forEach(...)` and the same for fan-in:
   * a finding of `kind` appended per node over the threshold.
   */
  method AppendFanFindings(nodes: seq<Node>, kind: SmellType, smells0: seq<Smell>) returns (smells: seq<Smell>)
    requires kind != DuplicateProviders
    ensures smells == smells0 + FanSmells(nodes, kind)
  {
    smells := smells0;
    for i := 0 to |nodes|
      invariant smells == smells0 + FanSmells(nodes[..i], kind)
    {
      var node := nodes[i];
      if FanOf(kind, node) > FanThreshold {
        smells := smells + [Smell(kind, FanDescription(kind, node), [node.id])];
      }
      assert nodes[..i + 1][..i] == nodes[..i];
    }
    assert nodes[..|nodes|] == nodes;
  }

  /**
   * The `typeProviders` map: for each provided type, its providers in node
   * order; `order` lists the types in the order they were first inserted.
   */
  method GroupProviders(nodes: seq<Node>) returns (typeProviders: map<string, seq<Node>>, order: seq<string>)
    ensures order == Dedup(ProvidedTypes(nodes))
    ensures typeProviders.Keys == Elems(order)
    ensures forall ty :: ty in typeProviders ==> typeProviders[ty] == ProvidersOf(nodes, ty)
  {
    typeProviders, order := map[], [];
    for i := 0 to |nodes|
      invariant Grouped(nodes[..i], typeProviders, order)
    {
      var node := nodes[i];
      assert nodes[..i + 1][..i] == nodes[..i];
      if node.Kind() == ProviderKind && node.detail.providesType != "" {
        var ty := node.detail.providesType;
        if ty in typeProviders {
          GroupedKnown(nodes[..i + 1], typeProviders, order, ty);
          typeProviders := typeProviders[ty := typeProviders[ty] + [node]];
        } else {
          GroupedNew(nodes[..i + 1], typeProviders, order, ty);
          typeProviders := typeProviders[ty := [node]];
          order := order + [ty];
        }
      } else {
        GroupedSkip(nodes[..i + 1], typeProviders, order);
      }
    }
    assert nodes[..|nodes|] == nodes;
  }

  /** The grouping of the providers among `ns`. */
  ghost predicate Grouped(ns: seq<Node>, typeProviders: map<string, seq<Node>>, order: seq<string>) {
    && order == Dedup(ProvidedTypes(ns))
    && typeProviders.Keys == Elems(order)
    && forall ty :: ty in typeProviders ==> typeProviders[ty] == ProvidersOf(ns, ty)
  }

  /** Grouping one more node, a provider of `ty`, a type already grouped. */
  lemma GroupedKnown(ns: seq<Node>, typeProviders: map<string, seq<Node>>, order: seq<string>, ty: string)
    requires ns != [] && Grouped(ns[..|ns| - 1], typeProviders, order) && ProvidedType(ns[|ns| - 1]) == Some(ty)
    requires ty in typeProviders
    ensures Grouped(ns, typeProviders[ty := typeProviders[ty] + [ns[|ns| - 1]]], order)
  {
    var tp' := typeProviders[ty := typeProviders[ty] + [ns[|ns| - 1]]];
    assert order == Dedup(ProvidedTypes(ns)) && tp'.Keys == Elems(order) by {
      OrderAdd(ns, typeProviders.Keys, order, ty);
    }
    assert forall t :: t in tp' ==> tp'[t] == ProvidersOf(ns, t) by {
      ListsAdd(ns, typeProviders, ty, typeProviders[ty]);
    }
  }

  /** Grouping one more node, the first provider of `ty`. */
  lemma GroupedNew(ns: seq<Node>, typeProviders: map<string, seq<Node>>, order: seq<string>, ty: string)
    requires ns != [] && Grouped(ns[..|ns| - 1], typeProviders, order) && ProvidedType(ns[|ns| - 1]) == Some(ty)
    requires ty !in typeProviders
    ensures Grouped(ns, typeProviders[ty := [ns[|ns| - 1]]], order + [ty])
  {
    NewOrder(ns, typeProviders, order, ty);
    NewLists(ns, typeProviders, order, ty);
  }

  /** The key order and key set after the first provider of `ty`. */
  lemma NewOrder(ns: seq<Node>, typeProviders: map<string, seq<Node>>, order: seq<string>, ty: string)
    requires ns != [] && order == Dedup(ProvidedTypes(ns[..|ns| - 1])) && typeProviders.Keys == Elems(order)
    requires ProvidedType(ns[|ns| - 1]) == Some(ty) && ty !in typeProviders
    ensures order + [ty] == Dedup(ProvidedTypes(ns))
    ensures typeProviders[ty := [ns[|ns| - 1]]].Keys == Elems(order + [ty])
  {
    var keys := typeProviders.Keys;
    assert ty !in keys;
    assert order + [ty] == Dedup(ProvidedTypes(ns)) && keys + {ty} == Elems(order + [ty]) by {
      OrderAdd(ns, keys, order, ty);
    }
    MapAddKeys(typeProviders, ty, [ns[|ns| - 1]]);
  }

  lemma MapAddKeys(m: map<string, seq<Node>>, k: string, v: seq<Node>)
    ensures m[k := v].Keys == m.Keys + {k}
  {
  }

  /** The provider lists after the first provider of `ty`. */
  lemma NewLists(ns: seq<Node>, typeProviders: map<string, seq<Node>>, order: seq<string>, ty: string)
    requires ns != [] && order == Dedup(ProvidedTypes(ns[..|ns| - 1])) && typeProviders.Keys == Elems(order)
    requires forall t :: t in typeProviders ==> typeProviders[t] == ProvidersOf(ns[..|ns| - 1], t)
    requires ProvidedType(ns[|ns| - 1]) == Some(ty) && ty !in typeProviders
    ensures var tp' := typeProviders[ty := [ns[|ns| - 1]]];
      forall t :: t in tp' ==> tp'[t] == ProvidersOf(ns, t)
  {
    Unlisted(ns[..|ns| - 1], typeProviders.Keys, order, ty);
    ListsNew(ns, typeProviders, ty);
  }

  /** A type missing from the grouping is provided by none of the grouped nodes. */
  lemma Unlisted(ns: seq<Node>, keys: set<string>, order: seq<string>, ty: string)
    requires order == Dedup(ProvidedTypes(ns)) && keys == Elems(order) && ty !in keys
    ensures ty !in ProvidedTypes(ns)
  {
    DedupMembers(ProvidedTypes(ns));
  }


  /** The provider lists after the first provider of `ty`. */
  lemma ListsNew(ns: seq<Node>, typeProviders: map<string, seq<Node>>, ty: string)
    requires ns != [] && ProvidedType(ns[|ns| - 1]) == Some(ty) && ty !in ProvidedTypes(ns[..|ns| - 1])
    requires forall t :: t in typeProviders ==> typeProviders[t] == ProvidersOf(ns[..|ns| - 1], t)
    ensures var tp' := typeProviders[ty := [ns[|ns| - 1]]];
      forall t :: t in tp' ==> tp'[t] == ProvidersOf(ns, t)
  {
    NoProviders(ns[..|ns| - 1], ty);
    ListsAdd(ns, typeProviders, ty, []);
  }

  /** The insertion order after one more provider of `ty`. */
  lemma OrderAdd(ns: seq<Node>, keys: set<string>, order: seq<string>, ty: string)
    requires ns != [] && order == Dedup(ProvidedTypes(ns[..|ns| - 1])) && keys == Elems(order)
    requires ProvidedType(ns[|ns| - 1]) == Some(ty)
    ensures (if ty in keys then order else order + [ty]) == Dedup(ProvidedTypes(ns))
    ensures keys + {ty} == Elems(if ty in keys then order else order + [ty])
  {
    var tys := ProvidedTypes(ns[..|ns| - 1]);
    assert ProvidedTypes(ns) == tys + [ty];
    DedupAdd(tys, ty, keys);
  }

  /** The provider lists after one more provider of `ty`. */
  lemma ListsAdd(ns: seq<Node>, typeProviders: map<string, seq<Node>>, ty: string, prior: seq<Node>)
    requires ns != [] && ProvidedType(ns[|ns| - 1]) == Some(ty)
    requires forall t :: t in typeProviders ==> typeProviders[t] == ProvidersOf(ns[..|ns| - 1], t)
    requires prior == ProvidersOf(ns[..|ns| - 1], ty)
    ensures var tp' := typeProviders[ty := prior + [ns[|ns| - 1]]];
      forall t :: t in tp' ==> tp'[t] == ProvidersOf(ns, t)
  {
    forall t | t in typeProviders[ty := prior + [ns[|ns| - 1]]]
      ensures typeProviders[ty := prior + [ns[|ns| - 1]]][t] == ProvidersOf(ns, t)
    {
      ProvidersSnoc(ns, t);
    }
  }

  /** A type nothing provides has no providers. */
  lemma NoProviders(ns: seq<Node>, ty: string)
    requires ty !in ProvidedTypes(ns)
    ensures ProvidersOf(ns, ty) == []
  {
    if ProvidersOf(ns, ty) != [] {
      var p := ProvidersOf(ns, ty)[0];
      ProvidersOfMembers(ns, ty, p);
      ProvidedTypesMembers(ns, ty);
    }
  }

  lemma ProvidersSnoc(ns: seq<Node>, ty: string)
    requires ns != []
    ensures ProvidersOf(ns, ty) == ProvidersOf(ns[..|ns| - 1], ty) + (if ProvidedType(ns[|ns| - 1]) == Some(ty) then [ns[|ns| - 1]] else [])
  {
  }

  /** Grouping one more node that provides nothing. */
  lemma GroupedSkip(ns: seq<Node>, typeProviders: map<string, seq<Node>>, order: seq<string>)
    requires ns != [] && Grouped(ns[..|ns| - 1], typeProviders, order) && ProvidedType(ns[|ns| - 1]) == None
    ensures Grouped(ns, typeProviders, order)
  {
    assert ProvidedTypes(ns) == ProvidedTypes(ns[..|ns| - 1]);
  }

  // ---------------------------------------------------------------------
  // What the findings say.

  /** Every fan finding carries the kind asked for and names one node whose fan count of that kind exceeds five. */
  lemma {:induction false} FanSmellsSound(ns: seq<Node>, kind: SmellType)
    ensures forall s :: s in FanSmells(ns, kind) ==>
      s.smellType == kind && exists n :: n in ns && FanOf(kind, n) > FanThreshold && s.nodeIds == [n.id]
  {
    if ns != [] {
      var init := ns[..|ns| - 1];
      var last := ns[|ns| - 1];
      FanSmellsSound(init, kind);
      assert ns == init + [last];
      forall s | s in FanSmells(ns, kind)
        ensures s.smellType == kind && exists n :: n in ns && FanOf(kind, n) > FanThreshold && s.nodeIds == [n.id]
      {
        if s in FanSmells(init, kind) {
          var n :| n in init && FanOf(kind, n) > FanThreshold && s.nodeIds == [n.id];
          assert n in ns;
        } else {
          assert last in ns;
        }
      }
    }
  }

  /** A node whose fan count of `kind` exceeds five has a finding of that kind naming it. */
  lemma {:induction false} FanSmellsComplete(ns: seq<Node>, kind: SmellType, n: Node)
    requires n in ns && FanOf(kind, n) > FanThreshold
    ensures exists s :: s in FanSmells(ns, kind) && s.smellType == kind && s.nodeIds == [n.id]
  {
    var init := ns[..|ns| - 1];
    var last := ns[|ns| - 1];
    assert ns == init + [last];
    if n in init {
      FanSmellsComplete(init, kind, n);
      var s :| s in FanSmells(init, kind) && s.smellType == kind && s.nodeIds == [n.id];
      assert s in FanSmells(ns, kind);
    } else {
      assert FanSmells(ns, kind) == FanSmells(init, kind) + [Smell(kind, FanDescription(kind, n), [n.id])];
    }
  }

  /** Every duplicate finding names all providers of one type, from at least two different modules. */
  lemma {:induction false} DuplicateSmellsSound(ns: seq<Node>, tys: seq<string>)
    ensures forall s :: s in DuplicateSmells(ns, tys) ==>
      && s.smellType == DuplicateProviders
      && exists ty :: ty in tys && s.nodeIds == IdList(ProvidersOf(ns, ty)) && SpansModules(ProvidersOf(ns, ty))
  {
    if tys != [] {
      var init := tys[..|tys| - 1];
      var ty := tys[|tys| - 1];
      DuplicateSmellsSound(ns, init);
      var ps := ProvidersOf(ns, ty);
      if DuplicateSmell(ns, ty) != [] {
        ModulesSpanned(ps);
      }
      forall s | s in DuplicateSmells(ns, tys)
        ensures exists ty' :: ty' in tys && s.nodeIds == IdList(ProvidersOf(ns, ty')) && SpansModules(ProvidersOf(ns, ty'))
      {
        if s in DuplicateSmells(ns, init) {
          var ty' :| ty' in init && s.nodeIds == IdList(ProvidersOf(ns, ty')) && SpansModules(ProvidersOf(ns, ty'));
          assert ty' in tys;
        } else {
          assert ty in tys;
        }
      }
    }
  }

  /** A type among `tys` whose providers span two modules gets a finding naming all of them. */
  lemma {:induction false} DuplicateSmellsComplete(ns: seq<Node>, tys: seq<string>, ty: string)
    requires ty in tys && SpansModules(ProvidersOf(ns, ty))
    ensures exists s :: s in DuplicateSmells(ns, tys) && s.smellType == DuplicateProviders && s.nodeIds == IdList(ProvidersOf(ns, ty))
  {
    var init := tys[..|tys| - 1];
    assert tys == init + [tys[|tys| - 1]];
    if ty == tys[|tys| - 1] {
      ModulesSpanned(ProvidersOf(ns, ty));
      assert DuplicateSmell(ns, ty)[0] in DuplicateSmells(ns, tys);
    } else {
      DuplicateSmellsComplete(ns, init, ty);
      var s :| s in DuplicateSmells(ns, init) && s.smellType == DuplicateProviders && s.nodeIds == IdList(ProvidersOf(ns, ty));
      assert s in DuplicateSmells(ns, tys);
    }
  }

  /** The two `size > 1` guards hold exactly when the providers span two named modules. */
  lemma ModulesSpanned(ps: seq<Node>)
    ensures |ps| > 1 && |ModuleSet(ps)| > 1 <==> SpansModules(ps)
  {
    DedupMoreThanOne(ModuleValues(ps));
    if SpansModules(ps) {
      var a, b :| a in ps && b in ps && a.moduleId.Some? && b.moduleId.Some? &&
        a.moduleId.value != "" && b.moduleId.value != "" && a.moduleId != b.moduleId;
      ModuleValuesMembers(ps, a.moduleId.value);
      ModuleValuesMembers(ps, b.moduleId.value);
      assert a != b;
    }
    if |ModuleSet(ps)| > 1 {
      var x, y :| x in ModuleValues(ps) && y in ModuleValues(ps) && x != y;
      ModuleValuesMembers(ps, x);
      ModuleValuesMembers(ps, y);
    }
  }

  /**
   * Every duplicate-provider finding of `detectDependencySmells` names all
   * providers of one type, and they span two named modules.
   */
  lemma DuplicateFindingsSound(ns: seq<Node>)
    ensures forall s :: s in SmellsOf(ns) && s.smellType == DuplicateProviders ==> NamesSpanningProviders(ns, s)
  {
    var tys := Dedup(ProvidedTypes(ns));
    DuplicateSmellsSound(ns, tys);
    FanSmellsSound(ns, HighFanOut);
    FanSmellsSound(ns, HighFanIn);
    forall s | s in SmellsOf(ns) && s.smellType == DuplicateProviders ensures NamesSpanningProviders(ns, s) {
      assert s in DuplicateSmells(ns, tys);
    }
  }

  /** The finding names every provider of some type, and those span two named modules. */
  ghost predicate NamesSpanningProviders(ns: seq<Node>, s: Smell) {
    exists ty :: s.nodeIds == IdList(ProvidersOf(ns, ty)) && SpansModules(ProvidersOf(ns, ty))
  }

  /**
   * A type whose providers span two named modules gets a
   * duplicate-provider finding naming them all.
   */
  lemma DuplicateFindingComplete(ns: seq<Node>, ty: string)
    requires SpansModules(ProvidersOf(ns, ty))
    ensures exists s :: s in SmellsOf(ns) && s.smellType == DuplicateProviders && s.nodeIds == IdList(ProvidersOf(ns, ty))
  {
    var tys := Dedup(ProvidedTypes(ns));
    var p :| p in ProvidersOf(ns, ty);
    ProvidersOfMembers(ns, ty, p);
    ProvidedTypesMembers(ns, ty);
    DedupMembers(ProvidedTypes(ns));
    DuplicateSmellsComplete(ns, tys, ty);
    var s :| s in DuplicateSmells(ns, tys) && s.smellType == DuplicateProviders && s.nodeIds == IdList(ProvidersOf(ns, ty));
    assert s in SmellsOf(ns);
  }

  /**
   * The fan findings of `detectDependencySmells`: one per node whose fan-out
   * (for `HighFanOut`) or fan-in (for `HighFanIn`) exceeds five, naming that
   * node, and no other.
   */
  lemma FanFindingsExact(ns: seq<Node>, kind: SmellType)
    requires kind != DuplicateProviders
    ensures forall s :: s in SmellsOf(ns) && s.smellType == kind ==>
      exists n :: n in ns && FanOf(kind, n) > FanThreshold && s.nodeIds == [n.id]
    ensures forall n :: n in ns && FanOf(kind, n) > FanThreshold ==>
      exists s :: s in SmellsOf(ns) && s.smellType == kind && s.nodeIds == [n.id]
  {
    DuplicateSmellsSound(ns, Dedup(ProvidedTypes(ns)));
    FanSmellsSound(ns, HighFanOut);
    FanSmellsSound(ns, HighFanIn);
    forall n | n in ns && FanOf(kind, n) > FanThreshold
      ensures exists s :: s in SmellsOf(ns) && s.smellType == kind && s.nodeIds == [n.id]
    {
      FanSmellsComplete(ns, kind, n);
      var s :| s in FanSmells(ns, kind) && s.smellType == kind && s.nodeIds == [n.id];
      assert s in SmellsOf(ns);
    }
  }

  // ---------------------------------------------------------------------
  // The fan findings, counted.

  /** The findings of `ss` of type `kind`, in their order in `ss`. */
  function OfKind(ss: seq<Smell>, kind: SmellType): (r: seq<Smell>)
    ensures |r| <= |ss|
  {
    if ss == [] then []
    else OfKind(ss[..|ss| - 1], kind) + (if ss[|ss| - 1].smellType == kind then [ss[|ss| - 1]] else [])
  }

  /** The nodes of `ns` whose fan count of `kind` exceeds five, in node order. */
  function HighFan(ns: seq<Node>, kind: SmellType): (r: seq<Node>)
    ensures |r| <= |ns|
  {
    if ns == [] then []
    else HighFan(ns[..|ns| - 1], kind) + (if FanOf(kind, ns[|ns| - 1]) > FanThreshold then [ns[|ns| - 1]] else [])
  }

  /** A node is listed exactly when it is in `ns` with a fan count of `kind` above five. */
  lemma {:induction false} HighFanMembers(ns: seq<Node>, kind: SmellType, n: Node)
    ensures n in HighFan(ns, kind) <==> n in ns && FanOf(kind, n) > FanThreshold
  {
    if ns != [] {
      var init := ns[..|ns| - 1];
      HighFanMembers(init, kind, n);
      assert ns == init + [ns[|ns| - 1]];
    }
  }

  lemma {:induction false} OfKindAppend(a: seq<Smell>, b: seq<Smell>, kind: SmellType)
    ensures OfKind(a + b, kind) == OfKind(a, kind) + OfKind(b, kind)
  {
    if b == [] {
      assert a + b == a;
    } else {
      var init := b[..|b| - 1];
      OfKindAppend(a, init, kind);
      assert (a + b)[..|a + b| - 1] == a + init;
    }
  }

  /** A list whose findings all have type `kind` is its own selection. */
  lemma {:induction false} OfKindAll(ss: seq<Smell>, kind: SmellType)
    requires forall s :: s in ss ==> s.smellType == kind
    ensures OfKind(ss, kind) == ss
  {
    if ss != [] {
      var init := ss[..|ss| - 1];
      assert ss == init + [ss[|ss| - 1]];
      OfKindAll(init, kind);
    }
  }

  /** A list without findings of type `kind` selects nothing. */
  lemma {:induction false} OfKindNone(ss: seq<Smell>, kind: SmellType)
    requires forall s :: s in ss ==> s.smellType != kind
    ensures OfKind(ss, kind) == []
  {
    if ss != [] {
      var init := ss[..|ss| - 1];
      assert ss == init + [ss[|ss| - 1]];
      OfKindNone(init, kind);
    }
  }

  lemma {:induction false} FanSmellsKind(ns: seq<Node>, kind: SmellType)
    ensures forall s :: s in FanSmells(ns, kind) ==> s.smellType == kind
  {
    if ns != [] {
      FanSmellsKind(ns[..|ns| - 1], kind);
    }
  }

  lemma {:induction false} DuplicateSmellsKind(ns: seq<Node>, tys: seq<string>)
    ensures forall s :: s in DuplicateSmells(ns, tys) ==> s.smellType == DuplicateProviders
  {
    if tys != [] {
      DuplicateSmellsKind(ns, tys[..|tys| - 1]);
    }
  }

  /** The fan findings of `kind` are the findings of the high-fan nodes, one each, in node order. */
  lemma {:induction false} FanSmellsOfHighFan(ns: seq<Node>, kind: SmellType)
    ensures var fs := FanSmells(ns, kind); var hs := HighFan(ns, kind);
      |fs| == |hs| && forall i :: 0 <= i < |fs| ==> fs[i] == Smell(kind, FanDescription(kind, hs[i]), [hs[i].id])
  {
    if ns != [] {
      FanSmellsOfHighFan(ns[..|ns| - 1], kind);
    }
  }

  /**
   * The findings of one fan kind in the report, in report order, are
   * exactly one finding per node whose fan count of that kind exceeds five,
   * in node order, each naming its node and its count.
   */
  lemma FanFindingsListed(ns: seq<Node>, kind: SmellType)
    requires kind != DuplicateProviders
    ensures var found := OfKind(SmellsOf(ns), kind); var hs := HighFan(ns, kind);
      |found| == |hs| && forall i :: 0 <= i < |found| ==> found[i] == Smell(kind, FanDescription(kind, hs[i]), [hs[i].id])
  {
    var dups := DuplicateSmells(ns, Dedup(ProvidedTypes(ns)));
    var outs := FanSmells(ns, HighFanOut);
    var ins := FanSmells(ns, HighFanIn);
    DuplicateSmellsKind(ns, Dedup(ProvidedTypes(ns)));
    FanSmellsKind(ns, HighFanOut);
    FanSmellsKind(ns, HighFanIn);
    OfKindAppend(dups + outs, ins, kind);
    OfKindAppend(dups, outs, kind);
    OfKindNone(dups, kind);
    FanSmellsOfHighFan(ns, kind);
    if kind == HighFanOut {
      OfKindAll(outs, kind);
      OfKindNone(ins, kind);
      assert OfKind(SmellsOf(ns), kind) == outs;
    } else {
      OfKindNone(outs, kind);
      OfKindAll(ins, kind);
      assert OfKind(SmellsOf(ns), kind) == ins;
    }
  }

}
