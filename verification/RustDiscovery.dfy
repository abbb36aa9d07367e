/**
  Rust discovery at init (internal/initcfg/discover_rust.go): workspace crates and
  the edges between them from cargo metadata, tiered, and what the starter rules
  then count (internal/initcfg/initcfg.go, internal/initcfg/starter_rules.go).
*/
module RustDiscovery {
  import opened Orders
  import opened ModuleGraph
  import opened CycleCount
  import opened Tiers
  import opened Layering
  import opened StarterRules
  import Disambiguation

  datatype DepKind = Normal | Build | Dev

  datatype CargoDep = CargoDep(name: string, kind: DepKind)

  datatype CargoPkg = CargoPkg(id: string, name: string, dependencies: seq<CargoDep>)

  datatype CargoMeta = CargoMeta(packages: seq<CargoPkg>, workspaceMembers: seq<string>)

  // ---- What cargo metadata says ----

  predicate IsMember(meta: CargoMeta, p: CargoPkg) {
    p.id in meta.workspaceMembers && p.name != ""
  }

  function MemberNames(meta: CargoMeta): set<string> {
    set p | p in meta.packages && IsMember(meta, p) :: p.name
  }

  /** A dependency that makes an edge: first-party, not for tests only, not of oneself. */
  predicate Counts(members: set<string>, p: CargoPkg, d: CargoDep) {
    d.name in members && d.kind != Dev && d.name != p.name
  }

  ghost predicate DeclaredBy(members: set<string>, p: CargoPkg, deps: seq<CargoDep>, e: ModuleEdge) {
    e.from == p.name && exists d :: d in deps && Counts(members, p, d) && d.name == e.to
  }

  ghost predicate DeclaredIn(meta: CargoMeta, pkgs: seq<CargoPkg>, e: ModuleEdge) {
    exists p :: p in pkgs && IsMember(meta, p) && DeclaredBy(MemberNames(meta), p, p.dependencies, e)
  }

  predicate EdgeLe(a: ModuleEdge, b: ModuleEdge) {
    if a.from != b.from then StrLe(a.from, b.from) else StrLe(a.to, b.to)
  }

  lemma {:induction false} EdgeLeTotalOrder()
    ensures TotalOrder(EdgeLe)
  {
    StrLeTotalOrder();
  }

  // ---- buildRustModules ----

  /** The edges are just the declared dependencies between member crates, each once. */
  ghost predicate CrateEdges(meta: CargoMeta, edges: seq<ModuleEdge>) {
    && NoDup(edges) && Sorted(edges, EdgeLe)
    && forall e :: e in edges <==> DeclaredIn(meta, meta.packages, e)
  }

  method BuildRustModules(meta: CargoMeta)
    returns (mods: seq<ModuleDef>, edges: seq<ModuleEdge>, ghost names: seq<string>, ghost tiers: map<string, string>)
    ensures IsCrates(MemberNames(meta), names)
    ensures CrateEdges(meta, edges) && BetweenModules(names, edges)
    ensures |mods| == |names|
    ensures forall i :: 0 <= i < |names| ==> mods[i].name == names[i] && mods[i].paths == [names[i]]
    ensures edges == [] ==> forall m :: m in mods ==> m.layer == ""
    ensures edges != [] ==> IsTiering(names, edges, tiers) && Tiered(names, tiers, mods)
  {
    var memberNames := MemberCrates(meta);
    var sorted := SortedNames(memberNames);
    edges := CollectEdges(meta, memberNames);
    EdgeLeTotalOrder();
    SortBySorts(edges, EdgeLe);
    SortByMembers(edges, EdgeLe);
    NoDupPermutation(edges, SortBy(edges, EdgeLe));
    edges := SortBy(edges, EdgeLe);
    EdgesJoinMembers(meta, sorted, edges);
    var layerAssign, order := TopoLayerAssign(sorted, edges);
    mods := [];
    for i := 0 to |sorted|
      invariant |mods| == i
      invariant forall j :: 0 <= j < i ==>
        mods[j] == ModuleDef(sorted[j], [sorted[j]], if sorted[j] in layerAssign then layerAssign[sorted[j]] else "")
    {
      var layer := if sorted[i] in layerAssign then layerAssign[sorted[i]] else "";
      mods := mods + [ModuleDef(sorted[i], [sorted[i]], layer)];
    }
    names, tiers := sorted, layerAssign;
  }

  method MemberCrates(meta: CargoMeta) returns (memberNames: set<string>)
    ensures memberNames == MemberNames(meta)
  {
    memberNames := {};
    for i := 0 to |meta.packages|
      invariant memberNames == set p | p in meta.packages[..i] && IsMember(meta, p) :: p.name
    {
      var p := meta.packages[i];
      assert meta.packages[..i + 1] == meta.packages[..i] + [p];
      if p.id in meta.workspaceMembers && p.name != "" { memberNames := memberNames + {p.name}; }
    }
    assert meta.packages[..|meta.packages|] == meta.packages;
  }

  method CollectEdges(meta: CargoMeta, memberNames: set<string>) returns (edges: seq<ModuleEdge>)
    requires memberNames == MemberNames(meta)
    ensures NoDup(edges) && forall e :: e in edges <==> DeclaredIn(meta, meta.packages, e)
  {
    edges := [];
    for i := 0 to |meta.packages|
      invariant NoDup(edges)
      invariant forall e :: e in edges <==> DeclaredIn(meta, meta.packages[..i], e)
    {
      var p := meta.packages[i];
      PackageStep(meta, i);
      if p.id !in meta.workspaceMembers {
        continue;
      }
      if p.name == "" {
        continue;
      }
      edges := AddDependencies(memberNames, p, edges);
    }
    assert meta.packages[..|meta.packages|] == meta.packages;
  }

  lemma PackageStep(meta: CargoMeta, i: nat)
    requires i < |meta.packages|
    ensures var p := meta.packages[i];
            forall e :: DeclaredIn(meta, meta.packages[..i + 1], e) <==>
              DeclaredIn(meta, meta.packages[..i], e)
                || (IsMember(meta, p) && DeclaredBy(MemberNames(meta), p, p.dependencies, e))
  {
    var p := meta.packages[i];
    assert meta.packages[..i + 1] == meta.packages[..i] + [p];
    forall e ensures DeclaredIn(meta, meta.packages[..i + 1], e) <==>
                       DeclaredIn(meta, meta.packages[..i], e)
                         || (IsMember(meta, p) && DeclaredBy(MemberNames(meta), p, p.dependencies, e))
    {
      if DeclaredIn(meta, meta.packages[..i], e) {
        var q :| q in meta.packages[..i] && IsMember(meta, q) && DeclaredBy(MemberNames(meta), q, q.dependencies, e);
        assert q in meta.packages[..i + 1];
      }
      assert p in meta.packages[..i + 1];
    }
  }

  method AddDependencies(memberNames: set<string>, p: CargoPkg, before: seq<ModuleEdge>)
    returns (edges: seq<ModuleEdge>)
    requires NoDup(before)
    ensures NoDup(edges)
    ensures forall e :: e in edges <==> e in before || DeclaredBy(memberNames, p, p.dependencies, e)
  {
    edges := before;
    for j := 0 to |p.dependencies|
      invariant NoDup(edges)
      invariant forall e :: e in edges <==> e in before || DeclaredBy(memberNames, p, p.dependencies[..j], e)
    {
      var dep := p.dependencies[j];
      var edge := ModuleEdge(p.name, dep.name);
      DependencyStep(memberNames, p, j);
      if dep.name !in memberNames || dep.kind == Dev || dep.name == p.name || edge in edges {
        continue;
      }
      assert forall e :: e in edges + [edge] <==> e in edges || e == edge;
      edges := edges + [edge];
    }
    assert p.dependencies[..|p.dependencies|] == p.dependencies;
  }

  lemma DependencyStep(members: set<string>, p: CargoPkg, j: nat)
    requires j < |p.dependencies|
    ensures var d := p.dependencies[j];
            forall e :: DeclaredBy(members, p, p.dependencies[..j + 1], e) <==>
              DeclaredBy(members, p, p.dependencies[..j], e)
                || (Counts(members, p, d) && e == ModuleEdge(p.name, d.name))
  {
    var d := p.dependencies[j];
    assert p.dependencies[..j + 1] == p.dependencies[..j] + [d];
    forall e ensures DeclaredBy(members, p, p.dependencies[..j + 1], e) <==>
                       DeclaredBy(members, p, p.dependencies[..j], e)
                         || (Counts(members, p, d) && e == ModuleEdge(p.name, d.name))
    {
      if DeclaredBy(members, p, p.dependencies[..j], e) {
        var c :| c in p.dependencies[..j] && Counts(members, p, c) && c.name == e.to;
        assert c in p.dependencies[..j + 1];
      }
      assert d in p.dependencies[..j + 1];
    }
  }

  lemma EdgesJoinMembers(meta: CargoMeta, names: seq<string>, edges: seq<ModuleEdge>)
    requires forall a :: a in names <==> a in MemberNames(meta)
    requires forall e :: e in edges <==> DeclaredIn(meta, meta.packages, e)
    ensures BetweenModules(names, edges)
  {
    forall e | e in edges ensures e.from != e.to && e.from in names && e.to in names {
      var p :| p in meta.packages && IsMember(meta, p) && DeclaredBy(MemberNames(meta), p, p.dependencies, e);
      assert p.name in MemberNames(meta);
    }
  }

  // ---- What the starter rules see ----

  function NamesOf(mods: seq<ModuleDef>): (r: seq<string>)
    ensures |r| == |mods| && forall i :: 0 <= i < |mods| ==> r[i] == mods[i].name
  {
    seq(|mods|, i requires 0 <= i < |mods| => mods[i].name)
  }

  /** The member crates, each once, in order. */
  ghost predicate IsCrates(members: set<string>, names: seq<string>) {
    NoDup(names) && Sorted(names, StrLe) && forall a :: a in names <==> a in members
  }

  /** Each module is in the tier the edges give it. */
  ghost predicate InTiers(edges: seq<ModuleEdge>, names: seq<string>, mods: seq<ModuleDef>) {
    forall m :: m in mods ==> TierOf(Inner(names, edges), m.name, m.layer)
  }

  ghost predicate OneTier(edges: seq<ModuleEdge>, names: seq<string>, tier: string) {
    forall a :: a in names ==> TierOf(Inner(names, edges), a, tier)
  }

  ghost predicate InOneTier(edges: seq<ModuleEdge>, mods: seq<ModuleDef>) {
    exists tier :: OneTier(edges, NamesOf(mods), tier)
  }

  /** Every crate is in its tier and the tiers are the layers; or no crate has a layer, because there
      are no edges or all crates are in one tier. */
  ghost predicate IsLayered(edges: seq<ModuleEdge>, mods: seq<ModuleDef>, layers: seq<string>) {
    && IsLayerList(mods, layers) && |layers| != 1
    && if layers != [] then edges != [] && InTiers(edges, NamesOf(mods), mods)
       else (forall m :: m in mods ==> m.layer == "") && (edges == [] || InOneTier(edges, mods))
  }

  /** A Rust workspace at init: discovery, the layer list (kept when it orders anything),
      and the two counts the gates of the starter rules follow. Go slices hold at most
      MAX_INT packages. */
  method DiscoverWorkspace(meta: CargoMeta)
    returns (mods: seq<ModuleDef>, layers: seq<string>, cycles: nat, backEdges: nat,
                                                     ghost edges: seq<ModuleEdge>)
    requires |meta.packages| <= MAX_INT
    ensures CrateEdges(meta, edges) && cycles == CycleTotal(edges)
    ensures IsCrates(MemberNames(meta), NamesOf(mods)) && forall m :: m in mods ==> m.paths == [m.name]
    ensures IsLayered(edges, mods, layers)
    ensures backEdges == BackEdges(ModuleRanks(mods, Ranks(layers)), edges)
    ensures edges != [] && cycles == 0 ==> backEdges == 0 && exists k: nat :: 1 <= k && layers == TierRange(k)
  {
    hide *;
    var crates, found;
    ghost var names, tiers;
    crates, found, names, tiers := BuildRustModules(meta);
    edges := found;
    NamesDiffer(MemberNames(meta), names, crates);
    Disambiguation.DistinctNamesStay(crates);
    var unique := UniquelyNamed(crates);
    mods, layers := KeepLayers(unique);
    cycles := ModuleCycleCount(found);
    backEdges := LayerBackEdgeCount(layers, mods, found);
    NamesAreKept(names, crates, mods, layers);
    if edges == [] {
      NoLayersWithoutEdges(crates, mods, layers);
    } else {
      KeptAreLayered(names, edges, tiers, crates, mods, layers);
      if cycles == 0 {
        NamesAtMostPackages(meta, names);
        KeptStartClean(names, edges, tiers, crates, mods, layers);
      }
    }
  }

  lemma NamesDiffer(members: set<string>, names: seq<string>, mods: seq<ModuleDef>)
    requires IsCrates(members, names) && |mods| == |names| && forall i :: 0 <= i < |names| ==> mods[i].name == names[i]
    ensures Disambiguation.DistinctNames(mods)
  {
  }

  lemma NamesAreKept(names: seq<string>, found: seq<ModuleDef>, mods: seq<ModuleDef>, layers: seq<string>)
    requires Kept(found, mods, layers)
    requires |found| == |names|
    requires forall i :: 0 <= i < |names| ==> found[i].name == names[i] && found[i].paths == [names[i]]
    ensures NamesOf(mods) == names && forall m :: m in mods ==> m.paths == [m.name]
  {
    assert NamesOf(mods) == names;
    forall m | m in mods ensures m.paths == [m.name] {
      var i :| 0 <= i < |mods| && mods[i] == m;
    }
  }

  lemma LayersOf(found: seq<ModuleDef>, layers: seq<string>, mods: seq<ModuleDef>) returns (inferred: seq<string>)
    requires Kept(found, mods, layers)
    ensures IsLayerList(found, inferred) && if |layers| >= 2 then inferred == layers else |inferred| < 2
  {
    if |layers| >= 2 {
      inferred := layers;
    } else {
      inferred :| IsLayerList(found, inferred) && |inferred| < 2;
    }
  }

  lemma {:induction false} KeptStartClean(names: seq<string>, edges: seq<ModuleEdge>, tiers: map<string, string>,
                                          found: seq<ModuleDef>, mods: seq<ModuleDef>, layers: seq<string>)
    requires |names| <= MAX_INT && edges != [] && BetweenModules(names, edges) && CycleTotal(edges) == 0
    requires IsTiering(names, edges, tiers) && Tiered(names, tiers, found) && Kept(found, mods, layers)
    ensures BackEdges(ModuleRanks(mods, Ranks(layers)), edges) == 0 && exists k: nat :: 1 <= k && layers == TierRange(k)
  {
    var inferred := LayersOf(found, layers, mods);
    AcyclicStartsClean(names, edges, tiers, found, inferred);
    var k: nat :| 1 <= k < |names| && inferred == TierRange(k);
    assert |inferred| >= 2;
  }

  /** Fewer than two layers order nothing: then no module keeps one. */
  ghost predicate Kept(found: seq<ModuleDef>, mods: seq<ModuleDef>, layers: seq<string>) {
    if |layers| >= 2 then IsLayerList(found, layers) && mods == found
    else layers == [] && FewLayers(found) && IsCleared(found, mods)
  }

  ghost predicate FewLayers(mods: seq<ModuleDef>) {
    exists inferred :: IsLayerList(mods, inferred) && |inferred| < 2
  }

  ghost predicate IsCleared(found: seq<ModuleDef>, mods: seq<ModuleDef>) {
    |mods| == |found| && forall i :: 0 <= i < |found| ==> mods[i] == found[i].(layer := "")
  }

  method KeepLayers(found: seq<ModuleDef>) returns (mods: seq<ModuleDef>, layers: seq<string>)
    ensures Kept(found, mods, layers)
  {
    mods := found;
    layers := InferLayers(mods);
    if |layers| < 2 {
      layers := [];
      mods := ClearLayers(mods);
    }
  }

  /** Discover hands disambiguateNames a fresh slice and takes it back. */
  method UniquelyNamed(mods: seq<ModuleDef>) returns (unique: seq<ModuleDef>)
    ensures unique == Disambiguation.Disambiguated(mods)
  {
    var slots := new ModuleDef[|mods|](i requires 0 <= i < |mods| => mods[i]);
    assert slots[..] == mods;
    Disambiguation.DisambiguateNames(slots);
    unique := slots[..];
  }

  method ClearLayers(mods: seq<ModuleDef>) returns (cleared: seq<ModuleDef>)
    ensures IsCleared(mods, cleared)
  {
    cleared := [];
    for i := 0 to |mods|
      invariant |cleared| == i && forall j :: 0 <= j < i ==> cleared[j] == mods[j].(layer := "")
    {
      cleared := cleared + [mods[i].(layer := "")];
    }
  }

  lemma NoLayersWithoutEdges(found: seq<ModuleDef>, mods: seq<ModuleDef>, layers: seq<string>)
    requires Kept(found, mods, layers) && forall m :: m in found ==> m.layer == ""
    ensures IsLayered([], mods, layers)
  {
    assert forall l :: !IsLayer(found, l);
    HeadIsMember(layers);
    ClearedHaveNone(found, mods);
  }

  lemma ClearedHaveNone(found: seq<ModuleDef>, mods: seq<ModuleDef>)
    requires IsCleared(found, mods)
    ensures IsLayerList(mods, []) && forall m :: m in mods ==> m.layer == ""
  {
    forall m | m in mods ensures m.layer == "" {
      var i :| 0 <= i < |mods| && mods[i] == m;
    }
    assert forall l :: !IsLayer(mods, l);
  }

  lemma KeptAreLayered(names: seq<string>, edges: seq<ModuleEdge>, tiers: map<string, string>, found: seq<ModuleDef>,
                       mods: seq<ModuleDef>, layers: seq<string>)
    requires edges != [] && IsTiering(names, edges, tiers) && Tiered(names, tiers, found)
    requires Kept(found, mods, layers) && NamesOf(mods) == names
    ensures IsLayered(edges, mods, layers)
  {
    if |layers| >= 2 {
      TieredInTiers(names, edges, tiers, found);
    } else {
      ClearedHaveNone(found, mods);
      var inferred :| IsLayerList(found, inferred) && |inferred| < 2;
      OneLayerIsOneTier(names, edges, tiers, found, inferred);
    }
  }

  lemma OneLayerIsOneTier(names: seq<string>, edges: seq<ModuleEdge>, tiers: map<string, string>, mods: seq<ModuleDef>,
                          layers: seq<string>)
    requires IsTiering(names, edges, tiers) && Tiered(names, tiers, mods) && IsLayerList(mods, layers) && |layers| < 2
    ensures exists tier :: OneTier(edges, names, tier)
  {
    var tier := if layers == [] then "" else layers[0];
    forall a | a in names ensures TierOf(Inner(names, edges), a, tier) {
      var i :| 0 <= i < |names| && names[i] == a;
      assert TierOf(Inner(names, edges), a, tiers[a]);
      TierIsNamed(Inner(names, edges), a, tiers[a]);
      assert mods[i] in mods && IsLayer(mods, tiers[a]);
    }
    assert OneTier(edges, names, tier);
  }

  lemma TierIsNamed(edges: seq<ModuleEdge>, a: string, tier: string)
    requires TierOf(edges, a, tier)
    ensures tier != ""
  {
    var k: nat :| IsTier(edges, a, k) && tier == TierName(k);
    TierNameNotEmpty(k);
  }

  lemma TieredInTiers(names: seq<string>, edges: seq<ModuleEdge>, tiers: map<string, string>, mods: seq<ModuleDef>)
    requires IsTiering(names, edges, tiers) && Tiered(names, tiers, mods)
    ensures InTiers(edges, names, mods)
  {
    forall m | m in mods ensures TierOf(Inner(names, edges), m.name, m.layer) {
      var i :| 0 <= i < |mods| && mods[i] == m;
      assert names[i] in names;
    }
  }

  ghost function MembersUpTo(meta: CargoMeta, i: nat): set<string>
    requires i <= |meta.packages|
  {
    set p | p in meta.packages[..i] && IsMember(meta, p) :: p.name
  }

  lemma NamesAtMostPackages(meta: CargoMeta, names: seq<string>)
    requires IsCrates(MemberNames(meta), names)
    ensures |names| <= |meta.packages|
  {
    MembersAtMostPackages(meta, |meta.packages|);
    assert meta.packages[..|meta.packages|] == meta.packages;
    assert MembersUpTo(meta, |meta.packages|) == MemberNames(meta);
    NoDupAtMost(names, MemberNames(meta));
  }

  lemma {:induction false} MembersAtMostPackages(meta: CargoMeta, i: nat)
    requires i <= |meta.packages|
    ensures |MembersUpTo(meta, i)| <= i
  {
    if i == 0 {
      assert MembersUpTo(meta, 0) == {};
    } else {
      MembersAtMostPackages(meta, i - 1);
      var p := meta.packages[i - 1];
      assert meta.packages[..i] == meta.packages[..i - 1] + [p];
      assert MembersUpTo(meta, i) <= MembersUpTo(meta, i - 1) + {p.name};
      SubsetSize(MembersUpTo(meta, i), MembersUpTo(meta, i - 1) + {p.name});
    }
  }

  // ---- Why an import of oneself must be dropped first ----

  function SelfImport(d: string, m: string, n: string): seq<ModuleEdge> {
    [ModuleEdge(n, n), ModuleEdge(n, d), ModuleEdge(m, n)]
  }

  lemma ChainIsAcyclic(edges: seq<ModuleEdge>, d: string, m: string, n: string)
    requires d != m && m != n && n != d
    requires forall e :: e in edges ==> e == ModuleEdge(n, d) || e == ModuleEdge(m, n)
    ensures Acyclic(edges)
  {
    ClosedSetHoldsReachable(edges, d, {});
    ClosedSetHoldsReachable(edges, n, {d});
    ClosedSetHoldsReachable(edges, m, {n, d});
    forall a | a in Nodes(edges) ensures a == d || a == m || a == n {}
  }

  lemma SelfImportIsNoCycle(d: string, m: string, n: string)
    requires d != m && m != n && n != d
    ensures CycleTotal(SelfImport(d, m, n)) == 0
  {
    ChainIsAcyclic(Proper(SelfImport(d, m, n)), d, m, n);
    NoCycleCounted(SelfImport(d, m, n));
  }

  lemma SelfImportTiers(edges: seq<ModuleEdge>, d: string, m: string, n: string)
    requires d != m && m != n && n != d
    requires SameEdges(edges, SelfImport(d, m, n))
    ensures IsTier(edges, m, 0) && IsTier(edges, n, 1)
  {
    assert ModuleEdge(n, n) in SelfImport(d, m, n) && ModuleEdge(m, n) in SelfImport(d, m, n)
           && ModuleEdge(n, d) in SelfImport(d, m, n);
    EdgeReaches(edges, n, n);
    EdgeReaches(edges, m, n);
    assert ReachesCycle(edges, n) && ReachesCycle(edges, m);
    assert Walk(edges, [d]);
    forall p | Walk(edges, p) && p[0] == d ensures |p| <= 1 {
      if |p| > 1 { assert ModuleEdge(p[0], p[0 + 1]) in edges; }
    }
    assert LongestChain(edges, d, 0);
    forall j: nat | LongestChain(edges, n, j) ensures false { BoundedMeansAcyclic(edges, n, j); }
    forall j: nat | LongestChain(edges, d, j) ensures j == 0 { LongestChainUnique(edges, d, j, 0); }
  }

  /** The cycle count skips an import of oneself, the tiers do not: with one left in, a graph
      counted as free of cycles puts n above m although m imports n. */
  lemma {:induction false} SelfImportInvertsTiers(d: string, m: string, n: string, tiers: map<string, string>)
    requires d != m && m != n && n != d
    requires IsTiering([d, m, n], SelfImport(d, m, n), tiers)
    ensures CycleTotal(SelfImport(d, m, n)) == 0
    ensures tiers[m] == TierName(0) && tiers[n] == TierName(1)
  {
    SelfImportIsNoCycle(d, m, n);
    SelfImportTiers(Inner([d, m, n], SelfImport(d, m, n)), d, m, n);
    TierIs([d, m, n], SelfImport(d, m, n), tiers, m, 0);
    TierIs([d, m, n], SelfImport(d, m, n), tiers, n, 1);
  }

  lemma TierIs(names: seq<string>, edges: seq<ModuleEdge>, tiers: map<string, string>, a: string, k: nat)
    requires IsTiering(names, edges, tiers) && a in names && IsTier(Inner(names, edges), a, k)
    ensures tiers[a] == TierName(k)
  {
    assert TierOf(Inner(names, edges), a, tiers[a]);
    var j: nat :| IsTier(Inner(names, edges), a, j) && tiers[a] == TierName(j);
    TierUnique(Inner(names, edges), a, j, k);
  }
}
