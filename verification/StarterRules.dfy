/**
  The layer list and the back-edge count config init derives from discovered
  modules (internal/initcfg/helpers.go, internal/initcfg/starter_rules.go), and
  the promise that ties them to the tiers: an import graph without cycles starts
  with a clean direction rule.
*/
module StarterRules {
  import opened Orders
  import opened ModuleGraph
  import opened CycleCount
  import opened Tiers
  import opened Layering

  datatype ModuleDef = ModuleDef(name: string, paths: seq<string>, layer: string)

  // ---- The layer list ----

  ghost predicate IsLayer(mods: seq<ModuleDef>, layer: string) {
    layer != "" && exists m :: m in mods && m.layer == layer
  }

  /** Every layer a module is assigned, once, in tier order. */
  ghost predicate IsLayerList(mods: seq<ModuleDef>, layers: seq<string>) {
    && Sorted(layers, TierLe) && NoDup(layers)
    && forall l :: l in layers <==> IsLayer(mods, l)
  }

  method InferLayers(mods: seq<ModuleDef>) returns (layers: seq<string>)
    ensures IsLayerList(mods, layers)
  {
    var found: set<string> := {};
    for i := 0 to |mods|
      invariant forall l :: l in found <==> IsLayer(mods[..i], l)
    {
      LayerStep(mods, i);
      if mods[i].layer != "" { found := found + {mods[i].layer}; }
    }
    assert mods[..|mods|] == mods;
    layers := TopoLayerList(found);
  }

  lemma LayerStep(mods: seq<ModuleDef>, i: nat)
    requires i < |mods|
    ensures forall l :: IsLayer(mods[..i + 1], l) <==> IsLayer(mods[..i], l) || (l == mods[i].layer && l != "")
  {
    assert mods[..i + 1] == mods[..i] + [mods[i]];
    forall l | IsLayer(mods[..i], l) ensures IsLayer(mods[..i + 1], l) {
      var m :| m in mods[..i] && m.layer == l;
      assert m in mods[..i + 1];
    }
    assert mods[i] in mods[..i + 1];
  }

  method TopoLayerList(assignedLayers: set<string>) returns (layers: seq<string>)
    ensures Sorted(layers, TierLe) && NoDup(layers)
    ensures forall l :: l in layers <==> l in assignedLayers
  {
    layers := [];
    var rest := assignedLayers;
    while rest != {}
      invariant rest <= assignedLayers && NoDup(layers)
      invariant forall l :: l in layers <==> l in assignedLayers - rest
    {
      var l :| l in rest;
      rest := rest - {l};
      assert forall x :: x in layers + [l] <==> x in layers || x == l;
      layers := layers + [l];
    }
    TierLeTotalOrder();
    SortBySorts(layers, TierLe);
    SortByMembers(layers, TierLe);
    NoDupPermutation(layers, SortBy(layers, TierLe));
    layers := SortBy(layers, TierLe);
  }

  // ---- The back-edge count ----

  function Ranks(layers: seq<string>): map<string, nat> {
    if |layers| == 0 then map[]
    else var last := |layers| - 1; Ranks(layers[..last])[layers[last] := last]
  }

  function ModuleRanks(mods: seq<ModuleDef>, ranks: map<string, nat>): map<string, nat> {
    if |mods| == 0 then map[]
    else
      var last := |mods| - 1;
      var before := ModuleRanks(mods[..last], ranks);
      if mods[last].layer in ranks then before[mods[last].name := ranks[mods[last].layer]] else before
  }

  predicate IsBackEdge(moduleRanks: map<string, nat>, e: ModuleEdge) {
    e.from in moduleRanks && e.to in moduleRanks && moduleRanks[e.from] < moduleRanks[e.to]
  }

  function BackEdges(moduleRanks: map<string, nat>, edges: seq<ModuleEdge>): nat {
    if |edges| == 0 then 0
    else
      var last := |edges| - 1;
      BackEdges(moduleRanks, edges[..last]) + if IsBackEdge(moduleRanks, edges[last]) then 1 else 0
  }

  method LayerBackEdgeCount(layers: seq<string>, mods: seq<ModuleDef>, edges: seq<ModuleEdge>) returns (count: nat)
    ensures count == BackEdges(ModuleRanks(mods, Ranks(layers)), edges)
  {
    var rank: map<string, nat> := map[];
    for i := 0 to |layers|
      invariant rank == Ranks(layers[..i])
    {
      assert layers[..i + 1][..i] == layers[..i];
      rank := rank[layers[i] := i];
    }
    assert layers[..|layers|] == layers;
    var moduleRank: map<string, nat> := map[];
    for i := 0 to |mods|
      invariant moduleRank == ModuleRanks(mods[..i], rank)
    {
      assert mods[..i + 1][..i] == mods[..i];
      if mods[i].layer in rank { moduleRank := moduleRank[mods[i].name := rank[mods[i].layer]]; }
    }
    assert mods[..|mods|] == mods;
    count := 0;
    for i := 0 to |edges|
      invariant count == BackEdges(moduleRank, edges[..i])
    {
      assert edges[..i + 1][..i] == edges[..i];
      if IsBackEdge(moduleRank, edges[i]) { count := count + 1; }
    }
    assert edges[..|edges|] == edges;
  }

  lemma {:induction false} NoBackEdges(moduleRanks: map<string, nat>, edges: seq<ModuleEdge>)
    ensures BackEdges(moduleRanks, edges) == 0 <==> forall e :: e in edges ==> !IsBackEdge(moduleRanks, e)
  {
    if |edges| != 0 {
      var last := |edges| - 1;
      assert edges == edges[..last] + [edges[last]];
      NoBackEdges(moduleRanks, edges[..last]);
    }
  }

  /** The positions of the back edges. */
  ghost function BackEdgePlaces(moduleRanks: map<string, nat>, edges: seq<ModuleEdge>): set<nat> {
    set i: nat | i < |edges| && IsBackEdge(moduleRanks, edges[i])
  }

  /** Each back edge counts once. */
  lemma {:induction false} BackEdgesCounted(moduleRanks: map<string, nat>, edges: seq<ModuleEdge>)
    ensures BackEdges(moduleRanks, edges) == |BackEdgePlaces(moduleRanks, edges)|
  {
    if |edges| != 0 {
      var last := |edges| - 1;
      var before := BackEdgePlaces(moduleRanks, edges[..last]);
      BackEdgesCounted(moduleRanks, edges[..last]);
      assert BackEdgePlaces(moduleRanks, edges)
             == if IsBackEdge(moduleRanks, edges[last]) then before + {last} else before;
    }
  }

  lemma {:induction false} RankOfLayer(layers: seq<string>, i: nat)
    requires NoDup(layers) && i < |layers|
    ensures layers[i] in Ranks(layers) && Ranks(layers)[layers[i]] == i
  {
    var last := |layers| - 1;
    if i < last {
      RankOfLayer(layers[..last], i);
      assert layers[..last][i] == layers[i] != layers[last];
    }
  }

  lemma {:induction false} RankOfModule(mods: seq<ModuleDef>, ranks: map<string, nat>, i: nat)
    requires i < |mods| && mods[i].layer in ranks
    requires forall j, k :: 0 <= j < k < |mods| ==> mods[j].name != mods[k].name
    ensures mods[i].name in ModuleRanks(mods, ranks) && ModuleRanks(mods, ranks)[mods[i].name] == ranks[mods[i].layer]
  {
    var last := |mods| - 1;
    if i < last {
      RankOfModule(mods[..last], ranks, i);
      assert mods[..last][i] == mods[i];
    }
  }

  // ---- An acyclic graph starts clean ----

  /** What buildRustModules hands on: distinct modules, each in the tier it was given. */
  ghost predicate Tiered(names: seq<string>, tiers: map<string, string>, mods: seq<ModuleDef>) {
    && NoDup(names) && |mods| == |names|
    && (forall a :: a in names ==> a in tiers)
    && forall i :: 0 <= i < |names| ==> mods[i].name == names[i] && mods[i].layer == tiers[names[i]]
  }

  /** No import of oneself, and both ends listed. */
  ghost predicate BetweenModules(names: seq<string>, edges: seq<ModuleEdge>) {
    forall e :: e in edges ==> e.from != e.to && e.from in names && e.to in names
  }

  lemma AcyclicReachesNoCycle(names: seq<string>, edges: seq<ModuleEdge>)
    requires BetweenModules(names, edges) && CycleTotal(edges) == 0
    ensures forall a :: !ReachesCycle(Inner(names, edges), a)
  {
    NoCycleCounted(edges);
    var inner, proper := Inner(names, edges), Proper(edges);
    forall c | Reaches(inner, c, c) ensures false {
      ReachesSubset(inner, proper, c, c);
      ReachedIsNode(proper, c, c);
    }
  }

  /** A chain of an acyclic graph visits each module at most once. */
  lemma ChainShorterThanNames(names: seq<string>, edges: seq<ModuleEdge>, a: string, k: nat)
    requires LongestChain(edges, a, k) && a in names
    requires forall e :: e in edges ==> e.from in names && e.to in names
    ensures k < |names|
  {
    var p :| Walk(edges, p) && p[0] == a && |p| == k + 1;
    forall x | x in p ensures x in SetOf(names) {
      var i :| 0 <= i < |p| && p[i] == x;
      if i > 0 { assert ModuleEdge(p[i - 1], p[i - 1 + 1]) in edges; }
    }
    MembersAtMostLength(names);
    if |p| > |SetOf(names)| {
      var i, j := Pigeonhole(p, SetOf(names));
      RepeatIsCycle(edges, p, i, j);
      BoundedMeansAcyclic(edges, a, k);
    }
  }

  lemma {:induction false} MembersAtMostLength(s: seq<string>)
    ensures |SetOf(s)| <= |s|
  {
    if |s| == 0 {
      assert SetOf(s) == {};
    } else {
      var last := |s| - 1;
      assert s == s[..last] + [s[last]];
      MembersAtMostLength(s[..last]);
      assert SetOf(s) == SetOf(s[..last]) + {s[last]};
    }
  }

  /** On an acyclic graph the height of a module: the number in its tier name. */
  ghost predicate Heights(names: seq<string>, edges: seq<ModuleEdge>, tiers: map<string, string>) {
    forall a :: a in names ==> a in tiers && exists k: nat :: LongestChain(edges, a, k) && tiers[a] == TierName(k)
  }

  ghost function Height(names: seq<string>, edges: seq<ModuleEdge>, tiers: map<string, string>, a: string): (k: nat)
    requires Heights(names, edges, tiers) && a in names
    ensures LongestChain(edges, a, k) && tiers[a] == TierName(k)
  {
    var k: nat :| LongestChain(edges, a, k) && tiers[a] == TierName(k);
    k
  }

  ghost predicate IsHighest(names: seq<string>, edges: seq<ModuleEdge>, tiers: map<string, string>, top: string) {
    && Heights(names, edges, tiers) && top in names
    && forall a :: a in names ==> Height(names, edges, tiers, a) <= Height(names, edges, tiers, top)
  }

  lemma HighestModule(names: seq<string>, edges: seq<ModuleEdge>, tiers: map<string, string>) returns (top: string)
    requires Heights(names, edges, tiers) && |names| > 0
    ensures IsHighest(names, edges, tiers, top)
  {
    var heights := seq(|names|, i requires 0 <= i < |names| => Height(names, edges, tiers, names[i]));
    var i := IndexOfMax(heights);
    top := names[i];
    forall a | a in names ensures Height(names, edges, tiers, a) <= Height(names, edges, tiers, top) {
      var j :| 0 <= j < |names| && names[j] == a;
      assert heights[j] <= heights[i];
    }
  }

  lemma {:induction false} IndexOfMax(s: seq<nat>) returns (i: nat)
    requires |s| > 0
    ensures i < |s| && forall j :: 0 <= j < |s| ==> s[j] <= s[i]
  {
    var last := |s| - 1;
    i := last;
    if last > 0 {
      var j := IndexOfMax(s[..last]);
      assert forall x :: 0 <= x < last ==> s[..last][x] == s[x];
      if s[j] > s[last] { i := j; }
    }
  }

  /** layer-0 up to layer-k. */
  function TierRange(k: nat): (r: seq<string>)
    ensures |r| == k + 1 && forall i: nat :: i <= k ==> r[i] == TierName(i)
  {
    seq(k + 1, i requires 0 <= i <= k => TierName(i))
  }

  lemma {:induction false} TierRangeSorted(k: nat)
    requires k <= MAX_INT
    ensures Sorted(TierRange(k), TierLe) && NoDup(TierRange(k))
  {
    forall i: nat, j: nat | i < j <= k
      ensures TierLe(TierRange(k)[i], TierRange(k)[j]) && TierRange(k)[i] != TierRange(k)[j]
    {
      TierRoundTrip(i);
      TierRoundTrip(j);
    }
  }

  lemma TierNameNotEmpty(k: nat)
    ensures TierName(k) != ""
  {
    assert |TierName(k)| >= |PREFIX|;
  }

  lemma {:induction false} LayersAreTierRange(names: seq<string>, edges: seq<ModuleEdge>, tiers: map<string, string>,
                                              mods: seq<ModuleDef>, layers: seq<string>, top: string)
    requires Tiered(names, tiers, mods) && IsLayerList(mods, layers) && |names| <= MAX_INT
    requires forall e :: e in edges ==> e.from in names && e.to in names
    requires IsHighest(names, edges, tiers, top)
    ensures layers == TierRange(Height(names, edges, tiers, top))
  {
    var k := Height(names, edges, tiers, top);
    ChainShorterThanNames(names, edges, top, k);
    TierRangeSorted(k);
    forall l ensures l in layers <==> l in TierRange(k) {
      if l in layers { LayerIsInRange(names, edges, tiers, mods, top, l); }
      if l in TierRange(k) {
        var j :| 0 <= j <= k && TierRange(k)[j] == l;
        EveryTierIsInhabited(names, edges, tiers, mods, top, j);
      }
    }
    SameMembersPermute(layers, TierRange(k));
    TierLeTotalOrder();
    SortedUnique(layers, TierRange(k), TierLe);
  }

  lemma LayerIsInRange(names: seq<string>, edges: seq<ModuleEdge>, tiers: map<string, string>, mods: seq<ModuleDef>,
                       top: string, l: string)
    requires Tiered(names, tiers, mods) && IsLayer(mods, l)
    requires IsHighest(names, edges, tiers, top)
    ensures l in TierRange(Height(names, edges, tiers, top))
  {
    var m :| m in mods && m.layer == l;
    var i :| 0 <= i < |mods| && mods[i] == m;
    var j := Height(names, edges, tiers, names[i]);
    assert TierRange(Height(names, edges, tiers, top))[j] == l;
  }

  lemma {:induction false} EveryTierIsInhabited(names: seq<string>, edges: seq<ModuleEdge>, tiers: map<string, string>,
                                                mods: seq<ModuleDef>, top: string, j: nat)
    requires Tiered(names, tiers, mods) && Heights(names, edges, tiers) && top in names
    requires forall e :: e in edges ==> e.from in names && e.to in names
    requires j <= Height(names, edges, tiers, top)
    ensures IsLayer(mods, TierName(j))
  {
    var b := ChainHasEveryHeight(edges, top, Height(names, edges, tiers, top), j);
    if b != top {
      ReachedIsNode(edges, top, b);
      assert b in names;
    }
    LongestChainUnique(edges, b, j, Height(names, edges, tiers, b));
    var i :| 0 <= i < |names| && names[i] == b;
    assert mods[i] in mods && mods[i].layer == TierName(j);
    TierNameNotEmpty(j);
  }

  lemma {:induction false} RankIsHeight(names: seq<string>, edges: seq<ModuleEdge>, tiers: map<string, string>,
                                        mods: seq<ModuleDef>, k: nat, a: string)
    requires Tiered(names, tiers, mods) && Heights(names, edges, tiers) && a in names
    requires Height(names, edges, tiers, a) <= k <= MAX_INT
    ensures var ranks := ModuleRanks(mods, Ranks(TierRange(k)));
            a in ranks && ranks[a] == Height(names, edges, tiers, a)
  {
    TierRangeSorted(k);
    RankOfLayer(TierRange(k), Height(names, edges, tiers, a));
    var i :| 0 <= i < |names| && names[i] == a;
    RankOfModule(mods, Ranks(TierRange(k)), i);
  }

  lemma AcyclicHasHeights(names: seq<string>, edges: seq<ModuleEdge>, tiers: map<string, string>)
    requires BetweenModules(names, edges) && CycleTotal(edges) == 0 && IsTiering(names, edges, tiers)
    ensures Heights(names, Inner(names, edges), tiers)
  {
    AcyclicReachesNoCycle(names, edges);
    forall a | a in names
      ensures a in tiers && exists k: nat :: LongestChain(Inner(names, edges), a, k) && tiers[a] == TierName(k)
    {
      assert TierOf(Inner(names, edges), a, tiers[a]);
    }
  }

  /** An importer is in a higher tier than what it imports. */
  lemma EdgeDescends(names: seq<string>, edges: seq<ModuleEdge>, tiers: map<string, string>, e: ModuleEdge)
    requires Heights(names, edges, tiers) && e in edges && e.from in names && e.to in names
    ensures Height(names, edges, tiers, e.from) >= Height(names, edges, tiers, e.to) + 1
  {
    ImporterIsHigher(edges, e.from, e.to, Height(names, edges, tiers, e.from), Height(names, edges, tiers, e.to));
  }

  lemma {:induction false} NoImportPointsUp(names: seq<string>, edges: seq<ModuleEdge>, tiers: map<string, string>,
                                            mods: seq<ModuleDef>, top: string, e: ModuleEdge)
    requires Tiered(names, tiers, mods) && IsHighest(names, edges, tiers, top)
    requires Height(names, edges, tiers, top) <= MAX_INT
    requires e in edges && e.from in names && e.to in names
    ensures !IsBackEdge(ModuleRanks(mods, Ranks(TierRange(Height(names, edges, tiers, top)))), e)
  {
    var k := Height(names, edges, tiers, top);
    RankIsHeight(names, edges, tiers, mods, k, e.from);
    RankIsHeight(names, edges, tiers, mods, k, e.to);
    EdgeDescends(names, edges, tiers, e);
  }

  lemma HeightsStartClean(names: seq<string>, edges: seq<ModuleEdge>, tiers: map<string, string>, mods: seq<ModuleDef>,
                          layers: seq<string>)
    returns (k: nat)
    requires |names| <= MAX_INT && edges != [] && Heights(names, edges, tiers)
    requires forall e :: e in edges ==> e.from in names && e.to in names
    requires Tiered(names, tiers, mods) && IsLayerList(mods, layers)
    ensures 1 <= k < |names| && layers == TierRange(k)
    ensures forall e :: e in edges ==> !IsBackEdge(ModuleRanks(mods, Ranks(layers)), e)
  {
    var e := edges[0];
    assert e.from in names;
    var top := HighestModule(names, edges, tiers);
    k := Height(names, edges, tiers, top);
    LayersAreTierRange(names, edges, tiers, mods, layers, top);
    ChainShorterThanNames(names, edges, top, k);
    EdgeDescends(names, edges, tiers, e);
    assert Height(names, edges, tiers, e.from) <= k;
    forall f | f in edges ensures !IsBackEdge(ModuleRanks(mods, Ranks(layers)), f) {
      NoImportPointsUp(names, edges, tiers, mods, top, f);
    }
  }

  /** An import graph with no cycle yields tiers layer-0 to layer-k, two or more, and no
      import points to a later one: the direction rule starts clean. */
  lemma {:induction false} AcyclicStartsClean(names: seq<string>, edges: seq<ModuleEdge>, tiers: map<string, string>,
                                              mods: seq<ModuleDef>, layers: seq<string>)
    requires |names| <= MAX_INT && edges != []
    requires BetweenModules(names, edges) && CycleTotal(edges) == 0
    requires IsTiering(names, edges, tiers) && Tiered(names, tiers, mods) && IsLayerList(mods, layers)
    ensures exists k: nat :: 1 <= k < |names| && layers == TierRange(k)
    ensures BackEdges(ModuleRanks(mods, Ranks(layers)), edges) == 0
  {
    var inner := Inner(names, edges);
    AcyclicHasHeights(names, edges, tiers);
    assert edges[0] in inner;
    var k := HeightsStartClean(names, inner, tiers, mods, layers);
    NoBackEdges(ModuleRanks(mods, Ranks(layers)), edges);
  }

  // ---- Any graph: what a back edge means ----

  /** An import whose tier is not above its target's joins two modules that import their way to a cycle. */
  lemma TierNotAboveReachesCycle(edges: seq<ModuleEdge>, a: string, b: string, j: nat, k: nat)
    requires ModuleEdge(a, b) in edges && IsTier(edges, a, j) && IsTier(edges, b, k) && j <= k
    ensures ReachesCycle(edges, a) && ReachesCycle(edges, b)
  {
    if !ReachesCycle(edges, b) {
      assert LongestChain(edges, b, k);
      if !ReachesCycle(edges, a) { ImporterIsHigher(edges, a, b, j, k); }
    }
    EdgeReaches(edges, a, b);
    var c :| (c == b || Reaches(edges, b, c)) && Reaches(edges, c, c);
    if c != b { ReachesTransitive(edges, a, b, c); }
  }

  lemma TierAtMostNames(names: seq<string>, edges: seq<ModuleEdge>, a: string, k: nat)
    requires IsTier(edges, a, k) && a in names
    requires forall e :: e in edges ==> e.from in names && e.to in names
    ensures k <= |names|
  {
    if !ReachesCycle(edges, a) {
      ChainShorterThanNames(names, edges, a, k);
    } else if k > 0 {
      var b :| ModuleEdge(a, b) in edges && LongestChain(edges, b, k - 1);
      ChainShorterThanNames(names, edges, b, k - 1);
    }
  }

  lemma {:induction false} RankIsPlace(layers: seq<string>, l: string)
    requires l in Ranks(layers)
    ensures Ranks(layers)[l] < |layers| && layers[Ranks(layers)[l]] == l
  {
    var last := |layers| - 1;
    if layers[last] != l { RankIsPlace(layers[..last], l); }
  }

  lemma {:induction false} RankComesFrom(mods: seq<ModuleDef>, ranks: map<string, nat>, a: string) returns (i: nat)
    requires a in ModuleRanks(mods, ranks)
    ensures i < |mods| && mods[i].name == a && mods[i].layer in ranks
    ensures ModuleRanks(mods, ranks)[a] == ranks[mods[i].layer]
  {
    var last := |mods| - 1;
    if mods[last].layer in ranks && mods[last].name == a {
      i := last;
    } else {
      i := RankComesFrom(mods[..last], ranks, a);
    }
  }

  /** A module called name is in the layer at place i of the list. */
  ghost predicate InLayer(mods: seq<ModuleDef>, layers: seq<string>, name: string, i: nat) {
    i < |layers| && exists k :: 0 <= k < |mods| && mods[k].name == name && mods[k].layer == layers[i]
  }

  /** Where names differ, a back edge is one from a module of an earlier layer to one of a later. */
  lemma {:induction false} BackEdgeExactly(mods: seq<ModuleDef>, layers: seq<string>, e: ModuleEdge)
    requires NoDup(layers) && forall i, j :: 0 <= i < j < |mods| ==> mods[i].name != mods[j].name
    ensures IsBackEdge(ModuleRanks(mods, Ranks(layers)), e) <==>
            exists i: nat, j: nat :: i < j && InLayer(mods, layers, e.from, i) && InLayer(mods, layers, e.to, j)
  {
    hide ModuleRanks, Ranks;
    var ranks := Ranks(layers);
    var now := ModuleRanks(mods, ranks);
    forall name, i: nat ensures InLayer(mods, layers, name, i) <==> name in now && now[name] == i {
      if InLayer(mods, layers, name, i) {
        var k :| 0 <= k < |mods| && mods[k].name == name && mods[k].layer == layers[i];
        RankOfLayer(layers, i);
        RankOfModule(mods, ranks, k);
      }
      if name in now && now[name] == i {
        var k := RankComesFrom(mods, ranks, name);
        RankIsPlace(layers, mods[k].layer);
      }
    }
    if IsBackEdge(now, e) {
      assert InLayer(mods, layers, e.from, now[e.from]) && InLayer(mods, layers, e.to, now[e.to]);
    }
  }

  /** The tier of a ranked module, and the layer at its rank. */
  lemma RankedTier(names: seq<string>, edges: seq<ModuleEdge>, tiers: map<string, string>, mods: seq<ModuleDef>,
                   layers: seq<string>, a: string)
    returns (k: nat)
    requires IsTiering(names, edges, tiers) && Tiered(names, tiers, mods) && |names| <= MAX_INT
    requires a in ModuleRanks(mods, Ranks(layers))
    ensures a in names && IsTier(Inner(names, edges), a, k) && k <= MAX_INT
    ensures var rank := ModuleRanks(mods, Ranks(layers))[a]; rank < |layers| && TierNum(layers[rank]) == k
  {
    var i := RankComesFrom(mods, Ranks(layers), a);
    RankIsPlace(layers, mods[i].layer);
    assert names[i] in names && TierOf(Inner(names, edges), a, tiers[a]);
    k :| IsTier(Inner(names, edges), a, k) && tiers[a] == TierName(k);
    TierAtMostNames(names, Inner(names, edges), a, k);
    TierRoundTrip(k);
  }

  /** On any graph: only modules that import their way to a cycle make back edges. */
  lemma {:induction false} BackEdgesReachCycles(names: seq<string>, edges: seq<ModuleEdge>, tiers: map<string, string>,
                                                mods: seq<ModuleDef>, layers: seq<string>, e: ModuleEdge)
    requires IsTiering(names, edges, tiers) && Tiered(names, tiers, mods) && IsLayerList(mods, layers)
    requires |names| <= MAX_INT
    requires e in edges && IsBackEdge(ModuleRanks(mods, Ranks(layers)), e)
    ensures e.from in names && ReachesCycle(Inner(names, edges), e.from)
    ensures e.to in names && ReachesCycle(Inner(names, edges), e.to)
  {
    var ranks := ModuleRanks(mods, Ranks(layers));
    var j := RankedTier(names, edges, tiers, mods, layers, e.from);
    var k := RankedTier(names, edges, tiers, mods, layers, e.to);
    assert TierLe(layers[ranks[e.from]], layers[ranks[e.to]]);
    TierNotAboveReachesCycle(Inner(names, edges), e.from, e.to, j, k);
  }
}
