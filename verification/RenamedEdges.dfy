/**
  What the back-edge count finds once names are unique (internal/initcfg/initcfg.go):
  edges are collected under the names discovery gave, the names are made unique
  afterwards, so an edge may come to name another module. Crates have layers, the
  modules of other languages have none; both may have edges.
*/
module RenamedEdges {
  import opened Orders
  import opened ModuleGraph
  import opened CycleCount
  import opened Tiers
  import opened Layering
  import opened StarterRules
  import opened Disambiguation
  import opened RustDiscovery

  ghost predicate Layerless(mods: seq<ModuleDef>) {
    forall i :: 0 <= i < |mods| ==> mods[i].layer == ""
  }

  /** The crate modules Rust discovery hands on, each in its tier. */
  function Crates(names: seq<string>, tiers: map<string, string>): (r: seq<ModuleDef>)
    ensures |r| == |names|
  {
    seq(|names|, i requires 0 <= i < |names| =>
      ModuleDef(names[i], [names[i]], if names[i] in tiers then tiers[names[i]] else ""))
  }

  /** All modules, the crates last, under their unique names. */
  function Renamed(others: seq<ModuleDef>, names: seq<string>, tiers: map<string, string>): (r: seq<ModuleDef>)
    ensures |r| == |others| + |names|
  {
    Disambiguated(others + Crates(names, tiers))
  }

  /** The ranks the back-edge count goes by. */
  function NewRanks(others: seq<ModuleDef>, names: seq<string>, tiers: map<string, string>, layers: seq<string>)
    : map<string, nat>
  {
    ModuleRanks(Renamed(others, names, tiers), Ranks(layers))
  }

  /** What crate k is called once names are unique. It depends on names and paths alone. */
  function NewName(others: seq<ModuleDef>, names: seq<string>, k: nat): string
    requires k < |names|
  {
    Renamed(others, names, map[])[|others| + k].name
  }

  // ---- New names do not look at layers ----

  ghost predicate SameButLayers(a: seq<ModuleDef>, b: seq<ModuleDef>) {
    |a| == |b| && forall i :: 0 <= i < |a| ==> a[i].name == b[i].name && a[i].paths == b[i].paths
  }

  lemma {:induction false} CountIgnoresLayers(a: seq<ModuleDef>, b: seq<ModuleDef>, name: string)
    requires SameButLayers(a, b)
    ensures CountOf(a, name) == CountOf(b, name)
  {
    if |a| != 0 { CountIgnoresLayers(a[..|a| - 1], b[..|b| - 1], name); }
  }

  lemma FirstPassIgnoresLayers(a: seq<ModuleDef>, b: seq<ModuleDef>)
    requires SameButLayers(a, b)
    ensures SameButLayers(FirstPass(a), FirstPass(b))
  {
    forall i | 0 <= i < |a|
      ensures Slugged(a, a[i]).name == Slugged(b, b[i]).name
    {
      CountIgnoresLayers(a, b, a[i].name);
    }
  }

  lemma SameNames(a: seq<ModuleDef>, b: seq<ModuleDef>)
    requires SameButLayers(a, b)
    ensures Names(a) == Names(b)
  {
    forall name ensures name in Names(a) <==> name in Names(b) {
      if name in Names(a) {
        var i :| 0 <= i < |a| && a[i].name == name;
        assert b[i] in b;
      }
      if name in Names(b) {
        var i :| 0 <= i < |b| && b[i].name == name;
        assert a[i] in a;
      }
    }
  }

  lemma {:induction false} SecondPassIgnoresLayers(a: seq<ModuleDef>, b: seq<ModuleDef>)
    requires SameButLayers(a, b)
    ensures SameButLayers(SecondPass(a), SecondPass(b))
  {
    if |a| != 0 {
      SecondPassIgnoresLayers(a[..|a| - 1], b[..|b| - 1]);
      SameNames(SecondPass(a[..|a| - 1]), SecondPass(b[..|b| - 1]));
    }
  }

  lemma NewNameOf(others: seq<ModuleDef>, names: seq<string>, tiers: map<string, string>, k: nat)
    requires k < |names|
    ensures var m := Renamed(others, names, tiers)[|others| + k];
            m.name == NewName(others, names, k) && m.layer == Crates(names, tiers)[k].layer
  {
    hide SecondPass, CountOf, PathSlug, Slugged;
    var a, b := others + Crates(names, tiers), others + Crates(names, map[]);
    FirstPassIgnoresLayers(a, b);
    SecondPassIgnoresLayers(FirstPass(a), FirstPass(b));
    OnlyNamesChange(a, |others| + k);
  }

  // ---- Ranks are heights ----

  lemma LayersAreOfCrates(others: seq<ModuleDef>, names: seq<string>, tiers: map<string, string>, layers: seq<string>)
    requires Layerless(others) && IsLayerList(Renamed(others, names, tiers), layers)
    ensures IsLayerList(Crates(names, tiers), layers) && "" !in layers
  {
    var crates := Crates(names, tiers);
    var all, mods := others + crates, Renamed(others, names, tiers);
    forall l ensures IsLayer(mods, l) <==> IsLayer(crates, l) {
      if IsLayer(mods, l) {
        var m :| m in mods && m.layer == l;
        var i :| 0 <= i < |mods| && mods[i] == m;
        OnlyNamesChange(all, i);
        assert crates[i - |others|] in crates;
      }
      if IsLayer(crates, l) {
        var m :| m in crates && m.layer == l;
        var i :| 0 <= i < |crates| && crates[i] == m;
        OnlyNamesChange(all, |others| + i);
        assert mods[|others| + i] in mods;
      }
    }
    assert !IsLayer(mods, "");
  }

  /** A name with a rank is borne by a crate, and the rank is that of its layer. */
  lemma RankIsOfBearer(others: seq<ModuleDef>, names: seq<string>, tiers: map<string, string>, layers: seq<string>,
                       a: string)
    returns (c: nat)
    requires Layerless(others) && "" !in layers && a in NewRanks(others, names, tiers, layers)
    ensures c < |names| && NewName(others, names, c) == a && Crates(names, tiers)[c].layer in Ranks(layers)
    ensures NewRanks(others, names, tiers, layers)[a] == Ranks(layers)[Crates(names, tiers)[c].layer]
  {
    hide Disambiguated, NewName, ModuleRanks, Ranks;
    var ranks := Ranks(layers);
    var all, mods := others + Crates(names, tiers), Renamed(others, names, tiers);
    var i := RankComesFrom(mods, ranks, a);
    OnlyNamesChange(all, i);
    RankIsPlace(layers, mods[i].layer);
    c := i - |others|;
    NewNameOf(others, names, tiers, c);
  }

  lemma {:induction false} BearerHasRank(others: seq<ModuleDef>, names: seq<string>, tiers: map<string, string>,
                                         layers: seq<string>, c: nat)
    requires c < |names| && Crates(names, tiers)[c].layer in Ranks(layers)
    ensures var now := NewRanks(others, names, tiers, layers);
            && NewName(others, names, c) in now
            && now[NewName(others, names, c)] == Ranks(layers)[Crates(names, tiers)[c].layer]
  {
    hide Disambiguated, NewName, ModuleRanks, Ranks;
    NewNameOf(others, names, tiers, c);
    NamesEndUpUnique(others + Crates(names, tiers));
    RankOfModule(Renamed(others, names, tiers), Ranks(layers), |others| + c);
  }

  lemma TieredCrates(names: seq<string>, edges: seq<ModuleEdge>, tiers: map<string, string>)
    requires NoDup(names) && IsTiering(names, edges, tiers)
    ensures Tiered(names, tiers, Crates(names, tiers))
  {
    forall i | 0 <= i < |names| ensures names[i] in tiers { assert names[i] in names; }
  }

  lemma IndexOf(names: seq<string>, a: string) returns (i: nat)
    requires a in names
    ensures i < |names| && names[i] == a
  {
    i :| 0 <= i < |names| && names[i] == a;
  }

  /** A workspace of these modules: crate imports, which with the other languages' make no cycle, the
      tiers they give and the layers inferred from all modules. */
  ghost predicate Workspace(others: seq<ModuleDef>, otherEdges: seq<ModuleEdge>, names: seq<string>,
                            edges: seq<ModuleEdge>, tiers: map<string, string>, layers: seq<string>)
  {
    && edges != [] && BetweenModules(names, edges) && CycleTotal(otherEdges + edges) == 0
    && IsTiering(names, edges, tiers) && IsLayerList(Renamed(others, names, tiers), layers)
  }

  /** The longest chain of crate imports that starts at crate c. */
  ghost predicate IsHeight(names: seq<string>, edges: seq<ModuleEdge>, c: nat, k: nat) {
    c < |names| && LongestChain(Inner(names, edges), names[c], k)
  }

  /** The layers are layer-0 to layer-k, and the rank of a crate's layer is its height. */
  ghost predicate RanksAreHeights(names: seq<string>, edges: seq<ModuleEdge>, tiers: map<string, string>,
                                  layers: seq<string>)
  {
    && (exists k: nat :: 1 <= k < |names| && layers == TierRange(k))
    && forall c: nat :: c < |names| ==> CrateRankIsHeight(names, edges, tiers, layers, c)
  }

  ghost predicate CrateRankIsHeight(names: seq<string>, edges: seq<ModuleEdge>, tiers: map<string, string>,
                                    layers: seq<string>, c: nat)
    requires c < |names|
  {
    var layer := Crates(names, tiers)[c].layer;
    layer in Ranks(layers) && IsHeight(names, edges, c, Ranks(layers)[layer])
  }

  lemma {:induction false} HeightsAreRanks(names: seq<string>, edges: seq<ModuleEdge>, tiers: map<string, string>,
                                           layers: seq<string>)
    requires NoDup(names) && |names| <= MAX_INT && edges != [] && BetweenModules(names, edges) && CycleTotal(edges) == 0
    requires IsTiering(names, edges, tiers) && IsLayerList(Crates(names, tiers), layers)
    ensures RanksAreHeights(names, edges, tiers, layers)
  {
    var inner, crates := Inner(names, edges), Crates(names, tiers);
    TieredCrates(names, edges, tiers);
    AcyclicHasHeights(names, edges, tiers);
    assert edges[0] in inner;
    var k := HeightsStartClean(names, inner, tiers, crates, layers);
    forall c: nat | c < |names| ensures CrateRankIsHeight(names, edges, tiers, layers, c) {
      RankOfCrate(names, edges, tiers, layers, k, c);
    }
  }

  lemma {:induction false} RankOfCrate(names: seq<string>, edges: seq<ModuleEdge>, tiers: map<string, string>,
                                       layers: seq<string>, k: nat, c: nat)
    requires c < |names| && Heights(names, Inner(names, edges), tiers)
    requires IsLayerList(Crates(names, tiers), layers) && layers == TierRange(k)
    ensures CrateRankIsHeight(names, edges, tiers, layers, c)
  {
    var crates, a := Crates(names, tiers), names[c];
    assert a in names;
    var h := Height(names, Inner(names, edges), tiers, a);
    TierNameNotEmpty(h);
    assert crates[c] in crates && IsLayer(crates, TierName(h));
    var i := IndexOf(layers, TierName(h));
    RankOfLayer(layers, i);
    TierNameInjective(i, h);
  }

  /** A back edge is an edge between names that two crates bear, the second of them higher. */
  lemma {:induction false} BackEdgeBearers(others: seq<ModuleDef>, names: seq<string>, edges: seq<ModuleEdge>,
                                           tiers: map<string, string>, layers: seq<string>, e: ModuleEdge)
    returns (c: nat, d: nat, j: nat, k: nat)
    requires Layerless(others) && "" !in layers && RanksAreHeights(names, edges, tiers, layers)
    requires IsBackEdge(NewRanks(others, names, tiers, layers), e)
    ensures IsHeight(names, edges, c, j) && IsHeight(names, edges, d, k) && j < k
    ensures NewName(others, names, c) == e.from && NewName(others, names, d) == e.to
  {
    hide NewRanks, NewName, Ranks, Crates;
    c := RankIsOfBearer(others, names, tiers, layers, e.from);
    d := RankIsOfBearer(others, names, tiers, layers, e.to);
    assert CrateRankIsHeight(names, edges, tiers, layers, c) && CrateRankIsHeight(names, edges, tiers, layers, d);
    j, k := NewRanks(others, names, tiers, layers)[e.from], NewRanks(others, names, tiers, layers)[e.to];
  }

  lemma {:induction false} BearersMakeBackEdge(others: seq<ModuleDef>, names: seq<string>, edges: seq<ModuleEdge>,
                                               tiers: map<string, string>, layers: seq<string>, c: nat, d: nat, j: nat,
                                               k: nat)
    requires RanksAreHeights(names, edges, tiers, layers)
    requires IsHeight(names, edges, c, j) && IsHeight(names, edges, d, k) && j < k
    ensures var e := ModuleEdge(NewName(others, names, c), NewName(others, names, d));
            IsBackEdge(NewRanks(others, names, tiers, layers), e)
  {
    hide NewRanks, NewName, Ranks, Crates;
    assert CrateRankIsHeight(names, edges, tiers, layers, c) && CrateRankIsHeight(names, edges, tiers, layers, d);
    LongestChainUnique(Inner(names, edges), names[c], j, Ranks(layers)[Crates(names, tiers)[c].layer]);
    LongestChainUnique(Inner(names, edges), names[d], k, Ranks(layers)[Crates(names, tiers)[d].layer]);
    BearerHasRank(others, names, tiers, layers, c);
    BearerHasRank(others, names, tiers, layers, d);
  }

  // ---- When some workspace inverts ----

  function Import(names: seq<string>, a: nat, b: nat): ModuleEdge
    requires a < |names| && b < |names|
  {
    ModuleEdge(names[a], names[b])
  }

  /** These crate imports make no cycle, among themselves and with the other languages' edges. */
  ghost predicate Possible(otherEdges: seq<ModuleEdge>, edges: seq<ModuleEdge>) {
    CycleTotal(otherEdges + edges) == 0
  }

  /** Crate c bears the name of crate i. */
  predicate Bears(others: seq<ModuleDef>, names: seq<string>, c: nat, i: nat)
    requires c < |names| && i < |names|
  {
    NewName(others, names, c) == names[i]
  }

  /** Crates c and d bear the names of two crates i and j. */
  predicate BearsTwo(others: seq<ModuleDef>, names: seq<string>, i: nat, j: nat, c: nat, d: nat) {
    && i < |names| && j < |names| && c < |names| && d < |names| && i != j
    && Bears(others, names, c, i) && Bears(others, names, d, j)
  }

  /** An edge of another language joins the names of crates c and d, and d may import some crate z. */
  ghost predicate InvertsOther(others: seq<ModuleDef>, otherEdges: seq<ModuleEdge>, names: seq<string>, c: nat, d: nat,
                               z: nat)
  {
    && c < |names| && d < |names| && z < |names| && c != d && z != d
    && ModuleEdge(NewName(others, names, c), NewName(others, names, d)) in otherEdges
    && Possible(otherEdges, [Import(names, d, z)])
  }

  /** Crate i may import j while the bearer d of j's name imports some crate z, and i's name is not its own. */
  ghost predicate InvertsTaken(others: seq<ModuleDef>, otherEdges: seq<ModuleEdge>, names: seq<string>, i: nat, j: nat,
                               c: nat, d: nat, z: nat)
  {
    && BearsTwo(others, names, i, j, c, d) && c != i && z < |names| && z != d
    && Possible(otherEdges, [Import(names, i, j), Import(names, d, z)])
  }

  /** Crate i keeps its name and may import j, whose name d bears, while d stands on a chain of two imports
      that does not raise i. */
  ghost predicate InvertsKept(others: seq<ModuleDef>, otherEdges: seq<ModuleEdge>, names: seq<string>, i: nat, j: nat,
                              d: nat, x: nat, y: nat)
  {
    && BearsTwo(others, names, i, j, i, d) && d != i && d != j
    && x < |names| && y < |names| && x != d && x != j && y != x
    && Possible(otherEdges, [Import(names, i, j), Import(names, d, x), Import(names, x, y)])
  }

  /** None of the three: told from names, paths and the other languages' edges. */
  ghost predicate StaysClean(others: seq<ModuleDef>, otherEdges: seq<ModuleEdge>, names: seq<string>) {
    && (forall c: nat, d: nat, z: nat :: !InvertsOther(others, otherEdges, names, c, d, z))
    && (forall i: nat, j: nat, c: nat, d: nat, z: nat :: !InvertsTaken(others, otherEdges, names, i, j, c, d, z))
    && (forall i: nat, j: nat, d: nat, x: nat, y: nat :: !InvertsKept(others, otherEdges, names, i, j, d, x, y))
  }

  // ---- Otherwise every workspace starts clean ----

  /** A chain of some length starts with an import of a module one lower at least. */
  lemma {:induction false} HighImports(edges: seq<ModuleEdge>, a: string, k: nat) returns (b: string)
    requires LongestChain(edges, a, k) && k >= 1
    ensures ModuleEdge(a, b) in edges && forall m: nat :: LongestChain(edges, b, m) ==> m >= k - 1
  {
    var p :| Walk(edges, p) && p[0] == a && |p| == k + 1;
    b := p[1];
    assert ModuleEdge(p[0], p[0 + 1]) in edges;
    assert Walk(edges, p[1..]) && p[1..][0] == b;
  }

  lemma {:induction false} HighCrateImports(names: seq<string>, edges: seq<ModuleEdge>, tiers: map<string, string>,
                                            layers: seq<string>, c: nat, k: nat)
    returns (z: nat, m: nat)
    requires BetweenModules(names, edges) && RanksAreHeights(names, edges, tiers, layers)
    requires IsHeight(names, edges, c, k) && k >= 1
    ensures z < |names| && z != c && Import(names, c, z) in edges && IsHeight(names, edges, z, m) && m >= k - 1
  {
    hide Ranks, Crates;
    var b := HighImports(Inner(names, edges), names[c], k);
    z := IndexOf(names, b);
    assert CrateRankIsHeight(names, edges, tiers, layers, z);
    m := Ranks(layers)[Crates(names, tiers)[z].layer];
  }

  lemma {:induction false} PossibleLess(otherEdges: seq<ModuleEdge>, edges: seq<ModuleEdge>, some: seq<ModuleEdge>)
    requires CycleTotal(otherEdges + edges) == 0 && forall e :: e in some ==> e in edges
    ensures Possible(otherEdges, some)
  {
    FewerEdgesAcyclic(otherEdges + some, otherEdges + edges);
  }

  lemma {:induction false} BackEdgeOfOther(others: seq<ModuleDef>, otherEdges: seq<ModuleEdge>, names: seq<string>,
                                           edges: seq<ModuleEdge>, tiers: map<string, string>, layers: seq<string>,
                                           e: ModuleEdge)
    requires Layerless(others) && "" !in layers && RanksAreHeights(names, edges, tiers, layers)
    requires BetweenModules(names, edges) && CycleTotal(otherEdges + edges) == 0
    requires e in otherEdges && IsBackEdge(NewRanks(others, names, tiers, layers), e)
    ensures !StaysClean(others, otherEdges, names)
  {
    hide RanksAreHeights, NewName, NewRanks;
    var c, d, j, k := BackEdgeBearers(others, names, edges, tiers, layers, e);
    var z, _ := HighCrateImports(names, edges, tiers, layers, d, k);
    PossibleLess(otherEdges, edges, [Import(names, d, z)]);
    assert InvertsOther(others, otherEdges, names, c, d, z);
  }

  lemma {:induction false} BackEdgeOfCrate(others: seq<ModuleDef>, otherEdges: seq<ModuleEdge>, names: seq<string>,
                                           edges: seq<ModuleEdge>, tiers: map<string, string>, layers: seq<string>,
                                           e: ModuleEdge)
    requires Layerless(others) && "" !in layers && RanksAreHeights(names, edges, tiers, layers)
    requires BetweenModules(names, edges) && CycleTotal(otherEdges + edges) == 0
    requires e in edges && IsBackEdge(NewRanks(others, names, tiers, layers), e)
    ensures !StaysClean(others, otherEdges, names)
  {
    hide RanksAreHeights, NewName, NewRanks;
    var c, d, low, high := BackEdgeBearers(others, names, edges, tiers, layers, e);
    var i := IndexOf(names, e.from);
    var j := IndexOf(names, e.to);
    assert BearsTwo(others, names, i, j, c, d);
    var x, m := HighCrateImports(names, edges, tiers, layers, d, high);
    if c != i {
      PossibleLess(otherEdges, edges, [Import(names, i, j), Import(names, d, x)]);
      assert InvertsTaken(others, otherEdges, names, i, j, c, d, x);
    } else {
      KeptInverts(others, otherEdges, names, edges, tiers, layers, i, j, d, low, high, x, m);
    }
  }

  lemma {:induction false} KeptInverts(others: seq<ModuleDef>, otherEdges: seq<ModuleEdge>, names: seq<string>,
                                       edges: seq<ModuleEdge>, tiers: map<string, string>, layers: seq<string>, i: nat,
                                       j: nat, d: nat, low: nat, high: nat, x: nat, m: nat)
    requires RanksAreHeights(names, edges, tiers, layers) && BetweenModules(names, edges)
    requires CycleTotal(otherEdges + edges) == 0
    requires BearsTwo(others, names, i, j, i, d) && Import(names, i, j) in edges
    requires IsHeight(names, edges, i, low) && IsHeight(names, edges, d, high) && low < high
    requires x < |names| && x != d && Import(names, d, x) in edges && IsHeight(names, edges, x, m) && m >= high - 1
    ensures exists y: nat :: InvertsKept(others, otherEdges, names, i, j, d, x, y)
  {
    hide NewName, Ranks, Crates;
    var inner := Inner(names, edges);
    assert CrateRankIsHeight(names, edges, tiers, layers, j);
    var h := Ranks(layers)[Crates(names, tiers)[j].layer];
    ImporterIsHigher(inner, names[i], names[j], low, h);
    var y, _ := HighCrateImports(names, edges, tiers, layers, x, m);
    PossibleLess(otherEdges, edges, [Import(names, i, j), Import(names, d, x), Import(names, x, y)]);
    assert InvertsKept(others, otherEdges, names, i, j, d, x, y);
  }

  /** With no cycle counted the layers are layer-0 to layer-k. */
  lemma {:induction false} WorkspaceRanks(others: seq<ModuleDef>, otherEdges: seq<ModuleEdge>, names: seq<string>,
                                          edges: seq<ModuleEdge>, tiers: map<string, string>, layers: seq<string>)
    requires Layerless(others) && NoDup(names) && |names| <= MAX_INT
    requires Workspace(others, otherEdges, names, edges, tiers, layers)
    ensures RanksAreHeights(names, edges, tiers, layers) && "" !in layers
  {
    hide Renamed, Crates, RanksAreHeights;
    LayersAreOfCrates(others, names, tiers, layers);
    FewerEdgesAcyclic(edges, otherEdges + edges);
    HeightsAreRanks(names, edges, tiers, layers);
  }

  lemma {:induction false} RenamedStartsClean(others: seq<ModuleDef>, otherEdges: seq<ModuleEdge>, names: seq<string>,
                                              edges: seq<ModuleEdge>, tiers: map<string, string>, layers: seq<string>)
    requires Layerless(others) && NoDup(names) && |names| <= MAX_INT && StaysClean(others, otherEdges, names)
    requires Workspace(others, otherEdges, names, edges, tiers, layers)
    ensures BackEdges(NewRanks(others, names, tiers, layers), otherEdges + edges) == 0
  {
    hide StaysClean, NewRanks, RanksAreHeights;
    var ranks, all := NewRanks(others, names, tiers, layers), otherEdges + edges;
    WorkspaceRanks(others, otherEdges, names, edges, tiers, layers);
    forall e | e in all ensures !IsBackEdge(ranks, e) {
      if IsBackEdge(ranks, e) {
        if e in otherEdges {
          BackEdgeOfOther(others, otherEdges, names, edges, tiers, layers, e);
        } else {
          BackEdgeOfCrate(others, otherEdges, names, edges, tiers, layers, e);
        }
      }
    }
    NoBackEdges(ranks, all);
  }

  // ---- Where it is not met, some workspace inverts ----

  /** Every module of an acyclic graph starts a longest chain. */
  lemma {:induction false} LongestExists(names: seq<string>, edges: seq<ModuleEdge>, a: string, n: nat) returns (k: nat)
    requires forall p :: Walk(edges, p) && p[0] == a ==> |p| <= n + 1
    ensures LongestChain(edges, a, k)
  {
    if exists p :: Walk(edges, p) && p[0] == a && |p| == n + 1 {
      k := n;
    } else if n == 0 {
      assert Walk(edges, [a]);
      assert false;
    } else {
      k := LongestExists(names, edges, a, n - 1);
    }
  }

  lemma {:induction false} WalksAreShort(names: seq<string>, edges: seq<ModuleEdge>, a: string)
    requires a in names && !ReachesCycle(edges, a)
    requires forall e :: e in edges ==> e.from in names && e.to in names
    ensures forall p :: Walk(edges, p) && p[0] == a ==> |p| <= |names| + 1
  {
    forall p | Walk(edges, p) && p[0] == a ensures |p| <= |names| + 1 {
      if |p| > |names| + 1 {
        forall x | x in p ensures x in SetOf(names) {
          var i :| 0 <= i < |p| && p[i] == x;
          if i > 0 { assert ModuleEdge(p[i - 1], p[i - 1 + 1]) in edges; }
        }
        MembersAtMostLength(names);
        var i, j := Pigeonhole(p, SetOf(names));
        RepeatIsCycle(edges, p, i, j);
      }
    }
  }

  ghost function ChainOf(names: seq<string>, edges: seq<ModuleEdge>, a: string): (k: nat)
    requires a in names && (forall x :: !ReachesCycle(edges, x))
    requires forall e :: e in edges ==> e.from in names && e.to in names
    ensures LongestChain(edges, a, k)
  {
    ChainExists(names, edges, a);
    var k: nat :| LongestChain(edges, a, k);
    k
  }

  lemma {:induction false} ChainExists(names: seq<string>, edges: seq<ModuleEdge>, a: string)
    requires a in names && !ReachesCycle(edges, a)
    requires forall e :: e in edges ==> e.from in names && e.to in names
    ensures exists k: nat :: LongestChain(edges, a, k)
  {
    WalksAreShort(names, edges, a);
    var k := LongestExists(names, edges, a, |names|);
  }

  /** An acyclic graph has its tiers, and its modules their layers. */
  lemma {:induction false} TiersExist(names: seq<string>, edges: seq<ModuleEdge>) returns (tiers: map<string, string>)
    requires BetweenModules(names, edges) && CycleTotal(edges) == 0
    ensures IsTiering(names, edges, tiers)
  {
    var inner := Inner(names, edges);
    AcyclicReachesNoCycle(names, edges);
    tiers := map a | a in SetOf(names) :: TierName(ChainOf(names, inner, a));
    forall a | a in names ensures TierOf(inner, a, tiers[a]) {
      assert a in SetOf(names) && IsTier(inner, a, ChainOf(names, inner, a));
    }
  }

  lemma {:induction false} LayersExist(mods: seq<ModuleDef>) returns (layers: seq<string>)
    ensures IsLayerList(mods, layers)
  {
    var found := set m | m in mods && m.layer != "" :: m.layer;
    var listed := Enumeration(found);
    layers := SortBy(listed, TierLe);
    TierLeTotalOrder();
    SortBySorts(listed, TierLe);
    SortByMembers(listed, TierLe);
    NoDupPermutation(listed, layers);
  }

  /** The workspace on which crate imports edges invert e. */
  ghost predicate Inverts(others: seq<ModuleDef>, otherEdges: seq<ModuleEdge>, names: seq<string>,
                          edges: seq<ModuleEdge>, tiers: map<string, string>, layers: seq<string>)
  {
    && Workspace(others, otherEdges, names, edges, tiers, layers)
    && BackEdges(NewRanks(others, names, tiers, layers), otherEdges + edges) > 0
  }

  lemma {:induction false} WorkspaceOf(others: seq<ModuleDef>, otherEdges: seq<ModuleEdge>, names: seq<string>,
                                       edges: seq<ModuleEdge>)
    returns (tiers: map<string, string>, layers: seq<string>)
    requires Layerless(others) && NoDup(names) && |names| <= MAX_INT
    requires edges != [] && BetweenModules(names, edges) && Possible(otherEdges, edges)
    ensures Workspace(others, otherEdges, names, edges, tiers, layers) && RanksAreHeights(names, edges, tiers, layers)
  {
    hide Renamed, RanksAreHeights;
    FewerEdgesAcyclic(edges, otherEdges + edges);
    tiers := TiersExist(names, edges);
    layers := LayersExist(Renamed(others, names, tiers));
    WorkspaceRanks(others, otherEdges, names, edges, tiers, layers);
  }

  lemma {:induction false} HeightOfCrate(names: seq<string>, edges: seq<ModuleEdge>, tiers: map<string, string>,
                                         layers: seq<string>, c: nat)
    returns (k: nat)
    requires RanksAreHeights(names, edges, tiers, layers) && c < |names|
    ensures IsHeight(names, edges, c, k)
  {
    hide Ranks, Crates;
    assert CrateRankIsHeight(names, edges, tiers, layers, c);
    k := Ranks(layers)[Crates(names, tiers)[c].layer];
  }

  /** Crates c and d at these heights make a back edge of an edge that joins their names. */
  lemma {:induction false} HeightsInvert(others: seq<ModuleDef>, otherEdges: seq<ModuleEdge>, names: seq<string>,
                                         edges: seq<ModuleEdge>, tiers: map<string, string>, layers: seq<string>,
                                         c: nat, d: nat, j: nat, k: nat)
    requires Workspace(others, otherEdges, names, edges, tiers, layers) && RanksAreHeights(names, edges, tiers, layers)
    requires IsHeight(names, edges, c, j) && IsHeight(names, edges, d, k) && j < k
    requires ModuleEdge(NewName(others, names, c), NewName(others, names, d)) in otherEdges + edges
    ensures Inverts(others, otherEdges, names, edges, tiers, layers)
  {
    hide NewName, NewRanks, RanksAreHeights;
    BearersMakeBackEdge(others, names, edges, tiers, layers, c, d, j, k);
    NoBackEdges(NewRanks(others, names, tiers, layers), otherEdges + edges);
  }

  /** A crate that imports nothing is at the bottom; one that imports something is above it. */
  lemma {:induction false} ImportsNothing(names: seq<string>, edges: seq<ModuleEdge>, c: nat, k: nat)
    requires IsHeight(names, edges, c, k) && forall e :: e in edges ==> e.from != names[c]
    ensures k == 0
  {
    if k >= 1 { var b := HighImports(Inner(names, edges), names[c], k); }
  }

  lemma {:induction false} ImportsSomething(names: seq<string>, edges: seq<ModuleEdge>, d: nat, k: nat, z: nat, m: nat)
    requires IsHeight(names, edges, d, k) && IsHeight(names, edges, z, m) && Import(names, d, z) in edges
    ensures k >= m + 1
  {
    assert names[d] in names && names[z] in names;
    ImporterIsHigher(Inner(names, edges), names[d], names[z], k, m);
  }

  lemma {:induction false} OtherInverts(others: seq<ModuleDef>, otherEdges: seq<ModuleEdge>, names: seq<string>, c: nat,
                                        d: nat, z: nat)
    returns (edges: seq<ModuleEdge>, tiers: map<string, string>, layers: seq<string>)
    requires Layerless(others) && NoDup(names) && |names| <= MAX_INT && InvertsOther(others, otherEdges, names, c, d, z)
    ensures edges == [Import(names, d, z)] && Inverts(others, otherEdges, names, edges, tiers, layers)
  {
    hide RanksAreHeights, NewName, Workspace;
    edges := [Import(names, d, z)];
    assert Import(names, d, z) in edges && BetweenModules(names, edges);
    tiers, layers := WorkspaceOf(others, otherEdges, names, edges);
    var j := HeightOfCrate(names, edges, tiers, layers, c);
    var k := HeightOfCrate(names, edges, tiers, layers, d);
    var m := HeightOfCrate(names, edges, tiers, layers, z);
    ImportsNothing(names, edges, c, j);
    ImportsSomething(names, edges, d, k, z, m);
    HeightsInvert(others, otherEdges, names, edges, tiers, layers, c, d, j, k);
  }

  lemma {:induction false} TakenInverts(others: seq<ModuleDef>, otherEdges: seq<ModuleEdge>, names: seq<string>, i: nat,
                                        j: nat, c: nat, d: nat, z: nat)
    returns (edges: seq<ModuleEdge>, tiers: map<string, string>, layers: seq<string>)
    requires Layerless(others) && NoDup(names) && |names| <= MAX_INT
    requires InvertsTaken(others, otherEdges, names, i, j, c, d, z)
    ensures edges == [Import(names, i, j), Import(names, d, z)]
    ensures Inverts(others, otherEdges, names, edges, tiers, layers)
  {
    hide RanksAreHeights, NewName, Workspace;
    edges := [Import(names, i, j), Import(names, d, z)];
    assert Import(names, i, j) in edges && Import(names, d, z) in edges && BetweenModules(names, edges);
    tiers, layers := WorkspaceOf(others, otherEdges, names, edges);
    var low := HeightOfCrate(names, edges, tiers, layers, c);
    var high := HeightOfCrate(names, edges, tiers, layers, d);
    var m := HeightOfCrate(names, edges, tiers, layers, z);
    assert c != d;
    ImportsNothing(names, edges, c, low);
    ImportsSomething(names, edges, d, high, z, m);
    HeightsInvert(others, otherEdges, names, edges, tiers, layers, c, d, low, high);
  }

  lemma TwoImports(edges: seq<ModuleEdge>, a: string, k: nat) returns (b: string, c: string)
    requires LongestChain(edges, a, k) && k >= 2
    ensures ModuleEdge(a, b) in edges && ModuleEdge(b, c) in edges
  {
    var p :| Walk(edges, p) && p[0] == a && |p| == k + 1;
    b, c := p[1], p[2];
    assert ModuleEdge(p[0], p[0 + 1]) in edges && ModuleEdge(p[1], p[1 + 1]) in edges;
  }

  /** Of these imports only one level can start at i. */
  lemma {:induction false} KeptStaysLow(names: seq<string>, edges: seq<ModuleEdge>, i: nat, j: nat, d: nat, x: nat,
                                        y: nat, k: nat)
    requires NoDup(names) && i < |names| && j < |names| && d < |names| && x < |names| && y < |names|
    requires i != j && d != i && d != j && x != d && x != j && y != x && y != d
    requires edges == [Import(names, i, j), Import(names, d, x), Import(names, x, y)] && IsHeight(names, edges, i, k)
    ensures k <= 1
  {
    if k >= 2 { var b, c := TwoImports(Inner(names, edges), names[i], k); }
  }

  lemma {:induction false} KeptInvertsSome(others: seq<ModuleDef>, otherEdges: seq<ModuleEdge>, names: seq<string>,
                                           i: nat, j: nat, d: nat, x: nat, y: nat)
    returns (edges: seq<ModuleEdge>, tiers: map<string, string>, layers: seq<string>)
    requires Layerless(others) && NoDup(names) && |names| <= MAX_INT
    requires InvertsKept(others, otherEdges, names, i, j, d, x, y)
    ensures edges == [Import(names, i, j), Import(names, d, x), Import(names, x, y)]
    ensures Inverts(others, otherEdges, names, edges, tiers, layers)
  {
    hide RanksAreHeights, NewName, Workspace;
    edges := [Import(names, i, j), Import(names, d, x), Import(names, x, y)];
    assert Import(names, i, j) in edges && Import(names, d, x) in edges && Import(names, x, y) in edges;
    assert BetweenModules(names, edges);
    tiers, layers := WorkspaceOf(others, otherEdges, names, edges);
    var low := HeightOfCrate(names, edges, tiers, layers, i);
    var high := HeightOfCrate(names, edges, tiers, layers, d);
    var mid := HeightOfCrate(names, edges, tiers, layers, x);
    var end := HeightOfCrate(names, edges, tiers, layers, y);
    ImportsSomething(names, edges, d, high, x, mid);
    ImportsSomething(names, edges, x, mid, y, end);
    if y == d { LongestChainUnique(Inner(names, edges), names[d], high, end); }
    KeptStaysLow(names, edges, i, j, d, x, y, low);
    HeightsInvert(others, otherEdges, names, edges, tiers, layers, i, d, low, high);
  }

  /** Not met, three crate imports are enough. */
  lemma {:induction false} RenamingInverts(others: seq<ModuleDef>, otherEdges: seq<ModuleEdge>, names: seq<string>)
    returns (edges: seq<ModuleEdge>, tiers: map<string, string>, layers: seq<string>)
    requires Layerless(others) && NoDup(names) && |names| <= MAX_INT && !StaysClean(others, otherEdges, names)
    ensures |edges| <= 3 && Inverts(others, otherEdges, names, edges, tiers, layers)
  {
    if c: nat, d: nat, z: nat :| InvertsOther(others, otherEdges, names, c, d, z) {
      edges, tiers, layers := OtherInverts(others, otherEdges, names, c, d, z);
    } else if i: nat, j: nat, c: nat, d: nat, z: nat :| InvertsTaken(others, otherEdges, names, i, j, c, d, z) {
      edges, tiers, layers := TakenInverts(others, otherEdges, names, i, j, c, d, z);
    } else {
      var i: nat, j: nat, d: nat, x: nat, y: nat :| InvertsKept(others, otherEdges, names, i, j, d, x, y);
      edges, tiers, layers := KeptInvertsSome(others, otherEdges, names, i, j, d, x, y);
    }
  }

  /** The condition is exact: the direction rule starts clean on every workspace of these modules, whatever
      the crates import without making a cycle, if and only if it is met. */
  lemma {:induction false} StartsCleanExactly(others: seq<ModuleDef>, otherEdges: seq<ModuleEdge>, names: seq<string>)
    requires Layerless(others) && NoDup(names) && |names| <= MAX_INT
    ensures StaysClean(others, otherEdges, names) <==>
            forall edges, tiers, layers :: !Inverts(others, otherEdges, names, edges, tiers, layers)
  {
    hide StaysClean, Workspace;
    if StaysClean(others, otherEdges, names) {
      forall edges, tiers, layers ensures !Inverts(others, otherEdges, names, edges, tiers, layers) {
        if Workspace(others, otherEdges, names, edges, tiers, layers) {
          RenamedStartsClean(others, otherEdges, names, edges, tiers, layers);
        }
      }
    } else {
      var edges, tiers, layers := RenamingInverts(others, otherEdges, names);
    }
  }

  // ---- Simple cases ----

  /** The crates that bear a crate name bear their own, or there is only one. */
  ghost predicate OwnNamesOrOne(others: seq<ModuleDef>, names: seq<string>) {
    forall i: nat, j: nat, c: nat, d: nat :: BearsTwo(others, names, i, j, c, d) ==> c == i && d == j
  }

  /** No edge of another language joins names that two crates bear. */
  ghost predicate OthersApart(others: seq<ModuleDef>, otherEdges: seq<ModuleEdge>, names: seq<string>) {
    forall c: nat, d: nat :: c < |names| && d < |names| && c != d ==>
      ModuleEdge(NewName(others, names, c), NewName(others, names, d)) !in otherEdges
  }

  /** Enough in general. */
  lemma {:induction false} ApartStaysClean(others: seq<ModuleDef>, otherEdges: seq<ModuleEdge>, names: seq<string>)
    requires OwnNamesOrOne(others, names) && OthersApart(others, otherEdges, names)
    ensures StaysClean(others, otherEdges, names)
  {
    hide NewName, Possible;
  }

  /** Two imports go round only when each answers the other. */
  lemma TwoEdgesAcyclic(edges: seq<ModuleEdge>, x: string, y: string, u: string, v: string)
    requires x != y && u != v && !(y == u && v == x)
    requires forall e :: e in edges ==> e == ModuleEdge(x, y) || e == ModuleEdge(u, v)
    ensures CycleTotal(edges) == 0
  {
    var proper := Proper(edges);
    forall a | a in Nodes(proper) ensures !OnCycle(proper, a) {
      ClosedSetHoldsReachable(proper, a, {y, v});
      if a == y {
        ClosedSetHoldsReachable(proper, y, if y == u then {v} else {});
      } else if a == v {
        ClosedSetHoldsReachable(proper, v, if v == x then {y} else {});
      }
    }
    NoCycleCounted(edges);
  }

  /** Without edges of other languages it is exact. */
  lemma {:induction false} CratesAloneStayClean(others: seq<ModuleDef>, names: seq<string>)
    requires NoDup(names)
    ensures StaysClean(others, [], names) <==> OwnNamesOrOne(others, names)
  {
    hide NewName;
    if OwnNamesOrOne(others, names) { ApartStaysClean(others, [], names); }
    forall i: nat, j: nat, c: nat, d: nat | BearsTwo(others, names, i, j, c, d) && !(c == i && d == j)
      ensures !StaysClean(others, [], names)
    {
      if c != i {
        TwoEdgesAcyclic([] + [Import(names, i, j), Import(names, d, c)], names[i], names[j], names[d], names[c]);
        assert InvertsTaken(others, [], names, i, j, c, d, c);
      } else {
        var edges := [Import(names, i, j), Import(names, d, i), Import(names, i, j)];
        TwoEdgesAcyclic([] + edges, names[i], names[j], names[d], names[i]);
        assert InvertsKept(others, [], names, i, j, d, i, j);
      }
    }
  }
}
