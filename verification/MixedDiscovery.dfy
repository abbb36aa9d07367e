/**
  A workspace with crates and modules of other languages at init
  (internal/initcfg/initcfg.go): the imports Go discovery found come first, then the
  crates' own, and names are made unique after both were collected.
*/
module MixedDiscovery {
  import opened Options
  import opened Orders
  import opened ModuleGraph
  import opened CycleCount
  import opened Layering
  import opened StarterRules
  import opened Disambiguation
  import opened RustDiscovery
  import opened RenamedEdges
  import opened FoldedEdges
  import Tiers

  // ---- Discovery ----

  lemma CratesAre(names: seq<string>, edges: seq<ModuleEdge>, tiers: map<string, string>, crates: seq<ModuleDef>)
    returns (of: map<string, string>)
    requires |crates| == |names|
    requires forall i :: 0 <= i < |names| ==> crates[i].name == names[i] && crates[i].paths == [names[i]]
    requires if edges == [] then forall m :: m in crates ==> m.layer == "" else Tiered(names, tiers, crates)
    ensures crates == Crates(names, of) && of == if edges == [] then map[] else tiers
  {
    of := if edges == [] then map[] else tiers;
    forall i | 0 <= i < |names| ensures crates[i] == Crates(names, of)[i] {
      assert names[i] in names && crates[i] in crates;
    }
  }

  /** Modules that keep few layers keep none. */
  lemma KeptHasList(found: seq<ModuleDef>, mods: seq<ModuleDef>, layers: seq<string>)
    requires Kept(found, mods, layers)
    ensures IsLayerList(mods, layers) && |layers| != 1 && |mods| == |found|
    ensures forall i :: 0 <= i < |mods| ==> mods[i].name == found[i].name && mods[i].paths == found[i].paths
  {
    if |layers| < 2 { ClearedHaveNone(found, mods); }
  }

  lemma {:induction false} KeptRenamedStartsClean(others: seq<ModuleDef>, otherEdges: seq<ModuleEdge>,
                                                  names: seq<string>, edges: seq<ModuleEdge>,
                                                  tiers: map<string, string>, mods: seq<ModuleDef>, layers: seq<string>)
    requires Layerless(others) && NoDup(names) && |names| <= Tiers.MAX_INT && edges != []
    requires BetweenModules(names, edges) && CycleTotal(otherEdges + edges) == 0 && IsTiering(names, edges, tiers)
    requires Kept(Renamed(others, names, tiers), mods, layers)
    ensures exists k: nat :: 1 <= k < |names| && layers == TierRange(k)
    ensures StaysClean(others, otherEdges, names) ==>
              BackEdges(ModuleRanks(mods, Ranks(layers)), otherEdges + edges) == 0
  {
    hide StaysClean, Disambiguated, Renamed, CrateRankIsHeight;
    var inferred := LayersOf(Renamed(others, names, tiers), layers, mods);
    WorkspaceRanks(others, otherEdges, names, edges, tiers, inferred);
    assert |inferred| >= 2;
    if StaysClean(others, otherEdges, names) {
      RenamedStartsClean(others, otherEdges, names, edges, tiers, inferred);
    }
  }

  /** Without layers nothing is ranked. */
  lemma {:induction false} NoRanks(mods: seq<ModuleDef>)
    ensures ModuleRanks(mods, Ranks([])) == map[]
  {
    if |mods| != 0 { NoRanks(mods[..|mods| - 1]); }
  }

  lemma NoLayerNoBackEdge(mods: seq<ModuleDef>, edges: seq<ModuleEdge>)
    ensures BackEdges(ModuleRanks(mods, Ranks([])), edges) == 0
  {
    NoRanks(mods);
    NoBackEdges(map[], edges);
  }

  lemma NoLayerToInfer(others: seq<ModuleDef>, names: seq<string>, mods: seq<ModuleDef>, layers: seq<string>)
    requires Layerless(others) && Kept(Renamed(others, names, map[]), mods, layers)
    ensures layers == []
  {
    var all := others + Crates(names, map[]);
    forall i | 0 <= i < |all| ensures Disambiguated(all)[i].layer == "" { OnlyNamesChange(all, i); }
    HeadIsMember(layers);
  }

  function KeptNames(others: seq<ModuleDef>, names: seq<string>): set<string> {
    Names(others) + SetOf(names)
  }

  /** With a source inventory the edges into modules it dropped are folded. */
  function Counted(edges: seq<ModuleEdge>, kept: set<string>, owners: Option<map<string, seq<string>>>)
    : seq<ModuleEdge>
  {
    match owners
    case None => edges
    case Some(byName) => Folded(edges, kept, byName)
  }

  lemma CratesAreCounted(others: seq<ModuleDef>, otherEdges: seq<ModuleEdge>, names: seq<string>,
                         edges: seq<ModuleEdge>, owners: Option<map<string, seq<string>>>)
    requires BetweenModules(names, edges)
    ensures var kept := KeptNames(others, names);
            SameMembers(Counted(otherEdges + edges, kept, owners), Counted(otherEdges, kept, owners) + edges)
  {
    if owners.Some? { KeptEdgesStay(otherEdges, edges, KeptNames(others, names), owners.value); }
  }

  /** A workspace with crates at init: the kept modules of other languages, then the crates, their names
      made unique after all edges were collected and folded; the layer list and the two counts, over all
      edges. owners says which kept modules own the files of a dropped one, when there is an inventory. */
  method Discover(others: seq<ModuleDef>, otherEdges: seq<ModuleEdge>, owners: Option<map<string, seq<string>>>,
                  meta: CargoMeta)
    returns (mods: seq<ModuleDef>, layers: seq<string>, cycles: nat, backEdges: nat,
             ghost names: seq<string>, ghost edges: seq<ModuleEdge>)
    requires Layerless(others) && |meta.packages| <= Tiers.MAX_INT
    ensures IsCrates(MemberNames(meta), names) && CrateEdges(meta, edges)
    ensures |mods| == |others| + |names| && DistinctNames(mods)
    ensures forall i :: 0 <= i < |others| ==> mods[i].paths == others[i].paths
    ensures CratesKeepPaths(others, names, mods)
    ensures IsLayerList(mods, layers) && |layers| != 1 && (edges == [] ==> layers == [])
    ensures var all := Counted(otherEdges + edges, KeptNames(others, names), owners);
            cycles == CycleTotal(all) && backEdges == BackEdges(ModuleRanks(mods, Ranks(layers)), all)
    ensures layers == [] ==> backEdges == 0
    ensures edges != [] && cycles == 0 ==> exists k: nat :: 1 <= k && layers == TierRange(k)
    ensures cycles == 0 && StaysClean(others, Counted(otherEdges, KeptNames(others, names), owners), names) ==>
              backEdges == 0
  {
    hide *;
    var crates, found;
    ghost var tiers;
    crates, found, names, tiers := BuildRustModules(meta);
    edges := found;
    ghost var of := CratesAre(names, edges, tiers, crates);
    var all := otherEdges + found;
    if owners.Some? {
      all := FoldDroppedEdges(all, Names(others + crates), owners.value);
    }
    ghost var kept := KeptNames(others, names);
    assert all == Counted(otherEdges + edges, kept, owners) by {
      CountedIs(others, names, of, otherEdges + edges, owners);
    }
    var unique := UniquelyNamed(others + crates);
    mods, layers := KeepLayers(unique);
    cycles := ModuleCycleCount(all);
    backEdges := LayerBackEdgeCount(layers, mods, all);
    assert unique == Renamed(others, names, of) by { RenamedIs(others, names, of); }
    KeptHasList(unique, mods, layers);
    UniqueModules(others, names, of, mods);
    NoLayerNoBackEdge(mods, all);
    if edges == [] {
      NoLayerToInfer(others, names, mods, layers);
    } else if cycles == 0 {
      NamesAtMostPackages(meta, names);
      CratesDiffer(MemberNames(meta), names);
      CratesAreCounted(others, otherEdges, names, edges, owners);
      ghost var beside := Counted(otherEdges, kept, owners);
      CountsOfMembers(all, beside + edges, ModuleRanks(mods, Ranks(layers)));
      KeptRenamedStartsClean(others, beside, names, edges, tiers, mods, layers);
    }
  }

  lemma CountedIs(others: seq<ModuleDef>, names: seq<string>, tiers: map<string, string>, edges: seq<ModuleEdge>,
                  owners: Option<map<string, seq<string>>>)
    ensures var kept := Names(others + Crates(names, tiers));
            Counted(edges, KeptNames(others, names), owners) ==
            match owners { case None => edges case Some(byName) => Folded(edges, kept, byName) }
  {
    var crates := Crates(names, tiers);
    forall name ensures name in Names(others + crates) <==> name in KeptNames(others, names) {
      if name in SetOf(names) {
        var i :| 0 <= i < |names| && names[i] == name;
        assert (others + crates)[|others| + i] == crates[i];
      }
    }
    assert Names(others + crates) == KeptNames(others, names);
  }

  lemma RenamedIs(others: seq<ModuleDef>, names: seq<string>, tiers: map<string, string>)
    ensures Renamed(others, names, tiers) == Disambiguated(others + Crates(names, tiers))
  {
  }

  /** The crates come last, under their new names. */
  ghost predicate CratesKeepPaths(others: seq<ModuleDef>, names: seq<string>, mods: seq<ModuleDef>)
    requires |mods| == |others| + |names|
  {
    forall k :: 0 <= k < |names| ==>
      mods[|others| + k].name == NewName(others, names, k) && mods[|others| + k].paths == [names[k]]
  }

  lemma CratesDiffer(members: set<string>, names: seq<string>)
    requires IsCrates(members, names)
    ensures NoDup(names)
  {
  }

  lemma {:induction false} UniqueModules(others: seq<ModuleDef>, names: seq<string>, tiers: map<string, string>,
                                         mods: seq<ModuleDef>)
    requires var found := Renamed(others, names, tiers);
             && |mods| == |found|
             && forall i :: 0 <= i < |mods| ==> mods[i].name == found[i].name && mods[i].paths == found[i].paths
    ensures |mods| == |others| + |names| && DistinctNames(mods)
    ensures forall i :: 0 <= i < |others| ==> mods[i].paths == others[i].paths
    ensures CratesKeepPaths(others, names, mods)
  {
    hide Disambiguated, NewName;
    var all := others + Crates(names, tiers);
    RenamedIs(others, names, tiers);
    NamesEndUpUnique(all);
    forall i | 0 <= i < |all| ensures mods[i].paths == all[i].paths { OnlyNamesChange(all, i); }
    forall k | 0 <= k < |names| ensures mods[|others| + k].name == NewName(others, names, k) {
      NewNameOf(others, names, tiers, k);
    }
  }

  // ---- A Go import between names that crates have too ----

  predicate Plain(s: string) {
    forall i :: 0 <= i < |s| ==> s[i] != '/' && s[i] != '.'
  }

  function Glob(name: string): string {
    "internal/" + name + "/**"
  }

  lemma PlainSlug(s: string)
    requires Plain(s)
    ensures PathSlug([s]) == s
  {
    if |s| >= 3 { assert s[|s| - 3] != '/'; }
  }

  /** The slug of a package directory glob. */
  lemma GlobSlug(name: string)
    requires Plain(name)
    ensures PathSlug([Glob(name)]) == "internal_" + name
  {
    var dir := "internal/" + name;
    assert Glob(name)[|dir|..] == "/**" && Glob(name)[..|dir|] == dir;
    assert Underscored(dir) == "internal_" + name;
  }

  function GoModules(a: string, c: string): seq<ModuleDef> {
    [ModuleDef(a, [Glob(a)], ""), ModuleDef(c, [Glob(c)], "")]
  }

  /** No name among these comes twice. */
  ghost predicate Apart(a: string, c: string, x: string) {
    && Plain(a) && Plain(c) && a != c && x != a && x != c
    && var p, q := "internal_" + a, "internal_" + c; a != q && c != p && x != p && x != q
  }

  /** Go modules a and c in directories of these names, a importing c, and crates a, c and x, c importing x:
      every crate keeps its name and no cycle is counted, but the Go import now goes from crate a up to
      crate c. */
  lemma {:induction false} GoImportInverts(a: string, c: string, x: string)
    returns (edges: seq<ModuleEdge>, tiers: map<string, string>, layers: seq<string>)
    requires Apart(a, c, x)
    ensures edges == [ModuleEdge(c, x)]
    ensures var names := [a, c, x];
            && OwnNamesOrOne(GoModules(a, c), names)
            && Inverts(GoModules(a, c), [ModuleEdge(a, c)], names, edges, tiers, layers)
  {
    hide NewName, Inverts, Workspace;
    var others, otherEdges, names := GoModules(a, c), [ModuleEdge(a, c)], [a, c, x];
    GoKeepsCrateNames(a, c, x);
    TwoEdgesAcyclic(otherEdges + [Import(names, 1, 2)], a, c, c, x);
    edges, tiers, layers := OtherInverts(others, otherEdges, names, 0, 1, 2);
  }

  lemma GoKeepsCrateNames(a: string, c: string, x: string)
    requires Apart(a, c, x)
    ensures var others, names := GoModules(a, c), [a, c, x];
            NoDup(names) && forall k: nat :: k < 3 ==> NewName(others, names, k) == names[k]
  {
    hide PathSlug, FirstPass, SecondPass, Glob;
    var others, names := GoModules(a, c), [a, c, x];
    var crates := Crates(names, map[]);
    var all := others + crates;
    assert |all| == 5 && all[0] == others[0] && all[1] == others[1];
    assert all[2] == crates[0] && all[3] == crates[1] && all[4] == crates[2];
    FirstNamesOfFive(all, a, c, x);
    SecondPassOfDistinct(FirstPass(all));
  }

  lemma FirstNamesOfFive(all: seq<ModuleDef>, a: string, c: string, x: string)
    requires Apart(a, c, x) && |all| == 5
    requires all[0].name == a && all[1].name == c && all[2].name == a && all[3].name == c && all[4].name == x
    requires all[0].paths == [Glob(a)] && all[1].paths == [Glob(c)] && all[2].paths == [a] && all[3].paths == [c]
    ensures var f := FirstPass(all);
            && f[0].name == "internal_" + a && f[1].name == "internal_" + c
            && f[2].name == a && f[3].name == c && f[4].name == x && DistinctNames(f)
  {
    hide PathSlug;
    GlobSlug(a);
    GlobSlug(c);
    PlainSlug(a);
    PlainSlug(c);
    CountTwo(all, 0, 2);
    CountTwo(all, 1, 3);
    CountLast(all);
    assert ("internal_" + a)[9..] == a && ("internal_" + c)[9..] == c;
  }

  lemma CountLast(all: seq<ModuleDef>)
    requires |all| > 0 && forall i :: 0 <= i < |all| - 1 ==> all[i].name != all[|all| - 1].name
    ensures CountOf(all, all[|all| - 1].name) == 1
  {
    NoCount(all[..|all| - 1], all[|all| - 1].name);
  }

  // ---- A crate that bears the name of another ----

  /** A module a of another language and the crates a, a_2 and w: when the slug of the module's first path
      is a (a Python package has the paths a and a.*), crate a takes the name of crate a_2 and w keeps its own. */
  lemma {:induction false} CrateTakesName(a: string, paths: seq<string>, w: string)
    requires PathSlug([a]) == a && PathSlug(paths) == a
    requires w != a && w != Candidate(a, 2) && w != Candidate(Candidate(a, 2), 2)
    ensures var others, names := [ModuleDef(a, paths, "")], [a, Candidate(a, 2), w];
            && NoDup(names) && BearsTwo(others, names, 2, 1, 2, 0)
            && !StaysClean(others, [], names)
  {
    hide PathSlug, Candidate, NewName, StaysClean;
    var b := Candidate(a, 2);
    CandidateIsLonger(a, 2);
    CandidateIsLonger(b, 2);
    NewNamesOfThree([ModuleDef(a, paths, "")], [a, b, w], a, b, w);
    CratesAloneStayClean([ModuleDef(a, paths, "")], [a, b, w]);
  }

  lemma CandidateIsLonger(name: string, n: nat)
    ensures |Candidate(name, n)| > |name|
  {
  }

  lemma NewNamesOfThree(others: seq<ModuleDef>, names: seq<string>, a: string, b: string, w: string)
    requires |others| == 1 && others[0].name == a && PathSlug(others[0].paths) == a
    requires names == [a, b, w] && PathSlug([a]) == a
    requires b == Candidate(a, 2) && |a| < |b| < |Candidate(b, 2)| && w !in {a, b, Candidate(b, 2)}
    ensures NewName(others, names, 0) == b && NewName(others, names, 2) == w
  {
    hide PathSlug, Candidate, SecondPass;
    var crates := Crates(names, map[]);
    var all := others + crates;
    assert all[0] == others[0] && all[1] == crates[0] && all[2] == crates[1] && all[3] == crates[2];
    FirstNamesOfFour(all, a, b, w);
    NamesOfFour(FirstPass(all), a, b, w);
  }

  lemma FirstNamesOfFour(all: seq<ModuleDef>, a: string, b: string, w: string)
    requires |all| == 4 && all[0].name == a && all[1].name == a && all[2].name == b && all[3].name == w
    requires PathSlug(all[0].paths) == a && PathSlug(all[1].paths) == a
    requires a != b && w != a && w != b
    ensures var f := FirstPass(all); f[0].name == a && f[1].name == a && f[2].name == b && f[3].name == w
  {
    hide PathSlug;
    CountTwo(all, 0, 1);
    CountLast(all);
    CountLast(all[..3]);
    assert CountOf(all, b) == CountOf(all[..3], b) + 0;
  }

  lemma NamesOfFour(first: seq<ModuleDef>, a: string, b: string, w: string)
    requires |first| == 4 && first[0].name == a && first[1].name == a && first[2].name == b && first[3].name == w
    requires b == Candidate(a, 2) && |a| < |b| < |Candidate(b, 2)| && w !in {a, b, Candidate(b, 2)}
    ensures var out := SecondPass(first); out[1].name == b && out[3].name == w
  {
    hide SecondPass, Names, Suffixed, Candidate;
    assert SecondPass(first)[..0] == [];
    NothingSeen();
    NextName(first, 0, {});
    FreshName(first[0], {});
    NextName(first, 1, {a});
    SecondName(first[1], {a});
    NextName(first, 2, {a, b});
    SecondName(first[2], {a, b});
    NextName(first, 3, {a, b, Candidate(b, 2)});
    FreshName(first[3], {a, b, Candidate(b, 2)});
  }

  lemma {:induction false} NextName(first: seq<ModuleDef>, i: nat, seen: set<string>)
    requires i < |first| && Names(SecondPass(first)[..i]) == seen
    ensures var out := SecondPass(first);
            out[i] == Suffixed(first[i], seen) && Names(out[..i + 1]) == seen + {out[i].name}
  {
    hide SecondPass, Suffixed, Names;
    var out := SecondPass(first);
    SecondPassAt(first, i);
    NamesStep(out[..i], out[i]);
    assert out[..i + 1] == out[..i] + [out[i]];
  }

  lemma FreshName(m: ModuleDef, seen: set<string>)
    requires m.name !in seen
    ensures Suffixed(m, seen) == m
  {
  }

  lemma SecondName(m: ModuleDef, seen: set<string>)
    requires m.name in seen && Candidate(m.name, 2) !in seen
    ensures Suffixed(m, seen).name == Candidate(m.name, 2)
  {
    FreeSuffixIsFree(m.name, seen);
    FreeSuffixUnique(m.name, seen, 2, FreeSuffix(m.name, seen));
  }
}
