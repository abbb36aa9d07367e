/**
  Unique module names (internal/initcfg/helpers.go, disambiguateNames): colliding
  names become path slugs, and what still collides gets a numeric suffix.
*/
module Disambiguation {
  import opened Orders
  import opened StarterRules
  import Tiers

  // ---- Slugs and suffixes ----

  function TrimGlob(path: string): string {
    if |path| >= 3 && path[|path| - 3..] == "/**" then path[..|path| - 3] else path
  }

  function Underscored(s: string): string {
    seq(|s|, i requires 0 <= i < |s| => if s[i] == '/' || s[i] == '.' then '_' else s[i])
  }

  function PathSlug(paths: seq<string>): string {
    if |paths| == 0 then "unknown" else Underscored(TrimGlob(paths[0]))
  }

  function Candidate(name: string, n: nat): string {
    name + "_" + Tiers.Digits(n)
  }

  lemma CandidatesDiffer(name: string, m: nat, n: nat)
    requires Candidate(name, m) == Candidate(name, n)
    ensures m == n
  {
    var skip := |name| + 1;
    assert Candidate(name, m)[skip..] == Tiers.Digits(m) && Candidate(name, n)[skip..] == Tiers.Digits(n);
    Tiers.DigitsInjective(m, n);
  }

  ghost predicate IsFreeSuffix(name: string, seen: set<string>, n: nat) {
    n >= 2 && Candidate(name, n) !in seen && forall j: nat :: 2 <= j < n ==> Candidate(name, j) in seen
  }

  /** The least free suffix from n on; the untried seen names bound the search. */
  function FreeFrom(name: string, untried: set<string>, n: nat): (r: nat)
    ensures r >= n
    decreases |untried|
  {
    if Candidate(name, n) in untried then FreeFrom(name, untried - {Candidate(name, n)}, n + 1) else n
  }

  function FreeSuffix(name: string, seen: set<string>): nat {
    FreeFrom(name, seen, 2)
  }

  ghost predicate TriedBefore(name: string, seen: set<string>, untried: set<string>, n: nat) {
    && n >= 2 && untried <= seen
    && (forall j: nat :: 2 <= j < n ==> Candidate(name, j) in seen)
    && (forall j: nat :: j >= n && Candidate(name, j) in seen ==> Candidate(name, j) in untried)
  }

  lemma {:induction false} FreeFromIsFree(name: string, seen: set<string>, untried: set<string>, n: nat)
    requires TriedBefore(name, seen, untried, n)
    ensures IsFreeSuffix(name, seen, FreeFrom(name, untried, n))
    decreases |untried|
  {
    if Candidate(name, n) in untried {
      forall j: nat | j >= n + 1 && Candidate(name, j) in seen
        ensures Candidate(name, j) in untried - {Candidate(name, n)}
      {
        if Candidate(name, j) == Candidate(name, n) { CandidatesDiffer(name, j, n); }
      }
      FreeFromIsFree(name, seen, untried - {Candidate(name, n)}, n + 1);
    }
  }

  lemma FreeSuffixIsFree(name: string, seen: set<string>)
    ensures IsFreeSuffix(name, seen, FreeSuffix(name, seen))
  {
    FreeFromIsFree(name, seen, seen, 2);
  }

  lemma FreeSuffixUnique(name: string, seen: set<string>, m: nat, n: nat)
    requires IsFreeSuffix(name, seen, m) && IsFreeSuffix(name, seen, n)
    ensures m == n
  {
  }

  // ---- Specification ----

  function Names(mods: seq<ModuleDef>): set<string> {
    set m | m in mods :: m.name
  }

  function CountOf(mods: seq<ModuleDef>, name: string): nat {
    if |mods| == 0 then 0
    else CountOf(mods[..|mods| - 1], name) + if mods[|mods| - 1].name == name then 1 else 0
  }

  /** The first pass on one module. */
  function Slugged(all: seq<ModuleDef>, m: ModuleDef): ModuleDef {
    if CountOf(all, m.name) > 1 then m.(name := PathSlug(m.paths)) else m
  }

  function FirstPass(mods: seq<ModuleDef>): (r: seq<ModuleDef>)
    ensures |r| == |mods| && forall i :: 0 <= i < |mods| ==> r[i] == Slugged(mods, mods[i])
  {
    seq(|mods|, i requires 0 <= i < |mods| => Slugged(mods, mods[i]))
  }

  /** The second pass on one module, after names seen before it. */
  function Suffixed(m: ModuleDef, seen: set<string>): ModuleDef {
    if m.name in seen then m.(name := Candidate(m.name, FreeSuffix(m.name, seen))) else m
  }

  function SecondPass(mods: seq<ModuleDef>): (r: seq<ModuleDef>)
    ensures |r| == |mods|
  {
    if |mods| == 0 then []
    else
      var before := SecondPass(mods[..|mods| - 1]);
      before + [Suffixed(mods[|mods| - 1], Names(before))]
  }

  function Disambiguated(mods: seq<ModuleDef>): (r: seq<ModuleDef>)
    ensures |r| == |mods|
  {
    SecondPass(FirstPass(mods))
  }

  // ---- The method ----

  function Get(count: map<string, nat>, name: string): nat {
    if name in count then count[name] else 0
  }

  method DisambiguateNames(mods: array<ModuleDef>)
    modifies mods
    ensures mods[..] == Disambiguated(old(mods[..]))
  {
    if mods.Length == 0 {
      return;
    }
    var count := CountNames(mods);
    SlugCollisions(mods, count);
    ResolveCollisions(mods);
  }

  method CountNames(mods: array<ModuleDef>) returns (count: map<string, nat>)
    ensures forall name :: Get(count, name) == CountOf(mods[..], name)
  {
    count := map[];
    for i := 0 to mods.Length
      invariant forall name :: Get(count, name) == CountOf(mods[..i], name)
    {
      assert mods[..i + 1][..i] == mods[..i];
      count := count[mods[i].name := Get(count, mods[i].name) + 1];
    }
    assert mods[..mods.Length] == mods[..];
  }

  /** The first pass. */
  method SlugCollisions(mods: array<ModuleDef>, count: map<string, nat>)
    requires forall name :: Get(count, name) == CountOf(mods[..], name)
    modifies mods
    ensures mods[..] == FirstPass(old(mods[..]))
  {
    ghost var before := mods[..];
    for i := 0 to mods.Length
      invariant forall j :: 0 <= j < i ==> mods[j] == Slugged(before, before[j])
      invariant forall j :: i <= j < mods.Length ==> mods[j] == before[j]
    {
      if Get(count, mods[i].name) > 1 {
        mods[i] := mods[i].(name := PathSlug(mods[i].paths));
      }
    }
    assert mods[..] == FirstPass(before);
  }

  lemma SecondPassStep(mods: seq<ModuleDef>, i: nat)
    requires i < |mods|
    ensures SecondPass(mods[..i + 1]) == SecondPass(mods[..i]) + [Suffixed(mods[i], Names(SecondPass(mods[..i])))]
  {
    assert mods[..i + 1][..i] == mods[..i];
  }

  lemma NothingSeen()
    ensures SecondPass([]) == [] && Names([]) == {}
  {
  }

  lemma NamesStep(mods: seq<ModuleDef>, m: ModuleDef)
    ensures Names(mods + [m]) == Names(mods) + {m.name}
  {
  }

  /** The second pass. */
  method ResolveCollisions(mods: array<ModuleDef>)
    modifies mods
    ensures mods[..] == SecondPass(old(mods[..]))
  {
    hide SecondPass, Names, FreeSuffix, IsFreeSuffix;
    ghost var before := mods[..];
    var seen: set<string> := {};
    NothingSeen();
    for i := 0 to mods.Length
      invariant mods[..i] == SecondPass(before[..i])
      invariant mods[i..] == before[i..]
      invariant seen == Names(mods[..i])
    {
      SecondPassStep(before, i);
      assert mods[i] == mods[i..][0] == before[i];
      ghost var done := mods[..i];
      var name := mods[i].name;
      if name in seen {
        var n := FindSuffix(name, seen);
        mods[i] := mods[i].(name := Candidate(name, n));
      }
      assert mods[..i + 1] == done + [mods[i]];
      NamesStep(done, mods[i]);
      assert mods[i + 1..] == before[i..][1..];
      seen := seen + {mods[i].name};
    }
    assert before[..mods.Length] == before && mods[..mods.Length] == mods[..];
  }

  /** The search for a free suffix has no bound in the source; the seen names bound it. */
  method FindSuffix(name: string, seen: set<string>) returns (n: nat)
    ensures n == FreeSuffix(name, seen) && IsFreeSuffix(name, seen, n)
  {
    n := 2;
    ghost var untried := seen;
    while Candidate(name, n) in seen
      invariant TriedBefore(name, seen, untried, n)
      decreases |untried|
    {
      forall j: nat | j >= n + 1 && Candidate(name, j) in seen
        ensures Candidate(name, j) in untried - {Candidate(name, n)}
      {
        if Candidate(name, j) == Candidate(name, n) { CandidatesDiffer(name, j, n); }
      }
      untried := untried - {Candidate(name, n)};
      n := n + 1;
    }
    FreeSuffixIsFree(name, seen);
    FreeSuffixUnique(name, seen, n, FreeSuffix(name, seen));
  }

  // ---- Every name is unique ----

  ghost predicate DistinctNames(mods: seq<ModuleDef>) {
    forall i, j :: 0 <= i < j < |mods| ==> mods[i].name != mods[j].name
  }

  lemma {:induction false} SecondPassDistinct(mods: seq<ModuleDef>)
    ensures DistinctNames(SecondPass(mods))
  {
    if |mods| != 0 {
      var last := |mods| - 1;
      var before := SecondPass(mods[..last]);
      SecondPassDistinct(mods[..last]);
      FreeSuffixIsFree(mods[last].name, Names(before));
      forall i | 0 <= i < |before| ensures before[i].name in Names(before) { assert before[i] in before; }
    }
  }

  /** Whatever the modules, their paths and slugs, no two end up with one name. */
  lemma NamesEndUpUnique(mods: seq<ModuleDef>)
    ensures DistinctNames(Disambiguated(mods))
  {
    SecondPassDistinct(FirstPass(mods));
  }

  lemma {:induction false} SecondPassAt(mods: seq<ModuleDef>, i: nat)
    requires i < |mods|
    ensures SecondPass(mods)[i] == Suffixed(mods[i], Names(SecondPass(mods)[..i]))
  {
    var last := |mods| - 1;
    var before := SecondPass(mods[..last]);
    if i < last {
      SecondPassAt(mods[..last], i);
      assert SecondPass(mods)[..i] == before[..i];
    } else {
      assert SecondPass(mods)[..i] == before;
    }
  }

  lemma SuffixedStays(m: ModuleDef, seen: set<string>)
    ensures Suffixed(m, seen).paths == m.paths && Suffixed(m, seen).layer == m.layer
    ensures Suffixed(m, seen) == m <==> m.name !in seen
  {
    if m.name in seen { assert |Candidate(m.name, FreeSuffix(m.name, seen))| > |m.name|; }
  }

  /** Only names change. */
  lemma OnlyNamesChange(mods: seq<ModuleDef>, i: nat)
    requires i < |mods|
    ensures Disambiguated(mods)[i].paths == mods[i].paths && Disambiguated(mods)[i].layer == mods[i].layer
  {
    SecondPassAt(FirstPass(mods), i);
  }

  // ---- Which name each module gets ----

  /** A path without its glob ending, slashes and dots replaced. */
  lemma SlugExactly(path: string, more: seq<string>)
    ensures PathSlug([]) == "unknown"
    ensures var slug := PathSlug([path] + more);
            var kept := if |path| >= 3 && path[|path| - 3..] == "/**" then |path| - 3 else |path|;
            |slug| == kept && forall i :: 0 <= i < kept ==> slug[i] == if path[i] in "/." then '_' else path[i]
  {
  }

  /** Every module, in turn, gets its own name or, when others share it, the slug of its path; and where an
      earlier module ended up with that, the next number that makes it differ. */
  lemma NamedInTurn(mods: seq<ModuleDef>, i: nat)
    requires i < |mods|
    ensures var out := Disambiguated(mods);
            var earlier := Names(out[..i]);
            var wanted := if CountOf(mods, mods[i].name) == 1 then mods[i].name else PathSlug(mods[i].paths);
            && (wanted !in earlier ==> out[i].name == wanted)
            && (wanted in earlier ==>
                  exists n :: IsFreeSuffix(wanted, earlier, n) && out[i].name == wanted + "_" + Tiers.Digits(n))
  {
    hide PathSlug, IsFreeSuffix, FreeSuffix, Names, SecondPass;
    var first := FirstPass(mods);
    SecondPassAt(first, i);
    CountOne(mods, i);
    FreeSuffixIsFree(first[i].name, Names(SecondPass(first)[..i]));
  }

  // ---- Which unique names are kept, told from the modules given ----

  /** The names after the first pass: a colliding one is the slug of its path. */
  function FirstNames(mods: seq<ModuleDef>): (r: seq<string>)
    ensures |r| == |mods| && forall i :: 0 <= i < |mods| ==> r[i] == FirstPass(mods)[i].name
  {
    seq(|mods|, i requires 0 <= i < |mods| => Slugged(mods, mods[i]).name)
  }

  /** One of the first i names is name, or base comes up there although it was claimed, as were all
      smaller suffixes of it, and name is base with the next one. */
  ghost predicate Claimed(first: seq<string>, i: nat, name: string)
    requires i <= |first|
    decreases i, 1
  {
    || (exists j :: 0 <= j < i && first[j] == name)
    || (exists base: string, k: nat :: k >= 2 && name == Candidate(base, k) && ClaimedAsSuffix(first, i, base, k))
  }

  ghost predicate ClaimedAsSuffix(first: seq<string>, i: nat, base: string, k: nat)
    requires i <= |first|
    decreases i, 0
  {
    exists j :: 0 <= j < i && first[j] == base && ReachesSuffix(first, j, base, k)
  }

  ghost predicate ReachesSuffix(first: seq<string>, j: nat, base: string, k: nat)
    requires j <= |first|
    decreases j, 2
  {
    Claimed(first, j, base) && forall l: nat :: 2 <= l < k ==> Claimed(first, j, Candidate(base, l))
  }

  lemma ClaimedStays(first: seq<string>, i: nat, name: string)
    requires i < |first| && Claimed(first, i, name)
    ensures Claimed(first, i + 1, name)
  {
    if base: string, k: nat :| k >= 2 && name == Candidate(base, k) && ClaimedAsSuffix(first, i, base, k) {
      assert ClaimedAsSuffix(first, i + 1, base, k);
    }
  }

  /** The names in use after i modules. */
  function SeenAfter(mods: seq<ModuleDef>, i: nat): set<string>
    requires i <= |mods|
  {
    Names(SecondPass(mods[..i]))
  }

  lemma SeenStep(mods: seq<ModuleDef>, i: nat)
    requires i < |mods|
    ensures SeenAfter(mods, i + 1) == SeenAfter(mods, i) + {Suffixed(mods[i], SeenAfter(mods, i)).name}
  {
    SecondPassStep(mods, i);
    NamesStep(SecondPass(mods[..i]), Suffixed(mods[i], SeenAfter(mods, i)));
  }

  lemma NothingClaimed(first: seq<string>, name: string)
    ensures !Claimed(first, 0, name)
  {
  }

  /** The names in use are the claimed ones. */
  lemma {:induction false} SeenIsClaimed(mods: seq<ModuleDef>, first: seq<string>, i: nat)
    requires i <= |mods| == |first| && forall j :: 0 <= j < |mods| ==> first[j] == mods[j].name
    ensures forall name :: name in SeenAfter(mods, i) <==> Claimed(first, i, name)
  {
    hide SecondPass, Names, Claimed;
    if i == 0 {
      NothingSeen();
      assert mods[..0] == [];
      forall name ensures !Claimed(first, 0, name) { NothingClaimed(first, name); }
    } else {
      SeenIsClaimed(mods, first, i - 1);
      SeenStep(mods, i - 1);
      forall name
        ensures name in SeenAfter(mods, i) <==> Claimed(first, i, name)
      {
        ClaimedStep(mods, first, i - 1, name);
      }
    }
  }

  lemma ClaimedStep(mods: seq<ModuleDef>, first: seq<string>, i: nat, name: string)
    requires i < |mods| == |first| && first[i] == mods[i].name
    requires forall other :: other in SeenAfter(mods, i) <==> Claimed(first, i, other)
    ensures Claimed(first, i + 1, name)
            <==> Claimed(first, i, name) || name == Suffixed(mods[i], SeenAfter(mods, i)).name
  {
    var seen := SeenAfter(mods, i);
    var base := first[i];
    FreeSuffixIsFree(base, seen);
    if Claimed(first, i, name) { ClaimedStays(first, i, name); }
    if name == Suffixed(mods[i], seen).name && base in seen {
      assert ReachesSuffix(first, i, base, FreeSuffix(base, seen));
      assert ClaimedAsSuffix(first, i + 1, base, FreeSuffix(base, seen));
    }
    if Claimed(first, i + 1, name) && !Claimed(first, i, name) && name != base {
      var b: string, k: nat :| k >= 2 && name == Candidate(b, k) && ClaimedAsSuffix(first, i + 1, b, k);
      var j :| 0 <= j < i + 1 && first[j] == b && ReachesSuffix(first, j, b, k);
      if j < i { assert ClaimedAsSuffix(first, i, b, k); }
      assert j == i && Candidate(b, k) !in seen;
    }
  }

  /** A name that was unique is kept exactly when the modules before it do not claim it: by the slug
      of a path, or by a suffix that every smaller one was claimed before. */
  lemma {:induction false} UniqueNameKeptUnlessClaimed(mods: seq<ModuleDef>, i: nat)
    requires i < |mods| && CountOf(mods, mods[i].name) == 1
    ensures Disambiguated(mods)[i] == mods[i] <==> !Claimed(FirstNames(mods), i, mods[i].name)
  {
    var first := FirstPass(mods);
    SecondPassAt(first, i);
    SecondPassPrefix(first, i);
    SeenIsClaimed(first, FirstNames(mods), i);
    SuffixedStays(mods[i], SeenAfter(first, i));
  }

  lemma {:induction false} SecondPassPrefix(mods: seq<ModuleDef>, i: nat)
    requires i <= |mods|
    ensures SecondPass(mods)[..i] == SecondPass(mods[..i])
  {
    if i < |mods| {
      var last := |mods| - 1;
      SecondPassPrefix(mods[..last], i);
      assert mods[..last][..i] == mods[..i];
      assert SecondPass(mods)[..i] == SecondPass(mods[..last])[..i];
    } else {
      assert mods[..i] == mods && SecondPass(mods)[..i] == SecondPass(mods);
    }
  }

  /** A module before i that shares its name with another has name as its slug. */
  predicate SlugBefore(mods: seq<ModuleDef>, i: nat, name: string)
    requires i <= |mods|
  {
    exists j :: 0 <= j < i && CountOf(mods, mods[j].name) > 1 && PathSlug(mods[j].paths) == name
  }

  /** name is base with a suffix, and base comes up before i. */
  ghost predicate SuffixBefore(first: seq<string>, i: nat, name: string)
    requires i <= |first|
  {
    exists j, k: nat :: 0 <= j < i && k >= 2 && name == Candidate(first[j], k)
  }

  /** Told from paths and counts alone: a unique name is renamed when an earlier slug is that name,
      and otherwise only if it reads as an earlier name with a suffix. For a name of any other
      shape the slugs decide. */
  lemma {:induction false} UniqueNameKeptUnlessSlug(mods: seq<ModuleDef>, i: nat)
    requires i < |mods| && CountOf(mods, mods[i].name) == 1
    ensures SlugBefore(mods, i, mods[i].name) ==> Disambiguated(mods)[i] != mods[i]
    ensures !SuffixBefore(FirstNames(mods), i, mods[i].name) ==>
              (Disambiguated(mods)[i] == mods[i] <==> !SlugBefore(mods, i, mods[i].name))
  {
    var name, first := mods[i].name, FirstNames(mods);
    UniqueNameKeptUnlessClaimed(mods, i);
    forall j | 0 <= j < i
      ensures first[j] == name <==> CountOf(mods, mods[j].name) > 1 && PathSlug(mods[j].paths) == name
    {
      if mods[j].name == name { CountTwo(mods, j, i); }
    }
    if base: string, k: nat :| k >= 2 && name == Candidate(base, k) && ClaimedAsSuffix(first, i, base, k) {
      assert SuffixBefore(first, i, name);
    }
  }

  lemma {:induction false} CountTwo(mods: seq<ModuleDef>, j: nat, i: nat)
    requires j < i < |mods| && mods[j].name == mods[i].name
    ensures CountOf(mods, mods[i].name) >= 2
  {
    var last := |mods| - 1;
    if i < last {
      CountTwo(mods[..last], j, i);
    } else {
      CountOne(mods[..last], j);
    }
  }

  lemma {:induction false} CountOne(mods: seq<ModuleDef>, j: nat)
    requires j < |mods|
    ensures CountOf(mods, mods[j].name) >= 1
  {
    if j < |mods| - 1 { CountOne(mods[..|mods| - 1], j); }
  }

  lemma {:induction false} DistinctCounts(mods: seq<ModuleDef>, i: nat)
    requires DistinctNames(mods) && i < |mods|
    ensures CountOf(mods, mods[i].name) == 1
  {
    var last := |mods| - 1;
    if i < last {
      DistinctCounts(mods[..last], i);
      assert mods[..last][i] == mods[i];
    } else {
      NoCount(mods[..last], mods[last].name);
    }
  }

  lemma {:induction false} NoCount(mods: seq<ModuleDef>, name: string)
    requires forall j :: 0 <= j < |mods| ==> mods[j].name != name
    ensures CountOf(mods, name) == 0
  {
    if |mods| != 0 { NoCount(mods[..|mods| - 1], name); }
  }

  lemma {:induction false} SecondPassOfDistinct(mods: seq<ModuleDef>)
    requires DistinctNames(mods)
    ensures SecondPass(mods) == mods
  {
    if |mods| != 0 {
      var last := |mods| - 1;
      SecondPassOfDistinct(mods[..last]);
      assert mods[last].name !in Names(mods[..last]);
      assert mods == mods[..last] + [mods[last]];
    }
  }

  /** Modules whose names are all unique, crates of one workspace say, are left as they are. */
  lemma DistinctNamesStay(mods: seq<ModuleDef>)
    requires DistinctNames(mods)
    ensures Disambiguated(mods) == mods
  {
    forall i | 0 <= i < |mods| ensures Slugged(mods, mods[i]) == mods[i] { DistinctCounts(mods, i); }
    assert FirstPass(mods) == mods;
    SecondPassOfDistinct(mods);
  }

  /** The documentation says that a unique name is never changed. It is when the path slug of an earlier
      colliding module is that name: two modules named a, one of them at path p, and after them one
      named as the slug of p. */
  lemma SlugTakesUniqueName(a: string, p: string, other: string, q: string, layer: string)
    requires a != PathSlug([p])
    ensures var mods := [ModuleDef(a, [p], layer), ModuleDef(a, [other], layer), ModuleDef(PathSlug([p]), [q], layer)];
            CountOf(mods, mods[2].name) == 1 && Disambiguated(mods)[2].name != PathSlug([p])
  {
    var x := PathSlug([p]);
    var mods := [ModuleDef(a, [p], layer), ModuleDef(a, [other], layer), ModuleDef(x, [q], layer)];
    CountOfThree(mods[0], mods[1], mods[2], a);
    CountOfThree(mods[0], mods[1], mods[2], x);
    assert mods[0].paths == [p] && SlugBefore(mods, 2, x);
    UniqueNameKeptUnlessSlug(mods, 2);
    OnlyNamesChange(mods, 2);
  }

  lemma CountOfThree(p: ModuleDef, q: ModuleDef, r: ModuleDef, name: string)
    ensures CountOf([p, q, r], name)
            == (if p.name == name then 1 else 0) + (if q.name == name then 1 else 0) + (if r.name == name then 1 else 0)
  {
    assert [p, q, r][..2] == [p, q] && [p, q][..1] == [p] && [p][..0] == [];
    assert CountOf([p], name) == if p.name == name then 1 else 0;
    assert CountOf([p, q], name) == CountOf([p], name) + if q.name == name then 1 else 0;
  }
}
