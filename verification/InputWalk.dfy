/**
  The input walk (internal/factcache/inputs.go): list the files an analyzer reads,
  through directory symlinks, or give up with a sentinel. The file tree is a
  finite graph of physical directories; glob matching is a parameter.
*/
module InputWalk {
  import opened Options
  import opened Orders
  import Tiers

  const MAX_DEPTH: nat := 64
  const SENTINEL := "."
  const SKIP_DIRS: set<string> := {".archfit-cache", ".git"}

  datatype Target = RegularFile | OtherFile | Directory(physical: string)

  /** A directory entry: a thing, a link to one, or one that cannot be read. */
  datatype Kind =
    | Plain(target: Target)
    | LinkTo(target: Target)
    | Dangling
    | Unreadable

  datatype DirEntry = DirEntry(name: string, kind: Kind)

  /** The entries a directory hands out, and whether reading it then ends well. */
  datatype Dir = Dir(opens: bool, entries: seq<DirEntry>, complete: bool)

  type Tree = map<string, Dir>

  /** What the caller selects: files it matches, files it excludes, subtrees it prunes. */
  datatype Selection = Selection(matches: string -> bool, dropped: string -> bool, pruned: string -> bool)

  /** filepath.Join and ToSlash on the logical path. */
  function Join(rel: string, name: string): string {
    if rel == "" then name else rel + "/" + name
  }

  // ---- The inputs of a tree ----

  /** The names lead from dir, whose logical path is rel, to the selected file p. */
  ghost predicate Leads(tree: Tree, selected: Selection, dir: string, rel: string, names: seq<string>, p: string)
    decreases |names|, 1
  {
    && |names| >= 1 && dir in tree
    && exists e ::
         e in tree[dir].entries && e.name == names[0] && EntryLeads(tree, selected, e, Join(rel, e.name), names[1..], p)
  }

  ghost predicate EntryLeads(tree: Tree, selected: Selection, e: DirEntry, rel: string, rest: seq<string>, p: string)
    decreases |rest|, 2
  {
    && (e.kind.Plain? || e.kind.LinkTo?)
    && match e.kind.target
       case RegularFile => rest == [] && p == rel && !selected.dropped(rel) && selected.matches(rel)
       case OtherFile => false
       case Directory(d) => Entered(selected, e, rel) && Leads(tree, selected, d, rel, rest, p)
  }

  predicate Entered(selected: Selection, e: DirEntry, rel: string) {
    e.name !in SKIP_DIRS && !selected.pruned(rel)
  }

  /** p is the logical path of a selected file below dir, however many links it passes. */
  ghost predicate IsInput(tree: Tree, selected: Selection, dir: string, rel: string, p: string) {
    exists names :: Leads(tree, selected, dir, rel, names, p)
  }

  ghost predicate EntryInput(tree: Tree, selected: Selection, e: DirEntry, rel: string, p: string) {
    exists rest :: EntryLeads(tree, selected, e, rel, rest, p)
  }

  /** One of the first n entries holds p. */
  ghost predicate AmongFirst(tree: Tree, selected: Selection, entries: seq<DirEntry>, n: nat, rel: string, p: string)
    requires n <= |entries|
  {
    exists i :: 0 <= i < n && EntryInput(tree, selected, entries[i], Join(rel, entries[i].name), p)
  }

  lemma InputIsAmongEntries(tree: Tree, selected: Selection, dir: string, rel: string)
    requires dir in tree
    ensures forall p ::
              IsInput(tree, selected, dir, rel, p)
              <==> AmongFirst(tree, selected, tree[dir].entries, |tree[dir].entries|, rel, p)
  {
    var entries := tree[dir].entries;
    forall p ensures IsInput(tree, selected, dir, rel, p) <==> AmongFirst(tree, selected, entries, |entries|, rel, p) {
      if IsInput(tree, selected, dir, rel, p) {
        var names :| Leads(tree, selected, dir, rel, names, p);
        var e :| e in entries && e.name == names[0] && EntryLeads(tree, selected, e, Join(rel, e.name), names[1..], p);
        var i :| 0 <= i < |entries| && entries[i] == e;
        assert EntryInput(tree, selected, entries[i], Join(rel, entries[i].name), p);
      }
      if AmongFirst(tree, selected, entries, |entries|, rel, p) {
        var i :| 0 <= i < |entries| && EntryInput(tree, selected, entries[i], Join(rel, entries[i].name), p);
        var e := entries[i];
        var rest :| EntryLeads(tree, selected, e, Join(rel, e.name), rest, p);
        var names := [e.name] + rest;
        assert names[1..] == rest;
        assert Leads(tree, selected, dir, rel, names, p);
      }
    }
  }

  lemma EntryInputs(tree: Tree, selected: Selection, e: DirEntry, rel: string)
    ensures forall p :: EntryInput(tree, selected, e, rel, p) <==>
              && (e.kind.Plain? || e.kind.LinkTo?)
              && match e.kind.target
                 case RegularFile => p == rel && !selected.dropped(rel) && selected.matches(rel)
                 case OtherFile => false
                 case Directory(d) => Entered(selected, e, rel) && IsInput(tree, selected, d, rel, p)
  {
    if (e.kind.Plain? || e.kind.LinkTo?) && e.kind.target == RegularFile {
      forall p | p == rel && !selected.dropped(rel) && selected.matches(rel)
        ensures EntryInput(tree, selected, e, rel, p)
      {
        assert EntryLeads(tree, selected, e, rel, [], p);
      }
    }
    if (e.kind.Plain? || e.kind.LinkTo?) && e.kind.target.Directory? {
      forall p
        ensures EntryInput(tree, selected, e, rel, p)
                <==> Entered(selected, e, rel) && IsInput(tree, selected, e.kind.target.physical, rel, p)
      {
        if EntryInput(tree, selected, e, rel, p) {
          var rest :| EntryLeads(tree, selected, e, rel, rest, p);
          assert Leads(tree, selected, e.kind.target.physical, rel, rest, p);
        }
        if Entered(selected, e, rel) && IsInput(tree, selected, e.kind.target.physical, rel, p) {
          var names :| Leads(tree, selected, e.kind.target.physical, rel, names, p);
          assert EntryLeads(tree, selected, e, rel, names, p);
        }
      }
    }
  }

  // ---- The walk without a cap ----

  /** How many entries a walk without a cap counts before it ends or gives up, which it does, and
      the files it lists on the way. */
  datatype Survey = Survey(count: nat, complete: bool, found: seq<string>)

  /** above holds the directories being walked, outermost first. */
  ghost function SurveyDir(tree: Tree, selected: Selection, dir: string, rel: string, above: seq<string>): Survey
    decreases MAX_DEPTH + 1 - |above|, 1, 0
  {
    if |above| > MAX_DEPTH || dir in above || dir !in tree || !tree[dir].opens then Survey(0, false, [])
    else
      var s := SurveyFirst(tree, selected, tree[dir].entries, |tree[dir].entries|, rel, above + [dir]);
      Survey(s.count, s.complete && tree[dir].complete, s.found)
  }

  /** The first n entries of the last directory of above. */
  ghost function SurveyFirst(tree: Tree, selected: Selection, entries: seq<DirEntry>, n: nat, rel: string,
                             above: seq<string>): Survey
    requires n <= |entries| && 1 <= |above| <= MAX_DEPTH + 1
    decreases MAX_DEPTH + 1 - |above|, 3, n
  {
    if n == 0 then Survey(0, true, [])
    else
      var before := SurveyFirst(tree, selected, entries, n - 1, rel, above);
      if !before.complete then before
      else
        var e := entries[n - 1];
        var s := SurveyEntry(tree, selected, e, Join(rel, e.name), above);
        Survey(before.count + 1 + s.count, s.complete, before.found + s.found)
  }

  ghost function SurveyEntry(tree: Tree, selected: Selection, e: DirEntry, rel: string, above: seq<string>): Survey
    requires 1 <= |above| <= MAX_DEPTH + 1
    decreases MAX_DEPTH + 1 - |above|, 2, 0
  {
    match e.kind
    case Unreadable => Survey(0, false, [])
    case Dangling => Survey(0, true, [])
    case _ =>
      match e.kind.target
      case RegularFile => Survey(0, true, if !selected.dropped(rel) && selected.matches(rel) then [rel] else [])
      case OtherFile => Survey(0, true, [])
      case Directory(d) => if Entered(selected, e, rel) then SurveyDir(tree, selected, d, rel, above)
                           else Survey(0, true, [])
  }

  lemma {:induction false} SurveyGrows(tree: Tree, selected: Selection, entries: seq<DirEntry>, n: nat, m: nat,
                                       rel: string, above: seq<string>)
    requires n <= m <= |entries| && 1 <= |above| <= MAX_DEPTH + 1
    ensures var a := SurveyFirst(tree, selected, entries, n, rel, above);
            var b := SurveyFirst(tree, selected, entries, m, rel, above);
            a.count <= b.count && (b.complete ==> a.complete) && (!a.complete ==> b == a)
    decreases m - n
  {
    if n < m { SurveyGrows(tree, selected, entries, n, m - 1, rel, above); }
  }

  /** A walk that reaches its end lists exactly the selected files below the directory. */
  lemma {:induction false} SurveyFindsInputs(tree: Tree, selected: Selection, dir: string, rel: string,
                                             above: seq<string>)
    requires SurveyDir(tree, selected, dir, rel, above).complete
    ensures forall p :: p in SurveyDir(tree, selected, dir, rel, above).found <==> IsInput(tree, selected, dir, rel, p)
    decreases MAX_DEPTH + 1 - |above|, 1, 0
  {
    InputIsAmongEntries(tree, selected, dir, rel);
    FirstFindsInputs(tree, selected, tree[dir].entries, |tree[dir].entries|, rel, above + [dir]);
  }

  lemma {:induction false} FirstFindsInputs(tree: Tree, selected: Selection, entries: seq<DirEntry>, n: nat,
                                            rel: string, above: seq<string>)
    requires n <= |entries| && 1 <= |above| <= MAX_DEPTH + 1
    requires SurveyFirst(tree, selected, entries, n, rel, above).complete
    ensures forall p ::
              p in SurveyFirst(tree, selected, entries, n, rel, above).found
              <==> AmongFirst(tree, selected, entries, n, rel, p)
    decreases MAX_DEPTH + 1 - |above|, 3, n
  {
    if n != 0 {
      var e := entries[n - 1];
      FirstFindsInputs(tree, selected, entries, n - 1, rel, above);
      EntryInputs(tree, selected, e, Join(rel, e.name));
      if (e.kind.Plain? || e.kind.LinkTo?) && e.kind.target.Directory? && Entered(selected, e, Join(rel, e.name)) {
        SurveyFindsInputs(tree, selected, e.kind.target.physical, Join(rel, e.name), above);
      }
      assert forall p :: AmongFirst(tree, selected, entries, n, rel, p) <==>
          AmongFirst(tree, selected, entries, n - 1, rel, p) || EntryInput(tree, selected, e, Join(rel, e.name), p);
    }
  }

  // ---- Each file is listed once ----

  /** Names in a directory differ, are not empty and hold no separator. */
  ghost predicate ProperEntries(entries: seq<DirEntry>) {
    && (forall i, j :: 0 <= i < j < |entries| ==> entries[i].name != entries[j].name)
    && (forall i :: 0 <= i < |entries| ==> entries[i].name != "" && '/' !in entries[i].name)
  }

  ghost predicate ProperNames(tree: Tree) {
    forall d :: d in tree ==> ProperEntries(tree[d].entries)
  }

  /** p is rel itself or lies below it. */
  predicate Under(rel: string, p: string) {
    p == rel || rel + "/" <= p
  }

  lemma JoinedUnder(rel: string, name: string, p: string)
    requires rel != "" && Under(Join(rel, name), p)
    ensures Under(rel, p)
  {
    var j := rel + "/" + name;
    assert Join(rel, name) == j && j[..|rel| + 1] == rel + "/";
    assert p[..|j|] == j;
    assert p[..|rel| + 1] == p[..|j|][..|rel| + 1];
  }

  /** Two names cannot both lead to one path. */
  lemma OneNameLeads(base: string, m: string, n: string, p: string)
    requires '/' !in m && '/' !in n && |m| <= |n|
    requires Under(base + m, p) && Under(base + n, p)
    ensures m == n
  {
    var q := p[|base|..];
    assert p[..|base| + |n|] == base + n && p[..|base| + |m|] == base + m;
    assert q[..|n|] == n && q[..|m|] == m;
    assert (base + m + "/")[|base| + |m|] == '/';
    assert |m| < |n| ==> base + m + "/" <= p;
  }

  lemma OneEntryLeads(rel: string, m: string, n: string, p: string)
    requires '/' !in m && '/' !in n && Under(Join(rel, m), p) && Under(Join(rel, n), p)
    ensures m == n
  {
    var base := if rel == "" then "" else rel + "/";
    assert Join(rel, m) == base + m && Join(rel, n) == base + n;
    if |m| <= |n| { OneNameLeads(base, m, n, p); } else { OneNameLeads(base, n, m, p); }
  }

  ghost predicate UnderFirst(entries: seq<DirEntry>, n: nat, rel: string, p: string)
    requires n <= |entries|
  {
    exists i :: 0 <= i < n && Under(Join(rel, entries[i].name), p)
  }

  lemma {:induction false} FoundUnderFirst(tree: Tree, selected: Selection, entries: seq<DirEntry>, n: nat, rel: string,
                                           above: seq<string>, p: string)
    requires n <= |entries| && 1 <= |above| <= MAX_DEPTH + 1 && ProperNames(tree) && ProperEntries(entries)
    requires p in SurveyFirst(tree, selected, entries, n, rel, above).found
    ensures UnderFirst(entries, n, rel, p)
    decreases MAX_DEPTH + 1 - |above|, 3, n
  {
    var before := SurveyFirst(tree, selected, entries, n - 1, rel, above);
    if p in before.found {
      FoundUnderFirst(tree, selected, entries, n - 1, rel, above, p);
    } else {
      FoundUnderEntry(tree, selected, entries[n - 1], Join(rel, entries[n - 1].name), above, p);
    }
  }

  lemma {:induction false} FoundUnderEntry(tree: Tree, selected: Selection, e: DirEntry, rel: string,
                                           above: seq<string>, p: string)
    requires 1 <= |above| <= MAX_DEPTH + 1 && ProperNames(tree) && rel != ""
    requires p in SurveyEntry(tree, selected, e, rel, above).found
    ensures Under(rel, p)
    decreases MAX_DEPTH + 1 - |above|, 2, 0
  {
    if e.kind.target.Directory? {
      var d := e.kind.target.physical;
      var entries := tree[d].entries;
      FoundUnderFirst(tree, selected, entries, |entries|, rel, above + [d], p);
      var i :| 0 <= i < |entries| && Under(Join(rel, entries[i].name), p);
      JoinedUnder(rel, entries[i].name, p);
    }
  }

  lemma {:induction false} FirstFoundOnce(tree: Tree, selected: Selection, entries: seq<DirEntry>, n: nat, rel: string,
                                          above: seq<string>)
    requires n <= |entries| && 1 <= |above| <= MAX_DEPTH + 1 && ProperNames(tree) && ProperEntries(entries)
    ensures NoDup(SurveyFirst(tree, selected, entries, n, rel, above).found)
    decreases MAX_DEPTH + 1 - |above|, 3, n
  {
    if n != 0 && SurveyFirst(tree, selected, entries, n - 1, rel, above).complete {
      var e := entries[n - 1];
      var before := SurveyFirst(tree, selected, entries, n - 1, rel, above);
      var last := SurveyEntry(tree, selected, e, Join(rel, e.name), above);
      FirstFoundOnce(tree, selected, entries, n - 1, rel, above);
      EntryFoundOnce(tree, selected, e, Join(rel, e.name), above);
      forall p | p in before.found && p in last.found ensures false {
        FoundUnderFirst(tree, selected, entries, n - 1, rel, above, p);
        FoundUnderEntry(tree, selected, e, Join(rel, e.name), above, p);
        var i :| 0 <= i < n - 1 && Under(Join(rel, entries[i].name), p);
        OneEntryLeads(rel, entries[i].name, e.name, p);
      }
      JoinKeepsNoDup(before.found, last.found);
    } else if n != 0 {
      FirstFoundOnce(tree, selected, entries, n - 1, rel, above);
    }
  }

  lemma JoinKeepsNoDup<T>(a: seq<T>, b: seq<T>)
    requires NoDup(a) && NoDup(b) && forall x :: x in a ==> x !in b
    ensures NoDup(a + b)
  {
    forall i, j | 0 <= i < j < |a + b| ensures (a + b)[i] != (a + b)[j] {
      if i < |a| <= j { assert a[i] in a && b[j - |a|] in b; }
    }
  }

  lemma {:induction false} EntryFoundOnce(tree: Tree, selected: Selection, e: DirEntry, rel: string, above: seq<string>)
    requires 1 <= |above| <= MAX_DEPTH + 1 && ProperNames(tree)
    ensures NoDup(SurveyEntry(tree, selected, e, rel, above).found)
    decreases MAX_DEPTH + 1 - |above|, 2, 0
  {
    if (e.kind.Plain? || e.kind.LinkTo?) && e.kind.target.Directory? {
      DirFoundOnce(tree, selected, e.kind.target.physical, rel, above);
    }
  }

  /** A file that several links lead to is listed under each of its paths, and no path twice. */
  lemma {:induction false} DirFoundOnce(tree: Tree, selected: Selection, dir: string, rel: string, above: seq<string>)
    requires |above| <= MAX_DEPTH + 1 && ProperNames(tree)
    ensures NoDup(SurveyDir(tree, selected, dir, rel, above).found)
    decreases MAX_DEPTH + 1 - |above|, 1, 0
  {
    if |above| <= MAX_DEPTH && dir !in above && dir in tree && tree[dir].opens {
      FirstFoundOnce(tree, selected, tree[dir].entries, |tree[dir].entries|, rel, above + [dir]);
    }
  }

  lemma SurveyNext(tree: Tree, selected: Selection, entries: seq<DirEntry>, n: nat, rel: string, above: seq<string>)
    requires n < |entries| && 1 <= |above| <= MAX_DEPTH + 1
    requires SurveyFirst(tree, selected, entries, n, rel, above).complete
    ensures var before := SurveyFirst(tree, selected, entries, n, rel, above);
            var s := SurveyEntry(tree, selected, entries[n], Join(rel, entries[n].name), above);
            SurveyFirst(tree, selected, entries, n + 1, rel, above)
              == Survey(before.count + 1 + s.count, s.complete, before.found + s.found)
  {
  }

  lemma SurveyNone(tree: Tree, selected: Selection, entries: seq<DirEntry>, rel: string, above: seq<string>)
    requires 1 <= |above| <= MAX_DEPTH + 1
    ensures SurveyFirst(tree, selected, entries, 0, rel, above) == Survey(0, true, [])
  {
  }

  // ---- What makes a walk give up ----

  datatype Place = Place(dir: string, rel: string)

  /** The walk enters b from a. */
  ghost predicate StepsTo(tree: Tree, selected: Selection, a: Place, b: Place) {
    a.dir in tree && exists e :: e in tree[a.dir].entries && LeadsTo(selected, e, Join(a.rel, e.name), b)
  }

  predicate LeadsTo(selected: Selection, e: DirEntry, rel: string, b: Place) {
    (e.kind.Plain? || e.kind.LinkTo?) && e.kind.target == Directory(b.dir) && Entered(selected, e, rel) && b.rel == rel
  }

  /** Directories each of which the walk enters from the one before. */
  ghost predicate Descent(tree: Tree, selected: Selection, places: seq<Place>) {
    |places| >= 1 && forall i :: 0 <= i < |places| - 1 ==> StepsTo(tree, selected, places[i], places[i + 1])
  }

  function Dirs(places: seq<Place>): (r: seq<string>)
    ensures |r| == |places|
  {
    seq(|places|, i requires 0 <= i < |places| => places[i].dir)
  }

  /** It opens, reads to its end, and every entry can be read. */
  predicate Intact(tree: Tree, dir: string) {
    dir in tree && tree[dir].opens && tree[dir].complete && forall e :: e in tree[dir].entries ==> !e.kind.Unreadable?
  }

  /** The last directory is too deep, one of those above it, or not intact. */
  predicate Trouble(tree: Tree, places: seq<Place>)
    requires |places| >= 1
  {
    var here := places[|places| - 1].dir;
    |places| > MAX_DEPTH + 1 || here in Dirs(places[..|places| - 1]) || !Intact(tree, here)
  }

  lemma {:induction false} IncompleteEntry(tree: Tree, selected: Selection, entries: seq<DirEntry>, n: nat, rel: string,
                                           above: seq<string>)
    requires n <= |entries| && 1 <= |above| <= MAX_DEPTH + 1
    ensures SurveyFirst(tree, selected, entries, n, rel, above).complete <==>
            forall i ::
              0 <= i < n ==> SurveyEntry(tree, selected, entries[i], Join(rel, entries[i].name), above).complete
  {
    if n != 0 { IncompleteEntry(tree, selected, entries, n - 1, rel, above); }
  }

  lemma {:induction false} TroubleStopsSurvey(tree: Tree, selected: Selection, above: seq<Place>, here: Place,
                                              rest: seq<Place>)
    requires Descent(tree, selected, above + [here] + rest) && Trouble(tree, above + [here] + rest)
    ensures !SurveyDir(tree, selected, here.dir, here.rel, Dirs(above)).complete
    decreases |rest|
  {
    var all := above + [here] + rest;
    var dirs := Dirs(above);
    if |above| <= MAX_DEPTH && here.dir !in dirs && here.dir in tree && tree[here.dir].opens {
      var entries := tree[here.dir].entries;
      assert Dirs(above + [here]) == dirs + [here.dir];
      IncompleteEntry(tree, selected, entries, |entries|, here.rel, dirs + [here.dir]);
      if rest == [] {
        assert all[..|all| - 1] == above && all[|all| - 1] == here;
      } else {
        assert all == (above + [here]) + [rest[0]] + rest[1..];
        TroubleStopsSurvey(tree, selected, above + [here], rest[0], rest[1..]);
        assert all[|above|] == here && all[|above| + 1] == rest[0];
        assert StepsTo(tree, selected, here, rest[0]);
        var e :| e in entries && LeadsTo(selected, e, Join(here.rel, e.name), rest[0]);
        var i :| 0 <= i < |entries| && entries[i] == e;
      }
    }
  }

  lemma {:induction false} StoppedSurveyHasTrouble(tree: Tree, selected: Selection, above: seq<Place>, here: Place)
    returns (rest: seq<Place>)
    requires Descent(tree, selected, above + [here]) && |above| <= MAX_DEPTH + 1
    requires !SurveyDir(tree, selected, here.dir, here.rel, Dirs(above)).complete
    ensures Descent(tree, selected, above + [here] + rest) && Trouble(tree, above + [here] + rest)
    decreases MAX_DEPTH + 1 - |above|
  {
    var path := above + [here];
    assert path + [] == path && path[..|path| - 1] == above;
    if Trouble(tree, path) {
      rest := [];
    } else {
      var entries, dirs := tree[here.dir].entries, Dirs(above) + [here.dir];
      assert Dirs(path) == dirs;
      IncompleteEntry(tree, selected, entries, |entries|, here.rel, dirs);
      var i :| 0 <= i < |entries|
        && !SurveyEntry(tree, selected, entries[i], Join(here.rel, entries[i].name), dirs).complete;
      var e := entries[i];
      assert e in entries;
      var next := Place(e.kind.target.physical, Join(here.rel, e.name));
      assert LeadsTo(selected, e, Join(here.rel, e.name), next);
      assert Descent(tree, selected, path + [next]);
      var further := StoppedSurveyHasTrouble(tree, selected, path, next);
      rest := [next] + further;
      assert path + rest == path + [next] + further;
    }
  }

  /** A walk without a cap reaches its end exactly when no descent from the root, through the entries
      it enters and the links among them, ends too deep, in a loop, or at something it cannot read. */
  lemma CompleteExactly(tree: Tree, selected: Selection, root: string)
    ensures SurveyDir(tree, selected, root, "", []).complete <==>
            forall places :: Descent(tree, selected, places) && places[0] == Place(root, "") ==> !Trouble(tree, places)
  {
    var here := Place(root, "");
    if !SurveyDir(tree, selected, root, "", []).complete {
      var above: seq<Place> := [];
      assert Dirs(above) == [];
      var rest := StoppedSurveyHasTrouble(tree, selected, above, here);
      assert (above + [here] + rest)[0] == here;
    }
    forall places | Descent(tree, selected, places) && places[0] == here && Trouble(tree, places)
      ensures !SurveyDir(tree, selected, root, "", []).complete
    {
      TroubleFromRoot(tree, selected, root, places);
    }
  }

  lemma TroubleFromRoot(tree: Tree, selected: Selection, root: string, places: seq<Place>)
    requires Descent(tree, selected, places) && places[0] == Place(root, "") && Trouble(tree, places)
    ensures !SurveyDir(tree, selected, root, "", []).complete
  {
    var above: seq<Place> := [];
    assert above + [places[0]] + places[1..] == places && Dirs(above) == [];
    TroubleStopsSurvey(tree, selected, above, places[0], places[1..]);
  }

  // ---- The walker ----

  datatype Outcome = Walked | Refused | OverCap

  class InputWalker {
    const tree: Tree
    const selected: Selection
    const entryCap: nat
    var active: set<string>
    var files: seq<string>
    var entries: nat

    constructor (tree: Tree, selected: Selection, entryCap: nat)
      ensures this.tree == tree && this.selected == selected && this.entryCap == entryCap
      ensures active == {} && files == [] && entries == 0
    {
      this.tree, this.selected, this.entryCap := tree, selected, entryCap;
      active, files, entries := {}, [], 0;
    }

    /** before entries were counted when the surveyed part was started: the cap stops a walk just
        when the survey takes the count past it, and the count then stands one past the cap. */
    ghost predicate Ends(r: Outcome, before: nat, s: Survey)
      reads this
    {
      && (r == OverCap <==> before + s.count > entryCap)
      && (r == Walked <==> s.complete && before + s.count <= entryCap)
      && entries == if r == OverCap then entryCap + 1 else before + s.count
    }

    /** above holds the directories being walked, outermost first: active is just those, here and
        on every return, so a directory met again while active is a loop. */
    method Walk(dir: string, rel: string, depth: nat, ghost above: seq<string>) returns (r: Outcome)
      requires |above| == depth <= MAX_DEPTH + 1 && active == SetOf(above) && entries <= entryCap
      modifies this
      ensures active == old(active)
      ensures Ends(r, old(entries), SurveyDir(tree, selected, dir, rel, above))
      ensures r.Walked? ==> files == old(files) + SurveyDir(tree, selected, dir, rel, above).found
      decreases MAX_DEPTH + 1 - depth, 2
    {
      if depth > MAX_DEPTH || dir in active {
        return Refused;
      }
      active := active + {dir};
      if dir !in tree || !tree[dir].opens {
        active := active - {dir};
        return Refused;
      }
      r := WalkEntries(tree[dir].entries, rel, depth, above + [dir]);
      // The deferred delete.
      active := active - {dir};
      assert active == old(active);
      if r.Walked? && !tree[dir].complete {
        r := Refused;
      }
    }

    /** The loop over the entries of the last directory of above. */
    method WalkEntries(listed: seq<DirEntry>, rel: string, depth: nat, ghost above: seq<string>) returns (r: Outcome)
      requires |above| == depth + 1 <= MAX_DEPTH + 1 && active == SetOf(above) && entries <= entryCap
      modifies this
      ensures active == old(active)
      ensures Ends(r, old(entries), SurveyFirst(tree, selected, listed, |listed|, rel, above))
      ensures r.Walked? ==> files == old(files) + SurveyFirst(tree, selected, listed, |listed|, rel, above).found
      decreases MAX_DEPTH + 1 - depth, 1
    {
      hide SurveyFirst, SurveyEntry;
      SurveyNone(tree, selected, listed, rel, above);
      for i := 0 to |listed|
        invariant active == old(active)
        invariant Ends(Walked, old(entries), SurveyFirst(tree, selected, listed, i, rel, above))
        invariant files == old(files) + SurveyFirst(tree, selected, listed, i, rel, above).found
      {
        SurveyNext(tree, selected, listed, i, rel, above);
        SurveyGrows(tree, selected, listed, i + 1, |listed|, rel, above);
        entries := entries + 1;
        if entries > entryCap {
          return OverCap;
        }
        r := Enter(listed[i], Join(rel, listed[i].name), depth, above);
        if !r.Walked? {
          return;
        }
      }
      r := Walked;
    }

    /** One entry of the last directory of above. */
    method Enter(e: DirEntry, rel: string, depth: nat, ghost above: seq<string>) returns (r: Outcome)
      requires |above| == depth + 1 <= MAX_DEPTH + 1 && active == SetOf(above) && entries <= entryCap
      modifies this
      ensures active == old(active)
      ensures Ends(r, old(entries), SurveyEntry(tree, selected, e, rel, above))
      ensures r.Walked? ==> files == old(files) + SurveyEntry(tree, selected, e, rel, above).found
      decreases MAX_DEPTH + 1 - depth, 0
    {
      if e.kind.Unreadable? {
        return Refused;
      }
      if e.kind.Dangling? {
        return Walked;
      }
      match e.kind.target {
        case Directory(d) =>
          if e.name in SKIP_DIRS || selected.pruned(rel) {
            return Walked;
          }
          r := Walk(d, rel, depth + 1, above);
        case RegularFile =>
          if !selected.dropped(rel) && selected.matches(rel) {
            files := files + [rel];
          }
          r := Walked;
        case OtherFile =>
          r := Walked;
      }
    }
  }

  // ---- listInputs ----

  /** The disclosure for a tree with more entries than the cap, else nothing. */
  function CapSkipNote(entries: nat, entryCap: nat): string {
    if entries <= entryCap then ""
    else "fact cache skipped: input tree has more than " + Tiers.Digits(entryCap) + " filesystem entries"
  }

  /** All and only the selected files, sorted. */
  ghost predicate IsListing(tree: Tree, selected: Selection, root: string, files: seq<string>) {
    Sorted(files, StrLe) && forall p :: p in files <==> IsInput(tree, selected, root, "", p)
  }

  lemma {:induction false} FoundIsListing(tree: Tree, selected: Selection, root: string)
    requires SurveyDir(tree, selected, root, "", []).complete
    ensures IsListing(tree, selected, root, SortBy(SurveyDir(tree, selected, root, "", []).found, StrLe))
  {
    var found := SurveyDir(tree, selected, root, "", []).found;
    SurveyFindsInputs(tree, selected, root, "", []);
    StrLeTotalOrder();
    SortBySorts(found, StrLe);
    SortByMembers(found, StrLe);
  }

  lemma ListedOnce(tree: Tree, selected: Selection, root: string)
    requires ProperNames(tree)
    ensures NoDup(SortBy(SurveyDir(tree, selected, root, "", []).found, StrLe))
  {
    var found := SurveyDir(tree, selected, root, "", []).found;
    DirFoundOnce(tree, selected, root, "", []);
    NoDupPermutation(found, SortBy(found, StrLe));
  }

  /** physical is the root with its links resolved, or nothing when that fails. */
  method ListInputs(tree: Tree, physical: Option<string>, selected: Selection, entryCap: nat)
    returns (result: seq<string>, note: string)
    ensures physical.None? ==> result == [SENTINEL] && note == ""
    ensures ProperNames(tree) ==> NoDup(result)
    ensures physical.Some? ==>
      var s := SurveyDir(tree, selected, physical.value, "", []);
      && (if s.complete && s.count <= entryCap then result == SortBy(s.found, StrLe)
          && IsListing(tree, selected, physical.value, result)
          else result == [SENTINEL])
      && (note != "" <==> s.count > entryCap)
  {
    if physical.None? {
      return [SENTINEL], "";
    }
    var w := new InputWalker(tree, selected, entryCap);
    var outcome := w.Walk(physical.value, "", 0, []);
    if !outcome.Walked? {
      return [SENTINEL], CapSkipNote(w.entries, w.entryCap);
    }
    assert w.files == SurveyDir(tree, selected, physical.value, "", []).found;
    FoundIsListing(tree, selected, physical.value);
    if ProperNames(tree) { ListedOnce(tree, selected, physical.value); }
    return SortBy(w.files, StrLe), "";
  }
}
