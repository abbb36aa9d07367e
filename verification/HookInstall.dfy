/**
  Installing the hooks (cmd/archfit/hook_install.go) and finding them again
  (cmd/archfit/doctor_agent.go). A hook file is its events, each a list of
  matcher groups, each a list of hook entries; bytes and key order are not kept.
*/
module HookInstall {
  import opened Options

  const RUN := "archfit hook run"
  const LEGACY := "archfit hook claude"

  /** A hook entry: its command, "" when it has none, and its other keys; or no object with a
      text command at all. */
  datatype Entry = Hook(command: string, other: string) | Malformed(raw: string)

  /** A matcher group: its other keys and its entries; or a value that has no list of hooks,
      past which a reader of the file gets (readable) or not. */
  datatype Group = Group(other: string, entries: seq<Entry>) | Opaque(raw: string, readable: bool)

  type Events = map<string, seq<Group>>

  datatype Settings = NotObject | BadHooks | Settings(other: map<string, string>, events: Events)

  datatype HarnessHook = HarnessHook(event: string, matcher: string, run: string)

  const OTHER_KEYS := "type: command"

  // ---- Commands ----

  /** unicode.IsSpace. */
  predicate IsSpace(c: char) {
    || c == ' ' || c == '\t' || c == '\n' || c == '\r' || c == '\U{0B}' || c == '\U{0C}'
    || c == '\U{85}' || c == '\U{A0}' || c == '\U{1680}' || '\U{2000}' <= c <= '\U{200A}'
    || c == '\U{2028}' || c == '\U{2029}' || c == '\U{202F}' || c == '\U{205F}' || c == '\U{3000}'
  }

  function TrimLeft(s: string): string {
    if |s| > 0 && IsSpace(s[0]) then TrimLeft(s[1..]) else s
  }

  function TrimRight(s: string): string {
    if |s| > 0 && IsSpace(s[|s| - 1]) then TrimRight(s[..|s| - 1]) else s
  }

  function TrimSpace(s: string): string {
    TrimRight(TrimLeft(s))
  }

  function FieldEnd(s: string): (n: nat)
    ensures n <= |s|
  {
    if |s| == 0 || IsSpace(s[0]) then 0 else 1 + FieldEnd(s[1..])
  }

  /** The first word of s; "" when there is none. */
  function FirstField(s: string): string {
    var t := TrimLeft(s);
    t[..FieldEnd(t)]
  }

  function EntryCommand(e: Entry): string {
    if e.Hook? then TrimSpace(e.command) else ""
  }

  predicate IsLegacy(e: Entry) {
    LEGACY <= EntryCommand(e)
  }

  predicate IsRun(e: Entry) {
    RUN <= EntryCommand(e)
  }

  /** The run event an entry calls, read as doctor reads it. */
  function RunEvent(e: Entry): Option<string> {
    var prefix := RUN + " ";
    if e.Hook? && prefix <= TrimSpace(e.command) && FirstField(TrimSpace(e.command)[|prefix|..]) != ""
    then Some(FirstField(TrimSpace(e.command)[|prefix|..]))
    else None
  }

  /** A command archfit installs: it starts with hook run and names the run event. */
  ghost predicate Names(command: string, run: string) {
    RunEvent(Hook(command, OTHER_KEYS)) == Some(run)
  }

  lemma RunIsNoLegacy(e: Entry)
    requires IsRun(e)
    ensures !IsLegacy(e)
  {
    assert RUN[13] == 'r' && LEGACY[13] == 'c';
  }

  lemma NamedIsRun(e: Entry)
    requires RunEvent(e).Some?
    ensures IsRun(e)
  {
    assert RUN <= RUN + " ";
  }

  // ---- mergeEvent ----

  predicate Removed(e: Entry, wanted: bool) {
    IsLegacy(e) || (wanted && IsRun(e))
  }

  function Rest(entries: seq<Entry>, wanted: bool): seq<Entry> {
    if |entries| == 0 then []
    else
      var last := entries[|entries| - 1];
      Rest(entries[..|entries| - 1], wanted) + if Removed(last, wanted) then [] else [last]
  }

  predicate HasRun(entries: seq<Entry>) {
    exists e :: e in entries && !IsLegacy(e) && IsRun(e)
  }

  function ArchfitGroup(h: HarnessHook, command: string -> string): Group {
    Group(h.matcher, [Hook(command(h.run), OTHER_KEYS)])
  }

  /** What becomes of one group, and whether archfit's own group stands after it. */
  function MergeGroup(g: Group, want: Option<HarnessHook>, command: string -> string, placed: bool)
    : (seq<Group>, bool)
  {
    if g.Opaque? then ([g], placed)
    else
      var rest := Rest(g.entries, want.Some?);
      if |rest| == |g.entries| then ([g], placed)
      else if |rest| > 0 then ([Group(g.other, rest)], placed)
      else if want.Some? && HasRun(g.entries) && !placed then ([ArchfitGroup(want.value, command)], true)
      else ([], placed)
  }

  function Merge(groups: seq<Group>, want: Option<HarnessHook>, command: string -> string, placed: bool): seq<Group> {
    if |groups| == 0 then if want.Some? && !placed then [ArchfitGroup(want.value, command)] else []
    else
      var (out, now) := MergeGroup(groups[0], want, command, placed);
      out + Merge(groups[1..], want, command, now)
  }

  method MergeEvent(groups: seq<Group>, want: Option<HarnessHook>, command: string -> string) returns (out: seq<Group>)
    ensures out == Merge(groups, want, command, false)
  {
    out := [];
    var placed := false;
    assert groups[0..] == groups;
    for i := 0 to |groups|
      invariant Merge(groups, want, command, false) == out + Merge(groups[i..], want, command, placed)
    {
      var g := groups[i];
      MergeStep(groups, i, out, want, command, placed);
      if g.Opaque? {
        out := out + [g];
        continue;
      }
      var rest, ours := Sift(g.entries, want.Some?);
      if |rest| == |g.entries| {
        out := out + [g];
      } else if |rest| > 0 {
        out := out + [Group(g.other, rest)];
      } else if want.Some? && ours && !placed {
        out := out + [ArchfitGroup(want.value, command)];
        placed := true;
      } else {
        assert out + [] == out;
      }
    }
    assert groups[|groups|..] == [];
    if want.Some? && !placed {
      out := out + [ArchfitGroup(want.value, command)];
    } else {
      assert out + [] == out;
    }
  }

  lemma Regroup<T>(a: seq<T>, b: seq<T>, c: seq<T>)
    ensures a + (b + c) == (a + b) + c
  {
  }

  lemma MergeStep(groups: seq<Group>, i: nat, out: seq<Group>, want: Option<HarnessHook>, command: string -> string,
                  placed: bool)
    requires i < |groups|
    ensures var (add, now) := MergeGroup(groups[i], want, command, placed);
            out + Merge(groups[i..], want, command, placed) == (out + add) + Merge(groups[i + 1..], want, command, now)
  {
    var (add, now) := MergeGroup(groups[i], want, command, placed);
    var tail := groups[i..];
    assert tail[0] == groups[i] && tail[1..] == groups[i + 1..];
    Regroup(out, add, Merge(groups[i + 1..], want, command, now));
  }

  method Sift(entries: seq<Entry>, wanted: bool) returns (rest: seq<Entry>, ours: bool)
    ensures rest == Rest(entries, wanted)
    ensures ours <==> wanted && HasRun(entries)
  {
    rest, ours := [], false;
    for i := 0 to |entries|
      invariant rest == Rest(entries[..i], wanted)
      invariant ours <==> wanted && HasRun(entries[..i])
    {
      assert entries[..i + 1][..i] == entries[..i] && entries[..i + 1] == entries[..i] + [entries[i]];
      assert HasRun(entries[..i + 1]) <==> HasRun(entries[..i]) || (!IsLegacy(entries[i]) && IsRun(entries[i]));
      if IsLegacy(entries[i]) {
      } else if wanted && IsRun(entries[i]) {
        ours := true;
      } else {
        rest := rest + [entries[i]];
      }
    }
    assert entries[..|entries|] == entries;
  }

  // ---- mergeHookConfig ----

  ghost predicate DistinctEvents(hooks: seq<HarnessHook>) {
    forall i, j :: 0 <= i < j < |hooks| ==> hooks[i].event != hooks[j].event
  }

  /** The first pass on one event: legacy entries go, and with them an event that held nothing else. */
  function Cleaned(events: Events, name: string, command: string -> string): Option<seq<Group>> {
    if name !in events then None
    else
      var merged := Merge(events[name], None, command, false);
      if |events[name]| > 0 && |merged| == 0 then None else Some(merged)
  }

  function Wanted(hooks: seq<HarnessHook>, name: string): Option<HarnessHook> {
    if |hooks| == 0 then None
    else if hooks[|hooks| - 1].event == name then Some(hooks[|hooks| - 1])
    else Wanted(hooks[..|hooks| - 1], name)
  }

  /** An event after both passes. */
  function Installed(events: Events, hooks: seq<HarnessHook>, name: string,
                     command: string -> string): Option<seq<Group>>
  {
    WithHook(Cleaned(events, name, command), Wanted(hooks, name), command)
  }

  /** The second pass on one event. */
  function WithHook(groups: Option<seq<Group>>, want: Option<HarnessHook>,
                    command: string -> string): Option<seq<Group>>
  {
    if want.None? then groups
    else Some(Merge(if groups.Some? then groups.value else [], want, command, false))
  }

  function Lookup(events: Events, name: string): Option<seq<Group>> {
    if name in events then Some(events[name]) else None
  }

  ghost predicate IsInstall(before: Events, after: Events, hooks: seq<HarnessHook>, command: string -> string) {
    forall name :: Lookup(after, name) == Installed(before, hooks, name, command)
  }

  /** Every other top-level key is kept; a file that is no object, or whose hooks are no lists of
      groups by event, is refused. */
  method MergeHookConfig(file: Settings, hooks: seq<HarnessHook>, command: string -> string)
    returns (ok: bool, merged: Settings)
    requires DistinctEvents(hooks)
    ensures ok <==> file.Settings?
    ensures ok ==>
              merged.Settings? && merged.other == file.other && IsInstall(file.events, merged.events, hooks, command)
    ensures ok ==> FileAfter(file.events, merged.events, hooks, command)
  {
    if !file.Settings? {
      return false, file;
    }
    var events := CleanEvents(file.events, command);
    var cleaned := events;
    for i := 0 to |hooks|
      invariant forall name ::
                  Lookup(events, name) == WithHook(Lookup(cleaned, name), Wanted(hooks[..i], name), command)
    {
      var h := hooks[i];
      assert hooks[..i + 1][..i] == hooks[..i];
      NotWantedYet(hooks, i);
      var groups := MergeEvent(if h.event in events then events[h.event] else [], Some(h), command);
      assert Lookup(events, h.event) == Lookup(cleaned, h.event);
      events := events[h.event := groups];
    }
    assert hooks[..|hooks|] == hooks;
    ok, merged := true, Settings(file.other, events);
    InstallLeaves(file.events, events, hooks, command);
  }

  lemma NotWantedYet(hooks: seq<HarnessHook>, i: nat)
    requires DistinctEvents(hooks) && i < |hooks|
    ensures Wanted(hooks[..i], hooks[i].event) == None
  {
    WantedIsListed(hooks[..i], hooks[i].event);
  }

  lemma {:induction false} WantedIsListed(hooks: seq<HarnessHook>, name: string)
    ensures Wanted(hooks, name).Some? ==> Wanted(hooks, name).value in hooks && Wanted(hooks, name).value.event == name
    ensures Wanted(hooks, name).None? ==> forall h :: h in hooks ==> h.event != name
  {
    if |hooks| != 0 {
      assert hooks == hooks[..|hooks| - 1] + [hooks[|hooks| - 1]];
      WantedIsListed(hooks[..|hooks| - 1], name);
    }
  }

  method CleanEvents(before: Events, command: string -> string) returns (events: Events)
    ensures forall name :: Lookup(events, name) == Cleaned(before, name, command)
  {
    events := before;
    var rest := before.Keys;
    while rest != {}
      invariant rest <= before.Keys
      invariant forall name ::
                  Lookup(events, name) == if name in rest then Some(before[name]) else Cleaned(before, name, command)
    {
      var name :| name in rest;
      rest := rest - {name};
      var merged := MergeEvent(before[name], None, command);
      if |before[name]| > 0 && |merged| == 0 {
        events := events - {name};
      } else {
        events := events[name := merged];
      }
    }
  }

  // ---- What installing keeps ----

  lemma {:induction false} RestMembers(entries: seq<Entry>, wanted: bool)
    ensures forall e :: e in Rest(entries, wanted) <==> e in entries && !Removed(e, wanted)
    ensures |Rest(entries, wanted)| <= |entries|
    ensures |Rest(entries, wanted)| == |entries| ==> Rest(entries, wanted) == entries
  {
    if |entries| != 0 {
      assert entries == entries[..|entries| - 1] + [entries[|entries| - 1]];
      RestMembers(entries[..|entries| - 1], wanted);
    }
  }

  lemma {:induction false} RestOfKept(entries: seq<Entry>, wanted: bool)
    requires forall e :: e in entries ==> !Removed(e, wanted)
    ensures Rest(entries, wanted) == entries
  {
    if |entries| != 0 {
      assert entries == entries[..|entries| - 1] + [entries[|entries| - 1]];
      assert entries[|entries| - 1] in entries;
      RestOfKept(entries[..|entries| - 1], wanted);
    }
  }

  /** Nothing of the group is removed. */
  predicate Clean(g: Group, wanted: bool) {
    g.Group? ==> forall e :: e in g.entries ==> !Removed(e, wanted)
  }

  lemma CleanGroupStays(g: Group, want: Option<HarnessHook>, command: string -> string, placed: bool)
    requires Clean(g, want.Some?)
    ensures MergeGroup(g, want, command, placed) == ([g], placed)
  {
    if g.Group? { RestOfKept(g.entries, want.Some?); }
  }

  /** The group a merge makes of one group: nothing, a clean one, or archfit's own. */
  lemma MergedGroup(g: Group, want: Option<HarnessHook>, command: string -> string, placed: bool)
    ensures var (out, now) := MergeGroup(g, want, command, placed);
            || (out == [] && now == placed)
            || (|out| == 1 && now == placed && Clean(out[0], want.Some?))
            || (!placed && now && want.Some? && out == [ArchfitGroup(want.value, command)])
  {
    if g.Group? {
      RestMembers(g.entries, want.Some?);
      var rest := Rest(g.entries, want.Some?);
      if |rest| == |g.entries| { assert Clean(g, want.Some?); }
      if 0 < |rest| < |g.entries| { assert Clean(Group(g.other, rest), want.Some?); }
    }
  }

  lemma OwnGroupIsReplaced(h: HarnessHook, was: string -> string, command: string -> string)
    requires Names(was(h.run), h.run)
    ensures MergeGroup(ArchfitGroup(h, was), Some(h), command, false) == ([ArchfitGroup(h, command)], true)
  {
    var e := Hook(was(h.run), OTHER_KEYS);
    NamedIsRun(e);
    RunIsNoLegacy(e);
    var entries := [e];
    assert entries[..0] == [] && Rest(entries, true) == [];
    assert e in entries;
  }

  lemma MergeSnocFront(g: Group, tail: seq<Group>, want: Option<HarnessHook>, command: string -> string, placed: bool)
    ensures Merge([g] + tail, want, command, placed)
            == MergeGroup(g, want, command, placed).0
               + Merge(tail, want, command, MergeGroup(g, want, command, placed).1)
  {
    assert ([g] + tail)[1..] == tail;
  }

  /** Installing twice is installing once, with the second command. */
  lemma {:induction false} LastMergeWins(groups: seq<Group>, h: HarnessHook, first: string -> string,
                                         second: string -> string, placed: bool)
    requires Names(first(h.run), h.run)
    ensures Merge(Merge(groups, Some(h), first, placed), Some(h), second, placed)
            == Merge(groups, Some(h), second, placed)
  {
    if |groups| == 0 {
      if !placed {
        OwnGroupIsReplaced(h, first, second);
        MergeSnocFront(ArchfitGroup(h, first), [], Some(h), second, false);
        assert [ArchfitGroup(h, first)] + [] == [ArchfitGroup(h, first)];
      }
    } else {
      var (out, now) := MergeGroup(groups[0], Some(h), first, placed);
      var (out2, now2) := MergeGroup(groups[0], Some(h), second, placed);
      var tail := Merge(groups[1..], Some(h), first, now);
      MergedGroup(groups[0], Some(h), first, placed);
      LastMergeWins(groups[1..], h, first, second, now);
      assert now == now2;
      if out == [] {
        assert out + tail == tail && out2 == [];
      } else {
        MergeSnocFront(out[0], tail, Some(h), second, placed);
        assert out + tail == [out[0]] + tail;
        if Clean(out[0], true) && now == placed { CleanGroupStays(out[0], Some(h), second, placed); }
        else { OwnGroupIsReplaced(h, first, second); }
      }
    }
  }

  ghost predicate LegacyFree(groups: seq<Group>) {
    forall g :: g in groups ==> Clean(g, false)
  }

  lemma {:induction false} MergeIsLegacyFree(groups: seq<Group>, want: Option<HarnessHook>, command: string -> string,
                                             placed: bool)
    requires want.Some? ==> Names(command(want.value.run), want.value.run)
    ensures LegacyFree(Merge(groups, want, command, placed))
  {
    if want.Some? {
      NamedIsRun(Hook(command(want.value.run), OTHER_KEYS));
      RunIsNoLegacy(Hook(command(want.value.run), OTHER_KEYS));
    }
    if |groups| != 0 {
      var (out, now) := MergeGroup(groups[0], want, command, placed);
      MergedGroup(groups[0], want, command, placed);
      MergeIsLegacyFree(groups[1..], want, command, now);
      forall g | g in out ensures Clean(g, false) { assert g == out[0]; }
    }
  }

  lemma {:induction false} CleaningCleanGroups(groups: seq<Group>, command: string -> string)
    requires LegacyFree(groups)
    ensures Merge(groups, None, command, false) == groups
  {
    if |groups| != 0 {
      assert groups == [groups[0]] + groups[1..];
      CleanGroupStays(groups[0], None, command, false);
      CleaningCleanGroups(groups[1..], command);
    }
  }

  /** Installing again with any command gives the file that installing with it at once gives:
      installing twice with the same command changes nothing. */
  lemma LastInstallWins(before: Events, once: Events, twice: Events, hooks: seq<HarnessHook>, first: string -> string,
                        second: string -> string)
    requires forall h :: h in hooks ==> Names(first(h.run), h.run)
    requires IsInstall(before, once, hooks, first) && IsInstall(once, twice, hooks, second)
    ensures IsInstall(before, twice, hooks, second)
  {
    forall name ensures Lookup(twice, name) == Installed(before, hooks, name, second) {
      var want, cleaned := Wanted(hooks, name), Cleaned(before, name, first);
      WantedIsListed(hooks, name);
      assert Lookup(once, name) == Installed(before, hooks, name, first);
      assert Lookup(twice, name) == Installed(once, hooks, name, second);
      CleaningIgnoresCommand(before, name, first, second);
      var groups := if cleaned.Some? then cleaned.value else [];
      if want.Some? {
        MergeIsLegacyFree(groups, want, first, false);
        CleaningCleanGroups(once[name], second);
        LastMergeWins(groups, want.value, first, second, false);
        MergeHasOwnGroup(groups, want.value, first);
      } else if cleaned.Some? {
        MergeIsLegacyFree(before[name], None, first, false);
        CleaningCleanGroups(once[name], second);
      }
    }
  }

  lemma {:induction false} MergeHasOwnGroup(groups: seq<Group>, h: HarnessHook, command: string -> string)
    ensures |Merge(groups, Some(h), command, false)| > 0
  {
    if |groups| != 0 && !MergeGroup(groups[0], Some(h), command, false).1 { MergeHasOwnGroup(groups[1..], h, command); }
  }

  lemma {:induction false} MergeNoneIgnoresCommand(groups: seq<Group>, first: string -> string,
                                                   second: string -> string)
    ensures Merge(groups, None, first, false) == Merge(groups, None, second, false)
  {
    if |groups| != 0 { MergeNoneIgnoresCommand(groups[1..], first, second); }
  }

  lemma CleaningIgnoresCommand(events: Events, name: string, first: string -> string, second: string -> string)
    ensures Cleaned(events, name, first) == Cleaned(events, name, second)
  {
    if name in events { MergeNoneIgnoresCommand(events[name], first, second); }
  }

  // ---- Foreign hooks ----

  /** What is not archfit's in one group: the group itself, with its keys and its other entries; nothing
      when archfit's entries were all it held. */
  function ForeignIn(g: Group, wanted: bool): seq<Group> {
    if g.Opaque? then [g]
    else
      var rest := Rest(g.entries, wanted);
      if |rest| > 0 || |g.entries| == 0 then [Group(g.other, rest)] else []
  }

  /** What is not archfit's in an event, group by group: values that are no group of hooks and groups
      without entries included. */
  function Foreign(groups: seq<Group>, wanted: bool): seq<Group> {
    if |groups| == 0 then [] else ForeignIn(groups[0], wanted) + Foreign(groups[1..], wanted)
  }

  /** Removing more entries later than earlier, or the same ones, loses nothing else. */
  lemma {:induction false} RestOfRest(entries: seq<Entry>, earlier: bool, later: bool)
    requires earlier ==> later
    ensures Rest(Rest(entries, earlier), later) == Rest(entries, later)
  {
    if |entries| != 0 {
      var last := |entries| - 1;
      var before := Rest(entries[..last], earlier);
      RestOfRest(entries[..last], earlier, later);
      if Removed(entries[last], earlier) {
        assert Rest(entries, earlier) == before + [] == before;
        assert Rest(entries, later) == Rest(entries[..last], later) + [];
      } else {
        assert Rest(entries, earlier) == before + [entries[last]] && (before + [entries[last]])[..|before|] == before;
      }
    }
  }

  lemma {:induction false} MergedGroupKeepsForeign(g: Group, want: Option<HarnessHook>, command: string -> string,
                                                   placed: bool, wanted: bool)
    requires want.Some? ==> wanted && Names(command(want.value.run), want.value.run)
    ensures var out := MergeGroup(g, want, command, placed).0;
            |out| <= 1 && ForeignIn(g, wanted) == if out == [] then [] else ForeignIn(out[0], wanted)
  {
    if want.Some? { OwnGroupIsNotForeign(want.value, command); }
    if g.Group? { ForeignInRest(g, want.Some?, wanted); }
  }

  /** Once some entries are gone, what is foreign in the rest is what was foreign before. */
  lemma ForeignInRest(g: Group, earlier: bool, later: bool)
    requires g.Group? && (earlier ==> later)
    ensures var rest := Rest(g.entries, earlier);
            && (|rest| == |g.entries| ==> rest == g.entries)
            && (|rest| > 0 ==> ForeignIn(g, later) == ForeignIn(Group(g.other, rest), later))
            && (|rest| == 0 && |g.entries| > 0 ==> ForeignIn(g, later) == [])
  {
    RestMembers(g.entries, earlier);
    RestMembers(g.entries, later);
    RestMembers(Rest(g.entries, earlier), later);
    RestOfRest(g.entries, earlier, later);
  }

  /** Nothing foreign is lost, added, regrouped or moved within an event. */
  lemma {:induction false} MergeKeepsForeign(groups: seq<Group>, want: Option<HarnessHook>, command: string -> string,
                                             placed: bool, wanted: bool)
    requires want.Some? ==> wanted && Names(command(want.value.run), want.value.run)
    ensures Foreign(Merge(groups, want, command, placed), wanted) == Foreign(groups, wanted)
  {
    if |groups| == 0 {
      if want.Some? && !placed {
        OwnGroupIsNotForeign(want.value, command);
        assert [ArchfitGroup(want.value, command)][1..] == [];
      }
    } else {
      var (out, now) := MergeGroup(groups[0], want, command, placed);
      var tail := Merge(groups[1..], want, command, now);
      MergeKeepsForeign(groups[1..], want, command, now, wanted);
      MergedGroupKeepsForeign(groups[0], want, command, placed, wanted);
      if out == [] {
        assert out + tail == tail;
        assert [] + Foreign(tail, wanted) == Foreign(tail, wanted);
      } else {
        assert (out + tail)[1..] == tail;
      }
    }
  }

  lemma OwnGroupIsNotForeign(h: HarnessHook, command: string -> string)
    requires Names(command(h.run), h.run)
    ensures ForeignIn(ArchfitGroup(h, command), true) == []
  {
    var e := Hook(command(h.run), OTHER_KEYS);
    NamedIsRun(e);
    assert ArchfitGroup(h, command).entries == [e] && [e][..0] == [] && Removed(e, true);
    assert Rest([e], true) == Rest([], true) + [];
  }

  /** A group that holds nothing of archfit is foreign as it stands. */
  lemma CleanGroupIsForeign(g: Group, wanted: bool)
    requires Clean(g, wanted)
    ensures ForeignIn(g, wanted) == [g]
  {
    if g.Group? { RestOfKept(g.entries, wanted); }
  }

  /** Installing keeps, in every event, the foreign groups in their order, each with its keys and its
      foreign entries: a group that holds nothing of archfit as it was, down to an empty one. In events
      archfit installs nothing in, its own run entries are foreign too. */
  lemma {:induction false} InstallKeepsForeign(before: Events, after: Events, hooks: seq<HarnessHook>,
                                               command: string -> string, name: string)
    requires forall h :: h in hooks ==> Names(command(h.run), h.run)
    requires IsInstall(before, after, hooks, command)
    ensures var wanted := Wanted(hooks, name).Some?;
            Foreign(if name in after then after[name] else [], wanted)
              == Foreign(if name in before then before[name] else [], wanted)
  {
    var want := Wanted(hooks, name);
    WantedIsListed(hooks, name);
    assert Lookup(after, name) == Installed(before, hooks, name, command);
    if name in before { MergeKeepsForeign(before[name], None, command, false, want.Some?); }
    var cleaned := Cleaned(before, name, command);
    if want.Some? { MergeKeepsForeign(if cleaned.Some? then cleaned.value else [], want, command, false, true); }
  }

  // ---- Archfit's own group ----

  /** archfit's group stands at place, and no other group runs archfit. */
  ghost predicate OwnAt(groups: seq<Group>, h: HarnessHook, command: string -> string, place: nat) {
    && place < |groups| && groups[place] == ArchfitGroup(h, command)
    && forall i :: 0 <= i < |groups| && i != place ==> Clean(groups[i], true)
  }

  lemma {:induction false} PlacedMergeIsClean(groups: seq<Group>, h: HarnessHook, first: string -> string,
                                              second: string -> string)
    ensures forall g :: g in Merge(groups, Some(h), first, true) ==> Clean(g, true)
    ensures Merge(groups, Some(h), first, true) == Merge(groups, Some(h), second, true)
  {
    if |groups| != 0 {
      MergedGroup(groups[0], Some(h), first, true);
      PlacedMergeIsClean(groups[1..], h, first, second);
    }
  }

  /** Where the group lands does not depend on the command. */
  lemma {:induction false} MergePlaces(groups: seq<Group>, h: HarnessHook, first: string -> string,
                                       second: string -> string)
    returns (place: nat)
    ensures OwnAt(Merge(groups, Some(h), first, false), h, first, place)
    ensures OwnAt(Merge(groups, Some(h), second, false), h, second, place)
  {
    if |groups| == 0 {
      place := 0;
    } else {
      var (out, now) := MergeGroup(groups[0], Some(h), first, false);
      var (out2, now2) := MergeGroup(groups[0], Some(h), second, false);
      MergedGroup(groups[0], Some(h), first, false);
      assert now == now2;
      if now {
        place := 0;
        PlacedMergeIsClean(groups[1..], h, first, second);
        PlacedMergeIsClean(groups[1..], h, second, first);
      } else {
        var p := MergePlaces(groups[1..], h, first, second);
        assert out == out2;
        place := |out| + p;
      }
    }
  }

  // ---- The whole file after an install ----

  /** The group holds nothing but archfit's entries, a run hook among them. */
  predicate OwnOnly(g: Group) {
    g.Group? && HasRun(g.entries) && forall e :: e in g.entries ==> Removed(e, true)
  }

  /** How many foreign groups stand before the first group that was archfit's alone; all when none was. */
  function OwnPlace(groups: seq<Group>): (n: nat)
    ensures n <= |Foreign(groups, true)|
  {
    if |groups| == 0 || OwnOnly(groups[0]) then 0
    else |ForeignIn(groups[0], true)| + OwnPlace(groups[1..])
  }

  function InsertAt(groups: seq<Group>, place: nat, g: Group): seq<Group>
    requires place <= |groups|
  {
    groups[..place] + [g] + groups[place..]
  }

  function GroupsOf(events: Events, name: string): seq<Group> {
    if name in events then events[name] else []
  }

  /** An event archfit runs in: its foreign groups in their order, and where archfit stood first, or else
      last, a group with the hook's matcher and a single entry, the command for its run event. */
  ghost predicate RunsIn(before: Events, after: Events, h: HarnessHook, command: string -> string) {
    && h.event in after
    && after[h.event] == InsertAt(Foreign(GroupsOf(before, h.event), true), OwnPlace(GroupsOf(before, h.event)),
                                  Group(h.matcher, [Hook(command(h.run), "type: command")]))
  }

  /** Another event: its foreign groups, and no event that was left without any. */
  ghost predicate LeftIn(before: Events, after: Events, name: string) {
    && (name in after <==> name in before && (before[name] == [] || Foreign(before[name], false) != []))
    && (name in after ==> after[name] == Foreign(before[name], false))
  }

  ghost predicate FileAfter(before: Events, after: Events, hooks: seq<HarnessHook>, command: string -> string) {
    && (forall h :: h in hooks ==> RunsIn(before, after, h, command))
    && forall name :: (forall h :: h in hooks ==> h.event != name) ==> LeftIn(before, after, name)
  }

  lemma {:induction false} MergeLeavesForeign(groups: seq<Group>, want: Option<HarnessHook>, command: string -> string)
    ensures Merge(groups, want, command, true) == Foreign(groups, want.Some?)
    ensures want.None? ==> Merge(groups, want, command, false) == Foreign(groups, false)
  {
    if |groups| != 0 {
      MergeLeavesForeign(groups[1..], want, command);
      if groups[0].Group? { RestMembers(groups[0].entries, want.Some?); }
    }
  }

  lemma OwnOnlyIsReplaced(g: Group, h: HarnessHook, command: string -> string)
    ensures MergeGroup(g, Some(h), command, false) ==
            if OwnOnly(g) then ([ArchfitGroup(h, command)], true) else (ForeignIn(g, true), false)
    ensures OwnOnly(g) ==> ForeignIn(g, true) == []
  {
    if g.Group? {
      var rest := Rest(g.entries, true);
      RestMembers(g.entries, true);
      if |rest| == 0 {
        forall e | e in g.entries ensures Removed(e, true) { assert e !in rest; }
      } else {
        assert rest[0] in rest;
      }
    }
  }

  lemma {:induction false} MergeInserts(groups: seq<Group>, h: HarnessHook, command: string -> string)
    ensures Merge(groups, Some(h), command, false)
            == InsertAt(Foreign(groups, true), OwnPlace(groups), ArchfitGroup(h, command))
  {
    hide MergeGroup, ForeignIn, OwnOnly;
    if |groups| != 0 {
      OwnOnlyIsReplaced(groups[0], h, command);
      if OwnOnly(groups[0]) {
        MergeLeavesForeign(groups[1..], Some(h), command);
      } else {
        MergeInserts(groups[1..], h, command);
        var own, front := ArchfitGroup(h, command), ForeignIn(groups[0], true);
        var tail, place := Foreign(groups[1..], true), OwnPlace(groups[1..]);
        assert front + InsertAt(tail, place, own) == InsertAt(front + tail, |front| + place, own);
      }
    }
  }

  /** Cleaning legacy entries first leaves the same foreign groups, and archfit's place among them. */
  lemma {:induction false} CleaningKeepsPlace(groups: seq<Group>)
    ensures Foreign(Foreign(groups, false), true) == Foreign(groups, true)
    ensures OwnPlace(Foreign(groups, false)) == OwnPlace(groups)
  {
    if |groups| != 0 {
      var g, tail := groups[0], Foreign(groups[1..], false);
      CleaningKeepsPlace(groups[1..]);
      CleanedGroup(g);
      if ForeignIn(g, false) == [] {
        assert [] + tail == tail;
      } else {
        assert (ForeignIn(g, false) + tail)[1..] == tail;
      }
    }
  }

  lemma CleanedGroup(g: Group)
    ensures var left := ForeignIn(g, false);
            && |left| <= 1
            && (left == [] ==> ForeignIn(g, true) == [] && !OwnOnly(g))
            && (left != [] ==> ForeignIn(left[0], true) == ForeignIn(g, true) && (OwnOnly(left[0]) <==> OwnOnly(g)))
  {
    hide EntryCommand, Rest;
    if g.Group? {
      var rest := Rest(g.entries, false);
      RestMembers(g.entries, false);
      RestMembers(g.entries, true);
      RestMembers(rest, true);
      RestOfRest(g.entries, false, true);
      assert forall e :: IsLegacy(e) ==> Removed(e, true);
      if |rest| == 0 {
        assert forall e :: e in g.entries ==> e !in rest;
      }
    }
  }

  lemma WantedIs(hooks: seq<HarnessHook>, h: HarnessHook)
    requires DistinctEvents(hooks) && h in hooks
    ensures Wanted(hooks, h.event) == Some(h)
  {
    WantedIsListed(hooks, h.event);
    var i :| 0 <= i < |hooks| && hooks[i] == h;
    var w := Wanted(hooks, h.event);
    var j :| 0 <= j < |hooks| && hooks[j] == w.value;
  }

  /** What an install leaves of the whole file, told from the file before it. */
  lemma {:induction false} InstallLeaves(before: Events, after: Events, hooks: seq<HarnessHook>,
                                         command: string -> string)
    requires DistinctEvents(hooks) && IsInstall(before, after, hooks, command)
    ensures FileAfter(before, after, hooks, command)
  {
    forall h | h in hooks ensures RunsIn(before, after, h, command) {
      WantedIs(hooks, h);
      assert Lookup(after, h.event) == Installed(before, hooks, h.event, command);
      var cleaned := Cleaned(before, h.event, command);
      MergeLeavesForeign(GroupsOf(before, h.event), None, command);
      CleaningKeepsPlace(GroupsOf(before, h.event));
      MergeInserts(if cleaned.Some? then cleaned.value else [], h, command);
    }
    forall name | forall h :: h in hooks ==> h.event != name ensures LeftIn(before, after, name) {
      WantedIsListed(hooks, name);
      assert Lookup(after, name) == Installed(before, hooks, name, command);
      MergeLeavesForeign(GroupsOf(before, name), None, command);
    }
  }
}
