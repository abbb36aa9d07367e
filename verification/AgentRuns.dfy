/**
  Whole runs of the session hooks: post-tool-use and stop events of one session,
  one after the other, over the session file they share.
*/
module AgentRuns {
  import opened Options
  import opened Orders
  import opened HookSession
  import opened StopHook

  datatype Event = Tool(tool: ToolEvent) | Stopping(stop: StopEvent)

  datatype Reply = ToolReplied(tool: ToolReply) | StopReplied(stop: StopReply)

  ghost predicate Step(before: State, ev: Event, after: State, reply: Reply) {
    match ev
    case Tool(t) => reply.ToolReplied? && (after, reply.tool) == RunHook(before, t)
    case Stopping(s) => reply.StopReplied? && (after, reply.stop) == RunStop(before, s)
  }

  /** The same with post-tool-use reading every touched file again. */
  ghost predicate StepReadingAll(before: State, ev: Event, after: State, reply: Reply) {
    match ev
    case Tool(t) => reply.ToolReplied? && (after, reply.tool) == RunReadingAll(before, t)
    case Stopping(s) => reply.StopReplied? && (after, reply.stop) == RunStop(before, s)
  }

  ghost predicate Shape(states: seq<State>, events: seq<Event>, replies: seq<Reply>) {
    |states| == |events| + 1 && |replies| == |events|
  }

  /** states[i] is the session file before event i; the session starts with nothing in it. */
  ghost predicate Run(states: seq<State>, events: seq<Event>, replies: seq<Reply>) {
    && Shape(states, events, replies) && states[0] == Saved(map[], map[], None)
    && forall i :: 0 <= i < |events| ==> Step(states[i], events[i], states[i + 1], replies[i])
  }

  ghost predicate RunReading(states: seq<State>, events: seq<Event>, replies: seq<Reply>) {
    && Shape(states, events, replies) && states[0] == Saved(map[], map[], None)
    && forall i :: 0 <= i < |events| ==> StepReadingAll(states[i], events[i], states[i + 1], replies[i])
  }

  // ---- A saved hash stands for judged content ----

  /** The event read the file again, found every import resolved, judged it, and was saved. */
  ghost predicate Settles(s: State, ev: Event, reply: Reply, file: string) {
    && ev.Tool? && reply.ToolReplied? && !reply.tool.FailedOpen?
    && file in ev.tool.touched && Reread(s.files, ev.tool, file)
    && !ev.tool.read(file, ev.tool.contents[file]).unresolved
  }

  /** The event settled the file with this content, and these are the findings it judged there. */
  ghost predicate Backs(s: State, ev: Event, reply: Reply, file: string, content: string, reported: set<string>) {
    && Settles(s, ev, reply, file) && ev.tool.contents[file] == content
    && reported == FindingsIn(ev.tool, file, content)
  }

  ghost predicate BackedBy(states: seq<State>, events: seq<Event>, replies: seq<Reply>, n: nat, file: string,
                           content: string, reported: set<string>)
    requires Shape(states, events, replies) && n <= |events|
  {
    exists i :: 0 <= i < n && Backs(states[i], events[i], replies[i], file, content, reported)
  }

  ghost predicate Backed(states: seq<State>, events: seq<Event>, replies: seq<Reply>, n: nat, s: State)
    requires Shape(states, events, replies) && n <= |events|
  {
    forall f :: f in s.files ==> BackedBy(states, events, replies, n, f, s.files[f].content, ReportedOn(s.reported, f))
  }

  lemma {:induction false} ToolStepKeepsBacked(states: seq<State>, events: seq<Event>, replies: seq<Reply>, n: nat)
    requires Shape(states, events, replies) && n < |events| && events[n].Tool?
    requires Backed(states, events, replies, n, states[n]) && Step(states[n], events[n], states[n + 1], replies[n])
    ensures Backed(states, events, replies, n + 1, states[n + 1])
  {
    var s, t, after := states[n], events[n].tool, states[n + 1];
    forall f | f in after.files
      ensures BackedBy(states, events, replies, n + 1, f, after.files[f].content, ReportedOn(after.reported, f))
    {
      if after == s {
        assert BackedBy(states, events, replies, n, f, s.files[f].content, ReportedOn(s.reported, f));
      } else {
        HashOfFile(s.files, t, SortedSet(t.touched), f);
        ReportAfterRun(s, s.files, t, f);
        if Known(s.files, t, f) {
          assert BackedBy(states, events, replies, n, f, s.files[f].content, ReportedOn(s.reported, f));
        } else {
          assert Backs(s, events[n], replies[n], f, after.files[f].content, ReportedOn(after.reported, f));
        }
      }
    }
  }

  /** At every point of every run, whatever failed on the way: a saved hash means that an earlier
      event that was saved read the file again with that content, every import resolved, and that
      exactly the findings it judged there are the ones reported on the file. */
  lemma {:induction false} HashesAreBacked(states: seq<State>, events: seq<Event>, replies: seq<Reply>, n: nat)
    requires Run(states, events, replies) && n <= |events|
    ensures Backed(states, events, replies, n, states[n])
  {
    if n > 0 {
      HashesAreBacked(states, events, replies, n - 1);
      assert Step(states[n - 1], events[n - 1], states[n], replies[n - 1]);
      if events[n - 1].Tool? {
        ToolStepKeepsBacked(states, events, replies, n - 1);
      } else {
        StopKeepsFiles(states[n - 1], events[n - 1].stop);
        StillBacked(states, events, replies, n - 1, states[n - 1], states[n]);
      }
    }
  }

  lemma StopKeepsFiles(s: State, ev: StopEvent)
    ensures RunStop(s, ev).0.files == s.files && RunStop(s, ev).0.reported == s.reported
  {
  }

  lemma StillBacked(states: seq<State>, events: seq<Event>, replies: seq<Reply>, n: nat, s: State, after: State)
    requires Shape(states, events, replies) && n < |events|
    requires Backed(states, events, replies, n, s) && after.files == s.files && after.reported == s.reported
    ensures Backed(states, events, replies, n + 1, after)
  {
    forall f | f in after.files
      ensures BackedBy(states, events, replies, n + 1, f, after.files[f].content, ReportedOn(after.reported, f))
    {
      assert BackedBy(states, events, replies, n, f, s.files[f].content, ReportedOn(s.reported, f));
    }
  }

  // ---- Skipping unchanged files loses nothing ----

  predicate Shows(ev: Event, file: string, content: string) {
    ev.Tool? && file in ev.tool.touched && Readable(ev.tool, file) && ev.tool.contents[file] == content
  }

  /** Judging is a function of content: an event that is shown a content an earlier one settled
      holds the same findings in it. */
  ghost predicate JudgesByContent(states: seq<State>, events: seq<Event>, replies: seq<Reply>)
    requires Shape(states, events, replies)
  {
    forall i, k, f ::
      && 0 <= i < k < |events| && Settles(states[i], events[i], replies[i], f)
      && Shows(events[k], f, events[i].tool.contents[f])
      ==> FindingsIn(events[k].tool, f, events[i].tool.contents[f])
          == FindingsIn(events[i].tool, f, events[i].tool.contents[f])
  }

  /** The services answer for every file read again: the diff of one the base has too, the policy on
      one whose added lines import something. */
  predicate Answered(files: map<string, Hash>, t: ToolEvent) {
    forall f ::
      f in t.touched && Reread(files, t, f) ==>
        (f in t.wholeNew || t.diffAnswers) && (|Targets(t, f)| == 0 || t.policyAnswers)
  }

  /** An unchanged file is all that needs the service that is down: the hook that reads everything
      fails, the one that skips it does not. */
  predicate FailsAlone(s: State, t: ToolEvent) {
    t.gitAnswers && t.saves && Answered(s.files, t) && !Answered(map[], t)
  }

  lemma AnsweredExactly(files: map<string, Hash>, t: ToolEvent)
    ensures var edits := EditsOf(files, t, SortedSet(t.touched));
            Answered(files, t) <==> (NeedsDiff(t, edits) ==> t.diffAnswers) && (NeedsPolicy(edits) ==> t.policyAnswers)
  {
    var edits := EditsOf(files, t, SortedSet(t.touched));
    EditsAreReread(files, t, SortedSet(t.touched));
    forall f | f in t.touched && Reread(files, t, f) ensures ImportEdit(f, Targets(t, f)) in edits {}
  }

  lemma RunOutcome(s: State, files: map<string, Hash>, t: ToolEvent)
    ensures var (after, reply) := RunFrom(s, files, t);
            && (reply.FailedOpen? <==> !(t.gitAnswers && t.saves && Answered(files, t)))
            && (!reply.FailedOpen? ==> after.files == HashesAfter(files, t, SortedSet(t.touched)))
  {
    AnsweredExactly(files, t);
  }

  /** In terms of the two hooks: one run fails open, the other does not. */
  lemma FailsAloneExactly(s: State, t: ToolEvent)
    ensures FailsAlone(s, t)
            <==> RunReadingAll(s, t).1 == ToolReply.FailedOpen && RunHook(s, t).1 != ToolReply.FailedOpen
  {
    RunOutcome(s, s.files, t);
    RunOutcome(s, map[], t);
  }

  ghost predicate NoneEmpty(reported: map<string, set<string>>) {
    forall f :: f in reported ==> reported[f] != {}
  }

  ghost predicate Agree(s: State, t: State) {
    s.reported == t.reported && s.blocked == t.blocked && NoneEmpty(s.reported)
  }

  /** Every unchanged touched file holds just what is reported on it. */
  ghost predicate KnownIsReported(s: State, t: ToolEvent) {
    forall f :: f in t.touched && Readable(t, f) && Known(s.files, t, f) ==>
      FindingsIn(t, f, t.contents[f]) == ReportedOn(s.reported, f)
  }

  lemma MessagesSnoc(edits: seq<ImportEdit>, e: ImportEdit, t: ToolEvent, kept: map<string, set<string>>)
    ensures MessagesFor(edits + [e], t, kept)
            == MessagesFor(edits, t, kept) + Fresh(e.file, Judged(t, e.file, e.targets), ReportedOn(kept, e.file))
  {
    assert (edits + [e])[..|edits|] == edits;
  }

  /** One more name: what both hooks, or only the reading-all one, make of it. */
  lemma EditsSnoc(files: map<string, Hash>, t: ToolEvent, names: seq<string>)
    requires |names| > 0
    ensures var f, before := names[|names| - 1], EditsOf(files, t, names[..|names| - 1]);
            EditsOf(files, t, names) == if Reread(files, t, f) then before + [ImportEdit(f, Targets(t, f))] else before
  {
    var before := EditsOf(files, t, names[..|names| - 1]);
    assert before + [] == before;
  }

  lemma {:induction false} SkippedFilesAreSilent(s: State, t: ToolEvent, kept: map<string, set<string>>,
                                                 names: seq<string>)
    requires forall f ::
               f in names && Readable(t, f) && Known(s.files, t, f) ==>
                 FindingsIn(t, f, t.contents[f]) == ReportedOn(kept, f)
    ensures MessagesFor(EditsOf(s.files, t, names), t, kept) == MessagesFor(EditsOf(map[], t, names), t, kept)
  {
    if |names| != 0 {
      var last := |names| - 1;
      var f := names[last];
      assert names == names[..last] + [f];
      SkippedFilesAreSilent(s, t, kept, names[..last]);
      EditsSnoc(s.files, t, names);
      EditsSnoc(map[], t, names);
      if Readable(t, f) {
        var e := ImportEdit(f, Targets(t, f));
        MessagesSnoc(EditsOf(s.files, t, names[..last]), e, t, kept);
        MessagesSnoc(EditsOf(map[], t, names[..last]), e, t, kept);
        if Known(s.files, t, f) { KnownIsSilent(t, f, kept); }
      }
    }
  }

  lemma KnownIsSilent(t: ToolEvent, f: string, kept: map<string, set<string>>)
    requires f in t.contents && FindingsIn(t, f, t.contents[f]) == ReportedOn(kept, f)
    ensures Fresh(f, Judged(t, f, Targets(t, f)), ReportedOn(kept, f)) == []
  {
    assert forall d :: d in Judged(t, f, Targets(t, f)) ==> d.finding in FindingsIn(t, f, t.contents[f]);
    NothingFresh(f, Judged(t, f, Targets(t, f)), ReportedOn(kept, f));
  }

  lemma {:induction false} NothingFresh(file: string, denials: seq<Denial>, known: set<string>)
    requires forall d :: d in denials ==> d.finding in known
    ensures Fresh(file, denials, known) == []
  {
    if |denials| != 0 {
      var last := |denials| - 1;
      assert denials == denials[..last] + [denials[last]];
      assert denials[last] in denials;
      NothingFresh(file, denials[..last], known);
    }
  }

  lemma {:induction false} SameReports(s: State, t: ToolEvent, f: string)
    requires NoneEmpty(s.reported) && KnownIsReported(s, t)
    ensures var names, kept := SortedSet(t.touched), Pruned(s.reported, t.touched);
            var a := ReportedAfter(EditsOf(s.files, t, names), t, kept);
            var b := ReportedAfter(EditsOf(map[], t, names), t, kept);
            (f in a <==> f in b) && (f in a ==> a[f] == b[f]) && (f in a ==> a[f] != {})
  {
    ReportAfterRun(s, s.files, t, f);
    ReportAfterRun(s, map[], t, f);
  }

  /** What both hooks make of an event when they both get through. */
  lemma {:induction false} BothRunsAgree(s: State, all: State, t: ToolEvent)
    requires Agree(s, all) && KnownIsReported(s, t)
    ensures var names, kept := SortedSet(t.touched), Pruned(s.reported, t.touched);
            var mine, every := EditsOf(s.files, t, names), EditsOf(map[], t, names);
            && MessagesFor(mine, t, kept) == MessagesFor(every, t, kept)
            && ReportedAfter(mine, t, kept) == ReportedAfter(every, t, kept)
            && NoneEmpty(ReportedAfter(mine, t, kept))
  {
    var names, kept := SortedSet(t.touched), Pruned(s.reported, t.touched);
    var a, b := ReportedAfter(EditsOf(s.files, t, names), t, kept), ReportedAfter(EditsOf(map[], t, names), t, kept);
    forall f
      ensures (f in a <==> f in b) && (f in a ==> a[f] == b[f]) && (f in a ==> a[f] != {})
    {
      SameReports(s, t, f);
    }
    MapsAgree(a, b);
    SkippedFilesAreSilent(s, t, kept, names);
  }

  lemma {:induction false} ToolStepAgrees(s: State, all: State, t: ToolEvent)
    requires Agree(s, all) && KnownIsReported(s, t)
    ensures RunHook(s, t).1 == RunReadingAll(all, t).1 <==> !FailsAlone(s, t)
    ensures !FailsAlone(s, t) ==> Agree(RunHook(s, t).0, RunReadingAll(all, t).0)
  {
    BothRunsAgree(s, all, t);
    AnsweredExactly(s.files, t);
    AnsweredExactly(map[], t);
  }

  lemma BackedIsReported(states: seq<State>, events: seq<Event>, replies: seq<Reply>, n: nat)
    requires Shape(states, events, replies) && n < |events| && events[n].Tool?
    requires Backed(states, events, replies, n, states[n]) && JudgesByContent(states, events, replies)
    ensures KnownIsReported(states[n], events[n].tool)
  {
    var s, t := states[n], events[n].tool;
    forall f | f in t.touched && Readable(t, f) && Known(s.files, t, f)
      ensures FindingsIn(t, f, t.contents[f]) == ReportedOn(s.reported, f)
    {
      assert BackedBy(states, events, replies, n, f, s.files[f].content, ReportedOn(s.reported, f));
      var i :| 0 <= i < n && Backs(states[i], events[i], replies[i], f, s.files[f].content, ReportedOn(s.reported, f));
      assert Shows(events[n], f, events[i].tool.contents[f]);
    }
  }

  /** No event before n failed for the reading-all hook alone. */
  ghost predicate NoneFailsAlone(states: seq<State>, events: seq<Event>, n: nat)
    requires n <= |events| < |states|
  {
    forall i :: 0 <= i < n && events[i].Tool? ==> !FailsAlone(states[i], events[i].tool)
  }

  ghost predicate SameReplies(replies: seq<Reply>, others: seq<Reply>, n: nat)
    requires n <= |replies| == |others|
  {
    forall i :: 0 <= i < n ==> replies[i] == others[i]
  }

  lemma {:induction false} RepliesAgree(states: seq<State>, all: seq<State>, events: seq<Event>, replies: seq<Reply>,
                                        allReplies: seq<Reply>, n: nat)
    requires Run(states, events, replies) && RunReading(all, events, allReplies) && n <= |events|
    requires JudgesByContent(states, events, replies)
    ensures SameReplies(replies, allReplies, n) <==> NoneFailsAlone(states, events, n)
    ensures NoneFailsAlone(states, events, n) ==> Agree(states[n], all[n])
  {
    if n > 0 {
      RepliesAgree(states, all, events, replies, allReplies, n - 1);
      if NoneFailsAlone(states, events, n - 1) { NextReplyAgrees(states, all, events, replies, allReplies, n - 1); }
    }
  }

  lemma {:induction false} NextReplyAgrees(states: seq<State>, all: seq<State>, events: seq<Event>, replies: seq<Reply>,
                                           allReplies: seq<Reply>, n: nat)
    requires Run(states, events, replies) && RunReading(all, events, allReplies) && n < |events|
    requires JudgesByContent(states, events, replies) && Agree(states[n], all[n])
    ensures replies[n] == allReplies[n] <==> !(events[n].Tool? && FailsAlone(states[n], events[n].tool))
    ensures replies[n] == allReplies[n] ==> Agree(states[n + 1], all[n + 1])
  {
    hide RunFrom, Answered;
    assert Step(states[n], events[n], states[n + 1], replies[n]);
    assert StepReadingAll(all[n], events[n], all[n + 1], allReplies[n]);
    if events[n].Tool? {
      HashesAreBacked(states, events, replies, n);
      BackedIsReported(states, events, replies, n);
      ToolStepAgrees(states[n], all[n], events[n].tool);
    }
  }

  /** Reading only what changed gives every reply that reading everything gives, over any run of
      both hooks, exactly when no service is down that only unchanged files need. Whether saves
      succeed, and outages both hooks meet, do not matter. */
  lemma HashSkipLosesNothing(states: seq<State>, all: seq<State>, events: seq<Event>, replies: seq<Reply>,
                             allReplies: seq<Reply>)
    requires Run(states, events, replies) && RunReading(all, events, allReplies)
    requires JudgesByContent(states, events, replies)
    ensures replies == allReplies <==> NoneFailsAlone(states, events, |events|)
  {
    RepliesAgree(states, all, events, replies, allReplies, |events|);
    assert replies == allReplies <==> SameReplies(replies, allReplies, |events|);
  }

  // ---- A policy failure splits them ----

  /** One new file g with one import, seen while the policy answers or not. */
  function Added(g: string, content: string, target: string, deny: (string, seq<string>) -> seq<Denial>,
                 policyAnswers: bool): ToolEvent
  {
    ToolEvent({g}, {g}, map[g := content], _ => true, (_, _) => Reading([target], false), deny, true, true,
              policyAnswers, true)
  }

  lemma OneFile(files: map<string, Hash>, t: ToolEvent, g: string)
    requires t.touched == {g} && Readable(t, g)
    ensures EditsOf(files, t, SortedSet(t.touched)) == if Known(files, t, g) then [] else [ImportEdit(g, Targets(t, g))]
    ensures g in HashesAfter(files, t, SortedSet(t.touched))
            <==> Known(files, t, g) || !t.read(g, t.contents[g]).unresolved
    ensures g in HashesAfter(files, t, SortedSet(t.touched)) ==>
              HashesAfter(files, t, SortedSet(t.touched))[g] == HashOf(t, g)
  {
    var names := SortedSet(t.touched);
    assert g in names;
    forall i | 0 <= i < |names| ensures names[i] == g { assert names[i] in names; }
    SameMembersPermute(names, [g]);
    assert |multiset(names)| == |names|;
    assert names[..0] == [];
    HashOfFile(files, t, names, g);
  }

  /** On a run from the empty session: the file is judged once, then seen again unchanged while the
      policy is down. The hook has nothing to ask and is silent; reading everything fails open. */
  lemma PolicyFailureSplitsThem(g: string, content: string, target: string, deny: (string, seq<string>) -> seq<Denial>)
    returns (states: seq<State>, replies: seq<Reply>, all: seq<State>, allReplies: seq<Reply>)
    ensures var events := [Tool(Added(g, content, target, deny, true)), Tool(Added(g, content, target, deny, false))];
            && Run(states, events, replies) && RunReading(all, events, allReplies)
            && JudgesByContent(states, events, replies) && FailsAlone(states[1], events[1].tool)
            && replies[1] == ToolReplied(Silent) && allReplies[1] == ToolReplied(ToolReply.FailedOpen)
  {
    hide RunFrom, Answered, SortedSet;
    var up, down := Added(g, content, target, deny, true), Added(g, content, target, deny, false);
    var empty: State := Saved(map[], map[], None);
    var first, firstAll := RunHook(empty, up), RunReadingAll(empty, up);
    var second, secondAll := RunHook(first.0, down), RunReadingAll(firstAll.0, down);
    states, replies := [empty, first.0, second.0], [ToolReplied(first.1), ToolReplied(second.1)];
    all, allReplies := [empty, firstAll.0, secondAll.0], [ToolReplied(firstAll.1), ToolReplied(secondAll.1)];
    FirstSight(empty, g, content, target, deny, true);
    SecondSight(first.0, g, content, target, deny);
    FirstSight(firstAll.0, g, content, target, deny, false);
  }

  lemma FirstSight(s: State, g: string, content: string, target: string, deny: (string, seq<string>) -> seq<Denial>,
                   policyAnswers: bool)
    ensures var (after, reply) := RunReadingAll(s, Added(g, content, target, deny, policyAnswers));
            && (policyAnswers ==> !reply.FailedOpen? && g in after.files && after.files[g] == Sha256(content))
            && (!policyAnswers ==> reply.FailedOpen?)
  {
    var t := Added(g, content, target, deny, policyAnswers);
    hide EditsOf, HashesAfter, RunFrom;
    OneFile(map[], t, g);
    RunOutcome(s, map[], t);
    if !policyAnswers { assert Reread(map[], t, g) && |Targets(t, g)| == 1; }
  }

  lemma SecondSight(s: State, g: string, content: string, target: string, deny: (string, seq<string>) -> seq<Denial>)
    requires g in s.files && s.files[g] == Sha256(content)
    ensures var t := Added(g, content, target, deny, false);
            RunHook(s, t).1 == Silent && FailsAlone(s, t)
  {
    var t := Added(g, content, target, deny, false);
    OneFile(s.files, t, g);
    RunOutcome(s, s.files, t);
    assert Reread(map[], t, g) && |Targets(t, g)| == 1;
  }

  // ---- Once while it stays ----

  /** The reply tells the agent of this finding on this file. */
  ghost predicate Tells(reply: Reply, file: string, finding: string) {
    reply.ToolReplied? && reply.tool.Denied?
    && exists m :: m in reply.tool.messages && m.file == file && m.denial.finding == finding
  }

  /** A saved run after which the finding is free to be told again: it read the file without it,
      or the file no longer differs from the session base. */
  ghost predicate Releases(s: State, ev: Event, reply: Reply, file: string, finding: string) {
    && ev.Tool? && reply.ToolReplied? && !reply.tool.FailedOpen?
    && (file !in ev.tool.touched
        || (Reread(s.files, ev.tool, file) && finding !in FindingsIn(ev.tool, file, ev.tool.contents[file])))
  }

  lemma TellingIsRecorded(s: State, ev: Event, after: State, reply: Reply, file: string, finding: string)
    requires Step(s, ev, after, reply) && Tells(reply, file, finding)
    ensures finding !in ReportedOn(s.reported, file) && finding in ReportedOn(after.reported, file)
  {
    var t := ev.tool;
    var names, kept := SortedSet(t.touched), Pruned(s.reported, t.touched);
    var edits := EditsOf(s.files, t, names);
    MessagesAreFresh(edits, t, kept);
    EditsAreReread(s.files, t, names);
    ReportAfterRun(s, s.files, t, file);
    var m :| m in reply.tool.messages && m.file == file && m.denial.finding == finding;
    var e :| e in edits && Announces(e, t, kept, m);
    assert m.denial.finding in Findings(Judged(t, file, e.targets));
  }

  lemma ForgettingIsReleasing(s: State, ev: Event, after: State, reply: Reply, file: string, finding: string)
    requires Step(s, ev, after, reply)
    requires finding in ReportedOn(s.reported, file) && finding !in ReportedOn(after.reported, file)
    ensures Releases(s, ev, reply, file, finding)
  {
    if ev.Tool? { ReportAfterRun(s, s.files, ev.tool, file); }
  }

  lemma {:induction false} ForgottenSomewhere(states: seq<State>, events: seq<Event>, replies: seq<Reply>, file: string,
                                              finding: string, a: nat, b: nat)
    returns (k: nat)
    requires Run(states, events, replies) && a <= b <= |events|
    requires finding in ReportedOn(states[a].reported, file) && finding !in ReportedOn(states[b].reported, file)
    ensures a <= k < b && Releases(states[k], events[k], replies[k], file, finding)
    decreases b - a
  {
    assert Step(states[b - 1], events[b - 1], states[b], replies[b - 1]);
    if finding in ReportedOn(states[b - 1].reported, file) {
      k := b - 1;
      ForgettingIsReleasing(states[k], events[k], states[b], replies[k], file, finding);
    } else {
      k := ForgottenSomewhere(states, events, replies, file, finding, a, b - 1);
    }
  }

  /** Between two reports of one finding on one file lies a saved run that read the file without
      it, or found the file back at the session base. */
  lemma OnceWhileItStays(states: seq<State>, events: seq<Event>, replies: seq<Reply>, i: nat, j: nat, file: string,
                         finding: string)
    requires Run(states, events, replies) && i < j < |events|
    requires Tells(replies[i], file, finding) && Tells(replies[j], file, finding)
    ensures exists k :: i < k < j && Releases(states[k], events[k], replies[k], file, finding)
  {
    assert Step(states[i], events[i], states[i + 1], replies[i])
           && Step(states[j], events[j], states[j + 1], replies[j]);
    TellingIsRecorded(states[i], events[i], states[i + 1], replies[i], file, finding);
    TellingIsRecorded(states[j], events[j], states[j + 1], replies[j], file, finding);
    var k := ForgottenSomewhere(states, events, replies, file, finding, i + 1, j);
  }

  // ---- The stop hook over a run ----

  /** A pass, a change that cannot be judged, or nothing changed: the block is forgotten. */
  predicate Clears(ev: Event) {
    ev.Stopping? && (ev.stop.check.Untouched? || (ev.stop.check.Result? && !ev.stop.check.status.Fail?))
  }

  /** The main agent stops on a failing change and is not already being repaired. */
  predicate FirstStop(ev: Event) {
    ev.Stopping? && !ev.stop.active && ev.stop.check.Result? && ev.stop.check.status.Fail?
  }

  predicate MainFirstStop(ev: Event) {
    FirstStop(ev) && !ev.stop.subagent
  }

  /** What the run so far tells of the last block that was recorded: told from the events alone. A stop
      whose save fails leaves no trace. */
  function Remembered(events: seq<Event>): Option<Digest> {
    if |events| == 0 then None
    else
      var ev := events[|events| - 1];
      if MainFirstStop(ev) && ev.stop.saves then Some(ev.stop.check.digest)
      else if Clears(ev) && ev.stop.saves then None
      else Remembered(events[..|events| - 1])
  }

  lemma {:induction false} BlockIsRemembered(states: seq<State>, events: seq<Event>, replies: seq<Reply>, n: nat)
    requires Run(states, events, replies) && n <= |events|
    ensures states[n].blocked == Remembered(events[..n])
  {
    if n > 0 {
      BlockIsRemembered(states, events, replies, n - 1);
      assert Step(states[n - 1], events[n - 1], states[n], replies[n - 1]);
      assert events[..n][..n - 1] == events[..n - 1];
    }
  }

  /** A stop is blocked exactly when it is a first stop on a failing change and either a subagent's
      or not on the very digest the run last recorded for the main agent, whichever saves failed. */
  lemma BlocksExactly(states: seq<State>, events: seq<Event>, replies: seq<Reply>, n: nat)
    requires Run(states, events, replies) && n < |events| && events[n].Stopping?
    ensures replies[n] == StopReplied(Block) <==>
            && FirstStop(events[n])
            && (events[n].stop.subagent || Remembered(events[..n]) != Some(events[n].stop.check.digest))
  {
    BlockIsRemembered(states, events, replies, n);
    assert Step(states[n], events[n], states[n + 1], replies[n]);
  }

  /** A stop is quiet exactly when the tree is untouched or its change passes, and no block the run has
      recorded could not be cleared. Every other stop that is not blocked is told something: one that
      could not be opened, compared or judged, an unknown change, a change already being repaired. */
  lemma QuietExactly(states: seq<State>, events: seq<Event>, replies: seq<Reply>, n: nat)
    requires Run(states, events, replies) && n < |events| && events[n].Stopping?
    ensures replies[n] == StopReplied(Quiet) <==>
            IsFine(events[n].stop.check) && (events[n].stop.saves || Remembered(events[..n]).None?)
    ensures replies[n] == StopReplied(Notice) <==>
            && replies[n] != StopReplied(Block)
            && !(IsFine(events[n].stop.check) && (events[n].stop.saves || Remembered(events[..n]).None?))
  {
    BlockIsRemembered(states, events, replies, n);
    assert Step(states[n], events[n], states[n + 1], replies[n]);
  }

  /** Without any promise about saving: a stop already being repaired is never blocked, and a
      subagent's failing stop never touches the session. */
  lemma RepairAndSubagents(states: seq<State>, events: seq<Event>, replies: seq<Reply>, n: nat)
    requires Run(states, events, replies) && n < |events| && events[n].Stopping?
    ensures events[n].stop.active ==> replies[n] != StopReplied(Block)
    ensures events[n].stop.subagent && events[n].stop.check.Result? && events[n].stop.check.status.Fail? ==>
              states[n + 1] == states[n]
  {
    assert Step(states[n], events[n], states[n + 1], replies[n]);
  }

  /** Forgets the block on d for good: clears it, or replaces it by a block on another digest, and is
      saved. */
  ghost predicate Separates(ev: Event, reply: Reply, d: Digest) {
    (Clears(ev) || (MainFirstStop(ev) && reply == StopReplied(Block) && ev.stop.check.digest != d)) && ev.stop.saves
  }

  /** The main agent is blocked on d. */
  ghost predicate BlockedOn(ev: Event, reply: Reply, d: Digest) {
    ev.Stopping? && ev.stop.check == Result(Fail, d) && !ev.stop.subagent && reply == StopReplied(Block)
  }

  /** Once the first of them was recorded, two blocks of the main agent on one digest are separated by a
      pass, a change that cannot be judged, a tree back at the base, or a block on another digest. */
  lemma BlocksOncePerDigest(states: seq<State>, events: seq<Event>, replies: seq<Reply>, i: nat, j: nat, d: Digest)
    requires Run(states, events, replies) && i < j < |events|
    requires BlockedOn(events[i], replies[i], d) && events[i].stop.saves && BlockedOn(events[j], replies[j], d)
    ensures exists k :: i < k < j && Separates(events[k], replies[k], d)
  {
    BlocksExactly(states, events, replies, i);
    BlocksExactly(states, events, replies, j);
    assert events[..i + 1][..i] == events[..i];
    var k := FirstChange(events, d, i + 1, j);
    if !Clears(events[k]) { BlocksExactly(states, events, replies, k); }
    assert Separates(events[k], replies[k], d);
  }

  /** When the save of the first block is what decides: the same stop right after it is blocked again
      exactly when that save failed. */
  lemma RepeatBlocksExactly(states: seq<State>, events: seq<Event>, replies: seq<Reply>, i: nat, d: Digest)
    requires Run(states, events, replies) && i + 1 < |events| && BlockedOn(events[i], replies[i], d)
    requires MainFirstStop(events[i + 1]) && events[i + 1].stop.check.digest == d
    ensures replies[i + 1] == StopReplied(Block) <==> !events[i].stop.saves
  {
    BlocksExactly(states, events, replies, i);
    BlocksExactly(states, events, replies, i + 1);
    assert events[..i + 1][..i] == events[..i];
  }

  /** A run from the empty session that blocks twice on one digest with nothing in between. */
  lemma UnsavedBlockRepeats(d: Digest) returns (states: seq<State>, events: seq<Event>, replies: seq<Reply>)
    ensures |events| == 2 && Run(states, events, replies)
    ensures BlockedOn(events[0], replies[0], d) && BlockedOn(events[1], replies[1], d)
  {
    var empty: State := Saved(map[], map[], None);
    var ev := Stopping(StopEvent(false, false, Result(Fail, d), false));
    states, events, replies := [empty, empty, empty], [ev, ev], [StopReplied(Block), StopReplied(Block)];
  }

  /** The first event that changes what is remembered: until then it stays d. */
  lemma {:induction false} FirstChange(events: seq<Event>, d: Digest, a: nat, b: nat) returns (k: nat)
    requires a <= b <= |events|
    requires Remembered(events[..a]) == Some(d) && Remembered(events[..b]) != Some(d)
    ensures a <= k < b && Remembered(events[..k]) == Some(d)
    ensures Clears(events[k]) || (MainFirstStop(events[k]) && events[k].stop.check.digest != d)
    ensures events[k].stop.saves
    decreases b - a
  {
    assert events[..a + 1][..a] == events[..a];
    if Remembered(events[..a + 1]) == Some(d) {
      k := FirstChange(events, d, a + 1, b);
    } else {
      k := a;
    }
  }
}
