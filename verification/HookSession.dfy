/**
  What the hooks remember about one agent session, and the post-tool-use hook
  (cmd/archfit/hook_session.go). A content hash is kept as the content it names:
  SHA-256 is taken to tell contents apart. Git, the working tree and the policy
  service are what an event says they answered.
*/
module HookSession {
  import opened Orders

  datatype Hash = Sha256(content: string)

  /** The imports the added lines of a file name. unresolved: one names a file that is not there yet. */
  datatype Reading = Reading(targets: seq<string>, unresolved: bool)

  /** A denial the policy gives an import, and the message for it. */
  datatype Denial = Denial(finding: string, text: string)

  datatype Message = Message(file: string, denial: Denial)

  datatype ImportEdit = ImportEdit(file: string, targets: seq<string>)

  /** One post-tool-use event: the files git lists as differing from the session base, those of
      them every line of which is new, the contents that can be read, the imports their added
      lines name, what the policy says of them, and which of the services it asks answer. */
  datatype ToolEvent = ToolEvent(
    touched: set<string>,
    wholeNew: set<string>,
    contents: map<string, string>,
    readsImports: string -> bool,
    read: (string, string) -> Reading,
    judge: (string, seq<string>) -> seq<Denial>,
    gitAnswers: bool,
    diffAnswers: bool,
    policyAnswers: bool,
    saves: bool)

  /** What a session file holds. Reported keeps each file's finding IDs sorted and compacted: a set. */
  datatype Saved<+B> = Saved(files: map<string, Hash>, reported: map<string, set<string>>, blocked: B)

  datatype ToolReply = FailedOpen | Silent | Denied(messages: seq<Message>)

  // ---- Specification, file by file ----

  /** The file is read at all: it holds imports and is not deleted. */
  predicate Readable(ev: ToolEvent, file: string) {
    ev.readsImports(file) && file in ev.contents
  }

  function HashOf(ev: ToolEvent, file: string): Hash
    requires file in ev.contents
  {
    Sha256(ev.contents[file])
  }

  predicate Known(files: map<string, Hash>, ev: ToolEvent, file: string) {
    file in ev.contents && file in files && files[file] == HashOf(ev, file)
  }

  /** The file is read again: its content is not the one read last. */
  predicate Reread(files: map<string, Hash>, ev: ToolEvent, file: string) {
    Readable(ev, file) && !Known(files, ev, file)
  }

  function Targets(ev: ToolEvent, file: string): seq<string>
    requires file in ev.contents
  {
    ev.read(file, ev.contents[file]).targets
  }

  function HashesAfter(files: map<string, Hash>, ev: ToolEvent, names: seq<string>): map<string, Hash> {
    if |names| == 0 then map[]
    else
      var file := names[|names| - 1];
      var before := HashesAfter(files, ev, names[..|names| - 1]);
      if Readable(ev, file) && (Known(files, ev, file) || !ev.read(file, ev.contents[file]).unresolved)
      then before[file := HashOf(ev, file)] else before
  }

  function EditsOf(files: map<string, Hash>, ev: ToolEvent, names: seq<string>): seq<ImportEdit> {
    if |names| == 0 then []
    else
      var file := names[|names| - 1];
      EditsOf(files, ev, names[..|names| - 1])
      + if Reread(files, ev, file) then [ImportEdit(file, Targets(ev, file))] else []
  }

  /** The denials of a file with these added imports. */
  function Judged(ev: ToolEvent, file: string, targets: seq<string>): seq<Denial> {
    if |targets| == 0 then [] else ev.judge(file, targets)
  }

  function Findings(denials: seq<Denial>): set<string> {
    set d | d in denials :: d.finding
  }

  function ReportedOn(reported: map<string, set<string>>, file: string): set<string> {
    if file in reported then reported[file] else {}
  }

  /** A message for each denial whose finding was not reported before. */
  function Fresh(file: string, denials: seq<Denial>, known: set<string>): seq<Message> {
    if |denials| == 0 then []
    else
      var last := denials[|denials| - 1];
      Fresh(file, denials[..|denials| - 1], known) + if last.finding in known then [] else [Message(file, last)]
  }

  function MessagesFor(edits: seq<ImportEdit>, ev: ToolEvent, reported: map<string, set<string>>): seq<Message> {
    if |edits| == 0 then []
    else
      var e := edits[|edits| - 1];
      MessagesFor(edits[..|edits| - 1], ev, reported)
      + Fresh(e.file, Judged(ev, e.file, e.targets), ReportedOn(reported, e.file))
  }

  /** A file read again keeps just the denials it still holds. */
  function Settle(reported: map<string, set<string>>, file: string, held: set<string>): map<string, set<string>> {
    if held == {} then reported - {file} else reported[file := held]
  }

  function ReportedAfter(edits: seq<ImportEdit>, ev: ToolEvent,
                         reported: map<string, set<string>>): map<string, set<string>>
  {
    if |edits| == 0 then reported
    else
      var e := edits[|edits| - 1];
      Settle(ReportedAfter(edits[..|edits| - 1], ev, reported), e.file, Findings(Judged(ev, e.file, e.targets)))
  }

  function Pruned(reported: map<string, set<string>>, touched: set<string>): map<string, set<string>> {
    map f | f in reported && f in touched :: reported[f]
  }

  predicate NeedsPolicy(edits: seq<ImportEdit>) {
    exists e :: e in edits && |e.targets| != 0
  }

  /** A file the base has too is compared with it to find its added lines. */
  predicate NeedsDiff(ev: ToolEvent, edits: seq<ImportEdit>) {
    exists e :: e in edits && e.file !in ev.wholeNew
  }

  /** One run of the hook on the session it opened, against the hashes it goes by. */
  ghost function RunFrom<B>(s: Saved<B>, files: map<string, Hash>, ev: ToolEvent): (Saved<B>, ToolReply) {
    var edits := EditsOf(files, ev, SortedSet(ev.touched));
    var kept := Pruned(s.reported, ev.touched);
    if !ev.gitAnswers || (NeedsDiff(ev, edits) && !ev.diffAnswers) || (NeedsPolicy(edits) && !ev.policyAnswers)
      || !ev.saves then (s, FailedOpen)
    else
      var messages := MessagesFor(edits, ev, kept);
      (Saved(HashesAfter(files, ev, SortedSet(ev.touched)), ReportedAfter(edits, ev, kept), s.blocked),
       if messages == [] then Silent else Denied(messages))
  }

  /** The hook: a file whose content is the one read last is not read again. */
  ghost function RunHook<B>(s: Saved<B>, ev: ToolEvent): (Saved<B>, ToolReply) {
    RunFrom(s, s.files, ev)
  }

  /** The hook without the shortcut: every touched file is read every time. */
  ghost function RunReadingAll<B>(s: Saved<B>, ev: ToolEvent): (Saved<B>, ToolReply) {
    RunFrom(s, map[], ev)
  }

  // ---- The same, one file at a time ----

  ghost predicate DistinctFiles(edits: seq<ImportEdit>) {
    forall i, j :: 0 <= i < j < |edits| ==> edits[i].file != edits[j].file
  }

  lemma {:induction false} EditsAreReread(files: map<string, Hash>, ev: ToolEvent, names: seq<string>)
    requires NoDup(names)
    ensures DistinctFiles(EditsOf(files, ev, names))
    ensures forall e ::
              e in EditsOf(files, ev, names)
              <==> e.file in names && Reread(files, ev, e.file) && e.targets == Targets(ev, e.file)
  {
    if |names| != 0 {
      var last := |names| - 1;
      assert names == names[..last] + [names[last]];
      assert names[last] !in names[..last];
      EditsAreReread(files, ev, names[..last]);
      var before := EditsOf(files, ev, names[..last]);
      forall e | e in before ensures e.file != names[last] {}
      forall i | 0 <= i < |before| ensures before[i].file != names[last] { assert before[i] in before; }
    }
  }

  lemma {:induction false} HashOfFile(files: map<string, Hash>, ev: ToolEvent, names: seq<string>, file: string)
    requires NoDup(names)
    ensures var after := HashesAfter(files, ev, names);
            && (file in after <==>
                file in names && Readable(ev, file)
                && (Known(files, ev, file) || !ev.read(file, ev.contents[file]).unresolved))
            && (file in after ==> after[file] == HashOf(ev, file))
  {
    if |names| != 0 {
      var last := |names| - 1;
      assert names == names[..last] + [names[last]];
      assert names[last] !in names[..last];
      HashOfFile(files, ev, names[..last], file);
    }
  }

  /** A file none of the edits is about keeps what was reported on it. */
  lemma {:induction false} ReportedElsewhere(edits: seq<ImportEdit>, ev: ToolEvent, reported: map<string, set<string>>,
                                             file: string)
    requires forall e :: e in edits ==> e.file != file
    ensures var after := ReportedAfter(edits, ev, reported);
            (file in after <==> file in reported) && (file in after ==> after[file] == reported[file])
  {
    if |edits| != 0 {
      var last := |edits| - 1;
      assert edits == edits[..last] + [edits[last]];
      assert edits[last] in edits;
      ReportedElsewhere(edits[..last], ev, reported, file);
    }
  }

  /** A file read again keeps just the findings judged for it. */
  lemma {:induction false} ReportedOnEdit(edits: seq<ImportEdit>, ev: ToolEvent, reported: map<string, set<string>>,
                                          i: nat)
    requires DistinctFiles(edits) && i < |edits|
    ensures var e := edits[i];
            var held, after := Findings(Judged(ev, e.file, e.targets)), ReportedAfter(edits, ev, reported);
            (e.file in after <==> held != {}) && (e.file in after ==> after[e.file] == held)
  {
    var last := |edits| - 1;
    if i < last {
      assert edits[..last][i] == edits[i];
      ReportedOnEdit(edits[..last], ev, reported, i);
    }
  }

  /** The messages only look at what was reported on the files of the edits. */
  lemma {:induction false} MessagesLookOnlyAtEdits(edits: seq<ImportEdit>, ev: ToolEvent, a: map<string, set<string>>,
                                                   b: map<string, set<string>>)
    requires forall e :: e in edits && |e.targets| != 0 ==> ReportedOn(a, e.file) == ReportedOn(b, e.file)
    ensures MessagesFor(edits, ev, a) == MessagesFor(edits, ev, b)
  {
    if |edits| != 0 {
      var last := |edits| - 1;
      assert edits == edits[..last] + [edits[last]];
      assert edits[last] in edits;
      MessagesLookOnlyAtEdits(edits[..last], ev, a, b);
    }
  }

  lemma {:induction false} FreshMessages(file: string, denials: seq<Denial>, known: set<string>)
    ensures forall m ::
              m in Fresh(file, denials, known) <==> m.file == file && m.denial in denials && m.denial.finding !in known
  {
    if |denials| != 0 {
      var last := |denials| - 1;
      assert denials == denials[..last] + [denials[last]];
      FreshMessages(file, denials[..last], known);
    }
  }

  ghost predicate Announces(e: ImportEdit, ev: ToolEvent, reported: map<string, set<string>>, m: Message) {
    && m.file == e.file && m.denial in Judged(ev, e.file, e.targets)
    && m.denial.finding !in ReportedOn(reported, e.file)
  }

  lemma {:induction false} MessagesAreFresh(edits: seq<ImportEdit>, ev: ToolEvent, reported: map<string, set<string>>)
    ensures forall m ::
              m in MessagesFor(edits, ev, reported) <==> exists e :: e in edits && Announces(e, ev, reported, m)
  {
    if |edits| != 0 {
      var last := |edits| - 1;
      var e := edits[last];
      assert edits == edits[..last] + [e];
      MessagesAreFresh(edits[..last], ev, reported);
      FreshMessages(e.file, Judged(ev, e.file, e.targets), ReportedOn(reported, e.file));
      forall m
        ensures m in MessagesFor(edits, ev, reported) <==> exists x :: x in edits && Announces(x, ev, reported, m)
      {
        if m in MessagesFor(edits[..last], ev, reported) {
          var x :| x in edits[..last] && Announces(x, ev, reported, m);
          assert x in edits;
        }
        assert e in edits;
        if x :| x in edits && Announces(x, ev, reported, m) { assert x in edits[..last] || x == e; }
      }
    }
  }

  // ---- What the hook answers ----

  /** The findings an event would judge a file of this content to hold. */
  function FindingsIn(t: ToolEvent, file: string, content: string): set<string> {
    Findings(Judged(t, file, t.read(file, content).targets))
  }

  /** A successful run of the hook changes what is reported on a file only by reading it again. */
  lemma {:induction false} ReportAfterRun<B>(s: Saved<B>, files: map<string, Hash>, t: ToolEvent, f: string)
    ensures var edits, kept := EditsOf(files, t, SortedSet(t.touched)), Pruned(s.reported, t.touched);
            var after := ReportedAfter(edits, t, kept);
            && (f !in t.touched ==> f !in after)
            && (f in t.touched && !Reread(files, t, f) ==>
                  (f in after <==> f in s.reported) && (f in after ==> after[f] == s.reported[f]))
            && (f in t.touched && Reread(files, t, f) ==>
                  && (f in after <==> FindingsIn(t, f, t.contents[f]) != {})
                  && (f in after ==> after[f] == FindingsIn(t, f, t.contents[f])))
  {
    var names := SortedSet(t.touched);
    var edits, kept := EditsOf(files, t, names), Pruned(s.reported, t.touched);
    EditsAreReread(files, t, names);
    if f in t.touched && Reread(files, t, f) {
      var e := ImportEdit(f, Targets(t, f));
      assert e in edits;
      var i :| 0 <= i < |edits| && edits[i] == e;
      ReportedOnEdit(edits, t, kept, i);
    } else {
      ReportedElsewhere(edits, t, kept, f);
    }
  }

  /** A denial the agent has not been told of, on a file that was read again. */
  ghost predicate IsNew<B>(s: Saved<B>, ev: ToolEvent, m: Message) {
    && m.file in ev.touched && Reread(s.files, ev, m.file)
    && m.denial in Judged(ev, m.file, Targets(ev, m.file))
    && m.denial.finding !in ReportedOn(s.reported, m.file)
  }

  /** Git, the diff of a file the base has too, the policy for a file with imports, or the save fails. */
  ghost predicate Fails(files: map<string, Hash>, ev: ToolEvent) {
    || !ev.gitAnswers || !ev.saves
    || (exists f :: f in ev.touched && Reread(files, ev, f)
                    && ((f !in ev.wholeNew && !ev.diffAnswers) || (Targets(ev, f) != [] && !ev.policyAnswers)))
  }

  ghost predicate ByFile(messages: seq<Message>) {
    forall i, j :: 0 <= i < j < |messages| ==> StrLe(messages[i].file, messages[j].file)
  }

  /** What the messages tell of one file, in their order. */
  function Told(messages: seq<Message>, file: string): seq<Denial> {
    if |messages| == 0 then []
    else
      var last := messages[|messages| - 1];
      Told(messages[..|messages| - 1], file) + if last.file == file then [last.denial] else []
  }

  function Unreported(denials: seq<Denial>, known: set<string>): seq<Denial> {
    if |denials| == 0 then []
    else
      var last := denials[|denials| - 1];
      Unreported(denials[..|denials| - 1], known) + if last.finding in known then [] else [last]
  }

  /** The denials of a file that was read again of which the agent has not been told, in their order. */
  function NewOn<B>(s: Saved<B>, ev: ToolEvent, f: string): seq<Denial>
    requires Reread(s.files, ev, f)
  {
    Unreported(Judged(ev, f, Targets(ev, f)), ReportedOn(s.reported, f))
  }

  /** The reply: silence when nothing is new, else a message for each new denial, file by file. */
  ghost predicate Answers<B>(s: Saved<B>, ev: ToolEvent, reply: ToolReply) {
    match reply
    case FailedOpen => Fails(s.files, ev)
    case Silent => !Fails(s.files, ev) && forall m :: !IsNew(s, ev, m)
    case Denied(messages) =>
      && !Fails(s.files, ev) && messages != [] && ByFile(messages)
      && (forall m :: m in messages <==> IsNew(s, ev, m))
      && forall f :: Told(messages, f) == if f in ev.touched && Reread(s.files, ev, f) then NewOn(s, ev, f) else []
  }

  /** The session saved after a run that did not fail: the block is left alone, a file no longer touched
      is forgotten, one read again has just the findings it holds now, another keeps its own. */
  ghost predicate Remembers<B>(s: Saved<B>, ev: ToolEvent, after: Saved<B>) {
    && after.blocked == s.blocked
    && (forall f :: f in after.files <==>
                      && f in ev.touched && Readable(ev, f)
                      && (Known(s.files, ev, f) || !ev.read(f, ev.contents[f]).unresolved))
    && (forall f :: f in after.files ==> after.files[f] == HashOf(ev, f))
    && forall f :: ReportedOn(after.reported, f) ==
                     if f !in ev.touched then {}
                     else if Reread(s.files, ev, f) then FindingsIn(ev, f, ev.contents[f])
                     else ReportedOn(s.reported, f)
  }

  /** One run, told from the session and the event alone. */
  ghost predicate HookDoes<B>(s: Saved<B>, ev: ToolEvent, after: Saved<B>, reply: ToolReply) {
    Answers(s, ev, reply) && if reply.FailedOpen? then after == s else Remembers(s, ev, after)
  }

  ghost predicate InFileOrder(edits: seq<ImportEdit>) {
    forall i, j :: 0 <= i < j < |edits| ==> StrLe(edits[i].file, edits[j].file)
  }

  lemma {:induction false} EditsBySortedFile(files: map<string, Hash>, ev: ToolEvent, names: seq<string>)
    requires NoDup(names) && Sorted(names, StrLe)
    ensures InFileOrder(EditsOf(files, ev, names))
  {
    hide StrLe, Reread;
    if |names| != 0 {
      var last := |names| - 1;
      EditsBySortedFile(files, ev, names[..last]);
      var before := EditsOf(files, ev, names[..last]);
      EditsAreReread(files, ev, names[..last]);
      forall i | 0 <= i < |before| ensures StrLe(before[i].file, names[last]) {
        assert before[i] in before;
        assert before[i].file in names[..last];
        var j :| 0 <= j < last && names[j] == before[i].file;
      }
      var edits := EditsOf(files, ev, names);
      assert forall i :: 0 <= i < |before| ==> edits[i] == before[i];
      assert |edits| > |before| ==> |edits| == |before| + 1 && edits[|before|].file == names[last];
    }
  }

  lemma {:induction false} MessagesByFile(edits: seq<ImportEdit>, ev: ToolEvent, reported: map<string, set<string>>)
    requires InFileOrder(edits)
    ensures ByFile(MessagesFor(edits, ev, reported))
  {
    hide StrLe, Fresh, Judged;
    if |edits| != 0 {
      var last := |edits| - 1;
      var e, before := edits[last], MessagesFor(edits[..last], ev, reported);
      MessagesByFile(edits[..last], ev, reported);
      MessagesAreFresh(edits[..last], ev, reported);
      var news := Fresh(e.file, Judged(ev, e.file, e.targets), ReportedOn(reported, e.file));
      FreshMessages(e.file, Judged(ev, e.file, e.targets), ReportedOn(reported, e.file));
      StrLeTotalOrder();
      forall i | 0 <= i < |before| ensures StrLe(before[i].file, e.file) {
        assert before[i] in before;
        var x :| x in edits[..last] && Announces(x, ev, reported, before[i]);
      }
      forall i | 0 <= i < |news| ensures news[i].file == e.file { assert news[i] in news; }
    }
  }

  lemma {:induction false} ToldOfBoth(a: seq<Message>, b: seq<Message>, file: string)
    ensures Told(a + b, file) == Told(a, file) + Told(b, file)
  {
    if |b| == 0 {
      assert a + b == a;
    } else {
      var last := |b| - 1;
      ToldOfBoth(a, b[..last], file);
      assert (a + b)[..|a + b| - 1] == a + b[..last];
    }
  }

  lemma {:induction false} ToldOfFresh(file: string, denials: seq<Denial>, known: set<string>, f: string)
    ensures Told(Fresh(file, denials, known), f) == if f == file then Unreported(denials, known) else []
  {
    if |denials| != 0 {
      var last := |denials| - 1;
      ToldOfFresh(file, denials[..last], known, f);
      ToldOfBoth(Fresh(file, denials[..last], known), [Message(file, denials[last])], f);
      ToldOfOne(Message(file, denials[last]), f);
      assert Fresh(file, denials[..last], known) + [] == Fresh(file, denials[..last], known);
    }
  }

  lemma ToldOfOne(m: Message, f: string)
    ensures Told([m], f) == if m.file == f then [m.denial] else []
  {
    assert [m][..0] == [];
  }

  lemma {:induction false} ToldElsewhere(edits: seq<ImportEdit>, ev: ToolEvent, reported: map<string, set<string>>,
                                         f: string)
    requires forall i :: 0 <= i < |edits| ==> edits[i].file != f
    ensures Told(MessagesFor(edits, ev, reported), f) == []
  {
    if |edits| != 0 {
      var last := |edits| - 1;
      var e := edits[last];
      var denials, known := Judged(ev, e.file, e.targets), ReportedOn(reported, e.file);
      ToldElsewhere(edits[..last], ev, reported, f);
      ToldOfBoth(MessagesFor(edits[..last], ev, reported), Fresh(e.file, denials, known), f);
      ToldOfFresh(e.file, denials, known, f);
    }
  }

  lemma {:induction false} ToldOfEdit(edits: seq<ImportEdit>, ev: ToolEvent, reported: map<string, set<string>>,
                                      i: nat)
    requires DistinctFiles(edits) && i < |edits|
    ensures Told(MessagesFor(edits, ev, reported), edits[i].file)
            == Unreported(Judged(ev, edits[i].file, edits[i].targets), ReportedOn(reported, edits[i].file))
  {
    hide Told, Fresh, Judged, Unreported;
    var last := |edits| - 1;
    var e, f := edits[last], edits[i].file;
    var denials, known := Judged(ev, e.file, e.targets), ReportedOn(reported, e.file);
    ToldOfBoth(MessagesFor(edits[..last], ev, reported), Fresh(e.file, denials, known), f);
    ToldOfFresh(e.file, denials, known, f);
    if i < last {
      assert edits[..last][i] == edits[i];
      ToldOfEdit(edits[..last], ev, reported, i);
    } else {
      ToldElsewhere(edits[..last], ev, reported, f);
    }
  }

  lemma {:induction false} FailsExactly(files: map<string, Hash>, ev: ToolEvent)
    ensures var edits := EditsOf(files, ev, SortedSet(ev.touched));
            Fails(files, ev) <==>
            !ev.gitAnswers || (NeedsDiff(ev, edits) && !ev.diffAnswers) || (NeedsPolicy(edits) && !ev.policyAnswers)
            || !ev.saves
  {
    var edits := EditsOf(files, ev, SortedSet(ev.touched));
    EditsAreReread(files, ev, SortedSet(ev.touched));
    forall f | f in ev.touched && Reread(files, ev, f) ensures ImportEdit(f, Targets(ev, f)) in edits {}
  }

  lemma {:induction false} NewIsAnnounced<B>(s: Saved<B>, ev: ToolEvent, m: Message)
    ensures var edits, kept := EditsOf(s.files, ev, SortedSet(ev.touched)), Pruned(s.reported, ev.touched);
            m in MessagesFor(edits, ev, kept) <==> IsNew(s, ev, m)
  {
    var names, kept := SortedSet(ev.touched), Pruned(s.reported, ev.touched);
    var edits := EditsOf(s.files, ev, names);
    EditsAreReread(s.files, ev, names);
    MessagesAreFresh(edits, ev, kept);
    if IsNew(s, ev, m) {
      var e := ImportEdit(m.file, Targets(ev, m.file));
      assert e in edits && Announces(e, ev, kept, m);
    }
  }

  lemma {:induction false} NewIsTold<B>(s: Saved<B>, ev: ToolEvent, f: string)
    ensures var edits, kept := EditsOf(s.files, ev, SortedSet(ev.touched)), Pruned(s.reported, ev.touched);
            Told(MessagesFor(edits, ev, kept), f)
            == if f in ev.touched && Reread(s.files, ev, f) then NewOn(s, ev, f) else []
  {
    hide Told, MessagesFor, Judged, EditsOf;
    var names, kept := SortedSet(ev.touched), Pruned(s.reported, ev.touched);
    var edits := EditsOf(s.files, ev, names);
    EditsAreReread(s.files, ev, names);
    if f in ev.touched && Reread(s.files, ev, f) {
      var e := ImportEdit(f, Targets(ev, f));
      assert e in edits;
      var i :| 0 <= i < |edits| && edits[i] == e;
      ToldOfEdit(edits, ev, kept, i);
    } else {
      forall i | 0 <= i < |edits| ensures edits[i].file != f { assert edits[i] in edits; }
      ToldElsewhere(edits, ev, kept, f);
    }
  }

  /** What one run answers and what it saves. */
  lemma {:induction false} HookAnswers<B>(s: Saved<B>, ev: ToolEvent)
    ensures HookDoes(s, ev, RunHook(s, ev).0, RunHook(s, ev).1)
  {
    hide EditsOf, HashesAfter, MessagesFor, ReportedAfter, Fails, ByFile, Judged, Told, NewOn;
    var names, kept := SortedSet(ev.touched), Pruned(s.reported, ev.touched);
    var edits := EditsOf(s.files, ev, names);
    var messages, after := MessagesFor(edits, ev, kept), RunHook(s, ev).0;
    FailsExactly(s.files, ev);
    if !Fails(s.files, ev) {
      EditsBySortedFile(s.files, ev, names);
      MessagesByFile(edits, ev, kept);
      forall m ensures m in messages <==> IsNew(s, ev, m) { NewIsAnnounced(s, ev, m); }
      forall f ensures Told(messages, f) == if f in ev.touched && Reread(s.files, ev, f) then NewOn(s, ev, f) else [] {
        NewIsTold(s, ev, f);
      }
      if messages != [] { assert messages[0] in messages; }
      forall f
        ensures f in after.files <==>
                  && f in ev.touched && Readable(ev, f)
                  && (Known(s.files, ev, f) || !ev.read(f, ev.contents[f]).unresolved)
        ensures f in after.files ==> after.files[f] == HashOf(ev, f)
      {
        HashOfFile(s.files, ev, names, f);
      }
      forall f
        ensures ReportedOn(after.reported, f) ==
                  if f !in ev.touched then {}
                  else if Reread(s.files, ev, f) then FindingsIn(ev, f, ev.contents[f])
                  else ReportedOn(s.reported, f)
      {
        ReportAfterRun(s, s.files, ev, f);
      }
    }
  }

  // ---- The hook as it runs ----

  function WithTargets(edits: seq<ImportEdit>, some: bool): seq<ImportEdit> {
    if |edits| == 0 then []
    else
      var e := edits[|edits| - 1];
      WithTargets(edits[..|edits| - 1], some) + if (|e.targets| != 0) == some then [e] else []
  }

  lemma {:induction false} WithTargetsMembers(edits: seq<ImportEdit>, some: bool)
    ensures forall e :: e in WithTargets(edits, some) <==> e in edits && (|e.targets| != 0) == some
    ensures DistinctFiles(edits) ==> DistinctFiles(WithTargets(edits, some))
  {
    if |edits| != 0 {
      var last := |edits| - 1;
      assert edits == edits[..last] + [edits[last]];
      WithTargetsMembers(edits[..last], some);
      if DistinctFiles(edits) { LastIsElsewhere(edits, WithTargets(edits[..last], some)); }
    }
  }

  lemma LastIsElsewhere(edits: seq<ImportEdit>, some: seq<ImportEdit>)
    requires |edits| > 0 && DistinctFiles(edits)
    requires forall e :: e in some ==> e in edits[..|edits| - 1]
    ensures forall i :: 0 <= i < |some| ==> some[i].file != edits[|edits| - 1].file
  {
    forall i | 0 <= i < |some| ensures some[i].file != edits[|edits| - 1].file {
      assert some[i] in some;
      var j :| 0 <= j < |edits| - 1 && edits[..|edits| - 1][j] == some[i];
      assert edits[j] == some[i];
    }
  }

  lemma MapsAgree(a: map<string, set<string>>, b: map<string, set<string>>)
    requires forall f :: (f in a <==> f in b) && (f in a ==> a[f] == b[f])
    ensures a == b
  {
  }

  /** Dropping the files without targets first and judging the others after comes to the same. */
  lemma {:induction false} TwoPasses(edits: seq<ImportEdit>, ev: ToolEvent, reported: map<string, set<string>>)
    requires DistinctFiles(edits)
    ensures var dropped := ReportedAfter(WithTargets(edits, false), ev, reported);
            && ReportedAfter(WithTargets(edits, true), ev, dropped) == ReportedAfter(edits, ev, reported)
            && MessagesFor(WithTargets(edits, true), ev, dropped) == MessagesFor(edits, ev, reported)
  {
    var empty, judged := WithTargets(edits, false), WithTargets(edits, true);
    var dropped := ReportedAfter(empty, ev, reported);
    WithTargetsMembers(edits, false);
    WithTargetsMembers(edits, true);
    forall f ensures var a, b := ReportedAfter(judged, ev, dropped), ReportedAfter(edits, ev, reported);
                     (f in a <==> f in b) && (f in a ==> a[f] == b[f])
    {
      SameReport(edits, ev, reported, f);
    }
    MapsAgree(ReportedAfter(judged, ev, dropped), ReportedAfter(edits, ev, reported));
    forall e | e in judged ensures ReportedOn(dropped, e.file) == ReportedOn(reported, e.file) {
      OtherFile(edits, e, false);
      ReportedElsewhere(empty, ev, reported, e.file);
    }
    MessagesLookOnlyAtEdits(judged, ev, dropped, reported);
    MessagesOfJudged(edits, ev, reported);
  }

  lemma OtherFile(edits: seq<ImportEdit>, e: ImportEdit, some: bool)
    requires DistinctFiles(edits) && e in edits && (|e.targets| != 0) != some
    ensures forall x :: x in WithTargets(edits, some) ==> x.file != e.file
  {
    WithTargetsMembers(edits, some);
    forall x | x in WithTargets(edits, some) ensures x.file != e.file {
      assert x in edits;
      var i :| 0 <= i < |edits| && edits[i] == x;
      var j :| 0 <= j < |edits| && edits[j] == e;
    }
  }

  lemma {:induction false} MessagesOfJudged(edits: seq<ImportEdit>, ev: ToolEvent, reported: map<string, set<string>>)
    ensures MessagesFor(WithTargets(edits, true), ev, reported) == MessagesFor(edits, ev, reported)
  {
    if |edits| != 0 {
      var last := |edits| - 1;
      MessagesOfJudged(edits[..last], ev, reported);
      var before := WithTargets(edits[..last], true);
      if |edits[last].targets| != 0 {
        assert (before + [edits[last]])[..|before|] == before;
      } else {
        assert WithTargets(edits, true) == before + [] == before;
        assert Fresh(edits[last].file, [], ReportedOn(reported, edits[last].file)) == [];
      }
    }
  }

  lemma {:induction false} SameReport(edits: seq<ImportEdit>, ev: ToolEvent, reported: map<string, set<string>>,
                                      f: string)
    requires DistinctFiles(edits)
    ensures var dropped := ReportedAfter(WithTargets(edits, false), ev, reported);
            var a, b := ReportedAfter(WithTargets(edits, true), ev, dropped), ReportedAfter(edits, ev, reported);
            (f in a <==> f in b) && (f in a ==> a[f] == b[f])
  {
    var empty, judged := WithTargets(edits, false), WithTargets(edits, true);
    var dropped := ReportedAfter(empty, ev, reported);
    WithTargetsMembers(edits, false);
    WithTargetsMembers(edits, true);
    if e :| e in edits && e.file == f {
      var i :| 0 <= i < |edits| && edits[i] == e;
      ReportedOnEdit(edits, ev, reported, i);
      if |e.targets| != 0 {
        assert e in judged;
        var j :| 0 <= j < |judged| && judged[j] == e;
        ReportedOnEdit(judged, ev, dropped, j);
      } else {
        assert e in empty;
        var j :| 0 <= j < |empty| && empty[j] == e;
        ReportedOnEdit(empty, ev, reported, j);
        OtherFile(edits, e, true);
        ReportedElsewhere(judged, ev, dropped, f);
      }
    } else {
      ReportedElsewhere(edits, ev, reported, f);
      ReportedElsewhere(empty, ev, reported, f);
      ReportedElsewhere(judged, ev, dropped, f);
    }
  }

  lemma FileStep(files: map<string, Hash>, ev: ToolEvent, names: seq<string>, i: nat)
    requires i < |names|
    ensures var file, edits, hashes := names[i], EditsOf(files, ev, names[..i]), HashesAfter(files, ev, names[..i]);
            && EditsOf(files, ev, names[..i + 1])
               == (if Reread(files, ev, file) then edits + [ImportEdit(file, Targets(ev, file))] else edits)
            && HashesAfter(files, ev, names[..i + 1])
               == (if Readable(ev, file) && (Known(files, ev, file) || !ev.read(file, ev.contents[file]).unresolved)
                   then hashes[file := HashOf(ev, file)] else hashes)
            && (Reread(files, ev, file) ==> ImportEdit(file, Targets(ev, file)) in EditsOf(files, ev, names[..i + 1]))
  {
    assert names[..i + 1][..i] == names[..i];
    assert EditsOf(files, ev, names[..i]) + [] == EditsOf(files, ev, names[..i]);
  }

  lemma DropStep(edits: seq<ImportEdit>, ev: ToolEvent, reported: map<string, set<string>>, i: nat)
    requires i < |edits|
    ensures WithTargets(edits[..i + 1], true)
            == if |edits[i].targets| == 0 then WithTargets(edits[..i], true)
               else WithTargets(edits[..i], true) + [edits[i]]
    ensures var before := ReportedAfter(WithTargets(edits[..i], false), ev, reported);
            ReportedAfter(WithTargets(edits[..i + 1], false), ev, reported)
            == if |edits[i].targets| == 0 then before - {edits[i].file} else before
  {
    var empty, some := WithTargets(edits[..i], false), WithTargets(edits[..i], true);
    assert edits[..i + 1][..i] == edits[..i];
    assert empty + [] == empty && some + [] == some;
    assert (empty + [edits[i]])[..|empty|] == empty;
  }

  lemma JudgeStep(judged: seq<ImportEdit>, ev: ToolEvent, reported: map<string, set<string>>, i: nat)
    requires i < |judged| && DistinctFiles(judged)
    ensures var e := judged[i];
            var denials := Judged(ev, e.file, e.targets);
            && MessagesFor(judged[..i + 1], ev, reported)
               == MessagesFor(judged[..i], ev, reported)
                 + Fresh(e.file, denials, ReportedOn(ReportedAfter(judged[..i], ev, reported), e.file))
            && ReportedAfter(judged[..i + 1], ev, reported)
               == Settle(ReportedAfter(judged[..i], ev, reported), e.file, Findings(denials))
  {
    assert judged[..i + 1][..i] == judged[..i];
    ReportedElsewhere(judged[..i], ev, reported, judged[i].file);
  }

  class Session<B> {
    var files: map<string, Hash>
    var reported: map<string, set<string>>
    var blocked: B

    /** openSession, for a session that has a file. */
    constructor Open(saved: Saved<B>)
      ensures files == saved.files && reported == saved.reported && blocked == saved.blocked
    {
      files, reported, blocked := saved.files, saved.reported, saved.blocked;
    }

    method ImportEdits(ev: ToolEvent) returns (ok: bool, edits: seq<ImportEdit>)
      modifies this`files, this`reported
      ensures ok <==>
              ev.gitAnswers && !(NeedsDiff(ev, EditsOf(old(files), ev, SortedSet(ev.touched))) && !ev.diffAnswers)
      ensures ok ==> edits == EditsOf(old(files), ev, SortedSet(ev.touched))
      ensures ok ==> files == HashesAfter(old(files), ev, SortedSet(ev.touched))
      ensures ok ==> reported == Pruned(old(reported), ev.touched)
    {
      if !ev.gitAnswers {
        return false, [];
      }
      var names := SortedNames(ev.touched);
      var hashes: map<string, Hash> := map[];
      edits := [];
      for i := 0 to |names|
        invariant files == old(files) && reported == old(reported)
        invariant hashes == HashesAfter(files, ev, names[..i])
        invariant edits == EditsOf(files, ev, names[..i])
        invariant NeedsDiff(ev, edits) ==> ev.diffAnswers
      {
        var file := names[i];
        FileStep(files, ev, names, i);
        if !ev.readsImports(file) {
          continue;
        }
        if file !in ev.contents {
          continue; // deleted since the base
        }
        if file in files && files[file] == HashOf(ev, file) {
          hashes := hashes[file := HashOf(ev, file)];
          continue;
        }
        if file !in ev.wholeNew && !ev.diffAnswers {
          EditsGrow(files, ev, names, i + 1);
          return false, [];
        }
        var reading := ev.read(file, ev.contents[file]);
        if !reading.unresolved {
          hashes := hashes[file := HashOf(ev, file)];
        }
        edits := edits + [ImportEdit(file, reading.targets)];
      }
      assert names[..|names|] == names;
      files := hashes;
      Prune(ev.touched);
      ok := true;
    }

    method Prune(touched: set<string>)
      modifies this`reported
      ensures reported == Pruned(old(reported), touched)
    {
      var rest := reported.Keys;
      while rest != {}
        invariant rest <= old(reported).Keys
        invariant forall f :: f in reported <==> f in old(reported) && (f in touched || f in rest)
        invariant forall f :: f in reported ==> reported[f] == old(reported)[f]
      {
        var file :| file in rest;
        rest := rest - {file};
        if file !in touched { reported := reported - {file}; }
      }
      MapsAgree(reported, Pruned(old(reported), touched));
    }

    method NewDenials(ev: ToolEvent, edits: seq<ImportEdit>) returns (ok: bool, messages: seq<Message>)
      requires DistinctFiles(edits)
      modifies this`reported
      ensures ok <==> (NeedsPolicy(edits) ==> ev.policyAnswers)
      ensures ok ==> messages == MessagesFor(edits, ev, old(reported))
      ensures ok ==> reported == ReportedAfter(edits, ev, old(reported))
    {
      var judged: seq<ImportEdit> := [];
      for i := 0 to |edits|
        invariant judged == WithTargets(edits[..i], true)
        invariant reported == ReportedAfter(WithTargets(edits[..i], false), ev, old(reported))
      {
        DropStep(edits, ev, old(reported), i);
        if |edits[i].targets| == 0 {
          reported := reported - {edits[i].file};
          continue;
        }
        judged := judged + [edits[i]];
      }
      assert edits[..|edits|] == edits;
      WithTargetsMembers(edits, true);
      TwoPasses(edits, ev, old(reported));
      if |judged| == 0 {
        return true, [];
      }
      assert judged[0] in edits && |judged[0].targets| != 0;
      if !ev.policyAnswers {
        return false, [];
      }
      messages := Judge(ev, judged);
      ok := true;
    }

    method Judge(ev: ToolEvent, judged: seq<ImportEdit>) returns (messages: seq<Message>)
      requires DistinctFiles(judged) && forall e :: e in judged ==> |e.targets| != 0
      modifies this`reported
      ensures messages == MessagesFor(judged, ev, old(reported))
      ensures reported == ReportedAfter(judged, ev, old(reported))
    {
      messages := [];
      for i := 0 to |judged|
        invariant messages == MessagesFor(judged[..i], ev, old(reported))
        invariant reported == ReportedAfter(judged[..i], ev, old(reported))
      {
        var e := judged[i];
        JudgeStep(judged, ev, old(reported), i);
        var denials := ev.judge(e.file, e.targets);
        var held, unseen := Sift(e.file, denials);
        messages := messages + unseen;
        if |held| == 0 {
          assert Findings(denials) == {};
          reported := reported - {e.file};
          continue;
        }
        assert held[0] in Findings(denials);
        reported := reported[e.file := set f | f in held];
        assert (set f | f in held) == Findings(denials);
      }
      assert judged[..|judged|] == judged;
    }

    /** The findings a file holds, and a message for each one not reported yet. */
    method Sift(file: string, denials: seq<Denial>) returns (held: seq<string>, unseen: seq<Message>)
      ensures forall f :: f in held <==> f in Findings(denials)
      ensures unseen == Fresh(file, denials, ReportedOn(reported, file))
    {
      held, unseen := [], [];
      for i := 0 to |denials|
        invariant forall f :: f in held <==> f in Findings(denials[..i])
        invariant unseen == Fresh(file, denials[..i], ReportedOn(reported, file))
      {
        assert denials[..i + 1][..i] == denials[..i] && denials[..i + 1] == denials[..i] + [denials[i]];
        assert Findings(denials[..i + 1]) == Findings(denials[..i]) + {denials[i].finding};
        held := held + [denials[i].finding];
        if denials[i].finding !in ReportedOn(reported, file) {
          unseen := unseen + [Message(file, denials[i])];
        }
      }
      assert denials[..|denials|] == denials;
    }
  }

  lemma {:induction false} EditsGrow(files: map<string, Hash>, ev: ToolEvent, names: seq<string>, i: nat)
    requires i <= |names|
    ensures forall e :: e in EditsOf(files, ev, names[..i]) ==> e in EditsOf(files, ev, names)
  {
    if i < |names| {
      EditsGrow(files, ev, names[..|names| - 1], i);
      assert names[..|names| - 1][..i] == names[..i];
    } else {
      assert names[..i] == names;
    }
  }

  /** postToolUse: the session is opened, read, judged and written back, or left as it was. */
  method PostToolUse<B>(saved: Saved<B>, ev: ToolEvent) returns (after: Saved<B>, reply: ToolReply)
    ensures (after, reply) == RunHook(saved, ev)
    ensures HookDoes(saved, ev, after, reply)
  {
    hide HookDoes;
    HookAnswers(saved, ev);
    var session := new Session.Open(saved);
    EditsAreReread(saved.files, ev, SortedSet(ev.touched));
    var ok, edits := session.ImportEdits(ev);
    if !ok {
      return saved, FailedOpen;
    }
    var messages;
    ok, messages := session.NewDenials(ev, edits);
    if !ok || !ev.saves {
      return saved, FailedOpen;
    }
    after := Saved(session.files, session.reported, session.blocked);
    reply := if |messages| == 0 then Silent else Denied(messages);
  }
}
