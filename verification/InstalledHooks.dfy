/**
  Finding archfit's hooks in a hook file (cmd/archfit/doctor_agent.go), the
  commands and tables it installs (cmd/archfit/hook_install.go), and the promise
  between them: what was installed is found, and stays where it was.
*/
module InstalledHooks {
  import opened Options
  import opened HookInstall

  datatype Position = Position(group: nat, hook: nat)

  // ---- installedHooks ----

  function HookAt(entries: seq<Entry>, run: string): Option<nat> {
    if |entries| == 0 then None
    else
      var last := |entries| - 1;
      var before := HookAt(entries[..last], run);
      if before.Some? then before else if RunEvent(entries[last]) == Some(run) then Some(last) else None
  }

  /** The first hook of an event that calls run. */
  function PositionIn(groups: seq<Group>, run: string): Option<Position> {
    if |groups| == 0 then None
    else
      var last := |groups| - 1;
      var before := PositionIn(groups[..last], run);
      if before.Some? then before
      else if groups[last].Group? && HookAt(groups[last].entries, run).Some?
      then Some(Position(last, HookAt(groups[last].entries, run).value))
      else None
  }

  /** The strict reader gets through: every group is one or says so, every entry is a hook. */
  predicate ReadableGroup(g: Group) {
    if g.Opaque? then g.readable else AllHooks(g.entries)
  }

  predicate ReadableGroups(groups: seq<Group>) {
    forall i :: 0 <= i < |groups| ==> ReadableGroup(groups[i])
  }

  predicate AllHooks(entries: seq<Entry>) {
    forall e :: e in entries ==> e.Hook?
  }

  ghost predicate ReadableFile(events: Events) {
    forall name :: name in events ==> ReadableGroups(events[name])
  }

  type Found = map<(string, string), Position>

  /** found says of every event and run event where its first hook is. */
  ghost predicate IsFound(events: Events, found: Found) {
    forall name, run :: (if (name, run) in found then Some(found[(name, run)]) else None)
                        == if name in events then PositionIn(events[name], run) else None
  }

  /** A pair keys a position where the source writes event, space, run event: a run event holds no
      space, so the two keys tell the same pairs apart. */
  method FindInstalled(file: Settings) returns (ok: bool, found: Found)
    ensures ok <==> file.Settings? && ReadableFile(file.events)
    ensures ok ==> IsFound(file.events, found)
  {
    found := map[];
    if !file.Settings? {
      return false, found;
    }
    var rest := file.events.Keys;
    while rest != {}
      invariant rest <= file.events.Keys
      invariant forall name :: name in file.events && name !in rest ==> ReadableGroups(file.events[name])
      invariant forall name, run ::
                  (if (name, run) in found then Some(found[(name, run)]) else None) ==
                  if name in file.events && name !in rest then PositionIn(file.events[name], run) else None
    {
      var name :| name in rest;
      var readable;
      readable, found := FindInEvent(name, file.events[name], found);
      if !readable {
        return false, found;
      }
      rest := rest - {name};
    }
    ok := true;
  }

  method FindInEvent(name: string, groups: seq<Group>, before: Found) returns (readable: bool, found: Found)
    requires forall run :: (name, run) !in before
    ensures readable <==> ReadableGroups(groups)
    ensures readable ==> forall other, run :: other != name ==>
      ((other, run) in found <==> (other, run) in before)
        && ((other, run) in before ==> found[(other, run)] == before[(other, run)])
    ensures readable ==>
              forall run ::
                (if (name, run) in found then Some(found[(name, run)]) else None) == PositionIn(groups, run)
  {
    found := before;
    for g := 0 to |groups|
      invariant forall i :: 0 <= i < g ==> ReadableGroup(groups[i])
      invariant forall other, run :: other != name ==>
        ((other, run) in found <==> (other, run) in before)
          && ((other, run) in before ==> found[(other, run)] == before[(other, run)])
      invariant forall run ::
                  (if (name, run) in found then Some(found[(name, run)]) else None) == PositionIn(groups[..g], run)
    {
      assert groups[..g + 1][..g] == groups[..g];
      if !ReadableGroup(groups[g]) {
        return false, found;
      }
      if groups[g].Opaque? {
        continue;
      }
      found := FindInGroup(name, g, groups[g].entries, found);
    }
    assert groups[..|groups|] == groups;
    readable := true;
  }

  method FindInGroup(name: string, g: nat, entries: seq<Entry>, before: Found) returns (found: Found)
    ensures forall other, run :: (other != name || (name, run) in before) ==>
      ((other, run) in found <==> (other, run) in before)
        && ((other, run) in before ==> found[(other, run)] == before[(other, run)])
    ensures forall run :: (name, run) !in before ==>
      ((name, run) in found <==> HookAt(entries, run).Some?)
      && ((name, run) in found ==> found[(name, run)] == Position(g, HookAt(entries, run).value))
  {
    found := before;
    for h := 0 to |entries|
      invariant forall other, run :: (other != name || (name, run) in before) ==>
        ((other, run) in found <==> (other, run) in before)
          && ((other, run) in before ==> found[(other, run)] == before[(other, run)])
      invariant forall run :: (name, run) !in before ==>
        ((name, run) in found <==> HookAt(entries[..h], run).Some?)
        && ((name, run) in found ==> found[(name, run)] == Position(g, HookAt(entries[..h], run).value))
    {
      assert entries[..h + 1][..h] == entries[..h];
      var run := RunEvent(entries[h]);
      if run.None? {
        continue;
      }
      if (name, run.value) !in found {
        found := found[(name, run.value) := Position(g, h)];
      }
    }
    assert entries[..|entries|] == entries;
  }

  /** The hook at p calls run. */
  predicate CallsAt(groups: seq<Group>, run: string, p: Position) {
    && p.group < |groups| && groups[p.group].Group? && p.hook < |groups[p.group].entries|
    && RunEvent(groups[p.group].entries[p.hook]) == Some(run)
  }

  predicate ComesBefore(p: Position, q: Position) {
    p.group < q.group || (p.group == q.group && p.hook < q.hook)
  }

  lemma {:induction false} HookAtExactly(entries: seq<Entry>, run: string, h: nat)
    ensures HookAt(entries, run) == Some(h) <==>
            && h < |entries| && RunEvent(entries[h]) == Some(run)
            && forall j :: 0 <= j < h ==> RunEvent(entries[j]) != Some(run)
  {
    hide RunEvent;
    if |entries| != 0 {
      var last := |entries| - 1;
      HookAtExactly(entries[..last], run, h);
      if HookAt(entries[..last], run).Some? {
        HookAtExactly(entries[..last], run, HookAt(entries[..last], run).value);
      }
      NoHookAt(entries[..last], run);
    }
  }

  lemma {:induction false} NoHookAt(entries: seq<Entry>, run: string)
    ensures HookAt(entries, run).None? <==> forall j :: 0 <= j < |entries| ==> RunEvent(entries[j]) != Some(run)
  {
    hide RunEvent;
    if |entries| != 0 { NoHookAt(entries[..|entries| - 1], run); }
  }

  lemma {:induction false} NoPositionIn(groups: seq<Group>, run: string)
    ensures PositionIn(groups, run).None? <==> forall p :: !CallsAt(groups, run, p)
  {
    hide RunEvent, HookAt;
    if |groups| != 0 {
      var last := |groups| - 1;
      NoPositionIn(groups[..last], run);
      forall p ensures CallsAt(groups, run, p) <==>
                       CallsAt(groups[..last], run, p) || (p.group == last && CallsAt(groups, run, p)) {}
      if groups[last].Group? {
        NoHookAt(groups[last].entries, run);
        forall j | 0 <= j < |groups[last].entries| && RunEvent(groups[last].entries[j]) == Some(run)
          ensures CallsAt(groups, run, Position(last, j)) {}
      }
    }
  }

  /** What the reader finds is the first hook that calls the run event, in the order of the file. */
  lemma {:induction false} PositionIsFirst(groups: seq<Group>, run: string, p: Position)
    ensures PositionIn(groups, run) == Some(p) <==>
            CallsAt(groups, run, p) && forall q :: CallsAt(groups, run, q) ==> !ComesBefore(q, p)
  {
    hide RunEvent, HookAt;
    if |groups| != 0 {
      var last := |groups| - 1;
      var before := groups[..last];
      PositionIsFirst(before, run, p);
      NoPositionIn(before, run);
      NoPositionIn(groups, run);
      forall q ensures CallsAt(groups, run, q) <==>
                       CallsAt(before, run, q) || (q.group == last && CallsAt(groups, run, q)) {}
      if PositionIn(before, run).Some? {
        PositionIsFirst(before, run, PositionIn(before, run).value);
      } else if groups[last].Group? {
        var entries := groups[last].entries;
        HookAtExactly(entries, run, p.hook);
        NoHookAt(entries, run);
        forall j | 0 <= j < |entries| && RunEvent(entries[j]) == Some(run)
          ensures CallsAt(groups, run, Position(last, j)) {}
      }
    }
  }

  // ---- The commands archfit installs ----

  /** A plain path character. */
  predicate IsPlain(c: char) {
    'a' <= c <= 'z' || 'A' <= c <= 'Z' || '0' <= c <= '9' || c == '-' || c == '_' || c == '.' || c == '/'
  }

  const DEFAULT_CONFIG := ".archfit.yaml"

  function ReplaceQuotes(s: string): string {
    if |s| == 0 then "" else (if s[0] == '\'' then "'\"'\"'" else [s[0]]) + ReplaceQuotes(s[1..])
  }

  function ShellQuote(s: string): string {
    if s != "" && forall c :: c in s ==> IsPlain(c) then s else "'" + ReplaceQuotes(s) + "'"
  }

  function HookRunLine(run: string, harness: string, configPath: string): string {
    RUN + " " + run
    + (if harness != "" then " --harness " + harness else "")
    + (if configPath != "" && configPath != DEFAULT_CONFIG then " -c " + ShellQuote(configPath) else "")
  }

  function HarnessHooks(harness: string): seq<HarnessHook> {
    if harness == "claude" then
      [HarnessHook("SessionStart", "", "session-start"),
       HarnessHook("PostToolUse", "Edit|Write|MultiEdit|NotebookEdit|Bash", "post-tool-use"),
       HarnessHook("Stop", "", "stop"),
       HarnessHook("SubagentStop", "", "stop")]
    else if harness == "codex" then
      [HarnessHook("SessionStart", "", "session-start"),
       HarnessHook("PostToolUse", "^apply_patch$|^Bash$", "post-tool-use"),
       HarnessHook("Stop", "", "stop")]
    else []
  }

  lemma HarnessEventsDiffer(harness: string)
    ensures DistinctEvents(HarnessHooks(harness))
  {
    assert |"SessionStart"| == 12 && |"PostToolUse"| == 11 && |"Stop"| == 4;
    assert "SessionStart"[1] == 'e' && "SubagentStop"[1] == 'u';
  }

  /** A word: some text without a space in it. */
  predicate Word(s: string) {
    s != "" && forall i :: 0 <= i < |s| ==> !IsSpace(s[i])
  }

  lemma {:induction false} FieldOfWord(word: string, rest: string)
    requires (forall i :: 0 <= i < |word| ==> !IsSpace(word[i])) && (rest == "" || IsSpace(rest[0]))
    ensures FieldEnd(word + rest) == |word|
  {
    if |word| != 0 {
      assert (word + rest)[1..] == word[1..] + rest;
      FieldOfWord(word[1..], rest);
    } else {
      assert word + rest == rest;
    }
  }

  /** A line that starts with hook run and a word, and ends in no space, names that word. */
  lemma LineNames(line: string, run: string, rest: string)
    requires line == RUN + " " + run + rest && Word(run) && (rest == "" || IsSpace(rest[0]))
    requires !IsSpace(line[|line| - 1])
    ensures Names(line, run)
  {
    var prefix := RUN + " ";
    assert line[0] == 'a';
    assert TrimSpace(line) == line;
    assert line[..|prefix|] == prefix;
    var tail := line[|prefix|..];
    assert tail == run + rest;
    assert TrimLeft(tail) == tail;
    FieldOfWord(run, rest);
    assert tail[..|run|] == run;
  }

  lemma QuotedEndsInNoSpace(s: string)
    ensures ShellQuote(s) != "" && !IsSpace(ShellQuote(s)[|ShellQuote(s)| - 1])
  {
    if s != "" { assert s[|s| - 1] in s; }
  }

  /** Every command archfit writes names its run event, whatever the config path holds. */
  lemma InstalledLineNames(run: string, harness: string, configPath: string)
    requires Word(run) && (harness == "" || Word(harness))
    ensures Names(HookRunLine(run, harness, configPath), run)
  {
    var option := if harness != "" then " --harness " + harness else "";
    var config := if configPath != "" && configPath != DEFAULT_CONFIG then " -c " + ShellQuote(configPath) else "";
    var line := HookRunLine(run, harness, configPath);
    QuotedEndsInNoSpace(configPath);
    assert line == RUN + " " + run + (option + config);
    LineNames(line, run, option + config);
  }

  // ---- What a shell reads of the command ----

  datatype Quote = Bare | Single | Double

  function Begun(word: Option<string>): string {
    if word.Some? then word.value else ""
  }

  /** The words a POSIX shell splits a line into, in a given quoting and with a word begun; None for an open
      quote and for a character the shell treats in a way of its own. */
  function Words(s: string, quote: Quote, word: Option<string>): Option<seq<string>> {
    if |s| == 0 then
      if quote != Bare then None else Some(if word.Some? then [word.value] else [])
    else
      var c, rest := s[0], s[1..];
      match quote
      case Bare =>
        if c == ' ' then
          match Words(rest, Bare, None)
          case None => None
          case Some(words) => Some(if word.Some? then [word.value] + words else words)
        else if c == '\'' then Words(rest, Single, Some(Begun(word)))
        else if c == '"' then Words(rest, Double, Some(Begun(word)))
        else if IsPlain(c) then Words(rest, Bare, Some(Begun(word) + [c]))
        else None
      case Single => if c == '\'' then Words(rest, Bare, word) else Words(rest, Single, Some(Begun(word) + [c]))
      case Double =>
        if c == '"' then Words(rest, Bare, word)
        else if c == '$' || c == '`' || c == '\\' then None
        else Words(rest, Double, Some(Begun(word) + [c]))
  }

  predicate AllPlain(s: string) {
    forall i :: 0 <= i < |s| ==> IsPlain(s[i])
  }

  lemma {:induction false} PlainWord(s: string, rest: string, word: Option<string>)
    requires AllPlain(s) && s != ""
    ensures Words(s + rest, Bare, word) == Words(rest, Bare, Some(Begun(word) + s))
  {
    assert (s + rest)[1..] == s[1..] + rest;
    var next := Some(Begun(word) + [s[0]]);
    if |s| == 1 {
      assert s[1..] + rest == rest && s == [s[0]];
    } else {
      PlainWord(s[1..], rest, next);
      assert Begun(word) + [s[0]] + s[1..] == Begun(word) + s;
    }
  }

  lemma CharInQuotes(c: char, tail: string, word: string)
    requires c != '\''
    ensures Words([c] + tail, Single, Some(word)) == Words(tail, Single, Some(word + [c]))
  {
    assert ([c] + tail)[1..] == tail;
  }

  lemma ReplaceFirst(s: string, rest: string)
    requires s != ""
    ensures ReplaceQuotes(s) + rest == (if s[0] == '\'' then "'\"'\"'" else [s[0]]) + (ReplaceQuotes(s[1..]) + rest)
  {
  }

  lemma NothingQuoted(rest: string, word: string)
    ensures ReplaceQuotes("") + rest == rest && word + "" == word
  {
  }

  lemma FirstOf(s: string, word: string)
    requires s != ""
    ensures word + [s[0]] + s[1..] == word + s
  {
  }

  /** Inside single quotes every character stands for itself; a quote is left for double quotes and back. */
  lemma {:induction false} QuotedWord(s: string, rest: string, word: string)
    ensures Words(ReplaceQuotes(s) + rest, Single, Some(word)) == Words(rest, Single, Some(word + s))
  {
    hide Words, ReplaceQuotes;
    if s == "" {
      NothingQuoted(rest, word);
    } else {
      var c, tail := s[0], ReplaceQuotes(s[1..]) + rest;
      ReplaceFirst(s, rest);
      FirstOf(s, word);
      QuotedWord(s[1..], rest, word + [c]);
      if c == '\'' { QuoteInQuotes(tail, word); } else { CharInQuotes(c, tail, word); }
    }
  }

  lemma QuoteInQuotes(tail: string, word: string)
    ensures Words("'\"'\"'" + tail, Single, Some(word)) == Words(tail, Single, Some(word + "'"))
  {
    var s := "'\"'\"'" + tail;
    var s1, s2, s3, s4 := s[1..], s[2..], s[3..], s[4..];
    assert s1[1..] == s2 && s2[1..] == s3 && s3[1..] == s4 && s4[1..] == tail;
    assert Words(s, Single, Some(word)) == Words(s1, Bare, Some(word));
    assert Words(s1, Bare, Some(word)) == Words(s2, Double, Some(word));
    assert Words(s2, Double, Some(word)) == Words(s3, Double, Some(word + "'"));
    assert Words(s3, Double, Some(word + "'")) == Words(s4, Bare, Some(word + "'"));
  }

  /** Quoting any text and letting the shell read it gives the text, as one word. */
  lemma {:induction false} ShellReadsQuoted(s: string)
    ensures Words(ShellQuote(s), Bare, None) == Some([s])
  {
    if s != "" && forall c :: c in s ==> IsPlain(c) {
      PlainWord(s, "", None);
      assert s + "" == s && "" + s == s;
    } else {
      var quoted := "'" + ReplaceQuotes(s) + "'";
      assert quoted[1..] == ReplaceQuotes(s) + "'";
      QuotedWord(s, "'", "");
      assert "" + s == s && "'"[1..] == "";
      assert Words("'", Single, Some(s)) == Words("", Bare, Some(s));
    }
  }

  lemma {:induction false} PlainThen(s: string, rest: string)
    requires AllPlain(s) && s != ""
    ensures Words(s + (" " + rest), Bare, None) ==
            match Words(rest, Bare, None) case None => None case Some(words) => Some([s] + words)
  {
    PlainWord(s, " " + rest, None);
    assert (" " + rest)[1..] == rest && "" + s == s;
  }

  lemma LastWord(s: string)
    requires AllPlain(s) && s != ""
    ensures Words(s, Bare, None) == Some([s])
  {
    PlainWord(s, "", None);
    assert s + "" == s && "" + s == s;
  }

  function Spaced(words: seq<string>): string
    requires words != []
  {
    if |words| == 1 then words[0] else words[0] + (" " + Spaced(words[1..]))
  }

  /** Words of plain characters, the last of them quoted or plain, are read back. */
  lemma {:induction false} SpacedReadsBack(words: seq<string>, last: string)
    requires words != [] && forall i :: 0 <= i < |words| - 1 ==> AllPlain(words[i]) && words[i] != ""
    requires Words(words[|words| - 1], Bare, None) == Some([last])
    ensures Words(Spaced(words), Bare, None) == Some(words[..|words| - 1] + [last])
  {
    if |words| > 1 {
      SpacedReadsBack(words[1..], last);
      PlainThen(words[0], Spaced(words[1..]));
      assert [words[0]] + (words[1..][..|words| - 2] + [last]) == words[..|words| - 1] + [last];
    } else {
      assert words[..0] + [last] == [last];
    }
  }

  /** The words of the command before shell quoting. */
  function CommandWords(run: string, harness: string, configPath: string): (words: seq<string>)
    ensures words != []
  {
    ["archfit", "hook", "run", run]
    + (if harness != "" then ["--harness", harness] else [])
    + (if configPath != "" && configPath != DEFAULT_CONFIG then ["-c", configPath] else [])
  }

  lemma {:induction false} SpacedSnoc(words: seq<string>, more: string)
    requires words != []
    ensures Spaced(words + [more]) == Spaced(words) + " " + more
  {
    assert Spaced([more]) == more;
    if |words| == 1 {
      assert (words + [more])[1..] == [more];
    } else {
      SpacedSnoc(words[1..], more);
      assert (words + [more])[1..] == words[1..] + [more];
    }
  }

  lemma {:induction false} SpacedTwo(words: seq<string>, a: string, b: string)
    requires words != []
    ensures Spaced(words + [a, b]) == Spaced(words) + " " + a + " " + b
  {
    SpacedSnoc(words, a);
    SpacedSnoc(words + [a], b);
    assert words + [a] + [b] == words + [a, b];
  }

  lemma {:induction false} RunLineIsSpaced(run: string)
    ensures Spaced(["archfit", "hook", "run", run]) == RUN + " " + run
  {
    SpacedTwo(["archfit"], "hook", "run");
    assert ["archfit"] + ["hook", "run"] == ["archfit", "hook", "run"];
    SpacedSnoc(["archfit", "hook", "run"], run);
    assert ["archfit", "hook", "run"] + [run] == ["archfit", "hook", "run", run];
    assert "archfit" + " " + "hook" + " " + "run" == RUN;
  }

  lemma {:induction false} FrontIsSpaced(run: string, harness: string)
    ensures Spaced(CommandWords(run, harness, "")) == HookRunLine(run, harness, "")
  {
    hide Spaced;
    var front := ["archfit", "hook", "run", run];
    RunLineIsSpaced(run);
    assert front + [] + [] == front && RUN + " " + run + "" + "" == RUN + " " + run;
    if harness != "" {
      SpacedTwo(front, "--harness", harness);
      assert " --harness " == " " + "--harness" + " ";
      assert CommandWords(run, harness, "") == front + ["--harness", harness];
    }
  }

  lemma {:induction false} LineIsSpaced(run: string, harness: string, configPath: string)
    ensures var words := CommandWords(run, harness, configPath);
            var last := |words| - 1;
            HookRunLine(run, harness, configPath) ==
            if configPath != "" && configPath != DEFAULT_CONFIG then Spaced(words[..last] + [ShellQuote(configPath)])
            else Spaced(words)
  {
    hide ShellQuote, Spaced;
    var front := CommandWords(run, harness, "");
    FrontIsSpaced(run, harness);
    if configPath != "" && configPath != DEFAULT_CONFIG {
      SpacedTwo(front, "-c", ShellQuote(configPath));
      ConfigFollows(run, harness, configPath);
      assert " -c " == " " + "-c" + " ";
      assert (front + ["-c", configPath])[..|front| + 1] + [ShellQuote(configPath)]
             == front + ["-c", ShellQuote(configPath)];
    }
  }

  lemma ConfigFollows(run: string, harness: string, configPath: string)
    requires configPath != "" && configPath != DEFAULT_CONFIG
    ensures CommandWords(run, harness, configPath) == CommandWords(run, harness, "") + ["-c", configPath]
    ensures HookRunLine(run, harness, configPath) == HookRunLine(run, harness, "") + " -c " + ShellQuote(configPath)
  {
    hide ShellQuote;
  }

  /** A shell reads an installed command as the program, the run event and the options, the config path
      whatever it holds. */
  lemma {:induction false} CommandReadsBack(run: string, harness: string, configPath: string)
    requires AllPlain(run) && run != "" && AllPlain(harness)
    ensures Words(HookRunLine(run, harness, configPath), Bare, None) == Some(CommandWords(run, harness, configPath))
  {
    hide Words, Spaced, ShellQuote, HookRunLine;
    var words := CommandWords(run, harness, configPath);
    var last := |words| - 1;
    LineIsSpaced(run, harness, configPath);
    forall i | 0 <= i < last ensures AllPlain(words[i]) && words[i] != "" {}
    if configPath != "" && configPath != DEFAULT_CONFIG {
      var quoted := words[..last] + [ShellQuote(configPath)];
      ShellReadsQuoted(configPath);
      SpacedReadsBack(quoted, configPath);
      assert quoted[..last] + [configPath] == words;
    } else {
      LastWord(words[last]);
      SpacedReadsBack(words, words[last]);
      assert words[..last] + [words[last]] == words;
    }
  }

  // ---- What was installed is found, and stays ----

  lemma {:induction false} PositionOfOwn(groups: seq<Group>, h: HarnessHook, command: string -> string, place: nat)
    requires OwnAt(groups, h, command, place) && Names(command(h.run), h.run)
    ensures PositionIn(groups, h.run) == Some(Position(place, 0))
  {
    var last := |groups| - 1;
    if place < last {
      PositionOfOwn(groups[..last], h, command, place);
    } else {
      NoneInClean(groups[..last], h.run);
      var e := Hook(command(h.run), OTHER_KEYS);
      assert [e][..0] == [];
      assert HookAt([e], h.run) == Some(0);
    }
  }

  lemma {:induction false} NoneInClean(groups: seq<Group>, run: string)
    requires forall i :: 0 <= i < |groups| ==> Clean(groups[i], true)
    ensures PositionIn(groups, run) == None
  {
    if |groups| != 0 {
      var last := |groups| - 1;
      NoneInClean(groups[..last], run);
      if groups[last].Group? { NoneInEntries(groups[last].entries, run); }
    }
  }

  lemma {:induction false} NoneInEntries(entries: seq<Entry>, run: string)
    requires forall e :: e in entries ==> !IsRun(e)
    ensures HookAt(entries, run) == None
  {
    if |entries| != 0 {
      var last := |entries| - 1;
      NoneInEntries(entries[..last], run);
      assert entries[last] in entries;
      if RunEvent(entries[last]).Some? { NamedIsRun(entries[last]); }
    }
  }

  /** After installing, each wanted event runs archfit just once, from a group of its own that the
      reader finds. */
  lemma InstallIsFound(before: Events, after: Events, hooks: seq<HarnessHook>, command: string -> string,
                       h: HarnessHook)
    requires DistinctEvents(hooks) && h in hooks && IsInstall(before, after, hooks, command)
    requires Names(command(h.run), h.run)
    ensures h.event in after && exists place :: OwnAt(after[h.event], h, command, place)
                                            && PositionIn(after[h.event], h.run) == Some(Position(place, 0))
  {
    WantedIs(hooks, h);
    assert Lookup(after, h.event) == Installed(before, hooks, h.event, command);
    var cleaned := Cleaned(before, h.event, command);
    var place := MergePlaces(if cleaned.Some? then cleaned.value else [], h, command, command);
    PositionOfOwn(after[h.event], h, command, place);
  }

  /** Installing again, with any command and after any time, leaves every hook where it was: the
      position Codex keys its trust by. */
  lemma {:induction false} ReinstallKeepsPositions(before: Events, once: Events, twice: Events, hooks: seq<HarnessHook>,
                                                   first: string -> string, second: string -> string, h: HarnessHook)
    requires DistinctEvents(hooks) && h in hooks
    requires forall x :: x in hooks ==> Names(first(x.run), x.run) && Names(second(x.run), x.run)
    requires IsInstall(before, once, hooks, first) && IsInstall(once, twice, hooks, second)
    ensures h.event in once && h.event in twice
    ensures PositionIn(once[h.event], h.run).Some?
    ensures PositionIn(twice[h.event], h.run) == PositionIn(once[h.event], h.run)
  {
    LastInstallWins(before, once, twice, hooks, first, second);
    WantedIs(hooks, h);
    assert Lookup(once, h.event) == Installed(before, hooks, h.event, first);
    assert Lookup(twice, h.event) == Installed(before, hooks, h.event, second);
    CleaningIgnoresCommand(before, h.event, first, second);
    var cleaned := Cleaned(before, h.event, first);
    var place := MergePlaces(if cleaned.Some? then cleaned.value else [], h, first, second);
    PositionOfOwn(once[h.event], h, first, place);
    PositionOfOwn(twice[h.event], h, second, place);
  }

  // ---- A file stays as readable as it was ----

  lemma {:induction false} ReadableRest(entries: seq<Entry>, wanted: bool)
    ensures AllHooks(Rest(entries, wanted)) <==> AllHooks(entries)
  {
    RestMembers(entries, wanted);
  }

  lemma ReadableConcat(a: seq<Group>, b: seq<Group>)
    ensures ReadableGroups(a + b) <==> ReadableGroups(a) && ReadableGroups(b)
  {
    assert forall i :: 0 <= i < |a| ==> (a + b)[i] == a[i];
    assert forall i :: 0 <= i < |b| ==> (a + b)[|a| + i] == b[i];
  }

  /** What a merge removes can be read. */
  lemma {:induction false} ReadableByForeign(groups: seq<Group>, wanted: bool)
    ensures ReadableGroups(groups) <==> ReadableGroups(Foreign(groups, wanted))
  {
    if |groups| != 0 {
      ReadableByForeign(groups[1..], wanted);
      assert groups == [groups[0]] + groups[1..];
      ReadableConcat([groups[0]], groups[1..]);
      ReadableConcat(ForeignIn(groups[0], wanted), Foreign(groups[1..], wanted));
      ReadableInGroup(groups[0], wanted);
    }
  }

  lemma ReadableOne(g: Group)
    ensures ReadableGroups([g]) <==> ReadableGroup(g)
  {
    assert [g][0] == g;
  }

  lemma ReadableInGroup(g: Group, wanted: bool)
    ensures ReadableGroups([g]) <==> ReadableGroups(ForeignIn(g, wanted))
  {
    ReadableOne(g);
    if g.Group? {
      ReadableRest(g.entries, wanted);
      ReadableOne(Group(g.other, Rest(g.entries, wanted)));
    }
  }

  /** Doctor can read the merged file exactly when it could read the file before. */
  lemma InstallKeepsReadability(before: Events, after: Events, hooks: seq<HarnessHook>, command: string -> string)
    requires forall h :: h in hooks ==> Names(command(h.run), h.run)
    requires IsInstall(before, after, hooks, command)
    ensures ReadableFile(before) <==> ReadableFile(after)
  {
    forall name
      ensures (name in before ==> ReadableGroups(before[name])) <==> (name in after ==> ReadableGroups(after[name]))
    {
      var wanted := Wanted(hooks, name).Some?;
      InstallKeepsForeign(before, after, hooks, command, name);
      ReadableByForeign(if name in before then before[name] else [], wanted);
      ReadableByForeign(if name in after then after[name] else [], wanted);
    }
  }
}
