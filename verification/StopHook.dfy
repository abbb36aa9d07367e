/**
  The stop hook (cmd/archfit/hook.go): block a stop once on a change that fails.
  The digest of a blocked result is kept as the text it hashes.
*/
module StopHook {
  import opened Options
  import opened Orders
  import opened HookSession

  datatype Digest = Sha256Of(text: string)

  /** The change status check reports; anything but fail and pass cannot be judged. */
  datatype Status = Fail | Pass | Unknown

  /** How far the hook gets: to an error, to a tree nothing changed in, or to a result. */
  datatype Check = CannotOpen | CannotCompare | Untouched | CannotJudge | Result(status: Status, digest: Digest)

  datatype StopEvent = StopEvent(active: bool, subagent: bool, check: Check, saves: bool)

  /** Block is exit code 2; Notice shows a message and lets the agent stop. */
  datatype StopReply = Block | Notice | Quiet

  datatype Outcome = Allow | Report | Stop

  function OutcomeOf(status: Status): Outcome {
    match status
    case Fail => Stop
    case Pass => Allow
    case Unknown => Report
  }

  /** What the session file holds. */
  type State = Saved<Option<Digest>>

  /** forgetBlock: clear the recorded block, then show a message when there is one. */
  function Forget(s: State, saves: bool, message: bool): (State, StopReply) {
    if s.blocked.None? then (s, if message then Notice else Quiet)
    else if saves then (s.(blocked := None), if message then Notice else Quiet)
    else (s, Notice)
  }

  /** What one stop does to the saved session, and its reply. */
  function RunStop(s: State, ev: StopEvent): (State, StopReply) {
    match ev.check
    case CannotOpen => (s, Notice)
    case CannotCompare => (s, Notice)
    case CannotJudge => (s, Notice)
    case Untouched => Forget(s, ev.saves, false)
    case Result(status, digest) =>
      match OutcomeOf(status)
      case Allow => Forget(s, ev.saves, false)
      case Report => Forget(s, ev.saves, true)
      case Stop =>
        if ev.active then (s, Notice)
        else if ev.subagent then (s, Block)
        else if s.blocked == Some(digest) then (s, Notice)
        else (if ev.saves then s.(blocked := Some(digest)) else s, Block)
  }

  /** A first stop on a failing change: a subagent's, or not on the digest the session was last blocked on. */
  predicate Blocks(s: State, ev: StopEvent) {
    && !ev.active && ev.check.Result? && ev.check.status.Fail?
    && (ev.subagent || s.blocked != Some(ev.check.digest))
  }

  /** Nothing is wrong with the tree. */
  predicate IsFine(check: Check) {
    check.Untouched? || (check.Result? && check.status.Pass?)
  }

  /** One stop, told from the session and the event alone. It is quiet about a fine tree unless a recorded
      block could not be cleared; what it neither blocks nor is quiet about gets a notice. Only the block
      changes: recorded for the main agent, cleared by a tree that does not fail, when that is saved. */
  ghost predicate StopDoes(s: State, ev: StopEvent, after: State, reply: StopReply) {
    && (reply == Block <==> Blocks(s, ev))
    && (reply == Quiet <==> IsFine(ev.check) && (s.blocked.None? || ev.saves))
    && after.files == s.files && after.reported == s.reported
    && after.blocked == (if !ev.saves then s.blocked
                         else if Blocks(s, ev) && !ev.subagent then Some(ev.check.digest)
                         else if ev.check.Untouched? || (ev.check.Result? && !ev.check.status.Fail?) then None
                         else s.blocked)
  }

  lemma StopAnswers(s: State, ev: StopEvent)
    ensures StopDoes(s, ev, RunStop(s, ev).0, RunStop(s, ev).1)
  {
  }

  method ForgetBlock(session: HookSession.Session<Option<Digest>>, saved: State, saves: bool, message: bool)
    returns (after: State, reply: StopReply)
    requires session.files == saved.files && session.reported == saved.reported && session.blocked == saved.blocked
    modifies session`blocked
    ensures (after, reply) == Forget(saved, saves, message)
  {
    after := saved;
    var show := message;
    if session.blocked != None {
      session.blocked := None;
      if saves { after := Saved(session.files, session.reported, session.blocked); } else { show := true; }
    }
    reply := if show then Notice else Quiet;
  }

  method StopHook(saved: State, ev: StopEvent) returns (after: State, reply: StopReply)
    ensures (after, reply) == RunStop(saved, ev)
    ensures StopDoes(saved, ev, after, reply)
  {
    StopAnswers(saved, ev);
    if ev.check.CannotOpen? {
      return saved, Notice;
    }
    var session := new HookSession.Session.Open(saved);
    if ev.check.CannotCompare? {
      return saved, Notice;
    }
    if ev.check.Untouched? {
      after, reply := ForgetBlock(session, saved, ev.saves, false);
      return;
    }
    if ev.check.CannotJudge? {
      return saved, Notice;
    }
    match OutcomeOf(ev.check.status) {
      case Stop =>
        if ev.active {
          return saved, Notice;
        }
        if ev.subagent {
          return saved, Block;
        }
        if Some(ev.check.digest) == session.blocked {
          return saved, Notice;
        }
        session.blocked := Some(ev.check.digest);
        // A failed save does not lift the block.
        after := if ev.saves then Saved(session.files, session.reported, session.blocked) else saved;
        reply := Block;
      case Allow =>
        after, reply := ForgetBlock(session, saved, ev.saves, false);
      case Report =>
        after, reply := ForgetBlock(session, saved, ev.saves, true);
    }
  }

  // ---- blockDigest ----

  const NEWLINE: char := '\n'

  function JoinLines(lines: seq<string>): string {
    if |lines| == 0 then "" else if |lines| == 1 then lines[0] else lines[0] + [NEWLINE] + JoinLines(lines[1..])
  }

  /** The tree a result measured and the findings it blocks on, in sorted order. */
  function BlockDigest(tree: string, ids: seq<string>): Digest {
    Sha256Of(tree + [NEWLINE] + JoinLines(SortBy(ids, StrLe)))
  }

  predicate OneLine(s: string) {
    NEWLINE !in s
  }

  lemma FirstLine(p: string, q: string, r: string, s: string)
    requires OneLine(p) && OneLine(q) && p + [NEWLINE] + r == q + [NEWLINE] + s
    ensures p == q && r == s
  {
    var x, y := p + [NEWLINE] + r, q + [NEWLINE] + s;
    assert forall i :: 0 <= i < |p| ==> x[i] == p[i] && p[i] != NEWLINE;
    assert forall i :: 0 <= i < |q| ==> y[i] == q[i] && q[i] != NEWLINE;
    assert x[|p|] == NEWLINE && y[|q|] == NEWLINE;
    assert |p| == |q|;
    assert x[..|p|] == p && y[..|q|] == q && x[|p| + 1..] == r && y[|q| + 1..] == s;
  }

  lemma {:induction false} JoinHasNewline(lines: seq<string>)
    requires forall l :: l in lines ==> OneLine(l)
    ensures NEWLINE in JoinLines(lines) <==> |lines| >= 2
  {
    if |lines| == 1 {
      assert lines[0] in lines;
    } else if |lines| >= 2 {
      assert JoinLines(lines)[|lines[0]|] == NEWLINE;
    }
  }

  lemma {:induction false} JoinInjective(a: seq<string>, b: seq<string>)
    requires (forall l :: l in a ==> OneLine(l) && l != "") && (forall l :: l in b ==> OneLine(l) && l != "")
    requires JoinLines(a) == JoinLines(b)
    ensures a == b
  {
    JoinHasNewline(a);
    JoinHasNewline(b);
    if |a| >= 2 {
      assert a[0] in a && b[0] in b;
      FirstLine(a[0], b[0], JoinLines(a[1..]), JoinLines(b[1..]));
      JoinInjective(a[1..], b[1..]);
      assert a == [a[0]] + a[1..] && b == [b[0]] + b[1..];
    } else {
      JoinOfFew(a);
      JoinOfFew(b);
    }
  }

  lemma JoinOfFew(lines: seq<string>)
    requires |lines| <= 1 && forall l :: l in lines ==> l != ""
    ensures lines == if JoinLines(lines) == "" then [] else [JoinLines(lines)]
  {
    if |lines| == 1 { assert lines[0] in lines; }
  }

  /** One digest stands for one tree with one multiset of blocking findings. */
  lemma DigestIdentifiesResult(tree: string, ids: seq<string>, tree2: string, ids2: seq<string>)
    requires OneLine(tree) && OneLine(tree2)
    requires (forall l :: l in ids ==> OneLine(l) && l != "") && (forall l :: l in ids2 ==> OneLine(l) && l != "")
    ensures BlockDigest(tree, ids) == BlockDigest(tree2, ids2) <==> tree == tree2 && multiset(ids) == multiset(ids2)
  {
    var s, s2 := SortBy(ids, StrLe), SortBy(ids2, StrLe);
    if tree == tree2 && multiset(ids) == multiset(ids2) {
      StrLeTotalOrder();
      SortByOrderFree(ids, ids2, StrLe);
    }
    if BlockDigest(tree, ids) == BlockDigest(tree2, ids2) {
      FirstLine(tree, tree2, JoinLines(s), JoinLines(s2));
      SortByMembers(ids, StrLe);
      SortByMembers(ids2, StrLe);
      JoinInjective(s, s2);
    }
  }
}
