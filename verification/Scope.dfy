/**
  Scope resolution and the policy guard (internal/application/scope.go): what a
  change is compared with, and which policy files it may not grade itself under.
  Git is an oracle: what it answers is a parameter, errors included.
*/
module Scope {
  import opened Options

  datatype Answer<+T> = Got(value: T) | GitError

  type Sha = string

  datatype Git = Git(
    inRepository: bool,
    lookup: string -> Answer<Option<Sha>>,
    originHead: Option<string>,
    mergeBase: (Sha, Sha) -> Answer<Option<Sha>>,
    isAncestor: (Sha, Sha) -> Answer<bool>,
    fileAt: (Sha, string) -> Answer<Option<string>>,
    targetBranchAt: (Sha, string) -> Answer<string>)

  /** A protected file as the working tree holds it; the first one is the config. */
  datatype PolicyFile = PolicyFile(path: string, content: Option<string>)

  datatype Request = Request(target: string, configTarget: string, base: string, policy: seq<PolicyFile>)

  datatype Mode = Whole | Explicit | TargetBranch | MergeBase

  /** Where a name came from. */
  datatype Source = Flag | WorkingConfig | ConfigAt(ref: string) | BothDefaults

  datatype Why =
    | UnknownBase(base: string)
    | NoSharedHistory(target: string)
    | UnknownName(name: string, source: Source)
    | NoDefaultBranch
    | NoCommonTarget

  datatype Resolution = Resolution(mode: Mode, target: string, targetSHA: Sha, base: string, unresolved: Option<Why>,
                                   changed: seq<string>, stale: seq<string>)

  const NOTHING := Resolution(Whole, "", "", "", None, [], [])

  datatype Outcome = Outcome(res: Resolution, failed: bool)

  const AUTO := "auto"
  const HEAD := "HEAD"
  const REMOTE := "origin"
  const CONVENTIONAL: seq<string> := ["main", "master"]

  datatype Branch = Branch(ref: string, sha: Sha)

  /** A target, the reason there is none, or an error of git. */
  datatype Target = Found(branch: Branch) | Unfound(why: Why) | Errored

  // ---- Branches ----

  /** The spellings a name is tried under: a bare one on the remote first. */
  function Candidates(name: string): seq<string> {
    if REMOTE + "/" <= name || "refs/" <= name then [name] else [REMOTE + "/" + name, name]
  }

  datatype Probe = Hit(branch: Branch) | Absent | ProbeError

  function FirstOf(g: Git, names: seq<string>): Probe {
    if |names| == 0 then Absent
    else match g.lookup(names[0])
         case GitError => ProbeError
         case Got(Some(sha)) => Hit(Branch(names[0], sha))
         case Got(None) => FirstOf(g, names[1..])
  }

  /** What git's answer for one spelling comes to. */
  function ProbeOf(ref: string, answer: Answer<Option<Sha>>): Probe {
    match answer case GitError => ProbeError case Got(None) => Absent case Got(Some(sha)) => Hit(Branch(ref, sha))
  }

  /** A bare name is the remote's branch when the remote has one, whatever a local branch of that name
      holds; a qualified name is looked up as it stands. */
  lemma RemoteFirst(g: Git, name: string)
    ensures FirstOf(g, Candidates(name)) ==
            if REMOTE + "/" <= name || "refs/" <= name || g.lookup(REMOTE + "/" + name) == Got(None)
            then ProbeOf(name, g.lookup(name))
            else ProbeOf(REMOTE + "/" + name, g.lookup(REMOTE + "/" + name))
  {
    var names := Candidates(name);
    assert [name][1..] == [];
    assert FirstOf(g, [name]) == ProbeOf(name, g.lookup(name));
    assert |names| == 2 ==> names[1..] == [name];
  }

  method LookupBranch(g: Git, name: string) returns (p: Probe)
    ensures p == FirstOf(g, Candidates(name))
  {
    var candidates := Candidates(name);
    for i := 0 to |candidates|
      invariant FirstOf(g, candidates) == FirstOf(g, candidates[i..])
    {
      assert candidates[i..][0] == candidates[i] && candidates[i..][1..] == candidates[i + 1..];
      match g.lookup(candidates[i]) {
        case GitError => return ProbeError;
        case Got(Some(sha)) => return Hit(Branch(candidates[i], sha));
        case Got(None) =>
      }
    }
    p := Absent;
  }

  function Named(g: Git, name: string, source: Source): Target {
    match FirstOf(g, Candidates(name))
    case Hit(b) => Found(b)
    case Absent => Unfound(UnknownName(name, source))
    case ProbeError => Errored
  }

  method NamedTarget(g: Git, name: string, source: Source) returns (t: Target)
    ensures t == Named(g, name, source)
  {
    var p := LookupBranch(g, name);
    match p {
      case Hit(b) => t := Found(b);
      case Absent => t := Unfound(UnknownName(name, source));
      case ProbeError => t := Errored;
    }
  }

  // ---- The trusted default branch ----

  datatype Default = One(branch: Branch) | Missing | Ambiguous(branches: seq<Branch>) | DefaultError

  datatype Presence = Present(branches: seq<Branch>) | PresenceError

  /** Which of the names are branches. */
  function PresentOf(g: Git, names: seq<string>): Presence {
    if |names| == 0 then Present([])
    else match FirstOf(g, Candidates(names[0]))
         case ProbeError => PresenceError
         case Absent => PresentOf(g, names[1..])
         case Hit(b) =>
           match PresentOf(g, names[1..])
           case PresenceError => PresenceError
           case Present(bs) => Present([b] + bs)
  }

  function Conventional(g: Git): Default {
    match PresentOf(g, CONVENTIONAL)
    case PresenceError => DefaultError
    case Present(bs) => if |bs| == 0 then Missing else if |bs| == 1 then One(bs[0]) else Ambiguous(bs)
  }

  function Trusted(g: Git): Default {
    if g.originHead.None? then Conventional(g)
    else match g.lookup(g.originHead.value)
         case GitError => DefaultError
         case Got(Some(sha)) => One(Branch(g.originHead.value, sha))
         case Got(None) => Conventional(g)
  }

  method TrustedDefault(g: Git) returns (d: Default)
    ensures d == Trusted(g)
  {
    if g.originHead.Some? {
      match g.lookup(g.originHead.value) {
        case GitError => return DefaultError;
        case Got(Some(sha)) => return One(Branch(g.originHead.value, sha));
        case Got(None) =>
      }
    }
    var present: seq<Branch> := [];
    assert CONVENTIONAL[0..] == CONVENTIONAL;
    for i := 0 to |CONVENTIONAL|
      invariant PresentOf(g, CONVENTIONAL) == Prepend(present, PresentOf(g, CONVENTIONAL[i..]))
    {
      assert CONVENTIONAL[i..][0] == CONVENTIONAL[i] && CONVENTIONAL[i..][1..] == CONVENTIONAL[i + 1..];
      var p := LookupBranch(g, CONVENTIONAL[i]);
      match p {
        case ProbeError => return DefaultError;
        case Absent =>
        case Hit(b) =>
          var rest := PresentOf(g, CONVENTIONAL[i + 1..]);
          if rest.Present? { assert present + ([b] + rest.branches) == present + [b] + rest.branches; }
          present := present + [b];
      }
    }
    d := if |present| == 0 then Missing else if |present| == 1 then One(present[0]) else Ambiguous(present);
  }

  function Prepend(bs: seq<Branch>, p: Presence): Presence {
    match p case PresenceError => PresenceError case Present(more) => Present(bs + more)
  }

  /** target_branch in the config at a commit; "" when the request has no policy files. */
  function DeclaredAt(g: Git, sha: Sha, policy: seq<PolicyFile>): Answer<string> {
    if |policy| == 0 then Got("") else g.targetBranchAt(sha, policy[0].path)
  }

  datatype Agreement = Agreed(name: string) | Disagree | AgreementError

  /** The one target_branch all branches declare, from the second on against agreed. */
  function AgreementOf(g: Git, branches: seq<Branch>, policy: seq<PolicyFile>, agreed: Option<string>): Agreement {
    if |branches| == 0 then Agreed(if agreed.Some? then agreed.value else "")
    else match DeclaredAt(g, branches[0].sha, policy)
         case GitError => AgreementError
         case Got(declared) =>
           if declared == "" || (agreed.Some? && declared != agreed.value) then Disagree
           else AgreementOf(g, branches[1..], policy, Some(declared))
  }

  function Declared(g: Git, branches: seq<Branch>, policy: seq<PolicyFile>): Target {
    match AgreementOf(g, branches, policy, None)
    case AgreementError => Errored
    case Disagree => Unfound(NoCommonTarget)
    case Agreed(name) => Named(g, name, BothDefaults)
  }

  method DeclaredByAll(g: Git, branches: seq<Branch>, policy: seq<PolicyFile>) returns (t: Target)
    ensures t == Declared(g, branches, policy)
  {
    var agreed := "";
    assert branches[0..] == branches;
    for i := 0 to |branches|
      invariant AgreementOf(g, branches, policy, None)
                == AgreementOf(g, branches[i..], policy, if i == 0 then None else Some(agreed))
      invariant i == 0 ==> agreed == ""
    {
      assert branches[i..][0] == branches[i] && branches[i..][1..] == branches[i + 1..];
      var declared := "";
      if |policy| > 0 {
        match g.targetBranchAt(branches[i].sha, policy[0].path) {
          case GitError => return Errored;
          case Got(name) => declared := name;
        }
      }
      if declared == "" || (i > 0 && declared != agreed) {
        return Unfound(NoCommonTarget);
      }
      agreed := declared;
    }
    t := NamedTarget(g, agreed, BothDefaults);
  }

  // ---- The target ----

  function TargetOf(g: Git, req: Request): Target {
    if req.target != "" then Named(g, req.target, Flag)
    else if |req.policy| == 0 && req.configTarget != "" then Named(g, req.configTarget, WorkingConfig)
    else match Trusted(g)
         case DefaultError => Errored
         case Ambiguous(bs) => Declared(g, bs, req.policy)
         case Missing => if req.configTarget != "" then Named(g, req.configTarget, WorkingConfig)
                         else Unfound(NoDefaultBranch)
         case One(b) =>
           match DeclaredAt(g, b.sha, req.policy)
           case GitError => Errored
           case Got(declared) => if declared != "" then Named(g, declared, ConfigAt(b.ref)) else Found(b)
  }

  method ResolveTarget(g: Git, req: Request) returns (t: Target)
    ensures t == TargetOf(g, req)
  {
    if req.target != "" {
      t := NamedTarget(g, req.target, Flag);
      return;
    }
    if |req.policy| == 0 && req.configTarget != "" {
      t := NamedTarget(g, req.configTarget, WorkingConfig);
      return;
    }
    var def := TrustedDefault(g);
    match def {
      case DefaultError => t := Errored;
      case Ambiguous(bs) => t := DeclaredByAll(g, bs, req.policy);
      case Missing =>
        if req.configTarget != "" {
          t := NamedTarget(g, req.configTarget, WorkingConfig);
        } else {
          t := Unfound(NoDefaultBranch);
        }
      case One(b) =>
        if |req.policy| > 0 {
          match g.targetBranchAt(b.sha, req.policy[0].path) {
            case GitError => return Errored;
            case Got(declared) =>
              if declared != "" {
                t := NamedTarget(g, declared, ConfigAt(b.ref));
                return;
              }
          }
        }
        t := Found(b);
    }
  }

  /** The commit the branch left the target at; HEAD when it is on the target or shares nothing with it. */
  function Fork(g: Git, head: Sha, targetSHA: Sha): Answer<Sha> {
    if targetSHA == "" then Got(head)
    else match g.isAncestor(head, targetSHA)
         case GitError => GitError
         case Got(true) => Got(head)
         case Got(false) =>
           match g.mergeBase(head, targetSHA)
           case GitError => GitError
           case Got(None) => Got(head)
           case Got(Some(sha)) => Got(sha)
  }

  // ---- The policy guard ----

  predicate SameAs(file: PolicyFile, there: Option<string>) {
    file.content == there
  }

  /** The files before the first one git cannot answer for. */
  function Guard(g: Git, policy: seq<PolicyFile>, res: Resolution, fork: Sha): Outcome {
    if |policy| == 0 then Outcome(res, false)
    else match g.fileAt(res.targetSHA, policy[0].path)
         case GitError => Outcome(res, true)
         case Got(theirs) =>
           if SameAs(policy[0], theirs) then Guard(g, policy[1..], res, fork)
           else match g.fileAt(fork, policy[0].path)
                case GitError => Outcome(res, true)
                case Got(forked) =>
                  Guard(g, policy[1..],
                        if SameAs(policy[0], forked) then res.(stale := res.stale + [policy[0].path])
                        else res.(changed := res.changed + [policy[0].path]),
                        fork)
  }

  function Guarded(g: Git, policy: seq<PolicyFile>, res: Resolution, fork: Sha): Outcome {
    if |policy| == 0 then Outcome(res, false)
    else match g.fileAt(res.targetSHA, policy[0].path)
         case GitError => Outcome(res, true)
         case Got(None) => Outcome(res, false)
         case Got(Some(_)) => Guard(g, policy, res, fork)
  }

  method WithPolicyGuard(g: Git, policy: seq<PolicyFile>, start: Resolution, fork: Sha) returns (o: Outcome)
    ensures o == Guarded(g, policy, start, fork)
  {
    var res := start;
    if |policy| > 0 {
      match g.fileAt(res.targetSHA, policy[0].path) {
        case GitError => return Outcome(res, true);
        case Got(None) => return Outcome(res, false);
        case Got(Some(_)) =>
      }
    }
    assert policy[0..] == policy;
    for i := 0 to |policy|
      invariant Guard(g, policy, start, fork) == Guard(g, policy[i..], res, fork)
      invariant res.targetSHA == start.targetSHA
    {
      assert policy[i..][0] == policy[i] && policy[i..][1..] == policy[i + 1..];
      var file := policy[i];
      match g.fileAt(res.targetSHA, file.path) {
        case GitError => return Outcome(res, true);
        case Got(theirs) =>
          if SameAs(file, theirs) {
            continue;
          }
          match g.fileAt(fork, file.path) {
            case GitError => return Outcome(res, true);
            case Got(forked) =>
              if !SameAs(file, forked) {
                res := res.(changed := res.changed + [file.path]);
              } else {
                res := res.(stale := res.stale + [file.path]);
              }
          }
      }
    }
    o := Outcome(res, false);
  }

  // ---- Resolving ----

  predicate IsExplicit(req: Request) {
    req.base != "" && req.base != AUTO
  }

  /** The resolution before the policy guard; the guard runs on it from a fork point, or not at all. */
  datatype Plan = Final(o: Outcome) | GuardFrom(res: Resolution, fork: Sha)

  function PlanExplicit(g: Git, req: Request, head: Sha, t: Target): Plan
    requires !t.Errored?
  {
    match g.lookup(req.base)
    case GitError => Final(Outcome(NOTHING, true))
    case Got(None) =>
      Final(Outcome(NOTHING.(target := if t.Found? then t.branch.ref else "",
                             targetSHA := if t.Found? then t.branch.sha else "",
                             unresolved := Some(UnknownBase(req.base))), false))
    case Got(Some(baseSHA)) =>
      // Without a named target the guard compares with the base itself.
      var res := NOTHING.(mode := Explicit, base := req.base,
                          target := if t.Found? then t.branch.ref else req.base,
                          targetSHA := if t.Found? then t.branch.sha else baseSHA);
      match Fork(g, head, res.targetSHA)
      case GitError => Final(Outcome(NOTHING, true))
      case Got(fork) => GuardFrom(res, fork)
  }

  function PlanAuto(g: Git, head: Sha, t: Target): Plan
    requires !t.Errored?
  {
    if t.Unfound? then Final(Outcome(NOTHING.(unresolved := Some(t.why)), false))
    else
      var res := NOTHING.(target := t.branch.ref, targetSHA := t.branch.sha);
      match g.isAncestor(head, t.branch.sha)
      case GitError => Final(Outcome(NOTHING, true))
      case Got(true) => GuardFrom(res.(mode := TargetBranch), head)
      case Got(false) =>
        match g.mergeBase(head, t.branch.sha)
        case GitError => Final(Outcome(NOTHING, true))
        case Got(None) => Final(Outcome(res.(unresolved := Some(NoSharedHistory(t.branch.ref))), false))
        case Got(Some(sha)) => GuardFrom(res.(mode := MergeBase, base := sha), sha)
  }

  function PlanOf(g: Git, req: Request, head: Sha): Plan {
    var t := TargetOf(g, req);
    if t.Errored? then Final(Outcome(NOTHING, true))
    else if IsExplicit(req) then PlanExplicit(g, req, head, t)
    else PlanAuto(g, head, t)
  }

  function Resolved(g: Git, req: Request): Outcome {
    if !g.inRepository then Outcome(NOTHING, false)
    else match g.lookup(HEAD)
         case GitError => Outcome(NOTHING, true)
         case Got(None) => Outcome(NOTHING, false)
         case Got(Some(head)) =>
           match PlanOf(g, req, head)
           case Final(o) => o
           case GuardFrom(res, fork) => Guarded(g, req.policy, res, fork)
  }

  method ResolveScope(g: Git, req: Request) returns (o: Outcome)
    ensures o == Resolved(g, req)
  {
    if !g.inRepository {
      return Outcome(NOTHING, false);
    }
    var head;
    match g.lookup(HEAD) {
      case GitError => return Outcome(NOTHING, true);
      case Got(None) => return Outcome(NOTHING, false);
      case Got(Some(sha)) => head := sha;
    }
    var t := ResolveTarget(g, req);
    if t.Errored? {
      return Outcome(NOTHING, true);
    }
    var res := NOTHING;
    if t.Found? { res := res.(target := t.branch.ref, targetSHA := t.branch.sha); }
    if req.base != "" && req.base != AUTO {
      res := res.(mode := Explicit);
      match g.lookup(req.base) {
        case GitError => return Outcome(NOTHING, true);
        case Got(None) =>
          res := res.(mode := Whole, unresolved := Some(UnknownBase(req.base)));
          return Outcome(res, false);
        case Got(Some(baseSHA)) =>
          res := res.(base := req.base);
          if t.Unfound? { res := res.(target := req.base, targetSHA := baseSHA); }
          match Fork(g, head, res.targetSHA) {
            case GitError => return Outcome(NOTHING, true);
            case Got(fork) => o := WithPolicyGuard(g, req.policy, res, fork);
          }
          return;
      }
    }
    if t.Unfound? {
      return Outcome(res.(unresolved := Some(t.why)), false);
    }
    match g.isAncestor(head, t.branch.sha) {
      case GitError => return Outcome(NOTHING, true);
      case Got(true) =>
        o := WithPolicyGuard(g, req.policy, res.(mode := TargetBranch), head);
        return;
      case Got(false) =>
    }
    match g.mergeBase(head, t.branch.sha) {
      case GitError => return Outcome(NOTHING, true);
      case Got(None) => return Outcome(res.(unresolved := Some(NoSharedHistory(t.branch.ref))), false);
      case Got(Some(sha)) => o := WithPolicyGuard(g, req.policy, res.(mode := MergeBase, base := sha), sha);
    }
  }
}
