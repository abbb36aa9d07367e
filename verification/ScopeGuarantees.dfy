/**
  What scope resolution promises (internal/application/scope.go): a branch cannot
  choose what it is compared with, nothing falls back silently, and each policy
  file that differs from the target is either the branch's edit or behind it.
*/
module ScopeGuarantees {
  import opened Options
  import opened Scope

  // ---- A branch cannot choose its target ----

  ghost predicate SamePaths(a: seq<PolicyFile>, b: seq<PolicyFile>) {
    |a| == |b| && forall i :: 0 <= i < |a| ==> a[i].path == b[i].path
  }

  /** Requests that differ only in what a branch can write: its config's target_branch and the
      contents of its policy files. */
  ghost predicate SameButWorkingTree(a: Request, b: Request) {
    a.target == b.target && a.base == b.base && SamePaths(a.policy, b.policy)
  }

  lemma {:induction false} AgreementReadsPaths(g: Git, branches: seq<Branch>, a: seq<PolicyFile>, b: seq<PolicyFile>,
                                               agreed: Option<string>)
    requires SamePaths(a, b)
    ensures AgreementOf(g, branches, a, agreed) == AgreementOf(g, branches, b, agreed)
  {
    if |branches| != 0 {
      match DeclaredAt(g, branches[0].sha, a) {
        case GitError =>
        case Got(declared) => AgreementReadsPaths(g, branches[1..], a, b, Some(declared));
      }
    }
  }

  /** The guard sorts files; it never touches how the change was scoped. */
  ghost predicate SameScope(a: Resolution, b: Resolution) {
    a.mode == b.mode && a.target == b.target && a.targetSHA == b.targetSHA && a.base == b.base
      && a.unresolved == b.unresolved
  }

  lemma {:induction false} GuardKeepsScope(g: Git, policy: seq<PolicyFile>, res: Resolution, fork: Sha)
    ensures SameScope(Guard(g, policy, res, fork).res, res)
  {
    if |policy| != 0 {
      GuardKeepsScope(g, policy[1..], res, fork);
      GuardKeepsScope(g, policy[1..], res.(stale := res.stale + [policy[0].path]), fork);
      GuardKeepsScope(g, policy[1..], res.(changed := res.changed + [policy[0].path]), fork);
    }
  }

  lemma TargetIgnoresWorkingTree(g: Git, a: Request, b: Request)
    requires SameButWorkingTree(a, b) && a.target == "" && |a.policy| > 0 && !Trusted(g).Missing?
    ensures TargetOf(g, a) == TargetOf(g, b)
  {
    match Trusted(g) {
      case Ambiguous(bs) => AgreementReadsPaths(g, bs, a.policy, b.policy, None);
      case _ =>
    }
  }

  /** With a tracked config and no --target, where a default branch is found or main and master
      both exist, nothing the branch writes changes what it is compared with. */
  lemma {:induction false} BranchCannotChooseScope(g: Git, a: Request, b: Request)
    requires SameButWorkingTree(a, b) && a.target == "" && |a.policy| > 0 && !Trusted(g).Missing?
    ensures SameScope(Resolved(g, a).res, Resolved(g, b).res)
  {
    TargetIgnoresWorkingTree(g, a, b);
    match g.lookup(HEAD) {
      case Got(Some(head)) =>
        assert PlanOf(g, a, head) == PlanOf(g, b, head);
        match PlanOf(g, a, head) {
          case Final(_) =>
          case GuardFrom(res, fork) =>
            GuardKeepsScope(g, a.policy, res, fork);
            GuardKeepsScope(g, b.policy, res, fork);
        }
      case _ =>
    }
  }

  /** Just so: the working-tree target_branch has a say exactly when there is no default branch. */
  lemma ConfigDecidesOnlyWithoutDefault(g: Git, base: string, policy: seq<PolicyFile>)
    requires |policy| > 0
    ensures (exists c, d :: TargetOf(g, Request("", c, base, policy)) != TargetOf(g, Request("", d, base, policy)))
            <==> Trusted(g).Missing?
  {
    if Trusted(g).Missing? {
      assert TargetOf(g, Request("", "", base, policy)) == Unfound(NoDefaultBranch);
      assert TargetOf(g, Request("", "main", base, policy)) == Named(g, "main", WorkingConfig);
      assert TargetOf(g, Request("", "", base, policy)) != TargetOf(g, Request("", "main", base, policy));
    } else {
      forall c, d ensures TargetOf(g, Request("", c, base, policy)) == TargetOf(g, Request("", d, base, policy)) {
        TargetIgnoresWorkingTree(g, Request("", c, base, policy), Request("", d, base, policy));
      }
    }
  }

  // ---- Nothing falls back silently ----

  /** Commits have names, and a merge base is an ancestor of both its commits. */
  ghost predicate Faithful(g: Git) {
    && (forall a, b :: g.mergeBase(a, b) != Got(Some("")))
    && (forall a, b, s :: g.mergeBase(a, b) == Got(Some(s)) ==>
          g.isAncestor(s, a) == Got(true) && g.isAncestor(s, b) == Got(true))
  }

  /** In a repository with a commit: either a mode was resolved, or Unresolved says why not, and
      there is a base exactly in the modes that compare with one. */
  lemma NeverFallsBackSilently(g: Git, req: Request, head: Sha)
    requires Faithful(g) && g.inRepository && g.lookup(HEAD) == Got(Some(head)) && !Resolved(g, req).failed
    ensures var res := Resolved(g, req).res;
            && (res.mode == Whole <==> res.unresolved.Some?)
            && (res.base != "" <==> res.mode == Explicit || res.mode == MergeBase)
  {
    match PlanOf(g, req, head) {
      case Final(_) =>
      case GuardFrom(res, fork) => GuardKeepsScope(g, req.policy, res, fork);
    }
  }

  /** Somebody gave this name for the target: with --target, in a config the repository does not track
      or that no default branch can vouch for, in the config at the default branch, or in the configs
      of both. */
  ghost predicate Given(g: Git, req: Request, name: string, source: Source) {
    var untracked := |req.policy| == 0 && req.configTarget != "";
    match source
    case Flag => name == req.target != ""
    case WorkingConfig => req.target == "" && name == req.configTarget != ""
      && (|req.policy| == 0 || Trusted(g).Missing?)
    case ConfigAt(ref) =>
      && req.target == "" && !untracked && name != ""
      && Trusted(g).One? && Trusted(g).branch.ref == ref
         && DeclaredAt(g, Trusted(g).branch.sha, req.policy) == Got(name)
    case BothDefaults =>
      && req.target == "" && !untracked
      && Trusted(g).Ambiguous? && AgreementOf(g, Trusted(g).branches, req.policy, None) == Agreed(name)
  }

  lemma UnknownExactly(g: Git, req: Request, name: string, source: Source)
    ensures TargetOf(g, req) == Unfound(UnknownName(name, source))
            <==> Given(g, req, name, source) && FirstOf(g, Candidates(name)).Absent?
  {
  }

  /** The remote's HEAD when git knows it, else the one of main and master there is, else neither or both. */
  lemma TrustedExactly(g: Git)
    ensures Trusted(g) ==
            if g.originHead.Some? && g.lookup(g.originHead.value).GitError? then DefaultError
            else if g.originHead.Some? && g.lookup(g.originHead.value).value.Some?
            then One(Branch(g.originHead.value, g.lookup(g.originHead.value).value.value))
            else match (FirstOf(g, Candidates("main")), FirstOf(g, Candidates("master")))
                 case (ProbeError, _) => DefaultError
                 case (_, ProbeError) => DefaultError
                 case (Absent, Absent) => Missing
                 case (Hit(b), Absent) => One(b)
                 case (Absent, Hit(c)) => One(c)
                 case (Hit(b), Hit(c)) => Ambiguous([b, c])
  {
    hide FirstOf, Candidates;
    var last := ["master"];
    assert last[1..] == [] && PresentOf(g, []) == Present([]);
    assert PresentOf(g, last) == match FirstOf(g, Candidates("master"))
                                 case ProbeError => PresenceError
                                 case Absent => Present([])
                                 case Hit(c) => Present([c] + []);
    assert CONVENTIONAL[0] == "main" && CONVENTIONAL[1..] == last;
  }

  /** Branches agree on a name when each of them declares it. */
  lemma {:induction false} AgreedExactly(g: Git, branches: seq<Branch>, policy: seq<PolicyFile>, agreed: Option<string>,
                                         name: string)
    requires branches != [] && (agreed.Some? ==> agreed.value != "")
    ensures AgreementOf(g, branches, policy, agreed) == Agreed(name) <==>
            && name != "" && (agreed.Some? ==> agreed.value == name)
            && forall b :: b in branches ==> DeclaredAt(g, b.sha, policy) == Got(name)
  {
    var first, rest := branches[0], branches[1..];
    assert branches == [first] + rest;
    if rest != [] {
      match DeclaredAt(g, first.sha, policy) {
        case Got(declared) => if declared != "" { AgreedExactly(g, rest, policy, Some(declared), name); }
        case _ =>
      }
    }
  }

  /** The target is what a name somebody gave names, or the default branch when nobody gave one. */
  lemma {:induction false} TargetExactly(g: Git, req: Request, b: Branch)
    ensures TargetOf(g, req) == Found(b) <==>
            || (exists name, source :: Given(g, req, name, source) && FirstOf(g, Candidates(name)) == Hit(b))
            || (req.target == "" && (|req.policy| > 0 || req.configTarget == "")
                && Trusted(g) == One(b) && DeclaredAt(g, b.sha, req.policy) == Got(""))
  {
    hide FirstOf, Candidates, Trusted, AgreementOf;
    if TargetOf(g, req) == Found(b) {
      if req.target != "" {
        assert Given(g, req, req.target, Flag);
      } else if |req.policy| == 0 && req.configTarget != "" {
        assert Given(g, req, req.configTarget, WorkingConfig);
      } else {
        match Trusted(g) {
          case Ambiguous(bs) =>
            assert Given(g, req, AgreementOf(g, bs, req.policy, None).name, BothDefaults);
          case Missing => assert Given(g, req, req.configTarget, WorkingConfig);
          case One(d) =>
            var declared := DeclaredAt(g, d.sha, req.policy).value;
            if declared != "" { assert Given(g, req, declared, ConfigAt(d.ref)); }
          case _ =>
        }
      }
    }
  }

  /** A name somebody gave is final: the scope stays unresolved over a name exactly when it is the one
      given, by whatever source, and names nothing here. No other source is asked. */
  lemma GivenNameIsFinal(g: Git, req: Request, head: Sha, name: string, source: Source)
    requires g.inRepository && g.lookup(HEAD) == Got(Some(head)) && !IsExplicit(req)
    ensures Resolved(g, req) == Outcome(NOTHING.(unresolved := Some(UnknownName(name, source))), false)
            <==> Given(g, req, name, source) && FirstOf(g, Candidates(name)).Absent?
  {
    UnknownExactly(g, req, name, source);
    match PlanOf(g, req, head) {
      case Final(_) =>
      case GuardFrom(res, fork) => GuardKeepsScope(g, req.policy, res, fork);
    }
  }

  /** Policy edits are measured from HEAD or from an ancestor HEAD shares with the target. */
  lemma ForkIsShared(g: Git, req: Request, head: Sha)
    requires Faithful(g) && PlanOf(g, req, head).GuardFrom?
    ensures var plan := PlanOf(g, req, head);
            plan.fork == head
            || (g.isAncestor(plan.fork, head) == Got(true) && g.isAncestor(plan.fork, plan.res.targetSHA) == Got(true))
  {
  }

  // ---- What each answer of git comes to ----

  /** The commit the branch left the target at: HEAD when it is on the target or shares nothing with it,
      else the merge base. */
  function LeftAt(g: Git, head: Sha, target: Sha): Sha {
    if g.isAncestor(head, target) == Got(true) then head
    else match g.mergeBase(head, target) case Got(Some(sha)) => sha case _ => head
  }

  /** The commit a request's policy edits are measured from; HEAD against a target without a commit. */
  function MeasuredFrom(g: Git, req: Request, head: Sha, target: Sha): Sha {
    if IsExplicit(req) && target == "" then head else LeftAt(g, head, target)
  }

  /** How a change is scoped, apart from the policy files. */
  predicate IsScope(res: Resolution, mode: Mode, target: string, targetSHA: Sha, base: string, why: Option<Why>) {
    res.mode == mode && res.target == target && res.targetSHA == targetSHA && res.base == base && res.unresolved == why
  }

  /** The scope git's answers give a request for this target. */
  ghost predicate Scopes(g: Git, req: Request, head: Sha, t: Target, res: Resolution) {
    if IsExplicit(req) then
      match g.lookup(req.base)
      case GitError => false
      case Got(None) =>
        if t.Found? then IsScope(res, Whole, t.branch.ref, t.branch.sha, "", Some(UnknownBase(req.base)))
        else IsScope(res, Whole, "", "", "", Some(UnknownBase(req.base)))
      case Got(Some(sha)) =>
        if t.Found? then IsScope(res, Explicit, t.branch.ref, t.branch.sha, req.base, None)
        else IsScope(res, Explicit, req.base, sha, req.base, None)
    else
      match t
      case Errored => false
      case Unfound(why) => IsScope(res, Whole, "", "", "", Some(why))
      case Found(Branch(ref, sha)) =>
        if g.isAncestor(head, sha) == Got(true) then IsScope(res, TargetBranch, ref, sha, "", None)
        else match g.mergeBase(head, sha)
             case GitError => false
             case Got(None) => IsScope(res, Whole, ref, sha, "", Some(NoSharedHistory(ref)))
             case Got(Some(fork)) => IsScope(res, MergeBase, ref, sha, fork, None)
  }

  /** Every answer of git, and the mode, target and base it gives. Outside a repository and before the
      first commit the whole tree is the change. */
  lemma {:induction false} ScopeExactly(g: Git, req: Request)
    ensures !g.inRepository || g.lookup(HEAD) == Got(None) ==>
              !Resolved(g, req).failed && IsScope(Resolved(g, req).res, Whole, "", "", "", None)
    ensures g.inRepository && g.lookup(HEAD).Got? && g.lookup(HEAD).value.Some? && !Resolved(g, req).failed ==>
              Scopes(g, req, g.lookup(HEAD).value.value, TargetOf(g, req), Resolved(g, req).res)
  {
    hide TargetOf;
    if g.inRepository && g.lookup(HEAD).Got? && g.lookup(HEAD).value.Some? {
      match PlanOf(g, req, g.lookup(HEAD).value.value) {
        case Final(_) =>
        case GuardFrom(res, fork) => GuardKeepsScope(g, req.policy, res, fork);
      }
    }
  }

  /** The guard runs exactly on a scope that was resolved, from the commit the branch left the target at. */
  lemma {:induction false} GuardedFrom(g: Git, req: Request, head: Sha)
    requires g.inRepository && g.lookup(HEAD) == Got(Some(head)) && !Resolved(g, req).failed
    ensures var plan, res := PlanOf(g, req, head), Resolved(g, req).res;
            && (plan.GuardFrom? <==> res.mode != Whole)
            && (plan.GuardFrom? ==>
                  plan.fork == MeasuredFrom(g, req, head, res.targetSHA) && res.targetSHA == plan.res.targetSHA
                  && plan.res.changed == [] && plan.res.stale == [])
            && (plan.Final? ==> res.changed == [] && res.stale == [])
  {
    hide TargetOf;
    match PlanOf(g, req, head) {
      case Final(_) =>
      case GuardFrom(res, fork) => GuardKeepsScope(g, req.policy, res, fork);
    }
  }

  // ---- The policy guard ----

  ghost predicate AsAt(g: Git, rev: Sha, file: PolicyFile) {
    g.fileAt(rev, file.path) == Got(file.content)
  }

  ghost predicate DistinctPaths(policy: seq<PolicyFile>) {
    forall i, j :: 0 <= i < j < |policy| ==> policy[i].path != policy[j].path
  }

  /** Differs from the target and from the fork: the branch edited it. */
  ghost predicate Edited(g: Git, target: Sha, fork: Sha, file: PolicyFile) {
    !AsAt(g, target, file) && !AsAt(g, fork, file)
  }

  /** Differs from the target but not from the fork: the target moved on. */
  ghost predicate Behind(g: Git, target: Sha, fork: Sha, file: PolicyFile) {
    !AsAt(g, target, file) && AsAt(g, fork, file)
  }

  ghost predicate EditedPath(g: Git, target: Sha, fork: Sha, policy: seq<PolicyFile>, p: string) {
    exists f :: f in policy && f.path == p && Edited(g, target, fork, f)
  }

  ghost predicate BehindPath(g: Git, target: Sha, fork: Sha, policy: seq<PolicyFile>, p: string) {
    exists f :: f in policy && f.path == p && Behind(g, target, fork, f)
  }

  lemma {:induction false} GuardSorts(g: Git, policy: seq<PolicyFile>, res: Resolution, fork: Sha)
    requires !Guard(g, policy, res, fork).failed
    ensures var out := Guard(g, policy, res, fork).res;
            && (forall p :: p in out.changed <==> p in res.changed || EditedPath(g, res.targetSHA, fork, policy, p))
            && (forall p :: p in out.stale <==> p in res.stale || BehindPath(g, res.targetSHA, fork, policy, p))
  {
    if |policy| != 0 {
      var f, rest, target := policy[0], policy[1..], res.targetSHA;
      assert policy == [f] + rest;
      assert forall p ::
               EditedPath(g, target, fork, policy, p)
               <==> (f.path == p && Edited(g, target, fork, f)) || EditedPath(g, target, fork, rest, p);
      assert forall p ::
               BehindPath(g, target, fork, policy, p)
               <==> (f.path == p && Behind(g, target, fork, f)) || BehindPath(g, target, fork, rest, p);
      if AsAt(g, target, f) {
        GuardSorts(g, rest, res, fork);
      } else if AsAt(g, fork, f) {
        GuardSorts(g, rest, res.(stale := res.stale + [f.path]), fork);
      } else {
        GuardSorts(g, rest, res.(changed := res.changed + [f.path]), fork);
      }
    }
  }

  /** The paths of the files that differ from the target, edited by the branch or else behind it, in
      their order. */
  ghost function Differing(g: Git, target: Sha, fork: Sha, policy: seq<PolicyFile>, edited: bool): seq<string> {
    if |policy| == 0 then []
    else
      var f := policy[0];
      (if !AsAt(g, target, f) && (AsAt(g, fork, f) != edited) then [f.path] else [])
      + Differing(g, target, fork, policy[1..], edited)
  }

  lemma {:induction false} GuardLists(g: Git, policy: seq<PolicyFile>, res: Resolution, fork: Sha)
    requires !Guard(g, policy, res, fork).failed
    ensures var out := Guard(g, policy, res, fork).res;
            && out.changed == res.changed + Differing(g, res.targetSHA, fork, policy, true)
            && out.stale == res.stale + Differing(g, res.targetSHA, fork, policy, false)
  {
    if |policy| != 0 {
      var f, rest, target := policy[0], policy[1..], res.targetSHA;
      if AsAt(g, target, f) {
        GuardLists(g, rest, res, fork);
      } else if AsAt(g, fork, f) {
        GuardLists(g, rest, res.(stale := res.stale + [f.path]), fork);
      } else {
        GuardLists(g, rest, res.(changed := res.changed + [f.path]), fork);
      }
    }
  }

  /** The two lists of a scope: told from git's answers, the files the branch edited since it left the
      target and the files it left alone that the target changed; nothing where the scope is unresolved
      or the target holds no config. */
  lemma {:induction false} PolicyIsSorted(g: Git, req: Request, head: Sha)
    requires g.inRepository && g.lookup(HEAD) == Got(Some(head)) && !Resolved(g, req).failed
    ensures var res := Resolved(g, req).res;
            var fork := MeasuredFrom(g, req, head, res.targetSHA);
            if res.mode == Whole || |req.policy| == 0 || g.fileAt(res.targetSHA, req.policy[0].path) == Got(None)
            then res.changed == [] && res.stale == []
            else && res.changed == Differing(g, res.targetSHA, fork, req.policy, true)
                 && res.stale == Differing(g, res.targetSHA, fork, req.policy, false)
  {
    hide PlanOf, MeasuredFrom, Differing;
    GuardedFrom(g, req, head);
    var plan := PlanOf(g, req, head);
    if plan.GuardFrom? && |req.policy| > 0 && g.fileAt(plan.res.targetSHA, req.policy[0].path) != Got(None) {
      GuardLists(g, req.policy, plan.res, plan.fork);
    }
  }

  // ---- Errors ----

  /** Git does not tell where the branch left the target. */
  predicate LeftUnknown(g: Git, head: Sha, target: Sha) {
    g.isAncestor(head, target).GitError?
    || (g.isAncestor(head, target) == Got(false) && g.mergeBase(head, target).GitError?)
  }

  /** Git does not answer what the scope depends on. */
  ghost predicate ScopeUnknown(g: Git, req: Request, head: Sha, t: Target) {
    if t.Errored? then true
    else if !IsExplicit(req) then t.Found? && LeftUnknown(g, head, t.branch.sha)
    else match g.lookup(req.base)
         case GitError => true
         case Got(None) => false
         case Got(Some(sha)) =>
           var target := if t.Found? then t.branch.sha else sha;
           target != "" && LeftUnknown(g, head, target)
  }

  /** Git does not answer for a protected file at the target, or where it differs at the fork. */
  ghost predicate FileUnknown(g: Git, target: Sha, fork: Sha, f: PolicyFile) {
    g.fileAt(target, f.path).GitError? || (!AsAt(g, target, f) && g.fileAt(fork, f.path).GitError?)
  }

  ghost predicate PolicyUnknown(g: Git, target: Sha, fork: Sha, policy: seq<PolicyFile>) {
    && |policy| > 0 && g.fileAt(target, policy[0].path) != Got(None)
    && exists f :: f in policy && FileUnknown(g, target, fork, f)
  }

  lemma {:induction false} GuardFailsExactly(g: Git, policy: seq<PolicyFile>, res: Resolution, fork: Sha)
    ensures Guard(g, policy, res, fork).failed <==> exists f :: f in policy && FileUnknown(g, res.targetSHA, fork, f)
  {
    if |policy| != 0 {
      var f, rest := policy[0], policy[1..];
      assert policy == [f] + rest;
      assert forall x :: x in policy <==> x == f || x in rest;
      if !FileUnknown(g, res.targetSHA, fork, f) {
        if AsAt(g, res.targetSHA, f) {
          GuardFailsExactly(g, rest, res, fork);
        } else if AsAt(g, fork, f) {
          GuardFailsExactly(g, rest, res.(stale := res.stale + [f.path]), fork);
        } else {
          GuardFailsExactly(g, rest, res.(changed := res.changed + [f.path]), fork);
        }
      }
    }
  }

  /** Resolving fails exactly when git does not answer a question it depends on. */
  lemma {:induction false} FailsExactly(g: Git, req: Request, head: Sha)
    requires g.inRepository && g.lookup(HEAD) == Got(Some(head))
    ensures Resolved(g, req).failed <==>
            || ScopeUnknown(g, req, head, TargetOf(g, req))
            || exists res :: Scopes(g, req, head, TargetOf(g, req), res) && res.mode != Whole
                             && PolicyUnknown(g, res.targetSHA, MeasuredFrom(g, req, head, res.targetSHA), req.policy)
  {
    hide TargetOf, PolicyUnknown, Guard;
    match PlanOf(g, req, head) {
      case Final(_) =>
      case GuardFrom(res, fork) =>
        assert Scopes(g, req, head, TargetOf(g, req), res);
        GuardedFails(g, req.policy, res, fork);
    }
  }

  lemma GuardedFails(g: Git, policy: seq<PolicyFile>, res: Resolution, fork: Sha)
    ensures Guarded(g, policy, res, fork).failed <==> PolicyUnknown(g, res.targetSHA, fork, policy)
  {
    GuardFailsExactly(g, policy, res, fork);
    if |policy| > 0 && g.fileAt(res.targetSHA, policy[0].path).GitError? {
      assert policy[0] in policy && FileUnknown(g, res.targetSHA, fork, policy[0]);
    }
  }

  /** When the target holds the config and git answers, every protected file is exactly one of: the same
      as at the target, changed by the branch since it left the target, or stale; and a stale one is as it
      was where the branch left. */
  lemma {:induction false} EachFileIsSortedOnce(g: Git, req: Request, head: Sha, i: nat)
    requires g.inRepository && g.lookup(HEAD) == Got(Some(head)) && !Resolved(g, req).failed
    requires Resolved(g, req).res.mode != Whole && DistinctPaths(req.policy) && i < |req.policy|
    requires g.fileAt(Resolved(g, req).res.targetSHA, req.policy[0].path) != Got(None)
    ensures var res, f := Resolved(g, req).res, req.policy[i];
            var fork := MeasuredFrom(g, req, head, res.targetSHA);
            && (f.path in res.changed <==> Edited(g, res.targetSHA, fork, f))
            && (f.path in res.stale <==> Behind(g, res.targetSHA, fork, f))
            && (f.path !in res.changed && f.path !in res.stale <==> AsAt(g, res.targetSHA, f))
            && !(f.path in res.changed && f.path in res.stale)
  {
    hide PlanOf, MeasuredFrom;
    var plan, f := PlanOf(g, req, head), req.policy[i];
    GuardedFrom(g, req, head);
    GuardSorts(g, req.policy, plan.res, plan.fork);
    assert f in req.policy;
    forall x | x in req.policy && x.path == f.path ensures x == f {
      var j :| 0 <= j < |req.policy| && req.policy[j] == x;
    }
  }
}
