/** Sequences of enforced pushes: what the proxy guarantees about the upstream's refs over time. */
module PushRuns {
  import opened Options
  import opened Commits
  import opened Policy
  import opened Rules
  import opened PktLine
  import opened ReceivePackRequest
  import opened Enforce
  import opened Proxy
  import C = ChangedFiles

  type Refs = map<string, OID>

  /**
   * One push, what the refs of the mirror that inspects it point at, and the commands the upstream
   * chooses to accept if it ever sees them.
   */
  datatype Push = Push(env: Env, mirrorTips: set<OID>, body: string, who: Who, accepted: set<nat>)

  // -------------------------------------------------------------- the upstream

  /** Compare-and-swap on the old value: "" means the ref must not exist. */
  predicate Current(refs: Refs, cmd: Command) {
    var o := Normalize(cmd.oldId);
    if o == "" then cmd.ref !in refs else cmd.ref in refs && refs[cmd.ref] == o
  }

  function ApplyOne(refs: Refs, cmd: Command): Refs {
    var n := Normalize(cmd.newId);
    if !Current(refs, cmd) then refs
    else if n == "" then refs - {cmd.ref}
    else refs[cmd.ref := n]
  }

  function ApplyAll(refs: Refs, cmds: seq<Command>, accepted: set<nat>): Refs {
    if cmds == [] then refs
    else
      var n := |cmds| - 1;
      var before := ApplyAll(refs, cmds[..n], accepted);
      if n in accepted then ApplyOne(before, cmds[n]) else before
  }

  /** The upstream only ever sees what the proxy forwards. */
  function ApplyPush(cfg: Config, refs: Refs, p: Push): Refs {
    if Forwards(cfg, p.env, p.body, p.who) && ParseSpec(p.body, false).Parsed?
    then ApplyAll(refs, ParseSpec(p.body, false).commands, p.accepted)
    else refs
  }

  function AfterRun(cfg: Config, refs: Refs, pushes: seq<Push>): Refs {
    if pushes == [] then refs
    else ApplyPush(cfg, AfterRun(cfg, refs, pushes[..|pushes| - 1]), pushes[|pushes| - 1])
  }

  // ------------------------------------------------------------------ protection

  /** A rule that answers like this is on for every agent and repository, and dry-run is off. */
  ghost predicate InForce(cfg: Config, answer: PushRequest -> RuleResult) {
    && cfg.Enforces() && !cfg.dryRun
    && exists i :: 0 <= i < |cfg.engine.value.entries| && AsksEveryone(cfg.engine.value.entries[i], answer)
  }

  ghost predicate AsksEveryone(entry: Entry, answer: PushRequest -> RuleResult) {
    entry.agents == {} && entry.repos == {} && forall req :: entry.rule.push(req) == answer(req)
  }

  lemma NotDenied(cfg: Config, answer: PushRequest -> RuleResult, req: PushRequest)
    requires InForce(cfg, answer) && !Blocked(cfg.engine.value.entries, req)
    ensures !answer(req).Denies()
  {
    var entries := cfg.engine.value.entries;
    var i :| 0 <= i < |entries| && AsksEveryone(entries[i], answer);
    assert !entries[i].Blocks(req);
  }

  ghost predicate Guarded(cfg: Config, isProtected: string -> bool) {
    InForce(cfg, HistoryProtect(isProtected).push)
  }

  /** An ancestry query that completes tells the truth about the commit graph. */
  ghost predicate Truthful(m: Enforce.Mirror, g: ParentMap) {
    forall a, b :: m.isAncestor(a, b).Answered? ==> (m.isAncestor(a, b).value <==> Ancestor(g, a, b))
  }

  /** The ref is still there and its earlier tip is in the history of its current one. */
  ghost predicate Kept(g: ParentMap, before: Refs, after: Refs, ref: string) {
    ref in before ==> ref in after && Ancestor(g, before[ref], after[ref])
  }

  /** A command on a protected ref that got past history_protect creates it or moves it forward. */
  ghost predicate Safe(cmd: Command, g: ParentMap) {
    var o, n := Normalize(cmd.oldId), Normalize(cmd.newId);
    n != "" && (o != "" ==> Ancestor(g, o, n))
  }

  lemma UnblockedIsSafe(cfg: Config, g: ParentMap, isProtected: string -> bool, p: Push, i: nat)
    requires Guarded(cfg, isProtected) && Truthful(p.env.mirror, g)
    requires Clean(cfg, p.env, p.body, p.who)
    requires i < |ParseSpec(p.body, false).commands| && isProtected(ParseSpec(p.body, false).commands[i].ref)
    ensures Safe(ParseSpec(p.body, false).commands[i], g)
  {
    hide ParseSpec, Inspect, Ancestor, IsHex, HistoryProtectPush;
    var cmds := ParseSpec(p.body, false).commands;
    var req := Examined(p.env, p.body, p.who).req;
    InspectedReflectsCommands(cmds, p.env.mirror, p.who.agent, p.who.repo, PackID(p.env, p.body));
    assert Reflects(req.updates[i], cmds[i], p.env.mirror);
    NotDenied(cfg, HistoryProtect(isProtected).push, req);
    HistoryProtectDenies(isProtected, req.updates);
  }

  lemma {:induction false} SafeCommandsKeep(g: ParentMap, refs: Refs, cmds: seq<Command>, accepted: set<nat>, ref: string)
    requires forall i :: 0 <= i < |cmds| && cmds[i].ref == ref ==> Safe(cmds[i], g)
    ensures Kept(g, refs, ApplyAll(refs, cmds, accepted), ref)
  {
    hide Ancestor;
    if cmds == [] {
      if ref in refs {
        AncestorReflexive(g, refs[ref]);
      }
    } else {
      var n := |cmds| - 1;
      assert forall i :: 0 <= i < n ==> cmds[..n][i] == cmds[i];
      SafeCommandsKeep(g, refs, cmds[..n], accepted, ref);
      var before := ApplyAll(refs, cmds[..n], accepted);
      if n in accepted && ref in refs && cmds[n].ref == ref && Current(before, cmds[n]) {
        AncestorTransitive(g, refs[ref], before[ref], Normalize(cmds[n].newId));
      }
    }
  }

  lemma PushKeeps(cfg: Config, g: ParentMap, isProtected: string -> bool, refs: Refs, p: Push, ref: string)
    requires Guarded(cfg, isProtected) && Truthful(p.env.mirror, g) && isProtected(ref)
    ensures Kept(g, refs, ApplyPush(cfg, refs, p), ref)
  {
    hide ParseSpec, Ancestor, Guarded, Truthful, Safe;
    assert !cfg.dryRun && cfg.Enforces() by { GuardedOff(cfg, isProtected); }
    if Forwards(cfg, p.env, p.body, p.who) {
      var cmds := ParseSpec(p.body, false).commands;
      forall i | 0 <= i < |cmds| && cmds[i].ref == ref ensures Safe(cmds[i], g) {
        UnblockedIsSafe(cfg, g, isProtected, p, i);
      }
      SafeCommandsKeep(g, refs, cmds, p.accepted, ref);
    } else if ref in refs {
      AncestorReflexive(g, refs[ref]);
    }
  }

  lemma GuardedOff(cfg: Config, isProtected: string -> bool)
    requires Guarded(cfg, isProtected)
    ensures cfg.Enforces() && !cfg.dryRun
  {
  }

  /**
   * Over any run of enforced pushes, a protected ref that exists at some point is never removed
   * afterwards, and its tip then stays an ancestor of its tip at the end.
   */
  lemma {:induction false} ProtectedHistoryIsKept(cfg: Config, g: ParentMap, isProtected: string -> bool,
                                                  refs: Refs, pushes: seq<Push>, k: nat, ref: string)
    requires Guarded(cfg, isProtected) && isProtected(ref) && k <= |pushes|
    requires forall p :: p in pushes ==> Truthful(p.env.mirror, g)
    ensures Kept(g, AfterRun(cfg, refs, pushes[..k]), AfterRun(cfg, refs, pushes), ref)
    decreases |pushes|
  {
    hide ApplyPush, Ancestor, Guarded, Truthful;
    var early := AfterRun(cfg, refs, pushes[..k]);
    if k == |pushes| {
      assert pushes[..k] == pushes;
      if ref in early {
        AncestorReflexive(g, early[ref]);
      }
    } else {
      var n := |pushes| - 1;
      assert pushes[..n][..k] == pushes[..k] && pushes[n] in pushes;
      assert forall p :: p in pushes[..n] ==> p in pushes;
      ProtectedHistoryIsKept(cfg, g, isProtected, refs, pushes[..n], k, ref);
      var late := AfterRun(cfg, refs, pushes[..n]);
      PushKeeps(cfg, g, isProtected, late, pushes[n], ref);
      if ref in early {
        AncestorTransitive(g, early[ref], late[ref], AfterRun(cfg, refs, pushes)[ref]);
      }
    }
  }

  // ------------------------------------------------------------- denied paths

  ghost predicate PathGuarded(cfg: Config, acl: PathACL) {
    InForce(cfg, PathACLRule(acl).push)
  }

  lemma FilledPathsDeny(acl: PathACL, files: seq<ChangedFile>, m: Enforce.Mirror)
    requires Filled(files, m).Answered?
    ensures PathACLPush(acl, Filled(files, m).value).Denies() <==> PathACLPush(acl, files).Denies()
  {
    hide PathACLPush, DeniedPath, Filled;
    var fs := Filled(files, m).value;
    FilledKeepsPaths(files, m);
    PathACLDenies(acl, files);
    PathACLDenies(acl, fs);
    if f :| f in files && DeniedPath(acl.matchers, f.path) {
      var i :| 0 <= i < |files| && files[i] == f;
      assert fs[i] in fs;
    }
    if f :| f in fs && DeniedPath(acl.matchers, f.path) {
      var i :| 0 <= i < |fs| && fs[i] == f;
      assert files[i] in files;
    }
  }

  /**
   * A forwarded push adds no content at a denied path: whatever a new commit has there already sat
   * there in a commit some ref reaches.
   */
  lemma ForwardedPushKeepsDeniedPaths(cfg: Config, acl: PathACL, p: Push, repo: C.Repo, height: map<OID, nat>,
                                      raw: seq<C.RawDiff>, files: seq<ChangedFile>, c: OID, path: string)
    requires PathGuarded(cfg, acl) && Forwards(cfg, p.env, p.body, p.who)
    requires var updates := Examined(p.env, p.body, p.who).req.updates;
      p.env.mirror.changed(updates) == Answered(files) && C.IsDiffTree(repo, C.TipSet(updates), raw)
      && repo.IsNew(C.TipSet(updates), c)
    requires repo.Complete(height) && C.ReportsAll(files, raw)
    requires c in repo.commits && path in repo.commits[c].tree && repo.commits[c].tree[path].oid != ZERO_OID
    requires DeniedPath(acl.matchers, path)
    ensures C.AlreadyThere(repo, path, repo.commits[c].tree[path])
  {
    hide ParseSpec, PathACLPush, DeniedPath, C.IsDiffTree, C.ReportsAll, C.AlreadyThere, UpdatesOf, PackProblem, Filled, ReachesIn;
    var req := Examined(p.env, p.body, p.who).req;
    NotDenied(cfg, PathACLRule(acl).push, req);
    FilledPathsDeny(acl, files, p.env.mirror);
    C.PathACLKeepsDeniedPaths(repo, height, C.TipSet(req.updates), raw, files, acl, c, path);
  }
}
