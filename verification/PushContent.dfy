/** What a push brings into the upstream: every blob was inspected, and denied paths never change. */
module PushContent {
  import opened Options
  import opened Commits
  import opened Policy
  import opened Rules
  import opened PktLine
  import opened ReceivePackRequest
  import opened Enforce
  import opened Proxy
  import opened PushRuns
  import C = ChangedFiles

  // ------------------------------------------------------- nothing uninspected

  /** The object is a file of some commit in the tips' history. */
  ghost predicate InHistory(repo: C.Repo, tips: set<OID>, oid: OID) {
    exists c, path :: FileOf(repo, tips, c, path, oid)
  }

  ghost predicate FileOf(repo: C.Repo, tips: set<OID>, c: OID, path: string, oid: OID) {
    && c in repo.commits && Reaches(repo.Parents(), tips, c)
    && path in repo.commits[c].tree && repo.commits[c].tree[path].oid == oid
  }

  /** `git rev-list --objects` over commits lists a blob only as a file of a commit in their history. */
  ghost predicate ListsTruly(m: Enforce.Mirror, repo: C.Repo, blobs: set<OID>) {
    forall tips: seq<OID>, oid ::
      m.reachable(tips).Answered? && oid in m.reachable(tips).value && oid in blobs && (forall t :: t in tips ==> t in repo.commits) ==>
      InHistory(repo, (set t | t in tips), oid)
  }

  /** The rules saw the object, with its content, as an added or modified file. */
  ghost predicate ContentSeen(m: Enforce.Mirror, files: seq<ChangedFile>, path: string, oid: OID) {
    exists f :: f in files && f.path == path && f.status != Deleted && f.blob == oid
                && m.blob(oid).Answered? && f.content == Some(m.blob(oid).value)
  }

  lemma ReportedIsSeen(m: Enforce.Mirror, files: seq<ChangedFile>, path: string, oid: OID)
    requires Filled(files, m).Answered? && C.Reported(files, path, oid) && oid != ""
    ensures ContentSeen(m, Filled(files, m).value, path, oid)
  {
    hide Filled;
    var fs := Filled(files, m).value;
    FilledKeepsPaths(files, m);
    var f :| f in files && f.path == path && f.status != Deleted && f.blob == oid;
    var i :| 0 <= i < |files| && files[i] == f;
    assert FilledIn(files[i], fs[i], m) && fs[i] in fs;
  }

  /** A blob in the tips' history was reported, or was in a ref's history before. */
  lemma HistoryIsReported(repo: C.Repo, height: map<OID, nat>, news: set<OID>, raw: seq<C.RawDiff>,
                          files: seq<ChangedFile>, oid: OID) returns (path: string)
    requires repo.Complete(height) && C.IsDiffTree(repo, news, raw) && C.ReportsAll(files, raw)
    requires InHistory(repo, news, oid) && oid != ZERO_OID
    ensures C.Reported(files, path, oid) || exists q :: FileOf(repo, repo.tips, q, path, oid)
  {
    hide ReachesIn, C.IsDiffTree, C.ReportsAll, C.Reported;
    var c: OID;
    c, path :| FileOf(repo, news, c, path, oid);
    if Reaches(repo.Parents(), repo.tips, c) {
      assert FileOf(repo, repo.tips, c, path, oid);
    } else {
      C.NewContentIsReported(repo, height, news, raw, files, c, path);
      if C.AlreadyThere(repo, path, repo.commits[c].tree[path]) {
        var q :| q in repo.commits && Reaches(repo.Parents(), repo.tips, q)
                 && path in repo.commits[q].tree && repo.commits[q].tree[path] == repo.commits[c].tree[path];
        assert FileOf(repo, repo.tips, q, path, oid);
      }
    }
  }

  /**
   * Every blob packed into a push that the proxy forwards under enforcement was shown to the rules
   * with its content, as an added or modified file, or is a file of a commit some ref reached before.
   * The new tips are commits here: a tip that is not one has no new commits to list.
   */
  lemma PackedContentIsInspected(cfg: Config, p: Push, repo: C.Repo, height: map<OID, nat>, blobs: set<OID>,
                                 raw: seq<C.RawDiff>, files: seq<ChangedFile>, packed: seq<OID>, oid: OID)
    returns (path: string)
    requires cfg.Enforces() && Forwards(cfg, p.env, p.body, p.who) && PackID(p.env, p.body) != ""
    requires var updates := Examined(p.env, p.body, p.who).req.updates;
      && p.env.mirror.changed(updates) == Answered(files) && C.IsDiffTree(repo, C.TipSet(updates), raw)
      && C.TipSet(updates) != {} && C.TipSet(updates) <= repo.commits.Keys
    requires repo.Complete(height) && C.ReportsAll(files, raw) && ListsTruly(p.env.mirror, repo, blobs)
    requires ZERO_OID !in blobs && "" !in blobs
    requires p.env.mirror.packObjects(PackID(p.env, p.body)) == Answered(packed) && oid in packed && oid in blobs
    ensures ContentSeen(p.env.mirror, Examined(p.env, p.body, p.who).req.files, path, oid)
      || exists q :: FileOf(repo, repo.tips, q, path, oid)
  {
    hide ParseSpec, C.IsDiffTree, C.ReportsAll, C.Reported, UpdatesOf, Filled, FileOf, InHistory, PackProblem, NewTips;
    var m, req := p.env.mirror, Examined(p.env, p.body, p.who).req;
    var tips := NewTips(req.updates);
    NewTipsMembers(req.updates);
    var t :| t in C.TipSet(req.updates);
    var i :| 0 <= i < |req.updates| && req.updates[i].newId == t;
    PackHasNoStrays(ParseSpec(p.body, false).commands, m, p.who.agent, p.who.repo, PackID(p.env, p.body), i);
    assert oid in m.reachable(tips).value;
    assert C.TipSet(req.updates) == (set x | x in tips);
    path := HistoryIsReported(repo, height, C.TipSet(req.updates), raw, files, oid);
    if C.Reported(files, path, oid) {
      ReportedIsSeen(m, files, path, oid);
    }
  }

  // ---------------------------------------------------- denied paths, over runs

  /** The leaf sits at the path in the history of the tip. */
  ghost predicate Holds(commits: map<OID, C.Commit>, tip: OID, path: string, leaf: C.Leaf) {
    exists c :: LeafAt(commits, {tip}, c, path, leaf)
  }

  ghost predicate LeafAt(commits: map<OID, C.Commit>, tips: set<OID>, c: OID, path: string, leaf: C.Leaf) {
    && c in commits && Reaches(Graph(commits), tips, c)
    && path in commits[c].tree && commits[c].tree[path] == leaf
  }

  function Graph(commits: map<OID, C.Commit>): ParentMap {
    C.Repo(commits, {}).Parents()
  }

  /** Some ref has the leaf at the path in its history. */
  ghost predicate RefHolds(commits: map<OID, C.Commit>, refs: Refs, path: string, leaf: C.Leaf) {
    exists ref :: ref in refs && Holds(commits, refs[ref], path, leaf)
  }

  /** What the mirror reports for a push is git's diff of the commits new to its refs. */
  ghost predicate ReportsTruly(m: Enforce.Mirror, repo: C.Repo) {
    forall updates :: m.changed(updates).Answered? ==>
      exists raw :: C.IsDiffTree(repo, C.TipSet(updates), raw) && C.ReportsAll(m.changed(updates).value, raw)
  }

  /** The mirror's refs are what the upstream's were at some moment of the run so far, each at its own. */
  ghost predicate Fetched(cfg: Config, refs: Refs, pushes: seq<Push>, tips: set<OID>) {
    forall t :: t in tips ==> exists k, ref :: 0 <= k <= |pushes| && PointsAt(AfterRun(cfg, refs, pushes[..k]), ref, t)
  }

  predicate PointsAt(refs: Refs, ref: string, tip: OID) {
    ref in refs && refs[ref] == tip
  }

  /** The pushes of a run are inspected by truthful mirrors fetched from the same upstream. */
  ghost predicate TruthfulRun(cfg: Config, commits: map<OID, C.Commit>, refs: Refs, pushes: seq<Push>) {
    forall i :: 0 <= i < |pushes| ==>
      && ReportsTruly(pushes[i].env.mirror, C.Repo(commits, pushes[i].mirrorTips))
      && Fetched(cfg, refs, pushes[..i], pushes[i].mirrorTips)
  }

  lemma {:induction false} FromOneStart(g: ParentMap, starts: set<OID>, c: OID, k: nat) returns (t: OID)
    requires ReachesIn(g, starts, c, k)
    ensures t in starts && ReachesIn(g, {t}, c, k)
    decreases k
  {
    if k == 0 {
      t := c;
    } else {
      var b :| ReachesIn(g, starts, b, k - 1) && c in ParentsOf(g, b);
      t := FromOneStart(g, starts, b, k - 1);
    }
  }

  lemma {:induction false} FromTheSet(g: ParentMap, starts: set<OID>, t: OID, c: OID, k: nat)
    requires t in starts && ReachesIn(g, {t}, c, k)
    ensures ReachesIn(g, starts, c, k)
    decreases k
  {
    if k > 0 {
      var b :| ReachesIn(g, {t}, b, k - 1) && c in ParentsOf(g, b);
      FromTheSet(g, starts, t, b, k - 1);
    }
  }

  /** A ref's value after the commands is its value before, or what some command sets. */
  lemma {:induction false} ValueComesFrom(refs: Refs, cmds: seq<Command>, accepted: set<nat>, ref: string)
    requires ref in ApplyAll(refs, cmds, accepted)
    ensures var v := ApplyAll(refs, cmds, accepted)[ref];
      PointsAt(refs, ref, v) || exists i :: 0 <= i < |cmds| && v != "" && v == Normalize(cmds[i].newId)
  {
    if cmds != [] {
      var n := |cmds| - 1;
      var before := ApplyAll(refs, cmds[..n], accepted);
      if ref in before {
        ValueComesFrom(refs, cmds[..n], accepted, ref);
        assert forall i :: 0 <= i < n ==> cmds[..n][i] == cmds[i];
      }
    }
  }

  /** Whatever a forwarded push brings to a denied path is in the history of a mirror tip. */
  lemma PushBringsNothing(cfg: Config, acl: PathACL, commits: map<OID, C.Commit>, height: map<OID, nat>, p: Push,
                          v: OID, path: string, leaf: C.Leaf) returns (t: OID)
    requires PathGuarded(cfg, acl) && Forwards(cfg, p.env, p.body, p.who) && DeniedPath(acl.matchers, path)
    requires C.Repo(commits, {}).Complete(height) && leaf.oid != ZERO_OID
    requires ReportsTruly(p.env.mirror, C.Repo(commits, p.mirrorTips))
    requires v != "" && exists i :: 0 <= i < |ParseSpec(p.body, false).commands| && v == Normalize(ParseSpec(p.body, false).commands[i].newId)
    requires Holds(commits, v, path, leaf)
    ensures t in p.mirrorTips && Holds(commits, t, path, leaf)
  {
    hide ParseSpec, ReachesIn, DeniedPath, C.IsDiffTree, C.ReportsAll, UpdatesOf, Filled, PackProblem, NewTips;
    var repo, g := C.Repo(commits, p.mirrorTips), Graph(commits);
    var req := Examined(p.env, p.body, p.who).req;
    var c :| LeafAt(commits, {v}, c, path, leaf);
    var q := c;
    if !Reaches(g, p.mirrorTips, c) {
      var raw :| C.IsDiffTree(repo, C.TipSet(req.updates), raw)
                 && C.ReportsAll(p.env.mirror.changed(req.updates).value, raw);
      TipIsNew(p, v);
      var k: nat :| ReachesIn(g, {v}, c, k);
      FromTheSet(g, C.TipSet(req.updates), v, c, k);
      ForwardedPushKeepsDeniedPaths(cfg, acl, p, repo, height, raw, p.env.mirror.changed(req.updates).value, c, path);
      q :| q in commits && Reaches(g, p.mirrorTips, q) && path in commits[q].tree && commits[q].tree[path] == leaf;
    }
    var j: nat :| ReachesIn(g, p.mirrorTips, q, j);
    t := FromOneStart(g, p.mirrorTips, q, j);
    assert LeafAt(commits, {t}, q, path, leaf);
  }

  lemma TipIsNew(p: Push, v: OID)
    requires ParseSpec(p.body, false).Parsed? && Ingested(p.env, p.body, ParseSpec(p.body, false).packOffset).Answered?
    requires Examined(p.env, p.body, p.who).Inspected?
    requires v != "" && exists i :: 0 <= i < |ParseSpec(p.body, false).commands| && v == Normalize(ParseSpec(p.body, false).commands[i].newId)
    ensures v in C.TipSet(Examined(p.env, p.body, p.who).req.updates)
  {
    hide ParseSpec, Inspect;
    var cmds := ParseSpec(p.body, false).commands;
    var i :| 0 <= i < |cmds| && v == Normalize(cmds[i].newId);
    var updates := Examined(p.env, p.body, p.who).req.updates;
    InspectedReflectsCommands(cmds, p.env.mirror, p.who.agent, p.who.repo, PackID(p.env, p.body));
    assert Reflects(updates[i], cmds[i], p.env.mirror);
    NewTipsMembers(updates);
  }

  /**
   * Over any run of enforced pushes with path_acl on for everyone, whatever sits at a denied path in
   * a commit some upstream ref reaches at the end already sat there in a commit some ref reached at
   * the start.
   */
  lemma {:induction false} DeniedPathsNeverChange(cfg: Config, acl: PathACL, commits: map<OID, C.Commit>, height: map<OID, nat>,
                                                  refs: Refs, pushes: seq<Push>, path: string, leaf: C.Leaf)
    requires PathGuarded(cfg, acl) && DeniedPath(acl.matchers, path)
    requires C.Repo(commits, {}).Complete(height) && leaf.oid != ZERO_OID
    requires TruthfulRun(cfg, commits, refs, pushes)
    requires RefHolds(commits, AfterRun(cfg, refs, pushes), path, leaf)
    ensures RefHolds(commits, refs, path, leaf)
    decreases |pushes|
  {
    hide ParseSpec, PathGuarded, DeniedPath, Holds, C.Repo.Complete, ReportsTruly, ApplyAll, Forwards;
    if pushes != [] {
      var n := |pushes| - 1;
      var p, before := pushes[n], AfterRun(cfg, refs, pushes[..n]);
      var ref :| ref in AfterRun(cfg, refs, pushes) && Holds(commits, AfterRun(cfg, refs, pushes)[ref], path, leaf);
      var v := AfterRun(cfg, refs, pushes)[ref];
      if PointsAt(before, ref, v) {
        TruthfulPrefix(cfg, commits, refs, pushes, n);
        DeniedPathsNeverChange(cfg, acl, commits, height, refs, pushes[..n], path, leaf);
      } else {
        ValueComesFrom(before, ParseSpec(p.body, false).commands, p.accepted, ref);
        var t := PushBringsNothing(cfg, acl, commits, height, p, v, path, leaf);
        assert Fetched(cfg, refs, pushes[..n], p.mirrorTips);
        var k, earlier :| 0 <= k <= n && PointsAt(AfterRun(cfg, refs, pushes[..n][..k]), earlier, t);
        assert pushes[..n][..k] == pushes[..k];
        TruthfulPrefix(cfg, commits, refs, pushes, k);
        assert RefHolds(commits, AfterRun(cfg, refs, pushes[..k]), path, leaf);
        DeniedPathsNeverChange(cfg, acl, commits, height, refs, pushes[..k], path, leaf);
      }
    }
  }

  lemma TruthfulPrefix(cfg: Config, commits: map<OID, C.Commit>, refs: Refs, pushes: seq<Push>, k: nat)
    requires TruthfulRun(cfg, commits, refs, pushes) && k <= |pushes|
    ensures TruthfulRun(cfg, commits, refs, pushes[..k])
  {
    hide ReportsTruly, Fetched;
    assert forall i :: 0 <= i < k ==> pushes[..k][..i] == pushes[..i];
  }
}
