/** The files a push touches: every new commit diffed against each of its parents. */
module ChangedFiles {
  import opened Options
  import opened Commits
  import opened Text
  import opened Policy
  import opened Rules

  // ------------------------------------------------------------ the repository

  /** A leaf of a root tree: its mode and the object it names. */
  datatype Leaf = Leaf(mode: string, oid: OID)
  type Tree = map<string, Leaf>
  datatype Commit = Commit(parents: seq<OID>, tree: Tree)

  /** The mirror's commits and the tips its refs point at. */
  datatype Repo = Repo(commits: map<OID, Commit>, tips: set<OID>) {
    function Parents(): ParentMap {
      map c | c in commits :: commits[c].parents
    }

    /** git keeps no commit without its parents, and history has no cycle. */
    ghost predicate Complete(height: map<OID, nat>) {
      forall c :: c in commits ==>
        c in height && forall p :: p in commits[c].parents ==> p in commits && p in height && height[p] < height[c]
    }

    /** `git rev-list <news> --not --all`. */
    ghost predicate IsNew(news: set<OID>, c: OID) {
      Reaches(Parents(), news, c) && !Reaches(Parents(), tips, c)
    }
  }

  // ------------------------------------------------------------- git diff-tree

  /** One line of raw diff output. */
  datatype RawDiff = RawDiff(srcMode: string, dstMode: string, src: OID, dst: OID, status: char, path: string) {
    function Header(): seq<string> {
      [":" + srcMode, dstMode, src, dst, [status]]
    }

    function Line(): string {
      Join(Header(), ' ') + "\t" + path
    }

    ghost predicate Printable() {
      && IsWord(dstMode) && IsWord(src) && IsWord(dst) && NoSpace(srcMode) && NoSpace([status])
      && path != "" && '\n' !in path
    }
  }

  /** The object type bits of a mode: its first three octal digits. */
  function Kind(mode: string): string {
    if |mode| <= 3 then mode else mode[..3]
  }

  /** How two trees differ at a path, without rename detection. */
  function DiffAt(before: Tree, after: Tree, path: string): (r: Option<RawDiff>) {
    if path in before && path in after then
      if before[path] == after[path] then None
      else
        var b, a := before[path], after[path];
        Some(RawDiff(b.mode, a.mode, b.oid, a.oid, if Kind(b.mode) == Kind(a.mode) then 'M' else 'T', path))
    else if path in after then Some(RawDiff("000000", after[path].mode, ZERO_OID, after[path].oid, 'A', path))
    else if path in before then Some(RawDiff(before[path].mode, "000000", before[path].oid, ZERO_OID, 'D', path))
    else None
  }

  /** With `-m` a merge is diffed against each parent; with `--root` a root commit against nothing. */
  ghost predicate DiffBase(repo: Repo, c: OID, before: Tree)
    requires c in repo.commits
  {
    if repo.commits[c].parents == [] then before == map[]
    else exists p :: p in repo.commits[c].parents && p in repo.commits && before == repo.commits[p].tree
  }

  ghost predicate InDiff(repo: Repo, c: OID, r: RawDiff) {
    c in repo.commits && exists before :: DiffBase(repo, c, before) && DiffAt(before, repo.commits[c].tree, r.path) == Some(r)
  }

  /** `git diff-tree -r -m --no-renames --root --stdin` over the new commits, in some order. */
  ghost predicate IsDiffTree(repo: Repo, news: set<OID>, raw: seq<RawDiff>) {
    forall r :: r in raw <==> exists c :: repo.IsNew(news, c) && InDiff(repo, c, r)
  }

  function Output(raw: seq<RawDiff>): string {
    if raw == [] then "" else raw[0].Line() + "\n" + Output(raw[1..])
  }

  // ------------------------------------------------------------------- parsing

  function CleanLines(out: string): seq<string> {
    var s := TrimRight(out, '\n');
    if s == "" then [] else Split(s, '\n')
  }

  function ParseLine(line: string): Option<ChangedFile> {
    var tab := IndexOf(line, '\t');
    if tab == |line| then None
    else
      var path, fields := line[tab + 1..], Fields(line[..tab]);
      if path == "" || |fields| < 5 then None
      else
        var dst := if fields[3] == ZERO_OID then "" else fields[3];
        if fields[4] == "A" then Some(ChangedFile(path, Added, dst, None))
        else if fields[4] == "M" || fields[4] == "T" then Some(ChangedFile(path, Modified, dst, None))
        else if fields[4] == "D" then Some(ChangedFile(path, Deleted, "", None))
        else None
  }

  function ParseLines(lines: seq<string>): seq<ChangedFile> {
    if lines == [] then []
    else
      var n := |lines| - 1;
      ParseLines(lines[..n]) + (if ParseLine(lines[n]).Some? then [ParseLine(lines[n]).value] else [])
  }

  method ParseRawDiff(out: string) returns (files: seq<ChangedFile>)
    ensures files == ParseLines(CleanLines(out))
  {
    var lines := CleanLines(out);
    files := [];
    for i := 0 to |lines|
      invariant files == ParseLines(lines[..i])
    {
      var f := ParseLine(lines[i]);
      assert lines[..i + 1][..i] == lines[..i];
      if f.Some? {
        files := files + [f.value];
      }
    }
    assert lines[..|lines|] == lines;
  }

  /** What a raw diff line reports. */
  function Report(r: RawDiff): ChangedFile {
    if r.status == 'D' then ChangedFile(r.path, Deleted, "", None)
    else ChangedFile(r.path, if r.status == 'A' then Added else Modified, if r.dst == ZERO_OID then "" else r.dst, None)
  }

  predicate KnownStatus(r: RawDiff) {
    r.status == 'A' || r.status == 'M' || r.status == 'T' || r.status == 'D'
  }

  function Lines(raw: seq<RawDiff>): seq<string> {
    seq(|raw|, i requires 0 <= i < |raw| => raw[i].Line())
  }

  lemma HeaderHasNoTab(r: RawDiff)
    requires r.Printable()
    ensures '\t' !in Join(r.Header(), ' ') && '\n' !in Join(r.Header(), ' ')
  {
    JoinAvoids(r.Header(), ' ', '\t');
    JoinAvoids(r.Header(), ' ', '\n');
  }

  lemma ParseLineReports(r: RawDiff)
    requires r.Printable() && KnownStatus(r)
    ensures ParseLine(r.Line()) == Some(Report(r))
  {
    HeaderHasNoTab(r);
    FieldsJoin(r.Header());
    hide Join, Fields, IndexOf;
    var head := Join(r.Header(), ' ');
    IndexAfter(head, '\t', r.path);
    assert r.Line() == head + ['\t'] + r.path;
    assert r.Line()[..|head|] == head && r.Line()[|head| + 1..] == r.path;
  }

  /** A line is skipped unless it has a tab, a path, five fields and a status letter that is known. */
  lemma LineIsReportedIff(head: string, path: string)
    requires '\t' !in head
    ensures ParseLine(head) == None
    ensures ParseLine(head + "\t" + path).Some? <==>
      path != "" && |Fields(head)| >= 5 && Fields(head)[4] in {"A", "M", "T", "D"}
  {
    hide Fields;
    IndexAfter(head, '\t', path);
    var line := head + ['\t'] + path;
    assert line == head + "\t" + path && line[..|head|] == head && line[|head| + 1..] == path;
  }

  lemma {:induction false} OutputJoins(raw: seq<RawDiff>)
    requires raw != []
    ensures Output(raw) == Join(Lines(raw), '\n') + "\n"
  {
    if |raw| > 1 {
      OutputJoins(raw[1..]);
      assert Lines(raw)[1..] == Lines(raw[1..]);
    } else {
      assert raw[1..] == [];
    }
  }

  lemma LineIsClean(r: RawDiff)
    requires r.Printable()
    ensures '\n' !in r.Line() && r.Line() != "" && r.Line()[|r.Line()| - 1] != '\n'
  {
    hide Join;
    HeaderHasNoTab(r);
    assert r.Line()[|r.Line()| - 1] == r.path[|r.path| - 1];
  }

  lemma OutputLines(raw: seq<RawDiff>)
    requires forall r :: r in raw ==> r.Printable()
    ensures CleanLines(Output(raw)) == Lines(raw)
  {
    hide Join, Split, RawDiff.Line, RawDiff.Printable;
    if raw != [] {
      var lines := Lines(raw);
      forall l | l in lines ensures '\n' !in l && l != "" && l[|l| - 1] != '\n' {
        var i :| 0 <= i < |raw| && l == raw[i].Line();
        LineIsClean(raw[i]);
      }
      hide Output;
      OutputJoins(raw);
      JoinEnds(lines, '\n', '\n');
      SplitJoin(lines, '\n');
      TrimRightKeeps(Join(lines, '\n'), '\n', 1);
      assert Repeat('\n', 1) == "\n";
    }
  }

  /** Parsing git's raw output yields exactly one report per line, in order. */
  lemma {:induction false} ParseReportsAll(raw: seq<RawDiff>)
    requires forall r :: r in raw ==> r.Printable() && KnownStatus(r)
    ensures ParseLines(Lines(raw)) == seq(|raw|, i requires 0 <= i < |raw| => Report(raw[i]))
  {
    hide ParseLine, Report, KnownStatus, RawDiff.Line, RawDiff.Printable;
    if raw != [] {
      var n := |raw| - 1;
      assert Lines(raw)[..n] == Lines(raw[..n]) && Lines(raw)[n] == raw[n].Line();
      ParseReportsAll(raw[..n]);
      assert raw[n] in raw;
      ParseLineReports(raw[n]);
      assert ParseLines(Lines(raw)) == ParseLines(Lines(raw)[..n]) + [Report(raw[n])];
    }
  }

  // ----------------------------------------------------------- deduplication

  function StatusText(s: Status): string {
    match s
    case Added => "A"
    case Modified => "M"
    case Deleted => "D"
  }

  /** The deduplication key: path, status and object id around NUL bytes. */
  function Key(f: ChangedFile): string {
    f.path + [NUL] + (StatusText(f.status) + [NUL] + f.blob)
  }

  /** What stands before the first NUL, and what stands after it, are determined by the whole. */
  lemma NulSplits(a: string, b: string, a': string, b': string)
    requires NUL !in a && NUL !in a' && a + [NUL] + b == a' + [NUL] + b'
    ensures a == a' && b == b'
  {
    IndexAfter(a, NUL, b);
    IndexAfter(a', NUL, b');
    hide IndexOf;
    var s := a + [NUL] + b;
    assert a == s[..|a|] && a' == s[..|a|];
    assert b == s[|a| + 1..] && b' == s[|a| + 1..];
  }

  lemma KeyInjective(f: ChangedFile, g: ChangedFile)
    requires NUL !in f.path && NUL !in g.path && Key(f) == Key(g) && f.content == g.content
    ensures f == g
  {
    var s, t := StatusText(f.status), StatusText(g.status);
    NulSplits(f.path, s + [NUL] + f.blob, g.path, t + [NUL] + g.blob);
    NulSplits(s, f.blob, t, g.blob);
    assert s[0] == t[0];
  }

  /** git's raw output as the parser needs it: no path needs quoting, no object id is all zeros by accident. */
  ghost predicate Wellformed(raw: seq<RawDiff>) {
    forall r :: r in raw ==> r.Printable() && NUL !in r.path
  }

  method Dedup(parsed: seq<ChangedFile>) returns (files: seq<ChangedFile>)
    requires forall f :: f in parsed ==> NUL !in f.path && f.content == None
    ensures Distinct(files) && forall f :: f in files <==> f in parsed
  {
    hide Key;
    files := [];
    var seen: set<string> := {};
    for i := 0 to |parsed|
      invariant seen == set f | f in files :: Key(f)
      invariant forall f :: f in files <==> f in parsed[..i]
      invariant Distinct(files)
    {
      var f := parsed[i];
      assert f in parsed && parsed[..i + 1] == parsed[..i] + [f];
      if Key(f) in seen {
        var g :| g in files && Key(g) == Key(f);
        KeyInjective(g, f);
      } else {
        seen := seen + {Key(f)};
        files := files + [f];
      }
    }
    assert parsed[..|parsed|] == parsed;
  }

  function TipSet(updates: seq<RefUpdate>): set<OID> {
    set t | t in NewTips(updates)
  }

  /** The files the mirror reports for a push. */
  ghost predicate ReportsAll(files: seq<ChangedFile>, raw: seq<RawDiff>) {
    forall f :: f in files <==> exists r :: r in raw && f == Report(r)
  }

  /** `out` is what `git diff-tree` prints for the new commits; git is not run when there is no new tip. */
  method ChangedFiles(repo: Repo, updates: seq<RefUpdate>, ghost raw: seq<RawDiff>, out: string) returns (files: seq<ChangedFile>)
    requires IsDiffTree(repo, TipSet(updates), raw) && Wellformed(raw) && out == Output(raw)
    ensures ReportsAll(files, raw) && Distinct(files)
  {
    hide IsDiffTree, Output, Report, CleanLines, ParseLine, KnownStatus, Key;
    var tips := CollectTips(updates);
    if tips == [] {
      NoTipsNoDiff(repo, TipSet(updates), raw);
      return [];
    }
    RawIsKnown(repo, TipSet(updates), raw);
    OutputLines(raw);
    ParseReportsAll(raw);
    ReportFacts(raw);
    var parsed := ParseRawDiff(out);
    ParsedReports(raw, parsed);
    files := Dedup(parsed);
  }

  lemma ParsedReports(raw: seq<RawDiff>, parsed: seq<ChangedFile>)
    requires parsed == seq(|raw|, i requires 0 <= i < |raw| => Report(raw[i]))
    ensures ReportsAll(parsed, raw)
  {
    hide Report;
    forall f ensures f in parsed <==> exists r :: r in raw && f == Report(r) {
      if f in parsed {
        var i :| 0 <= i < |parsed| && parsed[i] == f;
        assert raw[i] in raw && f == Report(raw[i]);
      }
      if r :| r in raw && f == Report(r) {
        var i :| 0 <= i < |raw| && raw[i] == r;
        assert parsed[i] == f;
      }
    }
  }

  lemma {:induction false} NothingReached(g: ParentMap, c: OID, k: nat)
    ensures !ReachesIn(g, {}, c, k)
    decreases k
  {
    if k > 0 {
      var j: nat := k - 1;
      if b :| ReachesIn(g, {}, b, j) {
        NothingReached(g, b, j);
      }
    }
  }

  lemma NoTipsNoDiff(repo: Repo, news: set<OID>, raw: seq<RawDiff>)
    requires IsDiffTree(repo, news, raw) && news == {}
    ensures raw == []
  {
    hide InDiff, ReachesIn;
    if raw != [] {
      var r := raw[0];
      assert r in raw;
      var c :| repo.IsNew(news, c) && InDiff(repo, c, r);
      var k: nat :| ReachesIn(repo.Parents(), news, c, k);
      NothingReached(repo.Parents(), c, k);
    }
  }

  lemma RawIsKnown(repo: Repo, news: set<OID>, raw: seq<RawDiff>)
    requires IsDiffTree(repo, news, raw)
    ensures forall r :: r in raw ==> KnownStatus(r)
  {
    forall r | r in raw ensures KnownStatus(r) {
      var c :| repo.IsNew(news, c) && InDiff(repo, c, r);
      var before :| DiffBase(repo, c, before) && DiffAt(before, repo.commits[c].tree, r.path) == Some(r);
    }
  }

  lemma ReportFacts(raw: seq<RawDiff>)
    ensures forall r :: r in raw ==> Report(r).path == r.path && Report(r).content == None
  {
  }

  // ----------------------------------------------------- nothing new escapes

  /** The leaf already sits at the path in a commit some ref reaches. */
  ghost predicate AlreadyThere(repo: Repo, path: string, leaf: Leaf) {
    exists q :: q in repo.commits && Reaches(repo.Parents(), repo.tips, q)
                && path in repo.commits[q].tree && repo.commits[q].tree[path] == leaf
  }

  /** Some raw line adds or modifies the path to this object. */
  ghost predicate Introduced(raw: seq<RawDiff>, path: string, oid: OID) {
    exists r :: r in raw && r.path == path && r.dst == oid && r.status != 'D'
  }

  lemma {:induction false} LeafIsIntroduced(repo: Repo, height: map<OID, nat>, news: set<OID>, raw: seq<RawDiff>, c: OID, path: string)
    requires repo.Complete(height) && IsDiffTree(repo, news, raw)
    requires c in repo.commits && repo.IsNew(news, c) && path in repo.commits[c].tree
    ensures Introduced(raw, path, repo.commits[c].tree[path].oid) || AlreadyThere(repo, path, repo.commits[c].tree[path])
    decreases height[c]
  {
    hide ReachesIn, IsDiffTree;
    var tree := repo.commits[c].tree;
    var parents := repo.commits[c].parents;
    var before: Tree := map[];
    if parents != [] {
      assert parents[0] in parents;
      before := repo.commits[parents[0]].tree;
    }
    assert DiffBase(repo, c, before);
    var d := DiffAt(before, tree, path);
    if d.Some? {
      assert InDiff(repo, c, d.value);
      InDiffTree(repo, news, raw, c, d.value);
    } else {
      var p := parents[0];
      assert before[path] == tree[path];
      if !Reaches(repo.Parents(), repo.tips, p) {
        var k: nat :| ReachesIn(repo.Parents(), news, c, k);
        ReachesParent(repo.Parents(), news, c, p, k);
        LeafIsIntroduced(repo, height, news, raw, p, path);
      }
    }
  }

  lemma InDiffTree(repo: Repo, news: set<OID>, raw: seq<RawDiff>, c: OID, r: RawDiff)
    requires IsDiffTree(repo, news, raw) && repo.IsNew(news, c) && InDiff(repo, c, r)
    ensures r in raw
  {
    hide ReachesIn, InDiff;
  }

  ghost predicate Reported(files: seq<ChangedFile>, path: string, oid: OID) {
    exists f :: f in files && f.path == path && f.status != Deleted && f.blob == oid
  }

  /**
   * Every file of every new commit, even one a later pushed commit deletes, is reported as added or
   * modified with its object, or already sits at that path in a commit some ref reaches.
   */
  lemma NewContentIsReported(repo: Repo, height: map<OID, nat>, news: set<OID>, raw: seq<RawDiff>,
                             files: seq<ChangedFile>, c: OID, path: string)
    requires repo.Complete(height) && IsDiffTree(repo, news, raw) && ReportsAll(files, raw)
    requires c in repo.commits && repo.IsNew(news, c) && path in repo.commits[c].tree
    requires repo.commits[c].tree[path].oid != ZERO_OID
    ensures Reported(files, path, repo.commits[c].tree[path].oid) || AlreadyThere(repo, path, repo.commits[c].tree[path])
  {
    hide ReachesIn, IsDiffTree;
    var oid := repo.commits[c].tree[path].oid;
    LeafIsIntroduced(repo, height, news, raw, c, path);
    if Introduced(raw, path, oid) {
      var r :| r in raw && r.path == path && r.dst == oid && r.status != 'D';
      assert Report(r) in files;
    }
  }

  /** Nothing else is reported: an added or modified file is in some new commit's tree. */
  lemma ReportedContentIsNew(repo: Repo, news: set<OID>, raw: seq<RawDiff>, files: seq<ChangedFile>, f: ChangedFile)
    requires IsDiffTree(repo, news, raw) && ReportsAll(files, raw) && f in files && f.status != Deleted && f.blob != ""
    ensures exists c :: repo.IsNew(news, c) && c in repo.commits && f.path in repo.commits[c].tree
                        && repo.commits[c].tree[f.path].oid == f.blob
  {
    hide ReachesIn;
    var r :| r in raw && f == Report(r);
    var c :| repo.IsNew(news, c) && InDiff(repo, c, r);
    var before :| DiffBase(repo, c, before) && DiffAt(before, repo.commits[c].tree, r.path) == Some(r);
  }

  /** What the file says happened from one tree to the other: by presence in the two and by content. */
  ghost predicate Happened(before: Tree, after: Tree, f: ChangedFile) {
    && f.content == None
    && match f.status
       case Added => f.path !in before && f.path in after && f.blob == after[f.path].oid
       case Modified => f.path in before && f.path in after && before[f.path] != after[f.path] && f.blob == after[f.path].oid
       case Deleted => f.path in before && f.path !in after && f.blob == ""
  }

  lemma ReportHappened(before: Tree, after: Tree, path: string, f: ChangedFile)
    requires forall p :: p in after ==> after[p].oid != ZERO_OID
    ensures DiffAt(before, after, path).Some? && f == Report(DiffAt(before, after, path).value) ==>
      f.path == path && Happened(before, after, f)
    ensures Happened(before, after, f) && f.path == path ==>
      DiffAt(before, after, path).Some? && f == Report(DiffAt(before, after, path).value)
  {
    hide Kind;
  }

  ghost predicate HappenedIn(repo: Repo, c: OID, f: ChangedFile) {
    c in repo.commits && exists before :: DiffBase(repo, c, before) && Happened(before, repo.commits[c].tree, f)
  }

  /** The reported files are exactly what happened in the new commits, each against each of its parents. */
  lemma ReportsWhatHappened(repo: Repo, news: set<OID>, raw: seq<RawDiff>, files: seq<ChangedFile>)
    requires IsDiffTree(repo, news, raw) && ReportsAll(files, raw)
    requires forall c, p :: c in repo.commits && p in repo.commits[c].tree ==> repo.commits[c].tree[p].oid != ZERO_OID
    ensures forall f :: f in files <==> exists c :: repo.IsNew(news, c) && HappenedIn(repo, c, f)
  {
    hide ReachesIn, DiffAt, Report, Happened, DiffBase;
    forall f ensures f in files <==> exists c :: repo.IsNew(news, c) && HappenedIn(repo, c, f) {
      if f in files {
        var r :| r in raw && f == Report(r);
        var c :| repo.IsNew(news, c) && InDiff(repo, c, r);
        var before :| DiffBase(repo, c, before) && DiffAt(before, repo.commits[c].tree, r.path) == Some(r);
        ReportHappened(before, repo.commits[c].tree, r.path, f);
        assert HappenedIn(repo, c, f);
      }
      if c :| repo.IsNew(news, c) && HappenedIn(repo, c, f) {
        var before :| DiffBase(repo, c, before) && Happened(before, repo.commits[c].tree, f);
        ReportHappened(before, repo.commits[c].tree, f.path, f);
        var r := DiffAt(before, repo.commits[c].tree, f.path).value;
        DiffPath(before, repo.commits[c].tree, f.path);
        assert InDiff(repo, c, r);
      }
    }
  }

  lemma DiffPath(before: Tree, after: Tree, path: string)
    ensures DiffAt(before, after, path).Some? ==> DiffAt(before, after, path).value.path == path
  {
    hide Kind;
  }

  /** A merge is diffed against each parent: no parent's difference is skipped. */
  lemma EveryParentIsDiffed(repo: Repo, news: set<OID>, raw: seq<RawDiff>, c: OID, p: OID, path: string)
    requires IsDiffTree(repo, news, raw) && repo.IsNew(news, c)
    requires c in repo.commits && p in repo.commits[c].parents && p in repo.commits
    ensures path in repo.commits[c].tree ==>
      || Introduced(raw, path, repo.commits[c].tree[path].oid)
      || (path in repo.commits[p].tree && repo.commits[p].tree[path] == repo.commits[c].tree[path])
    ensures path !in repo.commits[c].tree && path in repo.commits[p].tree ==>
      exists r :: r in raw && r.path == path && r.status == 'D'
  {
    hide ReachesIn, IsDiffTree;
    assert DiffBase(repo, c, repo.commits[p].tree);
    var d := DiffAt(repo.commits[p].tree, repo.commits[c].tree, path);
    if d.Some? {
      assert InDiff(repo, c, d.value);
      InDiffTree(repo, news, raw, c, d.value);
    }
  }

  /** A push path_acl lets through adds no content at a denied path. */
  lemma PathACLKeepsDeniedPaths(repo: Repo, height: map<OID, nat>, news: set<OID>, raw: seq<RawDiff>,
                                files: seq<ChangedFile>, acl: PathACL, c: OID, path: string)
    requires repo.Complete(height) && IsDiffTree(repo, news, raw) && ReportsAll(files, raw)
    requires !PathACLPush(acl, files).Denies() && DeniedPath(acl.matchers, path)
    requires c in repo.commits && repo.IsNew(news, c) && path in repo.commits[c].tree
    requires repo.commits[c].tree[path].oid != ZERO_OID
    ensures AlreadyThere(repo, path, repo.commits[c].tree[path])
  {
    hide ReachesIn, IsDiffTree, DeniedPath, AlreadyThere, PathACLPush;
    NewContentIsReported(repo, height, news, raw, files, c, path);
    PathACLDenies(acl, files);
  }
}
