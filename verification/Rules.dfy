/** The history_protect and path_acl push rules. */
module Rules {
  import opened Options
  import opened Policy
  import PathMatch
  import Text

  function DenyWith(rule: string, message: string): RuleResult {
    Decided(Decision(Deny, [Reason(rule, message)]))
  }

  function Allowed(): RuleResult {
    Decided(Decision(Allow, []))
  }

  function Quote(s: string): string {
    "\"" + s + "\""
  }

  // ---------------------------------------------------------- history_protect

  function HistoryProtectPush(isProtected: string -> bool, updates: seq<RefUpdate>): RuleResult {
    if updates == [] then Allowed()
    else
      var u := updates[0];
      if isProtected(u.ref) && u.IsDelete() then
        DenyWith("history_protect", "ref deletion on protected ref " + Quote(u.ref) + " is not allowed")
      else if isProtected(u.ref) && u.force then
        DenyWith("history_protect", "force-push to protected ref " + Quote(u.ref) + " is not allowed")
      else HistoryProtectPush(isProtected, updates[1..])
  }

  function HistoryProtect(isProtected: string -> bool): Rule {
    Rule("history_protect", (req: PushRequest) => HistoryProtectPush(isProtected, req.updates))
  }

  /** It denies exactly the pushes that delete or rewrite some protected ref. */
  lemma {:induction false} HistoryProtectDenies(isProtected: string -> bool, updates: seq<RefUpdate>)
    ensures HistoryProtectPush(isProtected, updates).Denies() <==>
      exists i :: 0 <= i < |updates| && isProtected(updates[i].ref) && (updates[i].IsDelete() || updates[i].force)
  {
    if updates != [] {
      HistoryProtectDenies(isProtected, updates[1..]);
      assert forall i :: 1 <= i < |updates| ==> updates[1..][i - 1] == updates[i];
      if i :| 0 <= i < |updates| - 1 && isProtected(updates[1..][i].ref) && (updates[1..][i].IsDelete() || updates[1..][i].force) {
        assert updates[1..][i] == updates[i + 1];
      }
    }
  }

  /** A denial gives one reason, in the rule's own name. */
  lemma {:induction false} HistoryProtectReason(isProtected: string -> bool, updates: seq<RefUpdate>)
    ensures var r := HistoryProtectPush(isProtected, updates);
      r.Decided? && if r.decision.verdict == Deny then |r.decision.reasons| == 1 && r.decision.reasons[0].rule == "history_protect"
                    else r.decision.reasons == []
  {
    if updates != [] {
      HistoryProtectReason(isProtected, updates[1..]);
    }
  }

  // ----------------------------------------------------------------- path_acl

  datatype DenyMatcher = DenyMatcher(pattern: string, m: seq<PathMatch.Pattern>)
  datatype PathACL = PathACL(matchers: seq<DenyMatcher>, compileErr: Option<string>)

  predicate BadPattern(p: string) {
    !Text.IsBlank(p) && PathMatch.Compiled(p).None?
  }

  function ToMatcher(p: string): DenyMatcher {
    DenyMatcher(p, PathMatch.Survivors([p]))
  }

  method NewPathACL(deny: seq<string>) returns (acl: PathACL)
    ensures acl.compileErr.Some? <==> exists p :: p in deny && BadPattern(p)
    ensures acl.compileErr.None? ==> |acl.matchers| == |deny|
    ensures acl.compileErr.None? ==> forall i :: 0 <= i < |deny| ==> acl.matchers[i] == ToMatcher(deny[i])
  {
    var matchers: seq<DenyMatcher> := [];
    for i := 0 to |deny|
      invariant |matchers| == i && forall j :: 0 <= j < i ==> !BadPattern(deny[j]) && matchers[j] == ToMatcher(deny[j])
    {
      var bad := PathMatch.IsMalformed(deny[i]);
      if bad {
        assert deny[i] in deny;
        return PathACL([], Some("path_acl: malformed deny pattern " + Quote(deny[i])));
      }
      var m := PathMatch.New([deny[i]]);
      matchers := matchers + [DenyMatcher(deny[i], m)];
    }
    acl := PathACL(matchers, None);
  }

  /** The first deny pattern that matches the path. */
  function MatchingPattern(matchers: seq<DenyMatcher>, path: string): Option<string> {
    if matchers == [] then None
    else if PathMatch.MatchPath(matchers[0].m, path) then Some(matchers[0].pattern)
    else MatchingPattern(matchers[1..], path)
  }

  function PathACLFiles(matchers: seq<DenyMatcher>, files: seq<ChangedFile>): RuleResult {
    if files == [] then Allowed()
    else
      var pat := MatchingPattern(matchers, files[0].path);
      if pat.Some? then
        DenyWith("path_acl", "push touches denied path " + Quote(files[0].path) + " (matched pattern " + Quote(pat.value) + ")")
      else PathACLFiles(matchers, files[1..])
  }

  function PathACLPush(acl: PathACL, files: seq<ChangedFile>): RuleResult {
    if acl.compileErr.Some? then Failed(acl.compileErr.value)
    else PathACLFiles(acl.matchers, files)
  }

  function PathACLRule(acl: PathACL): Rule {
    Rule("path_acl", (req: PushRequest) => PathACLPush(acl, req.files))
  }

  predicate DeniedPath(matchers: seq<DenyMatcher>, path: string) {
    exists i :: 0 <= i < |matchers| && PathMatch.MatchPath(matchers[i].m, path)
  }

  /** From the configured texts: a path is denied iff some deny pattern that compiles matches it alone. */
  lemma DeniedByText(deny: seq<string>, acl: PathACL, path: string)
    requires |acl.matchers| == |deny| && forall i :: 0 <= i < |deny| ==> acl.matchers[i] == ToMatcher(deny[i])
    ensures DeniedPath(acl.matchers, path) <==>
      exists p :: p in deny && PathMatch.Compiled(p).Some? && PathMatch.MatchPath([PathMatch.Compiled(p).value], path)
  {
    hide PathMatch.MatchPath, PathMatch.Compiled;
    forall p: string ensures PathMatch.MatchPath(PathMatch.Survivors([p]), path) <==>
      PathMatch.Compiled(p).Some? && PathMatch.MatchPath([PathMatch.Compiled(p).value], path)
    {
      PathMatch.SurvivorAlone(p, path);
    }
    if i :| 0 <= i < |deny| && PathMatch.MatchPath(acl.matchers[i].m, path) {
      assert deny[i] in deny;
    }
    if p :| p in deny && PathMatch.Compiled(p).Some? && PathMatch.MatchPath([PathMatch.Compiled(p).value], path) {
      var i :| 0 <= i < |deny| && deny[i] == p;
      assert acl.matchers[i].m == PathMatch.Survivors([p]);
    }
  }

  lemma {:induction false} MatchingPatternFinds(matchers: seq<DenyMatcher>, path: string)
    ensures MatchingPattern(matchers, path).Some? <==> DeniedPath(matchers, path)
  {
    hide PathMatch.MatchPath;
    if matchers != [] {
      MatchingPatternFinds(matchers[1..], path);
      assert forall i :: 1 <= i < |matchers| ==> matchers[1..][i - 1] == matchers[i];
      if i :| 0 <= i < |matchers| - 1 && PathMatch.MatchPath(matchers[1..][i].m, path) {
        assert matchers[1..][i] == matchers[i + 1];
      }
    }
  }

  /** A malformed deny list is an error; otherwise a denial gives one reason, in the rule's own name. */
  lemma {:induction false} PathACLReason(acl: PathACL, files: seq<ChangedFile>)
    ensures var r := PathACLPush(acl, files);
      if acl.compileErr.Some? then r == Failed(acl.compileErr.value)
      else r.Decided? && if r.decision.verdict == Deny then |r.decision.reasons| == 1 && r.decision.reasons[0].rule == "path_acl"
                         else r.decision.reasons == []
  {
    hide MatchingPattern;
    if acl.compileErr.None? && files != [] {
      PathACLReason(acl, files[1..]);
    }
  }

  /** It lets a push through iff every pattern compiled and no changed file is at a denied path. */
  lemma {:induction false} PathACLDenies(acl: PathACL, files: seq<ChangedFile>)
    ensures PathACLPush(acl, files).Denies() <==>
      acl.compileErr.Some? || exists f :: f in files && DeniedPath(acl.matchers, f.path)
  {
    hide DeniedPath, MatchingPattern;
    if acl.compileErr.None? && files != [] {
      MatchingPatternFinds(acl.matchers, files[0].path);
      PathACLDenies(acl, files[1..]);
      assert files == [files[0]] + files[1..];
    }
  }
}
