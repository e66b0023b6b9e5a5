/** The push decision: ancestry, pack contents and changed files, then the engine; errors deny. */
module Enforce {
  import opened Options
  import opened Commits
  import opened Policy
  import opened ReceivePackRequest

  datatype Answer<T> = Answered(value: T) | Broken(error: string)

  /** The git queries the decision makes of the inspection mirror; any of them may fail. */
  datatype Mirror = Mirror(
    isAncestor: (OID, OID) -> Answer<bool>,
    packObjects: string -> Answer<seq<OID>>,
    reachable: seq<OID> -> Answer<set<OID>>,
    messages: seq<RefUpdate> -> Answer<seq<CommitInfo>>,
    changed: seq<RefUpdate> -> Answer<seq<ChangedFile>>,
    blob: OID -> Answer<string>)

  /** The all-zero id stands for "no object" on the wire. */
  function Normalize(oid: OID): OID {
    if oid == ZERO_OID then "" else oid
  }

  predicate IsHex(oid: OID) {
    |oid| == 40 && forall i :: 0 <= i < 40 ==> '0' <= oid[i] <= '9' || 'a' <= oid[i] <= 'f'
  }

  // ------------------------------------------------------------ what is inspected

  /** One command as a ref update, its force flag from the mirror's ancestry. */
  function UpdateOf(cmd: Command, m: Mirror): Answer<RefUpdate> {
    var o, n := Normalize(cmd.oldId), Normalize(cmd.newId);
    if (o != "" && !IsHex(o)) || (n != "" && !IsHex(n)) then
      Broken("push rejected: malformed object id for ref " + cmd.ref)
    else
      var u := RefUpdate(cmd.ref, o, n, false);
      if u.IsCreate() || u.IsDelete() then Answered(u)
      else
        match m.isAncestor(o, n)
        case Broken(e) => Broken("ancestry check failed for " + cmd.ref + ": " + e)
        case Answered(ok) => Answered(u.(force := !ok))
  }

  function UpdatesOf(cmds: seq<Command>, m: Mirror): Answer<seq<RefUpdate>> {
    if cmds == [] then Answered([])
    else
      var n := |cmds| - 1;
      match UpdatesOf(cmds[..n], m)
      case Broken(e) => Broken(e)
      case Answered(us) =>
        match UpdateOf(cmds[n], m)
        case Broken(e) => Broken(e)
        case Answered(u) => Answered(us + [u])
  }

  const INSPECTION_FAILED := "push rejected: inspection failed"
  const STRAY_OBJECT := "push rejected: packfile contains an object not reachable from the declared ref updates"

  /** Why the pack's contents are refused, or "" when every object belongs to a declared tip's history. */
  function PackProblem(updates: seq<RefUpdate>, m: Mirror, packID: string): string {
    if packID == "" || NewTips(updates) == [] then ""
    else
      match (m.packObjects(packID), m.reachable(NewTips(updates)))
      case (Answered(objs), Answered(reach)) => if forall o :: o in objs ==> o in reach then "" else STRAY_OBJECT
      case _ => INSPECTION_FAILED
  }

  predicate NeedsContent(f: ChangedFile) {
    !f.status.Deleted? && f.blob != ""
  }

  /** The changed files with the contents of the added and modified ones filled in. */
  function Filled(files: seq<ChangedFile>, m: Mirror): Answer<seq<ChangedFile>> {
    if files == [] then Answered([])
    else
      var n := |files| - 1;
      match Filled(files[..n], m)
      case Broken(e) => Broken(e)
      case Answered(fs) =>
        if !NeedsContent(files[n]) then Answered(fs + [files[n]])
        else
          match m.blob(files[n].blob)
          case Broken(e) => Broken("blob-content extraction failed for " + files[n].path + ": " + e)
          case Answered(b) => Answered(fs + [files[n].(content := Some(b))])
  }

  datatype Inspection = Inspected(req: PushRequest) | Uninspectable(why: string)

  /** The request the rules see, or why the push could not be inspected. */
  function Inspect(cmds: seq<Command>, m: Mirror, agent: string, repo: string, packID: string): Inspection {
    match UpdatesOf(cmds, m)
    case Broken(e) => Uninspectable(e)
    case Answered(updates) =>
      if PackProblem(updates, m, packID) != "" then Uninspectable(PackProblem(updates, m, packID))
      else
        match m.messages(updates)
        case Broken(e) => Uninspectable("commit extraction failed: " + e)
        case Answered(commits) =>
          match m.changed(updates)
          case Broken(e) => Uninspectable("changed-files extraction failed: " + e)
          case Answered(files) =>
            match Filled(files, m)
            case Broken(e) => Uninspectable(e)
            case Answered(fs) => Inspected(PushRequest(agent, repo, updates, commits, fs))
  }

  // ---------------------------------------------------------------- the decision

  method BuildUpdates(cmds: seq<Command>, m: Mirror) returns (r: Answer<seq<RefUpdate>>)
    ensures r == UpdatesOf(cmds, m)
  {
    var updates: seq<RefUpdate> := [];
    for i := 0 to |cmds|
      invariant UpdatesOf(cmds[..i], m) == Answered(updates)
    {
      assert cmds[..i + 1][..i] == cmds[..i];
      var u := UpdateOf(cmds[i], m);
      if u.Broken? {
        BrokenUpdatesStay(cmds, m, i + 1);
        return Broken(u.error);
      }
      updates := updates + [u.value];
    }
    assert cmds[..|cmds|] == cmds;
    r := Answered(updates);
  }

  lemma {:induction false} BrokenUpdatesStay(cmds: seq<Command>, m: Mirror, i: nat)
    requires i <= |cmds| && UpdatesOf(cmds[..i], m).Broken?
    ensures UpdatesOf(cmds, m) == UpdatesOf(cmds[..i], m)
    decreases |cmds|
  {
    if i < |cmds| {
      assert cmds[..|cmds| - 1][..i] == cmds[..i];
      BrokenUpdatesStay(cmds[..|cmds| - 1], m, i);
    } else {
      assert cmds[..i] == cmds;
    }
  }

  method CheckPack(updates: seq<RefUpdate>, m: Mirror, packID: string) returns (problem: string)
    ensures problem == PackProblem(updates, m, packID)
  {
    if packID == "" {
      return "";
    }
    var tips := CollectTips(updates);
    if tips == [] {
      return "";
    }
    var objs := m.packObjects(packID);
    if objs.Broken? {
      return INSPECTION_FAILED;
    }
    var reach := m.reachable(tips);
    if reach.Broken? {
      return INSPECTION_FAILED;
    }
    for i := 0 to |objs.value|
      invariant forall j :: 0 <= j < i ==> objs.value[j] in reach.value
    {
      if objs.value[i] !in reach.value {
        return STRAY_OBJECT;
      }
    }
    return "";
  }

  /** The content of each added or modified file is stored into the list in place. */
  method FillContents(files0: seq<ChangedFile>, m: Mirror) returns (r: Answer<seq<ChangedFile>>)
    ensures r == Filled(files0, m)
  {
    var files := files0;
    for i := 0 to |files|
      invariant |files| == |files0| && files[i..] == files0[i..]
      invariant Filled(files0[..i], m) == Answered(files[..i])
    {
      assert files0[..i + 1][..i] == files0[..i] && files[i] == files0[i..][0];
      assert files[..i + 1] == files[..i] + [files[i]];
      if !NeedsContent(files[i]) {
        continue;
      }
      var b := m.blob(files[i].blob);
      if b.Broken? {
        BrokenFilesStay(files0, m, i + 1);
        return Broken("blob-content extraction failed for " + files[i].path + ": " + b.error);
      }
      files := files[i := files[i].(content := Some(b.value))];
      assert files[..i + 1] == files[..i] + [files[i]];
    }
    assert files0[..|files0|] == files0 && files[..|files|] == files;
    r := Answered(files);
  }

  lemma {:induction false} BrokenFilesStay(files: seq<ChangedFile>, m: Mirror, i: nat)
    requires i <= |files| && Filled(files[..i], m).Broken?
    ensures Filled(files, m) == Filled(files[..i], m)
    decreases |files|
  {
    if i < |files| {
      assert files[..|files| - 1][..i] == files[..i];
      BrokenFilesStay(files[..|files| - 1], m, i);
    } else {
      assert files[..i] == files;
    }
  }

  function EnforcementDeny(why: string): Decision {
    Decision(Deny, [Reason("enforcement", why)])
  }

  /**
   * The engine's verdict on the inspected request; a push that cannot be inspected is denied with
   * the failure as its one reason, and reported as an error so that no mode forwards it.
   */
  method EnforceReceivePack(cmds: seq<Command>, m: Mirror, engine: Engine, agent: string, repo: string, packID: string)
    returns (d: Decision, failed: bool)
    ensures match Inspect(cmds, m, agent, repo, packID)
      case Inspected(req) => !failed && Verdicts(engine, req, d)
      case Uninspectable(why) => failed && d == Decision(Deny, [Reason("enforcement", why)])
  {
    var updates := BuildUpdates(cmds, m);
    if updates.Broken? {
      return EnforcementDeny(updates.error), true;
    }
    var problem := CheckPack(updates.value, m, packID);
    if problem != "" {
      return EnforcementDeny(problem), true;
    }
    var commits := m.messages(updates.value);
    if commits.Broken? {
      return EnforcementDeny("commit extraction failed: " + commits.error), true;
    }
    var changed := m.changed(updates.value);
    if changed.Broken? {
      return EnforcementDeny("changed-files extraction failed: " + changed.error), true;
    }
    var files := FillContents(changed.value, m);
    if files.Broken? {
      return EnforcementDeny(files.error), true;
    }
    var req := PushRequest(agent, repo, updates.value, commits.value, files.value);
    d := EvaluatePush(engine, req);
    failed := false;
  }

  /** A well-formed id is forty digits of the lower-case hexadecimal alphabet. */
  lemma HexIds(oid: OID)
    ensures IsHex(oid) <==> |oid| == 40 && forall c :: c in oid ==> c in "0123456789abcdef"
  {
    forall c: char ensures '0' <= c <= '9' || 'a' <= c <= 'f' <==> c in "0123456789abcdef" {
      HexLetter(c);
    }
    if forall c :: c in oid ==> c in "0123456789abcdef" {
      assert forall i :: 0 <= i < |oid| ==> oid[i] in oid;
    }
  }

  lemma HexLetter(c: char)
    ensures '0' <= c <= '9' || 'a' <= c <= 'f' <==> c in "0123456789abcdef"
  {
    var digits := "0123456789abcdef";
    if '0' <= c <= '9' {
      assert digits[c as int - '0' as int] == c;
    } else if 'a' <= c <= 'f' {
      assert digits[c as int - 'a' as int + 10] == c;
    }
  }

  /** Only the empty id and forty zeros stand for no object; any other id is itself. */
  lemma NoObjectIds(oid: OID)
    ensures Normalize(oid) == "" <==> oid == "" || (|oid| == 40 && forall i :: 0 <= i < 40 ==> oid[i] == '0')
    ensures Normalize(oid) != "" ==> Normalize(oid) == oid
  {
    if |oid| == 40 && forall i :: 0 <= i < 40 ==> oid[i] == '0' {
      assert oid == ZERO_OID;
    }
  }

  // ------------------------------------------------- what an inspected push is

  /** The update a command stands for, with the force flag its ancestry gives it. */
  predicate Reflects(u: RefUpdate, cmd: Command, m: Mirror) {
    && u.ref == cmd.ref && u.oldId == Normalize(cmd.oldId) && u.newId == Normalize(cmd.newId)
    && (u.oldId == "" || IsHex(u.oldId)) && (u.newId == "" || IsHex(u.newId))
    && (u.oldId == "" || u.newId == "" ==> !u.force)
    && (u.oldId != "" && u.newId != "" ==> m.isAncestor(u.oldId, u.newId) == Answered(!u.force))
  }

  lemma UpdateReflects(cmd: Command, m: Mirror)
    requires UpdateOf(cmd, m).Answered?
    ensures Reflects(UpdateOf(cmd, m).value, cmd, m)
  {
  }

  lemma {:induction false} UpdatesReflect(cmds: seq<Command>, m: Mirror)
    requires UpdatesOf(cmds, m).Answered?
    ensures var us := UpdatesOf(cmds, m).value;
      |us| == |cmds| && forall i :: 0 <= i < |cmds| ==> Reflects(us[i], cmds[i], m)
  {
    hide UpdateOf, Reflects;
    if cmds != [] {
      var n := |cmds| - 1;
      UpdatesReflect(cmds[..n], m);
      UpdateReflects(cmds[n], m);
      assert forall i :: 0 <= i < n ==> cmds[..n][i] == cmds[i];
    }
  }

  /** The updates stand for the commands, one each, in order. */
  ghost predicate StandFor(us: seq<RefUpdate>, cmds: seq<Command>, m: Mirror) {
    |us| == |cmds| && forall i :: 0 <= i < |cmds| ==> Reflects(us[i], cmds[i], m)
  }

  lemma ReflectedIsUpdate(cmd: Command, m: Mirror, u: RefUpdate)
    requires Reflects(u, cmd, m)
    ensures UpdateOf(cmd, m) == Answered(u)
  {
  }

  lemma {:induction false} StandForIsUpdates(us: seq<RefUpdate>, cmds: seq<Command>, m: Mirror)
    requires StandFor(us, cmds, m)
    ensures UpdatesOf(cmds, m) == Answered(us)
    decreases |cmds|
  {
    hide UpdateOf, Reflects;
    if cmds == [] {
      assert us == [];
    } else {
      var n := |cmds| - 1;
      assert forall i :: 0 <= i < n ==> us[..n][i] == us[i] && cmds[..n][i] == cmds[i];
      StandForIsUpdates(us[..n], cmds[..n], m);
      ReflectedIsUpdate(cmds[n], m, us[n]);
      assert us == us[..n] + [us[n]];
    }
  }

  /** No pack, no new tip, or a pack that git can list with every object in the listed history of the tips. */
  predicate PackClean(us: seq<RefUpdate>, m: Mirror, packID: string) {
    || packID == "" || (forall i :: 0 <= i < |us| ==> us[i].newId == "")
    || (m.packObjects(packID).Answered? && m.reachable(NewTips(us)).Answered?
        && forall o :: o in m.packObjects(packID).value ==> o in m.reachable(NewTips(us)).value)
  }

  lemma PackCleanIsNoProblem(us: seq<RefUpdate>, m: Mirror, packID: string)
    ensures PackClean(us, m, packID) <==> PackProblem(us, m, packID) == ""
  {
    NewTipsMembers(us);
    hide NewTips;
    assert STRAY_OBJECT != "" && INSPECTION_FAILED != "";
    if NewTips(us) == [] {
      forall i | 0 <= i < |us| ensures us[i].newId == "" {
        assert us[i].newId !in NewTips(us);
      }
    } else {
      assert NewTips(us)[0] in NewTips(us);
    }
  }

  lemma {:induction false} FilledIffBlobs(files: seq<ChangedFile>, m: Mirror)
    ensures Filled(files, m).Answered? <==>
      forall i :: 0 <= i < |files| && NeedsContent(files[i]) ==> m.blob(files[i].blob).Answered?
  {
    hide NeedsContent;
    if files != [] {
      var n := |files| - 1;
      FilledIffBlobs(files[..n], m);
      assert forall i :: 0 <= i < n ==> files[..n][i] == files[i];
    }
  }

  /** git can answer everything the inspection asks once the updates are known. */
  ghost predicate Answerable(us: seq<RefUpdate>, m: Mirror, packID: string) {
    && PackClean(us, m, packID) && m.messages(us).Answered? && m.changed(us).Answered?
    && forall i :: 0 <= i < |m.changed(us).value| && NeedsContent(m.changed(us).value[i]) ==>
         m.blob(m.changed(us).value[i].blob).Answered?
  }

  /**
   * A push is inspected iff every id is well formed, every query is answered and the pack is clean:
   * iff some updates stand for its commands and git can answer the rest.
   */
  lemma InspectedIff(cmds: seq<Command>, m: Mirror, agent: string, repo: string, packID: string)
    ensures Inspect(cmds, m, agent, repo, packID).Inspected? <==>
      exists us :: StandFor(us, cmds, m) && Answerable(us, m, packID)
  {
    hide PackProblem, PackClean, Filled, UpdatesOf, Reflects, NeedsContent;
    if UpdatesOf(cmds, m).Answered? {
      var us := UpdatesOf(cmds, m).value;
      UpdatesReflect(cmds, m);
      PackCleanIsNoProblem(us, m, packID);
      if m.changed(us).Answered? {
        FilledIffBlobs(m.changed(us).value, m);
      }
      if Inspect(cmds, m, agent, repo, packID).Inspected? {
        assert StandFor(us, cmds, m) && Answerable(us, m, packID);
      }
    }
    if us :| StandFor(us, cmds, m) && Answerable(us, m, packID) {
      StandForIsUpdates(us, cmds, m);
    }
  }

  /** What the rules are shown of an inspected push: who pushes where, and git's answers about it. */
  lemma InspectedShows(cmds: seq<Command>, m: Mirror, agent: string, repo: string, packID: string)
    requires Inspect(cmds, m, agent, repo, packID).Inspected?
    ensures var req := Inspect(cmds, m, agent, repo, packID).req;
      && req.agent == agent && req.repo == repo && StandFor(req.updates, cmds, m)
      && m.messages(req.updates) == Answered(req.commits)
      && m.changed(req.updates).Answered? && |req.files| == |m.changed(req.updates).value|
      && forall i :: 0 <= i < |req.files| ==> FilledIn(m.changed(req.updates).value[i], req.files[i], m)
  {
    hide PackProblem, Filled, Reflects, FilledIn;
    UpdatesReflect(cmds, m);
    FilledKeepsPaths(m.changed(UpdatesOf(cmds, m).value).value, m);
  }

  /** Rules see one update per command, every id well formed and every force flag from a completed check. */
  lemma InspectedReflectsCommands(cmds: seq<Command>, m: Mirror, agent: string, repo: string, packID: string)
    requires Inspect(cmds, m, agent, repo, packID).Inspected?
    ensures var us := Inspect(cmds, m, agent, repo, packID).req.updates;
      |us| == |cmds| && forall i :: 0 <= i < |cmds| ==> Reflects(us[i], cmds[i], m)
  {
    hide Reflects, PackProblem, Filled;
    UpdatesReflect(cmds, m);
  }

  /** A push that introduces a tip and carries a pack carries nothing outside its tips' history. */
  lemma PackHasNoStrays(cmds: seq<Command>, m: Mirror, agent: string, repo: string, packID: string, i: nat)
    requires Inspect(cmds, m, agent, repo, packID).Inspected? && packID != ""
    requires i < |Inspect(cmds, m, agent, repo, packID).req.updates|
    requires Inspect(cmds, m, agent, repo, packID).req.updates[i].newId != ""
    ensures var tips := NewTips(Inspect(cmds, m, agent, repo, packID).req.updates);
      m.packObjects(packID).Answered? && m.reachable(tips).Answered?
      && forall o :: o in m.packObjects(packID).value ==> o in m.reachable(tips).value
  {
    hide Filled, UpdatesOf, NewTips;
    var updates := Inspect(cmds, m, agent, repo, packID).req.updates;
    NewTipsMembers(updates);
    assert updates[i].newId in NewTips(updates);
  }

  /** Filling in contents gives each added or modified file its object's content and changes nothing else. */
  lemma {:induction false} FilledKeepsPaths(files: seq<ChangedFile>, m: Mirror)
    requires Filled(files, m).Answered?
    ensures var fs := Filled(files, m).value;
      |fs| == |files| && forall i :: 0 <= i < |files| ==> FilledIn(files[i], fs[i], m)
  {
    hide FilledIn;
    if files != [] {
      var n := |files| - 1;
      FilledKeepsPaths(files[..n], m);
      OneFilled(files[n], m);
      assert forall i :: 0 <= i < n ==> files[..n][i] == files[i];
    }
  }

  predicate FilledIn(before: ChangedFile, after: ChangedFile, m: Mirror) {
    if NeedsContent(before)
    then m.blob(before.blob).Answered? && after == before.(content := Some(m.blob(before.blob).value))
    else after == before
  }

  lemma OneFilled(f: ChangedFile, m: Mirror)
    ensures !NeedsContent(f) ==> FilledIn(f, f, m)
    ensures NeedsContent(f) && m.blob(f.blob).Answered? ==> FilledIn(f, f.(content := Some(m.blob(f.blob).value)), m)
  {
  }
}
