/** The policy engine: requests, decisions, rule pipelines and how verdicts combine. */
module Policy {
  import opened Options
  import opened Commits

  datatype Verdict = Allow | Deny
  datatype Reason = Reason(rule: string, message: string)
  datatype Decision = Decision(verdict: Verdict, reasons: seq<Reason>)

  /** A rule's answer: a decision, or an evaluation error, which counts as a denial. */
  datatype RuleResult = Decided(decision: Decision) | Failed(message: string) {
    predicate Denies() {
      Failed? || decision.verdict.Deny?
    }
  }

  datatype RefUpdate = RefUpdate(ref: string, oldId: OID, newId: OID, force: bool) {
    predicate IsDelete() { newId == "" }
    predicate IsCreate() { oldId == "" && newId != "" }
  }

  /** The commits a push's refs will point at; deletions contribute none. */
  function NewTips(updates: seq<RefUpdate>): seq<OID> {
    if updates == [] then []
    else
      var n := |updates| - 1;
      NewTips(updates[..n]) + (if updates[n].newId != "" then [updates[n].newId] else [])
  }

  lemma {:induction false} NewTipsMembers(updates: seq<RefUpdate>)
    ensures forall t :: t in NewTips(updates) <==> t != "" && exists i :: 0 <= i < |updates| && updates[i].newId == t
  {
    if updates != [] {
      var n := |updates| - 1;
      NewTipsMembers(updates[..n]);
      assert forall i :: 0 <= i < n ==> updates[..n][i] == updates[i];
    }
  }

  method CollectTips(updates: seq<RefUpdate>) returns (tips: seq<OID>)
    ensures tips == NewTips(updates)
  {
    tips := [];
    for i := 0 to |updates|
      invariant tips == NewTips(updates[..i])
    {
      assert updates[..i + 1][..i] == updates[..i];
      if updates[i].newId != "" {
        tips := tips + [updates[i].newId];
      }
    }
    assert updates[..|updates|] == updates;
  }

  datatype Status = Added | Modified | Deleted
  datatype ChangedFile = ChangedFile(path: string, status: Status, blob: OID, content: Option<string>)
  datatype CommitInfo = CommitInfo(sha: OID, message: string)
  datatype PushRequest = PushRequest(agent: string, repo: string, updates: seq<RefUpdate>,
                                     commits: seq<CommitInfo>, files: seq<ChangedFile>)

  datatype Rule = Rule(name: string, push: PushRequest -> RuleResult)

  /** A rule with the agents and repositories it is for; an empty set means all. */
  datatype Entry = Entry(rule: Rule, agents: set<string>, repos: set<string>) {
    predicate Applies(req: PushRequest) {
      && (agents == {} || req.agent in agents)
      && (repos == {} || req.repo in repos)
    }

    predicate Blocks(req: PushRequest) {
      Applies(req) && rule.push(req).Denies()
    }

    function DenyReasons(req: PushRequest): seq<Reason>
      requires Blocks(req)
    {
      match rule.push(req)
      case Decided(d) => d.reasons
      case Failed(m) => [Reason(rule.name, m)]
    }

    function AllowReasons(req: PushRequest): seq<Reason> {
      if Applies(req) && !Blocks(req) then rule.push(req).decision.reasons else []
    }
  }

  datatype Mode = FirstDeny | CollectAll
  datatype Engine = Engine(mode: Mode, entries: seq<Entry>)

  // --------------------------------------------------------- what it decides

  /** Deny reasons of every blocking entry, in pipeline order. */
  function AllDenyReasons(entries: seq<Entry>, req: PushRequest): seq<Reason> {
    if entries == [] then []
    else
      var n := |entries| - 1;
      AllDenyReasons(entries[..n], req) + (if entries[n].Blocks(req) then entries[n].DenyReasons(req) else [])
  }

  function AllAllowReasons(entries: seq<Entry>, req: PushRequest): seq<Reason> {
    if entries == [] then []
    else
      var n := |entries| - 1;
      AllAllowReasons(entries[..n], req) + entries[n].AllowReasons(req)
  }

  predicate Blocked(entries: seq<Entry>, req: PushRequest) {
    exists i :: 0 <= i < |entries| && entries[i].Blocks(req)
  }

  lemma {:induction false} NoBlockNoReasons(entries: seq<Entry>, req: PushRequest)
    requires !Blocked(entries, req)
    ensures AllDenyReasons(entries, req) == []
  {
    if entries != [] {
      assert forall i :: 0 <= i < |entries| - 1 ==> entries[..|entries| - 1][i] == entries[i];
      NoBlockNoReasons(entries[..|entries| - 1], req);
    }
  }

  /** What the engine promises of its decision. */
  ghost predicate Verdicts(engine: Engine, req: PushRequest, d: Decision) {
    && (d.verdict.Deny? <==> Blocked(engine.entries, req))
    && (d.verdict.Deny? && engine.mode.CollectAll? ==> d.reasons == AllDenyReasons(engine.entries, req))
    && (d.verdict.Deny? && engine.mode.FirstDeny? ==>
          exists i :: 0 <= i < |engine.entries| && engine.entries[i].Blocks(req)
                      && !Blocked(engine.entries[..i], req) && d.reasons == engine.entries[i].DenyReasons(req))
    && (d.verdict.Allow? ==> d.reasons == AllAllowReasons(engine.entries, req))
  }

  method EvaluatePush(engine: Engine, req: PushRequest) returns (d: Decision)
    ensures Verdicts(engine, req, d)
  {
    var reasons, allowReasons: seq<Reason> := [], [];
    var denied := false;
    for i := 0 to |engine.entries|
      invariant denied <==> Blocked(engine.entries[..i], req)
      invariant denied ==> engine.mode.CollectAll?
      invariant reasons == AllDenyReasons(engine.entries[..i], req)
      invariant !denied ==> allowReasons == AllAllowReasons(engine.entries[..i], req)
    {
      var entry := engine.entries[i];
      assert engine.entries[..i + 1][..i] == engine.entries[..i];
      assert engine.entries[..i + 1][i] == entry;
      assert Blocked(engine.entries[..i + 1], req) <==> Blocked(engine.entries[..i], req) || entry.Blocks(req) by {
        assert forall j :: 0 <= j < i ==> engine.entries[..i + 1][j] == engine.entries[..i][j];
      }
      if !entry.Applies(req) {
        continue;
      }
      match entry.rule.push(req) {
        case Failed(m) =>
          reasons := reasons + [Reason(entry.rule.name, m)];
          denied := true;
          if engine.mode.FirstDeny? {
            NoBlockNoReasons(engine.entries[..i], req);
            return Decision(Deny, reasons);
          }
        case Decided(dec) =>
          if dec.verdict.Deny? {
            denied := true;
            reasons := reasons + dec.reasons;
            if engine.mode.FirstDeny? {
              NoBlockNoReasons(engine.entries[..i], req);
              return Decision(Deny, reasons);
            }
          } else {
            allowReasons := allowReasons + dec.reasons;
          }
      }
    }
    assert engine.entries[..|engine.entries|] == engine.entries;
    d := if denied then Decision(Deny, reasons) else Decision(Allow, allowReasons);
  }

  /** The entry is for this request: no agents, or its agent among them, and the same of repositories. */
  ghost predicate Concerns(entry: Entry, agent: string, repo: string) {
    (entry.agents == {} || exists a :: a in entry.agents && a == agent)
    && (entry.repos == {} || exists r :: r in entry.repos && r == repo)
  }

  ghost predicate ErrsOrDenies(entry: Entry, req: PushRequest) {
    match entry.rule.push(req)
    case Failed(_) => true
    case Decided(answer) => answer.verdict == Deny
  }

  /** A push is denied iff a rule that concerns it errors or denies. */
  lemma DeniesIff(engine: Engine, req: PushRequest, d: Decision)
    requires Verdicts(engine, req, d)
    ensures d.verdict == Deny <==>
      exists e :: e in engine.entries && Concerns(e, req.agent, req.repo) && ErrsOrDenies(e, req)
  {
    forall e: Entry ensures Concerns(e, req.agent, req.repo) && ErrsOrDenies(e, req) <==> e.Blocks(req) {
    }
    if d.verdict.Deny? {
      var i :| 0 <= i < |engine.entries| && engine.entries[i].Blocks(req);
      assert engine.entries[i] in engine.entries;
    }
  }

  /** The rule that concerns the request gives this reason against it: its own reasons, or its error in its name. */
  ghost predicate GivesAgainst(e: Entry, req: PushRequest, r: Reason) {
    Concerns(e, req.agent, req.repo)
    && match e.rule.push(req)
       case Failed(message) => r.rule == e.rule.name && r.message == message
       case Decided(answer) => answer.verdict == Deny && r in answer.reasons
  }

  ghost predicate GivesFor(e: Entry, req: PushRequest, r: Reason) {
    Concerns(e, req.agent, req.repo) && e.rule.push(req).Decided?
    && e.rule.push(req).decision.verdict == Allow && r in e.rule.push(req).decision.reasons
  }

  lemma {:induction false} ReasonMembers(entries: seq<Entry>, req: PushRequest)
    ensures forall r :: r in AllDenyReasons(entries, req) <==> exists e :: e in entries && GivesAgainst(e, req, r)
    ensures forall r :: r in AllAllowReasons(entries, req) <==> exists e :: e in entries && GivesFor(e, req, r)
  {
    hide GivesAgainst, GivesFor;
    if entries != [] {
      var n := |entries| - 1;
      var e, before := entries[n], entries[..n];
      ReasonMembers(before, req);
      EntryReasons(e, req);
      assert entries == before + [e];
      var own := if e.Blocks(req) then e.DenyReasons(req) else [];
      assert AllDenyReasons(entries, req) == AllDenyReasons(before, req) + own;
      forall r ensures r in AllDenyReasons(entries, req) <==> exists x :: x in entries && GivesAgainst(x, req, r) {
        assert r in own <==> GivesAgainst(e, req, r);
      }
    }
  }

  lemma EntryReasons(e: Entry, req: PushRequest)
    ensures forall r :: r in (if e.Blocks(req) then e.DenyReasons(req) else []) <==> GivesAgainst(e, req, r)
    ensures forall r :: r in e.AllowReasons(req) <==> GivesFor(e, req, r)
  {
    assert Concerns(e, req.agent, req.repo) <==> e.Applies(req);
  }

  /** A full accounting gives every reason against the push, and an allow every annotation; neither gives more. */
  lemma ReasonsAreComplete(engine: Engine, req: PushRequest, d: Decision)
    requires Verdicts(engine, req, d)
    ensures d.verdict.Deny? && engine.mode.CollectAll? ==>
      forall r :: r in d.reasons <==> exists e :: e in engine.entries && GivesAgainst(e, req, r)
    ensures d.verdict.Deny? && engine.mode.FirstDeny? ==> d.reasons <= AllDenyReasons(engine.entries, req)
    ensures d.verdict.Allow? ==>
      forall r :: r in d.reasons <==> exists e :: e in engine.entries && GivesFor(e, req, r)
  {
    hide GivesAgainst, GivesFor;
    ReasonMembers(engine.entries, req);
    if d.verdict.Deny? && engine.mode.FirstDeny? {
      var i :| 0 <= i < |engine.entries| && engine.entries[i].Blocks(req)
               && !Blocked(engine.entries[..i], req) && d.reasons == engine.entries[i].DenyReasons(req);
      FirstReasonsArePrefix(engine.entries, req, i);
    }
  }

  lemma {:induction false} FirstReasonsArePrefix(entries: seq<Entry>, req: PushRequest, i: nat)
    requires i < |entries| && entries[i].Blocks(req) && !Blocked(entries[..i], req)
    ensures entries[i].DenyReasons(req) <= AllDenyReasons(entries, req)
    decreases |entries|
  {
    var n := |entries| - 1;
    if i == n {
      NoBlockNoReasons(entries[..n], req);
    } else {
      assert entries[..n][..i] == entries[..i];
      FirstReasonsArePrefix(entries[..n], req, i);
    }
  }

  /**
   * The two modes always agree on the verdict; on a denial the first-deny reasons are a prefix of
   * the full accounting, and on an allow the forwarded annotations are the same.
   */
  lemma ModesAgree(entries: seq<Entry>, req: PushRequest, first: Decision, all: Decision)
    requires Verdicts(Engine(FirstDeny, entries), req, first)
    requires Verdicts(Engine(CollectAll, entries), req, all)
    ensures first.verdict == all.verdict
    ensures if first.verdict.Deny? then first.reasons <= all.reasons else first == all
  {
    if first.verdict.Deny? {
      var i :| 0 <= i < |entries| && entries[i].Blocks(req)
               && !Blocked(entries[..i], req) && first.reasons == entries[i].DenyReasons(req);
      FirstReasonsArePrefix(entries, req, i);
    }
  }
}
