/** The receive-pack exchange: from the agent's bytes to a forward, a denial, and the audit record. */
module Proxy {
  import opened Options
  import opened Commits
  import opened Policy
  import opened PktLine
  import opened ReceivePackRequest
  import opened Enforce

  /** What the exchange does to the world, in order. */
  datatype Effect =
    | Audit(verdict: Verdict, dryRun: bool)
    | Forward(body: string)
    | DenyResponse
    | RemovePack(packID: string)

  datatype Config = Config(engine: Option<Engine>, hasMirror: bool, max: nat, dryRun: bool) {
    predicate Enforces() { engine.Some? && hasMirror }
  }

  /** The mirror as this push finds it: whether it opens, refreshes, takes the pack, and what it answers. */
  datatype Env = Env(opens: bool, refreshes: bool, ingest: string -> Answer<string>, mirror: Enforce.Mirror)

  datatype Who = Who(agent: string, repo: string)

  // ------------------------------------------------------ what should happen

  /** The body arrived: past the size cap the read stops before it can fail. */
  predicate Readable(cfg: Config, body: string, fails: bool) {
    !fails || (cfg.Enforces() && |body| > cfg.max)
  }

  function Ingested(env: Env, body: string, offset: int): Answer<string> {
    if 0 <= offset < |body| then env.ingest(body[offset..]) else Answered("")
  }

  /** The push got as far as having its pack in the mirror. */
  predicate Reached(cfg: Config, env: Env, body: string) {
    && |body| <= cfg.max && ParseSpec(body, false).Parsed? && env.opens && env.refreshes
    && Ingested(env, body, ParseSpec(body, false).packOffset).Answered?
  }

  function PackID(env: Env, body: string): string
    requires ParseSpec(body, false).Parsed? && Ingested(env, body, ParseSpec(body, false).packOffset).Answered?
  {
    Ingested(env, body, ParseSpec(body, false).packOffset).value
  }

  function Examined(env: Env, body: string, who: Who): Inspection
    requires ParseSpec(body, false).Parsed? && Ingested(env, body, ParseSpec(body, false).packOffset).Answered?
  {
    Inspect(ParseSpec(body, false).commands, env.mirror, who.agent, who.repo, PackID(env, body))
  }

  /** The engine gets to judge the push: everything before it succeeded. */
  predicate Judged(cfg: Config, env: Env, body: string, who: Who) {
    Reached(cfg, env, body) && Examined(env, body, who).Inspected?
  }

  predicate Clean(cfg: Config, env: Env, body: string, who: Who)
    requires cfg.Enforces()
  {
    Judged(cfg, env, body, who) && !Blocked(cfg.engine.value.entries, Examined(env, body, who).req)
  }

  /** The push goes to the upstream. */
  predicate Forwards(cfg: Config, env: Env, body: string, who: Who) {
    !cfg.Enforces() || Clean(cfg, env, body, who) || (Judged(cfg, env, body, who) && cfg.dryRun)
  }

  /** The verdict recorded, and whether it was only observed. */
  predicate AuditRight(cfg: Config, env: Env, body: string, who: Who, verdict: Verdict, dryRun: bool) {
    && (verdict.Allow? <==> !cfg.Enforces() || Clean(cfg, env, body, who))
    && (dryRun <==> cfg.Enforces() && Judged(cfg, env, body, who) && !Clean(cfg, env, body, who) && cfg.dryRun)
  }

  /** What was read of the body. */
  function Buffered(cfg: Config, body: string): string {
    if cfg.Enforces() && |body| > cfg.max then body[..cfg.max + 1] else body
  }

  ghost predicate EffectsRight(cfg: Config, env: Env, body: string, who: Who, effects: seq<Effect>) {
    && ((exists b :: Forward(b) in effects) <==> Forwards(cfg, env, body, who))
    && (forall b :: Forward(b) in effects ==> b == body)
    && (exists v, d :: Audit(v, d) in effects)
    && (forall i, j :: 0 <= i < j < |effects| ==> !(effects[i].Audit? && effects[j].Audit?))
    && (DenyResponse in effects <==> !Forwards(cfg, env, body, who) && ParseSpec(Buffered(cfg, body), false).Parsed?)
    && (forall v, d :: Audit(v, d) in effects ==> AuditRight(cfg, env, body, who, v, d))
    && (forall i :: 0 <= i < |effects| && effects[i].Forward? ==> i == 1 && |effects| == 2 && effects[0].Audit?)
    && (forall id :: RemovePack(id) in effects <==>
          cfg.Enforces() && Reached(cfg, env, body) && !Forwards(cfg, env, body, who) && id != "" && id == PackID(env, body))
  }

  /**
   * Without an engine or without a mirror every body passes through; with both, one byte past the cap
   * is denied, and a body at the cap is judged like any other.
   */
  lemma CapAndPassThrough(cfg: Config, env: Env, body: string, who: Who)
    ensures cfg.engine.None? || !cfg.hasMirror ==> Forwards(cfg, env, body, who)
    ensures cfg.engine.Some? && cfg.hasMirror && |body| > cfg.max ==> !Forwards(cfg, env, body, who)
    ensures cfg.engine.Some? && cfg.hasMirror && |body| == cfg.max ==>
      (Forwards(cfg, env, body, who) <==> Forwards(cfg.(max := |body| + 1), env, body, who))
  {
    hide ParseSpec, Inspect, Blocked;
  }

  /** The mirror takes in exactly the pack behind an encoded command list, and nothing when none follows. */
  lemma MirrorTakesThePack(env: Env, cmds: seq<Command>, tail: string)
    requires cmds != [] && forall c :: c in cmds ==> Sendable(c)
    ensures var body := EncodeCommands(cmds) + "0000" + tail;
      && ParseSpec(body, false).Parsed?
      && Ingested(env, body, ParseSpec(body, false).packOffset) == if "PACK" <= tail then env.ingest(tail) else Answered("")
  {
    hide ParseSpec, EncodeCommands, Sendable;
    RequestRoundTrip(cmds, tail, false);
    var header := EncodeCommands(cmds) + "0000";
    assert (header + tail)[|header|..] == tail;
  }

  lemma ForwardedRight(cfg: Config, env: Env, body: string, who: Who, v: Verdict, d: bool)
    requires Forwards(cfg, env, body, who) && AuditRight(cfg, env, body, who, v, d)
    ensures EffectsRight(cfg, env, body, who, [Audit(v, d), Forward(body)])
  {
    hide Forwards, AuditRight, Reached, ParseSpec, PackID, Buffered;
    var effects := [Audit(v, d), Forward(body)];
    assert effects[0] == Audit(v, d) && effects[1] == Forward(body);
  }

  /** What is done to a push that is not forwarded: maybe an answer, the audit, maybe a removal. */
  function Denied(answered: bool, packID: string): seq<Effect> {
    (if answered then [DenyResponse] else []) + [Audit(Deny, false)]
    + if packID != "" then [RemovePack(packID)] else []
  }

  lemma DeniedMembers(answered: bool, packID: string)
    ensures var effects := Denied(answered, packID);
      && (DenyResponse in effects <==> answered) && Audit(Deny, false) in effects
      && (forall e :: e in effects ==> e == DenyResponse || e == Audit(Deny, false) || e.RemovePack?)
      && (forall id :: RemovePack(id) in effects <==> packID != "" && id == packID)
      && (forall i, j :: 0 <= i < j < |effects| ==> !(effects[i].Audit? && effects[j].Audit?))
  {
    var effects := Denied(answered, packID);
    var n := if answered then 1 else 0;
    assert effects[n] == Audit(Deny, false);
    assert answered ==> effects[0] == DenyResponse;
    assert packID != "" ==> effects[n + 1] == RemovePack(packID);
  }

  lemma DeniedRight(cfg: Config, env: Env, body: string, who: Who, answered: bool, packID: string)
    requires !Forwards(cfg, env, body, who) && AuditRight(cfg, env, body, who, Deny, false)
    requires answered <==> ParseSpec(Buffered(cfg, body), false).Parsed?
    requires cfg.Enforces()
    requires if Reached(cfg, env, body) then packID == PackID(env, body) else packID == ""
    ensures EffectsRight(cfg, env, body, who, Denied(answered, packID))
  {
    hide Forwards, AuditRight, Reached, ParseSpec, PackID, Buffered, Denied;
    DeniedMembers(answered, packID);
    var effects := Denied(answered, packID);
    forall i | 0 <= i < |effects| ensures !effects[i].Forward? {
      assert effects[i] in effects;
    }
  }

  // ------------------------------------------------------------- the exchange

  method Read(cfg: Config, body: Source) returns (buf: string, ok: bool)
    modifies body
    ensures ok <==> Readable(cfg, old(body.rest), body.fails)
    ensures ok ==> buf == Buffered(cfg, old(body.rest))
  {
    var res;
    if cfg.Enforces() {
      buf, res := body.ReadFull(cfg.max + 1);
      ok := !res.Broken?;
    } else {
      buf := body.rest;
      body.rest, body.count := "", body.count + |body.rest|;
      ok := !body.fails;
    }
  }

  method ParseBuffer(buf: string) returns (p: Parse)
    ensures p == ParseSpec(buf, false)
  {
    var src := new Source(buf, false);
    p := ParseReceivePackRequest(src);
  }

  /**
   * With enforcement on, the body is forwarded, whole and unchanged, exactly when it was within the
   * size cap, parsed, inspected without error, and no rule blocks it or dry-run only observes the
   * block; a pack taken in for a push that is not forwarded is removed again.
   */
  method ReceivePack(cfg: Config, env: Env, body: Source, who: Who) returns (effects: seq<Effect>)
    modifies body
    ensures !Readable(cfg, old(body.rest), body.fails) ==> effects == []
    ensures Readable(cfg, old(body.rest), body.fails) ==> EffectsRight(cfg, env, old(body.rest), who, effects)
  {
    hide Inspect, ParseSpec, Blocked, Verdicts, EffectsRight, Denied;
    ghost var whole := body.rest;
    var buf, ok := Read(cfg, body);
    if !ok {
      return [];
    }
    var p := ParseBuffer(buf);
    if !cfg.Enforces() {
      ForwardedRight(cfg, env, whole, who, Allow, false);
      return [Audit(Allow, false), Forward(buf)];
    }
    if |buf| > cfg.max {
      DeniedRight(cfg, env, whole, who, p.Parsed?, "");
      return Denied(p.Parsed?, "");
    }
    if p.Rejected? {
      DeniedRight(cfg, env, whole, who, false, "");
      return Denied(false, "");
    }
    if !env.opens || !env.refreshes {
      DeniedRight(cfg, env, whole, who, true, "");
      return Denied(true, "");
    }
    var packID := "";
    if 0 <= p.packOffset < |buf| {
      var taken := env.ingest(buf[p.packOffset..]);
      if taken.Broken? {
        DeniedRight(cfg, env, whole, who, true, "");
        return Denied(true, "");
      }
      packID := taken.value;
    }
    assert Reached(cfg, env, whole) && packID == PackID(env, whole);
    var d, failed := EnforceReceivePack(p.commands, env.mirror, cfg.engine.value, who.agent, who.repo, packID);
    if Examined(env, whole, who).Inspected? {
      VerdictIsBlocked(cfg.engine.value, Examined(env, whole, who).req, d);
    }
    if d.verdict.Allow? {
      ForwardedRight(cfg, env, whole, who, Allow, false);
      return [Audit(Allow, false), Forward(buf)];
    }
    if cfg.dryRun && !failed {
      ForwardedRight(cfg, env, whole, who, Deny, true);
      return [Audit(Deny, true), Forward(buf)];
    }
    DeniedRight(cfg, env, whole, who, true, packID);
    return Denied(true, packID);
  }

  lemma VerdictIsBlocked(engine: Engine, req: PushRequest, d: Decision)
    requires Verdicts(engine, req, d)
    ensures d.verdict.Deny? <==> Blocked(engine.entries, req)
  {
  }
}
