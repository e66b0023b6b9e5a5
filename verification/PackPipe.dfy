/**
 * The pack-objects producer, the pipe to its reader, and the mirror's mutex, as the steps of the
 * goroutines involved. The producer holds the mutex from the start and releases it after its exit.
 */
module PackPipe {
  import opened Options


  /** The producer goroutine: running git, then closing the pipe, unlocking, and signalling `done`. */
  datatype Producer = Running | Exited | WriterClosed | Unlocked | Finished {
    function Left(): nat {
      match this
      case Running => 4
      case Exited => 3
      case WriterClosed => 2
      case Unlocked => 1
      case Finished => 0
    }
  }

  datatype Consumer = Reading | Waiting | Returned(ok: bool)
  datatype Lock = Free | ByProducer | ByOther

  /** What git would print if it could, and whether it would exit cleanly. */
  datatype Config = Config(output: string, exitOk: bool)

  datatype State = State(left: string, delivered: string, producer: Producer, runOk: bool,
                         consumer: Consumer, readerClosed: bool, lock: Lock)

  datatype Action =
    | Transfer(n: nat) | Break | Exit | CloseWriter | Unlock | Signal   // the producer
    | CallWait | WaitReturns                                            // the consumer
    | OtherLocks | OtherUnlocks                                         // another mirror operation

  function Init(cfg: Config): State {
    State(cfg.output, "", Running, true, Reading, false, ByProducer)
  }

  predicate Enabled(s: State, a: Action) {
    match a
    case Transfer(n) => s.producer.Running? && s.consumer.Reading? && !s.readerClosed && 0 < n <= |s.left|
    case Break => s.producer.Running? && s.left != "" && s.readerClosed
    case Exit => s.producer.Running? && s.left == ""
    case CloseWriter => s.producer.Exited?
    case Unlock => s.producer.WriterClosed?
    case Signal => s.producer.Unlocked?
    case CallWait => s.consumer.Reading?
    case WaitReturns => s.consumer.Waiting? && s.producer.Finished?
    case OtherLocks => s.lock.Free?
    case OtherUnlocks => s.lock.ByOther?
  }

  function Step(cfg: Config, s: State, a: Action): State
    requires Enabled(s, a)
  {
    match a
    case Transfer(n) => s.(left := s.left[n..], delivered := s.delivered + s.left[..n])
    case Break => s.(producer := Exited, runOk := false)
    case Exit => s.(producer := Exited, runOk := cfg.exitOk)
    case CloseWriter => s.(producer := WriterClosed)
    case Unlock => s.(producer := Unlocked, lock := Free)
    case Signal => s.(producer := Finished)
    case CallWait => s.(consumer := Waiting, readerClosed := true)
    case WaitReturns => s.(consumer := Returned(s.runOk))
    case OtherLocks => s.(lock := ByOther)
    case OtherUnlocks => s.(lock := Free)
  }

  function After(cfg: Config, run: seq<Action>): Option<State> {
    if run == [] then Some(Init(cfg))
    else
      var n := |run| - 1;
      match After(cfg, run[..n])
      case None => None
      case Some(s) => if Enabled(s, run[n]) then Some(Step(cfg, s, run[n])) else None
  }

  /** The producer has the mutex exactly until its unlock step; the bytes split into given and left. */
  ghost predicate Inv(cfg: Config, s: State) {
    && (s.lock.ByProducer? <==> s.producer.Running? || s.producer.Exited? || s.producer.WriterClosed?)
    && s.delivered + s.left == cfg.output
    && (s.readerClosed <==> !s.consumer.Reading?)
    && (s.consumer.Returned? ==> s.producer.Finished? && s.consumer.ok == s.runOk)
    && (!s.producer.Running? ==> (s.runOk <==> s.left == "" && cfg.exitOk))
    && (!s.producer.Running? && s.left != "" ==> s.readerClosed)
  }

  lemma StepKeepsInv(cfg: Config, s: State, a: Action)
    requires Inv(cfg, s) && Enabled(s, a)
    ensures Inv(cfg, Step(cfg, s, a))
  {
    if a.Transfer? {
      assert s.left[..a.n] + s.left[a.n..] == s.left;
    }
  }

  lemma {:induction false} RunInvariant(cfg: Config, run: seq<Action>)
    requires After(cfg, run).Some?
    ensures Inv(cfg, After(cfg, run).value)
  {
    hide Inv;
    if run == [] {
      InitInv(cfg);
    } else {
      var n := |run| - 1;
      RunInvariant(cfg, run[..n]);
      StepKeepsInv(cfg, After(cfg, run[..n]).value, run[n]);
    }
  }

  lemma InitInv(cfg: Config)
    ensures Inv(cfg, Init(cfg))
  {
  }

  /**
   * When wait returns the producer has ended and no longer holds the mutex; a successful return
   * means git exited cleanly and every byte was delivered.
   */
  lemma WaitFreesMutex(cfg: Config, run: seq<Action>)
    requires After(cfg, run).Some? && After(cfg, run).value.consumer.Returned?
    ensures var s := After(cfg, run).value;
      && s.producer.Finished? && !s.lock.ByProducer?
      && (s.consumer.ok <==> cfg.exitOk && s.delivered == cfg.output)
  {
    RunInvariant(cfg, run);
    var s := After(cfg, run).value;
    if s.delivered == cfg.output {
      assert |s.left| == 0;
    }
  }

  /** No other mirror operation runs while the producer does. */
  lemma MutualExclusion(cfg: Config, run: seq<Action>)
    requires After(cfg, run).Some? && After(cfg, run).value.lock.ByOther?
    ensures After(cfg, run).value.producer.Unlocked? || After(cfg, run).value.producer.Finished?
  {
    RunInvariant(cfg, run);
  }

  predicate Ours(a: Action) {
    !a.OtherLocks? && !a.OtherUnlocks?
  }

  /** Steps of the producer and of wait still to come once wait has been called. */
  function Remaining(s: State): nat {
    s.producer.Left() + if s.consumer.Returned? then 0 else 1
  }

  /** After wait is called, the producer or wait itself can always move until wait returns. */
  lemma WaitingNeverStuck(cfg: Config, run: seq<Action>)
    requires After(cfg, run).Some? && After(cfg, run).value.consumer.Waiting?
    ensures exists a :: Ours(a) && After(cfg, run + [a]).Some?
  {
    RunInvariant(cfg, run);
    var s := After(cfg, run).value;
    var a := match s.producer
      case Running => if s.left == "" then Exit else Break
      case Exited => CloseWriter
      case WriterClosed => Unlock
      case Unlocked => Signal
      case Finished => WaitReturns;
    assert (run + [a])[..|run|] == run;
    assert Enabled(s, a) && After(cfg, run + [a]).Some?;
  }

  function OurSteps(run: seq<Action>, from: nat): nat
    requires from <= |run|
    decreases |run|
  {
    if from == |run| then 0
    else OurSteps(run[..|run| - 1], from) + if Ours(run[|run| - 1]) then 1 else 0
  }

  lemma WaitingStep(cfg: Config, s: State, a: Action)
    requires Inv(cfg, s) && Enabled(s, a) && !s.consumer.Reading?
    ensures !Step(cfg, s, a).consumer.Reading?
    ensures Remaining(Step(cfg, s, a)) + (if Ours(a) then 1 else 0) == Remaining(s)
  {
  }

  /** And wait returns within five of those steps, however others contend for the mutex. */
  lemma {:induction false} WaitReturnsSoon(cfg: Config, run: seq<Action>, k: nat)
    requires k <= |run| && After(cfg, run).Some?
    requires After(cfg, run[..k]).Some? && !After(cfg, run[..k]).value.consumer.Reading?
    ensures !After(cfg, run).value.consumer.Reading?
    ensures OurSteps(run, k) + Remaining(After(cfg, run).value) == Remaining(After(cfg, run[..k]).value)
    ensures OurSteps(run, k) <= 5
    decreases |run|
  {
    hide Step, Enabled, Inv, Ours;
    if k < |run| {
      var n := |run| - 1;
      assert run[..n][..k] == run[..k];
      WaitReturnsSoon(cfg, run[..n], k);
      RunInvariant(cfg, run[..n]);
      WaitingStep(cfg, After(cfg, run[..n]).value, run[n]);
    } else {
      assert run[..k] == run;
    }
  }

  /** The producer runs with bytes left and the mutex held, and nobody has called wait. */
  predicate Abandoned(s: State, left: string) {
    s.producer.Running? && s.left == left && s.consumer.Reading? && s.lock.ByProducer?
  }

  lemma AbandonedIsStuck(cfg: Config, s: State, a: Action, left: string)
    requires Inv(cfg, s) && Abandoned(s, left) && left != ""
    ensures Enabled(s, a) ==> a.Transfer? || a.CallWait?
  {
  }

  /**
   * Why wait must be called: when the reader stops reading and never waits, nobody moves again — not
   * the producer, which keeps the mutex, and no other operation on the mirror.
   */
  lemma {:induction false} AbandonedStreamKeepsMutex(cfg: Config, run: seq<Action>, k: nat, left: string)
    requires k <= |run| && After(cfg, run).Some?
    requires After(cfg, run[..k]).Some? && Abandoned(After(cfg, run[..k]).value, left) && left != ""
    requires forall i :: k <= i < |run| ==> !run[i].Transfer? && !run[i].CallWait?
    ensures |run| == k && Abandoned(After(cfg, run).value, left)
    decreases |run|
  {
    hide Step, Enabled, Inv, Abandoned;
    assert run[..|run|] == run;
    if k < |run| {
      var n := |run| - 1;
      assert run[..n][..k] == run[..k];
      AbandonedStreamKeepsMutex(cfg, run[..n], k, left);
      RunInvariant(cfg, run[..n]);
      AbandonedIsStuck(cfg, After(cfg, run[..n]).value, run[n], left);
    }
  }

  /** And the producer always holds it while it runs. */
  lemma RunningHoldsMutex(cfg: Config, run: seq<Action>)
    requires After(cfg, run).Some? && After(cfg, run).value.producer.Running?
    ensures After(cfg, run).value.lock.ByProducer?
  {
    RunInvariant(cfg, run);
  }
}
