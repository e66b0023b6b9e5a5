/**
 * The startup probe pool: a dispatcher hands items over an unbuffered channel to a fixed set of
 * workers; the first aborting result closes a second channel. Every step of every goroutine is an
 * action, and a run is any interleaving of enabled actions.
 */
module Preflight {
  import opened Options
  import opened Commits


  datatype Outcome = Readable | Forbidden | Inconclusive | RateLimited | Unauthorized {
    predicate Aborts() { RateLimited? || Unauthorized? }
  }

  /** What probing each item would report, and the size of the pool, already capped at the item count. */
  datatype Config = Config(outcomes: seq<Outcome>, conc: nat) {
    predicate Valid() { 1 <= conc <= |outcomes| }
    function Items(): nat { |outcomes| }
  }

  /** Where a worker stands: in the range loop, before the abort check, past it, inside the probe, after it. */
  datatype Worker = Idle | Got(item: nat) | Checked(item: nat) | Probing(item: nat) | Aborting(item: nat) | Done {
    predicate Holds() { Got? || Checked? || Probing? || Aborting? }

    function Weight(): nat {
      match this
      case Done => 0
      case Idle => 1
      case Aborting(_) => 3
      case Probing(_) => 4
      case Checked(_) => 5
      case Got(_) => 6
    }
  }

  datatype Dispatcher = Sending | Waiting | Returned

  /**
   * `sent` items have been handed over; `started` lists the probes begun, in order; `mark` is how
   * many had begun when the abort channel was closed.
   */
  datatype State = State(workers: seq<Worker>, dispatcher: Dispatcher, sent: nat, aborted: bool,
                         results: seq<Option<Outcome>>, started: seq<nat>, mark: nat)

  datatype Action =
    | Send(w: nat) | Abandon | Close | Return
    | Exit(w: nat) | Check(w: nat) | Start(w: nat) | Finish(w: nat) | Abort(w: nat)

  function Init(cfg: Config): State {
    State(seq(cfg.conc, _ => Idle), Sending, 0, false, seq(cfg.Items(), _ => None), [], 0)
  }

  predicate At(s: State, w: nat) {
    w < |s.workers|
  }

  predicate Enabled(cfg: Config, s: State, a: Action) {
    match a
    case Send(w) => At(s, w) && s.workers[w].Idle? && s.dispatcher.Sending? && s.sent < cfg.Items()
    case Abandon => s.dispatcher.Sending? && s.sent < cfg.Items() && s.aborted
    case Close => s.dispatcher.Sending? && s.sent == cfg.Items()
    case Return => s.dispatcher.Waiting? && forall w :: 0 <= w < |s.workers| ==> s.workers[w].Done?
    case Exit(w) => At(s, w) && s.workers[w].Idle? && !s.dispatcher.Sending?
    case Check(w) => At(s, w) && s.workers[w].Got?
    case Start(w) => At(s, w) && s.workers[w].Checked?
    case Finish(w) => At(s, w) && s.workers[w].Probing? && s.workers[w].item < |s.results| && s.workers[w].item < cfg.Items()
    case Abort(w) => At(s, w) && s.workers[w].Aborting?
  }

  function Step(cfg: Config, s: State, a: Action): State
    requires Enabled(cfg, s, a)
  {
    match a
    case Send(w) => s.(workers := s.workers[w := Got(s.sent)], sent := s.sent + 1)
    case Abandon => s.(dispatcher := Waiting)
    case Close => s.(dispatcher := Waiting)
    case Return => s.(dispatcher := Returned)
    case Exit(w) => s.(workers := s.workers[w := Done])
    case Check(w) => s.(workers := s.workers[w := if s.aborted then Done else Checked(s.workers[w].item)])
    case Start(w) =>
      var i := s.workers[w].item;
      s.(workers := s.workers[w := Probing(i)], started := s.started + [i])
    case Finish(w) =>
      var i := s.workers[w].item;
      var next := if cfg.outcomes[i].Aborts() then Aborting(i) else Idle;
      s.(workers := s.workers[w := next], results := s.results[i := Some(cfg.outcomes[i])])
    case Abort(w) =>
      s.(workers := s.workers[w := Idle], aborted := true, mark := if s.aborted then s.mark else |s.started|)
  }

  /** The state after a run, if every action of it was enabled when taken. */
  function After(cfg: Config, run: seq<Action>): Option<State> {
    if run == [] then Some(Init(cfg))
    else
      var n := |run| - 1;
      match After(cfg, run[..n])
      case None => None
      case Some(s) => if Enabled(cfg, s, run[n]) then Some(Step(cfg, s, run[n])) else None
  }

  // ---------------------------------------------------------------- counting

  function TotalWeight(ws: seq<Worker>): nat {
    if ws == [] then 0 else TotalWeight(ws[..|ws| - 1]) + ws[|ws| - 1].Weight()
  }

  function CheckedCount(ws: seq<Worker>): nat {
    if ws == [] then 0 else CheckedCount(ws[..|ws| - 1]) + (if ws[|ws| - 1].Checked? then 1 else 0)
  }

  lemma {:induction false} WeightUpdate(ws: seq<Worker>, w: nat, x: Worker)
    requires w < |ws|
    ensures TotalWeight(ws[w := x]) == TotalWeight(ws) - ws[w].Weight() + x.Weight()
    decreases |ws|
  {
    var n := |ws| - 1;
    if w < n {
      assert ws[w := x][..n] == ws[..n][w := x];
      WeightUpdate(ws[..n], w, x);
    } else {
      assert ws[w := x][..n] == ws[..n];
    }
  }

  lemma {:induction false} CheckedUpdate(ws: seq<Worker>, w: nat, x: Worker)
    requires w < |ws|
    ensures CheckedCount(ws[w := x])
         == CheckedCount(ws) - (if ws[w].Checked? then 1 else 0) + (if x.Checked? then 1 else 0)
    decreases |ws|
  {
    var n := |ws| - 1;
    if w < n {
      assert ws[w := x][..n] == ws[..n][w := x];
      CheckedUpdate(ws[..n], w, x);
    } else {
      assert ws[w := x][..n] == ws[..n];
    }
  }

  lemma {:induction false} CheckedBound(ws: seq<Worker>)
    ensures CheckedCount(ws) <= |ws|
    ensures forall w :: 0 <= w < |ws| && !ws[w].Checked? ==> CheckedCount(ws) < |ws|
  {
    if ws != [] {
      CheckedBound(ws[..|ws| - 1]);
    }
  }

  // --------------------------------------------------------------- invariant

  /** Items in the hands of workers are distinct, were sent, and are where their worker says. */
  ghost predicate HandsInv(s: State) {
    && (forall w :: 0 <= w < |s.workers| && s.workers[w].Holds() ==> s.workers[w].item < s.sent)
    && (forall v, w :: 0 <= v < w < |s.workers| && s.workers[v].Holds() && s.workers[w].Holds() ==>
          s.workers[v].item != s.workers[w].item)
    && (forall w :: 0 <= w < |s.workers| && (s.workers[w].Got? || s.workers[w].Checked?) ==> s.workers[w].item !in s.started)
    && (forall w :: 0 <= w < |s.workers| && (s.workers[w].Probing? || s.workers[w].Aborting?) ==> s.workers[w].item in s.started)
    && Distinct(s.started) && (forall i :: i in s.started ==> i < s.sent)
  }

  ghost predicate HeldBy(s: State, i: nat) {
    exists w :: 0 <= w < |s.workers| && s.workers[w].Holds() && s.workers[w].item == i
  }

  /** A result is its item's outcome; a begun probe has a result or is under way. */
  ghost predicate ResultsInv(cfg: Config, s: State) {
    && |s.results| == cfg.Items()
    && (forall i :: 0 <= i < |s.results| && s.results[i].Some? ==> s.results[i].value == cfg.outcomes[i] && i in s.started)
    && (forall i :: i in s.started ==> i < |s.results| && (s.results[i].Some? || HeldBy(s, i)))
    && (forall w :: 0 <= w < |s.workers| && s.workers[w].Aborting? ==>
          var i := s.workers[w].item; i < |s.results| && cfg.outcomes[i].Aborts() && s.results[i].Some?)
    && (forall w :: 0 <= w < |s.workers| && s.workers[w].Probing? ==>
          s.workers[w].item < |s.results| && s.results[s.workers[w].item].None?)
  }

  ghost predicate SomeAbortingResult(s: State) {
    exists i :: 0 <= i < |s.results| && s.results[i].Some? && s.results[i].value.Aborts()
  }

  /** Until an abort nothing is skipped; workers leave early, and dispatch stops early, only after one. */
  ghost predicate AbortInv(cfg: Config, s: State) {
    && (s.aborted ==> SomeAbortingResult(s))
    && (!s.aborted ==> forall i :: 0 <= i < s.sent ==> i in s.started || HeldBy(s, i))
    && (!s.aborted && !s.dispatcher.Sending? ==> s.sent == cfg.Items())
    && (forall w :: 0 <= w < |s.workers| && s.workers[w].Done? ==> s.aborted || !s.dispatcher.Sending?)
    && (s.dispatcher.Returned? ==> forall w :: 0 <= w < |s.workers| ==> s.workers[w].Done?)
    && (s.aborted ==> |s.started| + CheckedCount(s.workers) <= s.mark + cfg.conc - 1)
  }

  ghost predicate Inv(cfg: Config, s: State) {
    && cfg.Valid() && |s.workers| == cfg.conc && |s.results| == cfg.Items() && s.sent <= cfg.Items()
    && HandsInv(s) && ResultsInv(cfg, s) && AbortInv(cfg, s)
  }

  lemma HeldElsewhere(s: State, w: nat, x: Worker, t: State)
    requires w < |s.workers| && t.workers == s.workers[w := x]
    ensures forall i :: HeldBy(s, i) && !(s.workers[w].Holds() && s.workers[w].item == i) ==> HeldBy(t, i)
    ensures forall i :: x.Holds() && x.item == i ==> HeldBy(t, i)
  {
    forall i | HeldBy(s, i) && !(s.workers[w].Holds() && s.workers[w].item == i) ensures HeldBy(t, i) {
      var v :| 0 <= v < |s.workers| && s.workers[v].Holds() && s.workers[v].item == i;
      assert t.workers[v] == s.workers[v];
    }
    if x.Holds() {
      assert t.workers[w] == x;
    }
  }

  /** A worker moves on with the item it holds, or with none. */
  lemma HandsKept(s: State, t: State, w: nat, x: Worker)
    requires HandsInv(s) && w < |s.workers| && t.workers == s.workers[w := x]
    requires t.started == s.started && t.sent == s.sent
    requires x.Holds() ==> s.workers[w].Holds() && x.item == s.workers[w].item
    requires x.Got? || x.Checked? ==> x.item !in s.started
    requires x.Probing? || x.Aborting? ==> x.item in s.started
    ensures HandsInv(t)
  {
    assert forall v :: 0 <= v < |s.workers| && v != w ==> t.workers[v] == s.workers[v];
  }

  /** A worker takes the next item. */
  lemma HandsTake(s: State, t: State, w: nat)
    requires HandsInv(s) && w < |s.workers| && t.workers == s.workers[w := Got(s.sent)]
    requires t.started == s.started && t.sent == s.sent + 1
    ensures HandsInv(t)
  {
    assert forall v :: 0 <= v < |s.workers| && v != w ==> t.workers[v] == s.workers[v];
  }

  /** A worker begins its probe. */
  lemma HandsStart(s: State, t: State, w: nat)
    requires HandsInv(s) && w < |s.workers| && s.workers[w].Checked?
    requires t.workers == s.workers[w := Probing(s.workers[w].item)]
    requires t.started == s.started + [s.workers[w].item] && t.sent == s.sent
    ensures HandsInv(t)
  {
    assert forall v :: 0 <= v < |s.workers| && v != w ==> t.workers[v] == s.workers[v];
  }

  lemma StepKeepsHands(cfg: Config, s: State, a: Action)
    requires Inv(cfg, s) && Enabled(cfg, s, a)
    ensures HandsInv(Step(cfg, s, a))
  {
    hide HeldBy, SomeAbortingResult, CheckedCount, ResultsInv, AbortInv;
    var t := Step(cfg, s, a);
    match a {
      case Send(w) => HandsTake(s, t, w);
      case Start(w) => HandsStart(s, t, w);
      case Exit(w) => HandsKept(s, t, w, Done);
      case Check(w) => HandsKept(s, t, w, t.workers[w]);
      case Finish(w) => HandsKept(s, t, w, t.workers[w]);
      case Abort(w) => HandsKept(s, t, w, Idle);
      case _ =>
    }
  }

  /** A worker moves on and no result is written; an item it lets go of was not begun, or has its result. */
  lemma ResultsKept(cfg: Config, s: State, t: State, w: nat, x: Worker)
    requires ResultsInv(cfg, s) && w < |s.workers| && t.workers == s.workers[w := x] && t.results == s.results
    requires t.started == s.started || (x.Probing? && t.started == s.started + [x.item])
    requires s.workers[w].Holds() && !(x.Holds() && x.item == s.workers[w].item) ==>
      s.workers[w].item !in s.started || (s.workers[w].item < |s.results| && s.results[s.workers[w].item].Some?)
    requires x.Probing? ==> x.item < |s.results| && s.results[x.item].None?
    requires !x.Aborting?
    ensures ResultsInv(cfg, t)
  {
    hide HeldBy;
    HeldElsewhere(s, w, x, t);
    assert forall v :: 0 <= v < |s.workers| && v != w ==> t.workers[v] == s.workers[v];
  }

  /** A probe ends and its result is written. */
  lemma ResultsFinish(cfg: Config, s: State, t: State, w: nat)
    requires HandsInv(s) && ResultsInv(cfg, s) && w < |s.workers| == |t.workers| && s.workers[w].Probing?
    requires var i, x := s.workers[w].item, t.workers[w];
      && t.workers == s.workers[w := x] && t.started == s.started
      && i < |s.results| && t.results == s.results[i := Some(cfg.outcomes[i])]
      && x == if cfg.outcomes[i].Aborts() then Aborting(i) else Idle
    ensures ResultsInv(cfg, t)
  {
    hide HeldBy;
    HeldElsewhere(s, w, t.workers[w], t);
    assert forall v :: 0 <= v < |s.workers| && v != w ==> t.workers[v] == s.workers[v];
  }

  lemma StepKeepsResults(cfg: Config, s: State, a: Action)
    requires Inv(cfg, s) && Enabled(cfg, s, a)
    ensures ResultsInv(cfg, Step(cfg, s, a))
  {
    hide HeldBy, SomeAbortingResult, CheckedCount, AbortInv;
    var t := Step(cfg, s, a);
    if a.Finish? {
      ResultsFinish(cfg, s, t, a.w);
    } else if a.Send? || a.Exit? || a.Check? || a.Start? || a.Abort? {
      ResultsKept(cfg, s, t, a.w, t.workers[a.w]);
    } else {
      SameHands(s, t);
    }
  }

  lemma SameHands(s: State, t: State)
    requires s.workers == t.workers
    ensures forall i :: HeldBy(s, i) <==> HeldBy(t, i)
  {
  }

  lemma StepKeepsAbort(cfg: Config, s: State, a: Action)
    requires Inv(cfg, s) && Enabled(cfg, s, a)
    ensures AbortInv(cfg, Step(cfg, s, a))
  {
    hide HeldBy, CheckedCount;
    var t := Step(cfg, s, a);
    if a.Send? || a.Exit? || a.Check? || a.Start? || a.Finish? || a.Abort? {
      HeldElsewhere(s, a.w, t.workers[a.w], t);
      CheckedUpdate(s.workers, a.w, t.workers[a.w]);
      CheckedBound(s.workers);
    } else {
      SameHands(s, t);
    }
    AbortSeen(cfg, s, a);
  }

  lemma AbortSeen(cfg: Config, s: State, a: Action)
    requires Inv(cfg, s) && Enabled(cfg, s, a)
    ensures Step(cfg, s, a).aborted ==> SomeAbortingResult(Step(cfg, s, a))
  {
    hide HeldBy, CheckedCount;
    var t := Step(cfg, s, a);
    if s.aborted {
      var i :| 0 <= i < |s.results| && s.results[i].Some? && s.results[i].value.Aborts();
      assert t.results[i].Some? && t.results[i].value == cfg.outcomes[i];
    } else if a.Abort? {
      assert t.results[s.workers[a.w].item].Some?;
    }
  }

  lemma StepKeepsSizes(cfg: Config, s: State, a: Action)
    requires Inv(cfg, s) && Enabled(cfg, s, a)
    ensures var t := Step(cfg, s, a);
      |t.workers| == cfg.conc && |t.results| == cfg.Items() && t.sent <= cfg.Items()
  {
    hide HandsInv, ResultsInv, AbortInv;
  }

  lemma StepKeepsInv(cfg: Config, s: State, a: Action)
    requires Inv(cfg, s) && Enabled(cfg, s, a)
    ensures Inv(cfg, Step(cfg, s, a))
  {
    hide Step, Enabled, HandsInv, ResultsInv, AbortInv;
    StepKeepsSizes(cfg, s, a);
    StepKeepsHands(cfg, s, a);
    StepKeepsResults(cfg, s, a);
    StepKeepsAbort(cfg, s, a);
  }

  lemma {:induction false} RunInvariant(cfg: Config, run: seq<Action>)
    requires cfg.Valid() && After(cfg, run).Some?
    ensures Inv(cfg, After(cfg, run).value)
  {
    hide Step, Enabled, Inv;
    if run == [] {
      InitInvariant(cfg);
    } else {
      var n := |run| - 1;
      RunInvariant(cfg, run[..n]);
      StepKeepsInv(cfg, After(cfg, run[..n]).value, run[n]);
    }
  }

  lemma InitInvariant(cfg: Config)
    requires cfg.Valid()
    ensures Inv(cfg, Init(cfg))
  {
  }

  // -------------------------------------------------------------- the claims

  /** In every interleaving each item is probed at most once, and a result is its item's outcome. */
  lemma ProbedAtMostOnce(cfg: Config, run: seq<Action>)
    requires cfg.Valid() && After(cfg, run).Some?
    ensures var s := After(cfg, run).value;
      && Distinct(s.started) && |s.results| == cfg.Items()
      && forall i :: 0 <= i < |s.results| && s.results[i].Some? ==> s.results[i].value == cfg.outcomes[i] && i in s.started
  {
    RunInvariant(cfg, run);
  }

  /** No reachable state short of the return is stuck. */
  lemma NeverStuck(cfg: Config, run: seq<Action>)
    requires cfg.Valid() && After(cfg, run).Some? && !After(cfg, run).value.dispatcher.Returned?
    ensures exists a :: After(cfg, run + [a]).Some?
  {
    RunInvariant(cfg, run);
    var s := After(cfg, run).value;
    var a := NextAction(cfg, s);
    assert (run + [a])[..|run|] == run;
    assert After(cfg, run + [a]).Some?;
  }

  lemma NextAction(cfg: Config, s: State) returns (a: Action)
    requires Inv(cfg, s) && !s.dispatcher.Returned?
    ensures Enabled(cfg, s, a)
  {
    if w :| 0 <= w < |s.workers| && s.workers[w].Holds() {
      a := match s.workers[w]
        case Got(_) => Check(w)
        case Checked(_) => Start(w)
        case Probing(_) => Finish(w)
        case _ => Abort(w);
    } else if w :| 0 <= w < |s.workers| && s.workers[w].Idle? {
      a := if !s.dispatcher.Sending? then Exit(w) else if s.sent < cfg.Items() then Send(w) else Close;
    } else {
      assert s.workers[0].Done?;
      a := if s.dispatcher.Waiting? then Return else if s.sent < cfg.Items() then Abandon else Close;
    }
  }

  function Measure(cfg: Config, s: State): nat {
    TotalWeight(s.workers)
    + 6 * (if s.sent <= cfg.Items() then cfg.Items() - s.sent else 0)
    + match s.dispatcher case Sending => 2 case Waiting => 1 case Returned => 0
  }

  lemma StepDecreases(cfg: Config, s: State, a: Action)
    requires Inv(cfg, s) && Enabled(cfg, s, a)
    ensures Measure(cfg, Step(cfg, s, a)) < Measure(cfg, s)
  {
    hide HandsInv, ResultsInv, AbortInv, TotalWeight;
    if a.Send? || a.Exit? || a.Check? || a.Start? || a.Finish? || a.Abort? {
      WeightUpdate(s.workers, a.w, Step(cfg, s, a).workers[a.w]);
    }
  }

  lemma {:induction false} IdleWeight(n: nat)
    ensures TotalWeight(seq(n, _ => Idle)) == n
  {
    if n > 0 {
      assert seq(n, _ => Idle)[..n - 1] == seq(n - 1, _ => Idle);
      IdleWeight(n - 1);
    }
  }

  /** Every run ends: no interleaving takes more than this many steps. */
  lemma {:induction false} RunsAreBounded(cfg: Config, run: seq<Action>)
    requires cfg.Valid() && After(cfg, run).Some?
    ensures |run| + Measure(cfg, After(cfg, run).value) <= cfg.conc + 6 * cfg.Items() + 2
  {
    hide Inv, Enabled, Step, Measure;
    if run == [] {
      IdleWeight(cfg.conc);
      InitMeasure(cfg);
    } else {
      var n := |run| - 1;
      RunsAreBounded(cfg, run[..n]);
      RunInvariant(cfg, run[..n]);
      StepDecreases(cfg, After(cfg, run[..n]).value, run[n]);
    }
  }

  lemma InitMeasure(cfg: Config)
    requires TotalWeight(Init(cfg).workers) == cfg.conc
    ensures Measure(cfg, Init(cfg)) == cfg.conc + 6 * cfg.Items() + 2
  {
  }

  /** When the pool returns without an aborting result, every item has its outcome. */
  lemma CompleteWithoutAbort(cfg: Config, run: seq<Action>)
    requires cfg.Valid() && After(cfg, run).Some?
    requires After(cfg, run).value.dispatcher.Returned? && !SomeAbortingResult(After(cfg, run).value)
    ensures After(cfg, run).value.results == seq(cfg.Items(), i requires 0 <= i < cfg.Items() => Some(cfg.outcomes[i]))
  {
    RunInvariant(cfg, run);
    var s := After(cfg, run).value;
    forall i | 0 <= i < cfg.Items() ensures s.results[i] == Some(cfg.outcomes[i]) {
      assert !HeldBy(s, i);
    }
  }

  /** Once the abort channel is closed the mark stays. */
  lemma {:induction false} MarkStays(cfg: Config, run: seq<Action>, k: nat)
    requires k <= |run| && After(cfg, run).Some?
    ensures After(cfg, run[..k]).Some?
    ensures After(cfg, run[..k]).value.aborted ==>
      After(cfg, run).value.aborted && After(cfg, run).value.mark == After(cfg, run[..k]).value.mark
    decreases |run|
  {
    if k < |run| {
      var n := |run| - 1;
      assert run[..n][..k] == run[..k];
      MarkStays(cfg, run[..n], k);
    } else {
      assert run[..k] == run;
    }
  }

  /** Action `k` of the run closes the abort channel. */
  ghost predicate Closes(cfg: Config, run: seq<Action>, k: nat) {
    && k < |run| && After(cfg, run).Some?
    && After(cfg, run[..k]).Some? && !After(cfg, run[..k]).value.aborted
    && After(cfg, run[..k + 1]).Some? && After(cfg, run[..k + 1]).value.aborted
  }

  /** How many probes the run begins after its first `k` actions. */
  function LateStarts(cfg: Config, run: seq<Action>, k: nat): int
    requires k <= |run| && After(cfg, run).Some? && After(cfg, run[..k]).Some?
  {
    |After(cfg, run).value.started| - |After(cfg, run[..k]).value.started|
  }

  /** At most conc-1 probes begin after the step that closes the abort channel. */
  lemma FewStartsAfterAbort(cfg: Config, run: seq<Action>, k: nat)
    requires cfg.Valid() && Closes(cfg, run, k)
    ensures LateStarts(cfg, run, k) <= cfg.conc - 1
  {
    RunInvariant(cfg, run);
    MarkStays(cfg, run, k + 1);
    assert run[..k + 1][..k] == run[..k];
  }

  /** Only an aborting outcome closes the channel. */
  lemma ClosingNeedsAnAbort(cfg: Config, run: seq<Action>, k: nat)
    requires cfg.Valid() && Closes(cfg, run, k)
    ensures exists i :: 0 <= i < cfg.Items() && cfg.outcomes[i].Aborts()
  {
    RunInvariant(cfg, run[..k + 1]);
    var s := After(cfg, run[..k + 1]).value;
    var i :| 0 <= i < |s.results| && s.results[i].Some? && s.results[i].value.Aborts();
    assert cfg.outcomes[i].Aborts();
  }

  // ------------------------------------------------- a run that reaches the bound

  ghost predicate Reaches(cfg: Config, run: seq<Action>, s: State) {
    After(cfg, run) == Some(s) && |s.workers| == cfg.conc && |s.results| == cfg.Items()
  }

  lemma Extend(cfg: Config, run: seq<Action>, s: State, a: Action) returns (longer: seq<Action>, t: State)
    requires Reaches(cfg, run, s) && Enabled(cfg, s, a)
    ensures longer == run + [a] && t == Step(cfg, s, a) && Reaches(cfg, longer, t)
  {
    longer, t := run + [a], Step(cfg, s, a);
    assert longer[..|run|] == run;
  }

  /** Nothing is under way and the first `n` items are done. */
  predicate Quiet(s: State, n: nat) {
    (forall w :: 0 <= w < |s.workers| ==> s.workers[w].Idle?) && s.dispatcher.Sending? && !s.aborted && s.sent == n
  }

  /** One worker probes the first `n` items, none of which aborts, one after the other. */
  lemma OneByOne(cfg: Config, n: nat) returns (run: seq<Action>, s: State)
    requires cfg.Valid() && n <= cfg.Items() && forall j :: 0 <= j < n ==> !cfg.outcomes[j].Aborts()
    ensures Reaches(cfg, run, s) && Quiet(s, n)
  {
    hide Reaches;
    run, s := [], Init(cfg);
    InitReaches(cfg);
    for j := 0 to n
      invariant Reaches(cfg, run, s) && Quiet(s, j) && |s.workers| == cfg.conc && |s.results| == cfg.Items()
    {
      run, s := Extend(cfg, run, s, Send(0));
      run, s := Extend(cfg, run, s, Check(0));
      run, s := Extend(cfg, run, s, Start(0));
      run, s := Extend(cfg, run, s, Finish(0));
    }
  }

  lemma InitReaches(cfg: Config)
    ensures Reaches(cfg, [], Init(cfg))
  {
  }

  /** Every worker has taken an item and found no abort. */
  predicate AllChecked(cfg: Config, s: State, first: nat) {
    && (forall w :: 0 <= w < |s.workers| ==> s.workers[w] == Checked(first + w))
    && !s.aborted && s.sent == first + cfg.conc
  }

  lemma EveryoneChecks(cfg: Config, run0: seq<Action>, s0: State, first: nat) returns (run: seq<Action>, s: State)
    requires Reaches(cfg, run0, s0) && Quiet(s0, first) && first + cfg.conc <= cfg.Items()
    ensures Reaches(cfg, run, s) && AllChecked(cfg, s, first)
  {
    assert |s0.workers| == cfg.conc;
    hide Reaches;
    run, s := run0, s0;
    for w := 0 to cfg.conc
      invariant Reaches(cfg, run, s) && |s.workers| == cfg.conc
      invariant forall v :: 0 <= v < w ==> s.workers[v] == Checked(first + v)
      invariant forall v :: w <= v < cfg.conc ==> s.workers[v].Idle?
      invariant s.dispatcher.Sending? && !s.aborted && s.sent == first + w
    {
      run, s := Extend(cfg, run, s, Send(w));
      run, s := Extend(cfg, run, s, Check(w));
    }
  }

  /** Past the abort check, everyone but `v` still begins. */
  lemma TheRestStart(cfg: Config, run0: seq<Action>, s0: State, v: nat) returns (run: seq<Action>, s: State)
    requires Reaches(cfg, run0, s0) && v < cfg.conc
    requires forall w :: 0 <= w < cfg.conc && w != v ==> s0.workers[w].Checked?
    ensures Reaches(cfg, run, s) && run0 <= run && |s.started| == |s0.started| + cfg.conc - 1
  {
    assert |s0.workers| == cfg.conc;
    hide Reaches;
    run, s := run0, s0;
    for w := 0 to cfg.conc
      invariant Reaches(cfg, run, s) && |s.workers| == cfg.conc && run0 <= run
      invariant forall u :: w <= u < cfg.conc && u != v ==> s.workers[u].Checked?
      invariant |s.started| == |s0.started| + w - if v < w then 1 else 0
    {
      if w != v {
        run, s := Extend(cfg, run, s, Start(w));
      }
    }
  }

  lemma FirstAborting(cfg: Config) returns (i: nat)
    requires exists j :: 0 <= j < cfg.Items() && cfg.outcomes[j].Aborts()
    ensures i < cfg.Items() && cfg.outcomes[i].Aborts() && forall j :: 0 <= j < i ==> !cfg.outcomes[j].Aborts()
  {
    i := 0;
    while !cfg.outcomes[i].Aborts()
      invariant i < cfg.Items() && forall j :: 0 <= j < i ==> !cfg.outcomes[j].Aborts()
      decreases cfg.Items() - i
    {
      i := i + 1;
    }
  }

  /** The bound is reached by every pool, whatever its size, that is given an aborting item. */
  lemma AbortBoundIsReached(cfg: Config) returns (run: seq<Action>, k: nat)
    requires cfg.Valid() && exists j :: 0 <= j < cfg.Items() && cfg.outcomes[j].Aborts()
    ensures Closes(cfg, run, k) && LateStarts(cfg, run, k) == cfg.conc - 1
  {
    var i := FirstAborting(cfg);
    var first := if i + cfg.conc <= cfg.Items() then i else cfg.Items() - cfg.conc;
    var v := i - first;
    var s;
    run, s := OneByOne(cfg, first);
    run, s := EveryoneChecks(cfg, run, s, first);
    run, s := Extend(cfg, run, s, Start(v));
    run, s := Extend(cfg, run, s, Finish(v));
    k := |run|;
    ghost var before, atClose := run, s;
    run, s := Extend(cfg, run, s, Abort(v));
    ghost var after := run;
    run, s := TheRestStart(cfg, run, s, v);
    assert run[..k + 1] == after && run[..k] == after[..k] == before;
  }

  /** A run can close the abort channel iff some item's probe is rate limited or unauthorized. */
  lemma ClosesIff(cfg: Config)
    requires cfg.Valid()
    ensures (exists run, k :: Closes(cfg, run, k)) <==>
      exists i :: 0 <= i < cfg.Items() && cfg.outcomes[i] in {RateLimited, Unauthorized}
  {
    if run, k :| Closes(cfg, run, k) {
      ClosingNeedsAnAbort(cfg, run, k);
    }
    if i :| 0 <= i < cfg.Items() && cfg.outcomes[i] in {RateLimited, Unauthorized} {
      assert cfg.outcomes[i].Aborts();
      var run, k := AbortBoundIsReached(cfg);
    }
  }

  /** A probe can begin after the close iff the pool has a second worker and some item aborts. */
  lemma LateStartIff(cfg: Config)
    requires cfg.Valid()
    ensures (exists run, k :: Closes(cfg, run, k) && LateStarts(cfg, run, k) > 0) <==>
      cfg.conc > 1 && exists i :: 0 <= i < cfg.Items() && cfg.outcomes[i].Aborts()
  {
    if run, k :| Closes(cfg, run, k) && LateStarts(cfg, run, k) > 0 {
      FewStartsAfterAbort(cfg, run, k);
      ClosingNeedsAnAbort(cfg, run, k);
    }
    if cfg.conc > 1 && exists i :: 0 <= i < cfg.Items() && cfg.outcomes[i].Aborts() {
      var run, k := AbortBoundIsReached(cfg);
    }
  }
}
