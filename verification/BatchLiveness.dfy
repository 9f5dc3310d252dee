/** No schedule of the batch deadlocks or runs forever. */
module BatchLiveness {
  import opened Batch
  import opened BatchSafety
  import opened BatchRuns

  /** This worker is bound to notify the waiters. */
  ghost predicate WillNotify(s: State, v: nat) {
    v < |s.workers| == |s.held| && (s.held[v] != 0 || s.workers[v].phase.Notifying?)
  }

  /** No wake-up is lost: while anybody sleeps, no stop was requested and somebody will notify. */
  ghost predicate SleepersAreAwaited(s: State) {
    (exists w :: 0 <= w < |s.workers| && s.workers[w].phase.Asleep?) ==> !s.stop && exists v :: WillNotify(s, v)
  }

  lemma SomebodyHolds(s: State)
    requires |s.workers| == |s.held| && Sum(s.held) != 0
    ensures exists v :: WillNotify(s, v)
  {
    SumOfNothing(s.held);
    var v :| 0 <= v < |s.held| && s.held[v] != 0;
    assert WillNotify(s, v);
  }

  /** The duty to notify passes on, or it was just met and nobody sleeps any more. */
  lemma DutyIsKept(c: Config, s: State, e: Event, v: nat)
    requires MemoryIsAccounted(c, s) && Enabled(c, s, e) && WillNotify(s, v)
    ensures var t := Step(c, s, e);
            WillNotify(t, v) || forall w | 0 <= w < |t.workers| :: !t.workers[w].phase.Asleep?
  {
    assert HoldsItsCharge(c, s, v);
    if IsBystander(e, v) {
      BystandersWait(c, s, e, v);
    }
  }

  lemma StopWakesAll(c: Config, s: State, e: Event)
    requires SleepersAreAwaited(s) && Enabled(c, s, e) && Step(c, s, e).stop
    ensures forall w | 0 <= w < |Step(c, s, e).workers| :: !Step(c, s, e).workers[w].phase.Asleep?
  {
    assert s.stop ==> forall w | 0 <= w < |s.workers| :: !s.workers[w].phase.Asleep?;
  }

  lemma FallingAsleepIsAwaited(c: Config, s: State, e: Event)
    requires MemoryIsAccounted(c, s) && Enabled(c, s, e) && e.Work? && Step(c, s, e).workers[e.w].phase.Asleep?
    ensures exists v :: WillNotify(s, v)
  {
    SomebodyHolds(s);
  }

  lemma NewSleeper(c: Config, s: State, e: Event, w: nat)
    requires Enabled(c, s, e) && w < |Step(c, s, e).workers| && Step(c, s, e).workers[w].phase.Asleep?
    ensures (w < |s.workers| && s.workers[w].phase.Asleep?) || (e.Work? && e.w == w)
  {
    if w < |s.workers| && IsBystander(e, w) {
      BystandersWait(c, s, e, w);
    }
  }

  lemma SleepersStayAwaited(c: Config, s: State, e: Event)
    requires MemoryIsAccounted(c, s) && SleepersAreAwaited(s) && Enabled(c, s, e)
    ensures SleepersAreAwaited(Step(c, s, e))
  {
    var t := Step(c, s, e);
    if w :| 0 <= w < |t.workers| && t.workers[w].phase.Asleep? {
      NewSleeper(c, s, e, w);
      if t.stop {
        StopWakesAll(c, s, e);
        assert false;
      }
      hide Step, Enabled, WillNotify;
      if e.Work? && e.w == w {
        FallingAsleepIsAwaited(c, s, e);
      }
      var v :| WillNotify(s, v);
      DutyIsKept(c, s, e, v);
    }
  }

  lemma {:induction false} SleepersAreAlwaysAwaited(c: Config, run: seq<Event>)
    requires c.Valid() && After(c, run).Some?
    ensures SleepersAreAwaited(After(c, run).value)
  {
    if run != [] {
      var s := After(c, run[..|run| - 1]).value;
      SleepersAreAlwaysAwaited(c, run[..|run| - 1]);
      InvariantHoldsAlways(c, run[..|run| - 1]);
      hide Step, Enabled, SleepersAreAwaited;
      SleepersStayAwaited(c, s, run[|run| - 1]);
    }
  }

  /** What the environment would answer to a worker, whichever call it makes. */
  ghost predicate IsAnswer(answer: Worker -> Reply) {
    forall x: Worker :: Fits(x.phase, answer(x))
  }

  ghost predicate IsAnswered(s: State, answer: Worker -> Reply, e: Event) {
    e.Work? && e.w < |s.workers| && e.reply == answer(s.workers[e.w])
  }

  /** Whoever holds the gate can act, whatever it is answered. */
  lemma WorkerOrHolderCanAct(c: Config, s: State, w: nat, answer: Worker -> Reply) returns (e: Event)
    requires GateIsExclusive(c, s) && w < |s.workers| && IsAnswer(answer)
    requires !s.workers[w].phase.Asleep? && !s.workers[w].phase.Finished?
    ensures IsAnswered(s, answer, e) && Enabled(c, s, e)
  {
    var v := if s.workers[w].phase.AtGate? && s.gate.Some? then s.gate.value else w;
    e := Work(v, answer(s.workers[v]));
  }

  /** Deadlock freedom: until every worker has finished, some worker can act on whatever answer it
      gets, without any help from a cancellation, a failed allocation or a spurious wake-up. */
  lemma NeverStuck(c: Config, run: seq<Event>, w: nat, answer: Worker -> Reply) returns (e: Event)
    requires c.Valid() && After(c, run).Some? && IsAnswer(answer)
    requires w < |After(c, run).value.workers| && !After(c, run).value.workers[w].phase.Finished?
    ensures IsAnswered(After(c, run).value, answer, e) && After(c, run + [e]).Some?
  {
    var s := After(c, run).value;
    InvariantHoldsAlways(c, run);
    SleepersAreAlwaysAwaited(c, run);
    if s.workers[w].phase.Asleep? {
      var v :| WillNotify(s, v);
      assert HoldsItsCharge(c, s, v);
      e := WorkerOrHolderCanAct(c, s, v, answer);
    } else {
      e := WorkerOrHolderCanAct(c, s, w, answer);
    }
    assert (run + [e])[..|run|] == run;
  }

  /** How many steps a worker can still take on the file in hand, with room for the wake-ups it causes. */
  function Weight(phase: Phase, workers: nat): nat {
    match phase
    case Finished => 0
    case Claiming => 1
    case Notifying => workers + 2
    case Releasing => workers + 3
    case Tallying => workers + 4
    case Leaving => workers + 5
    case RequestingStop => 2 * workers + 6
    case Recording(_, _) => 2 * workers + 7
    case Committing => 2 * workers + 8
    case Admitted => 2 * workers + 9
    case InGate => 2 * workers + 10
    case AtGate => 2 * workers + 11
    case Transforming => 2 * workers + 12
    case Capturing => 2 * workers + 13
    case Asleep => 2 * workers + 14
    case Waiting => 2 * workers + 15
    case Checking => 2 * workers + 16
    case Starting => 2 * workers + 17
  }

  function Weights(workers: seq<Worker>, n: nat): nat {
    if workers == [] then 0 else Weight(workers[0].phase, n) + Weights(workers[1..], n)
  }

  lemma {:induction false} WeightsUpdate(workers: seq<Worker>, n: nat, w: nat, x: Worker)
    requires w < |workers|
    ensures Weights(workers[w := x], n) == Weights(workers, n) - Weight(workers[w].phase, n) + Weight(x.phase, n)
  {
    if w > 0 {
      assert workers[w := x][1..] == workers[1..][w - 1 := x];
      WeightsUpdate(workers[1..], n, w - 1, x);
    } else {
      assert workers[w := x][1..] == workers[1..];
    }
  }

  lemma {:induction false} WakingCosts(workers: seq<Worker>, n: nat)
    ensures Weights(WokenAll(workers), n) <= Weights(workers, n) + |workers|
  {
    if workers != [] {
      assert WokenAll(workers)[1..] == WokenAll(workers[1..]);
      WakingCosts(workers[1..], n);
    }
  }

  lemma {:induction false} FreshWeights(workers: seq<Worker>, n: nat)
    requires forall w | 0 <= w < |workers| :: workers[w].phase == Claiming
    ensures Weights(workers, n) == |workers|
  {
    if workers != [] {
      FreshWeights(workers[1..], n);
    }
  }

  function Measure(c: Config, s: State): int {
    (|c.files| - s.nextIndex) * (2 * c.workers + 17) + Weights(s.workers, c.workers)
    + (if s.stop then 0 else c.workers + 1)
  }

  lemma PhaseDescends(c: Config, s: State, w: nat, reply: Reply)
    requires Enabled(c, s, Work(w, reply))
    ensures var x, next, n := s.workers[w].phase, Next(c, s, w, reply), c.workers;
            Weight(next, n) + (if x.RequestingStop? || x.Notifying? then n else 0)
            < Weight(x, n) + (if next.Starting? then 2 * n + 17 else 0)
  {
  }

  lemma ActDescends(c: Config, s: State, w: nat, reply: Reply)
    requires Enabled(c, s, Work(w, reply))
    ensures Measure(c, Act(c, s, w, reply)) < Measure(c, s)
  {
    hide Weight, Weights, Next, RowAfter, HistoryAfter, Counted, WokenAll, Fits;
    var t := Act(c, s, w, reply);
    var from := if s.workers[w].phase.RequestingStop? || s.workers[w].phase.Notifying?
                then WokenAll(s.workers) else s.workers;
    PhaseDescends(c, s, w, reply);
    WakingCosts(s.workers, c.workers);
    WakingKeepsOthers(s.workers, w);
    WeightsUpdate(from, c.workers, w, t.workers[w]);
    assert t.workers == from[w := t.workers[w]];
    ClaimCosts(|c.files|, s.nextIndex, 2 * c.workers + 17);
  }

  lemma WakingKeepsOthers(workers: seq<Worker>, w: nat)
    requires w < |workers|
    ensures |WokenAll(workers)| == |workers|
    ensures !workers[w].phase.Asleep? ==> WokenAll(workers)[w] == workers[w]
  {
  }

  lemma ClaimCosts(files: int, next: int, k: int)
    ensures (files - (next + 1)) * k == (files - next) * k - k
  {
  }

  /** Every step but a spurious wake-up descends. */
  lemma StepDescends(c: Config, s: State, e: Event)
    requires Enabled(c, s, e)
    ensures Measure(c, Step(c, s, e)) <= Measure(c, s) + (if e.Wake? then 1 else -1)
  {
    match e
    case Work(w, reply) => ActDescends(c, s, w, reply);
    case CancelBatch => WakingCosts(s.workers, c.workers);
    case Wake(w) => WeightsUpdate(s.workers, c.workers, w, Step(c, s, e).workers[w]);
    case OutOfMemory(w) => WeightsUpdate(s.workers, c.workers, w, Step(c, s, e).workers[w]);
  }

  function Wakes(run: seq<Event>): nat {
    if run == [] then 0 else Wakes(run[..|run| - 1]) + (if run[|run| - 1].Wake? then 1 else 0)
  }

  lemma {:induction false} RunDescends(c: Config, run: seq<Event>)
    requires c.Valid() && After(c, run).Some?
    ensures Measure(c, After(c, run).value) <= Measure(c, Initial(c)) - |run| + 2 * Wakes(run)
  {
    hide Measure, Step, Enabled;
    if run != [] {
      RunDescends(c, run[..|run| - 1]);
      StepDescends(c, After(c, run[..|run| - 1]).value, run[|run| - 1]);
    }
  }

  lemma MeasureIsNatural(c: Config, s: State)
    requires s.nextIndex <= |c.files|
    ensures Measure(c, s) >= 0
  {
    assert (|c.files| - s.nextIndex) * (2 * c.workers + 17) >= 0;
  }

  /** Termination: no run, under any schedule, is longer than a bound set by the batch alone, not
      counting spurious wake-ups and the sleeps that follow them. */
  lemma RunsAreBounded(c: Config, run: seq<Event>)
    requires c.Valid() && After(c, run).Some?
    ensures |run| <= |c.files| * (2 * c.workers + 17) + 2 * c.workers + 1 + 2 * Wakes(run)
  {
    hide Invariant, Weights, Weight, Initial;
    RunDescends(c, run);
    NextIndexIsBounded(c, run);
    MeasureIsNatural(c, After(c, run).value);
    InitialMeasure(c);
  }

  lemma NextIndexIsBounded(c: Config, run: seq<Event>)
    requires c.Valid() && After(c, run).Some?
    ensures After(c, run).value.nextIndex <= |c.files|
  {
    InvariantHoldsAlways(c, run);
  }

  lemma InitialMeasure(c: Config)
    ensures Measure(c, Initial(c)) == |c.files| * (2 * c.workers + 17) + 2 * c.workers + 1
  {
    FreshWeights(Initial(c).workers, c.workers);
  }

  /** Every event of `more` after `run` is a worker's action on the given answer. */
  ghost predicate IsAnsweredRun(c: Config, answer: Worker -> Reply, run: seq<Event>, more: seq<Event>)
    decreases |more|
  {
    more == [] ||
    (&& After(c, run).Some? && IsAnswered(After(c, run).value, answer, more[0])
     && IsAnsweredRun(c, answer, run + [more[0]], more[1..]))
  }

  /** From every reachable state, workers acting alone bring the batch to its end, whatever the
      environment answers them. */
  lemma {:induction false} CanAlwaysFinish(c: Config, run: seq<Event>, answer: Worker -> Reply)
    returns (more: seq<Event>)
    requires c.Valid() && After(c, run).Some? && IsAnswer(answer)
    ensures After(c, run + more).Some? && AllFinished(After(c, run + more).value)
    ensures IsAnsweredRun(c, answer, run, more)
    decreases Measure(c, After(c, run).value)
  {
    hide Measure, Step, Enabled, IsAnswer, IsAnswered;
    var s := After(c, run).value;
    if w :| 0 <= w < |s.workers| && !s.workers[w].phase.Finished? {
      var e := NeverStuck(c, run, w, answer);
      assert (run + [e])[..|run|] == run;
      AnsweredIsNoWake(s, answer, e);
      StepDescends(c, s, e);
      NextIndexIsBounded(c, run + [e]);
      MeasureIsNatural(c, After(c, run + [e]).value);
      var rest := CanAlwaysFinish(c, run + [e], answer);
      more := [e] + rest;
      assert run + more == run + [e] + rest && more[1..] == rest;
    } else {
      more := [];
      assert run + more == run;
    }
  }

  lemma AnsweredIsNoWake(s: State, answer: Worker -> Reply, e: Event)
    requires IsAnswered(s, answer, e)
    ensures e.Work?
  {
  }
}
