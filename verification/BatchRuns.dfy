/** Safety over whole runs of the batch scheduler: every state that any run reaches, under any
    schedule, any budget samples and any answers of the environment. */
module BatchRuns {
  import opened Options
  import opened Batch
  import opened BatchSafety

  ghost predicate Invariant(c: Config, s: State) {
    && ClaimsAreUnique(c, s)
    && MemoryIsAccounted(c, s)
    && GateIsExclusive(c, s)
    && CapturesAreReviewed(c, s)
    && ConflictClosesGate(c, s)
    && CountersAgree(c, s)
    && UncertaintyIsReported(c, s)
  }

  lemma InvariantHoldsInitially(c: Config)
    requires c.Valid()
    ensures Invariant(c, Initial(c))
  {
    var s := Initial(c);
    SumOfNothing(s.held);
    FreshProgress(s.rows, s.history.tallied);
  }

  lemma InvariantIsKept(c: Config, s: State, e: Event)
    requires c.Valid() && Invariant(c, s) && Enabled(c, s, e)
    ensures Invariant(c, Step(c, s, e))
  {
    hide Step, Enabled, MemoryIsAccounted, GateIsExclusive, CapturesAreReviewed, ConflictClosesGate, CountersAgree,
      UncertaintyIsReported, OwnsItsFile, IsOwned;
    ClaimsStayUnique(c, s, e);
    MemoryStaysAccounted(c, s, e);
    GateStaysExclusive(c, s, e);
    CapturesStayReviewed(c, s, e);
    GateStaysClosed(c, s, e);
    CountersStayInAgreement(c, s, e);
    UncertaintyStaysReported(c, s, e);
  }

  lemma {:induction false} InvariantHoldsAlways(c: Config, run: seq<Event>)
    requires c.Valid() && After(c, run).Some?
    ensures Invariant(c, After(c, run).value)
  {
    hide Invariant, Step, Enabled;
    if run == [] {
      InvariantHoldsInitially(c);
    } else {
      InvariantHoldsAlways(c, run[..|run| - 1]);
      InvariantIsKept(c, After(c, run[..|run| - 1]).value, run[|run| - 1]);
    }
  }

  lemma {:induction false} PrefixIsRun(c: Config, run: seq<Event>, n: nat)
    requires n <= |run| && After(c, run).Some?
    ensures After(c, run[..n]).Some?
  {
    if n < |run| {
      PrefixIsRun(c, run[..|run| - 1], n);
      assert run[..|run| - 1][..n] == run[..n];
    } else {
      assert run[..n] == run;
    }
  }

  lemma StepOfRun(c: Config, run: seq<Event>, n: nat)
    requires n < |run| && After(c, run).Some?
    ensures After(c, run[..n]).Some? && Enabled(c, After(c, run[..n]).value, run[n])
    ensures After(c, run[..n + 1]) == Some(Step(c, After(c, run[..n]).value, run[n]))
  {
    PrefixIsRun(c, run, n + 1);
    assert run[..n + 1][..n] == run[..n];
  }

  /** Memory: in every reachable state the counter is the exact sum of the live reservations, and an
      admission leaves either a total within the budget just sampled or a single reservation. */
  lemma MemoryIsNeverOverbooked(c: Config, run: seq<Event>, n: nat)
    requires c.Valid() && n < |run| && After(c, run).Some?
    ensures After(c, run[..n]).Some? && After(c, run[..n + 1]).Some?
    ensures var s, t := After(c, run[..n]).value, After(c, run[..n + 1]).value;
            && s.reserved == Sum(s.held) < U64_LIMIT
            && (run[n].Work? && run[n].w < |t.workers| && t.workers[run[n].w].phase.Capturing?
                ==> && t.reserved == s.reserved + c.files[t.workers[run[n].w].file].charge
                    && run[n].reply.Budget?
                    && (t.reserved <= EffectiveBudget(c, run[n].reply.bytes)
                        || forall v | 0 <= v < |s.held| :: s.held[v] == 0))
            && (t.reserved < s.reserved ==> run[n].Work? && s.reserved - t.reserved == s.held[run[n].w])
  {
    StepOfRun(c, run, n);
    PrefixIsRun(c, run, n + 1);
    var s := After(c, run[..n]).value;
    InvariantHoldsAlways(c, run[..n]);
    InvariantHoldsAlways(c, run[..n + 1]);
    SumOfNothing(s.held);
    AdmissionIsExact(c, s, run[n]);
  }

  lemma ActMovesWorker(c: Config, s: State, w: nat, reply: Reply)
    requires Enabled(c, s, Work(w, reply))
    ensures |Act(c, s, w, reply).workers| == |s.workers|
    ensures Act(c, s, w, reply).workers[w].phase == Next(c, s, w, reply)
    ensures !Next(c, s, w, reply).Starting? ==> Act(c, s, w, reply).workers[w].file == s.workers[w].file
  {
  }

  lemma AdmissionIsExact(c: Config, s: State, e: Event)
    requires c.Valid() && MemoryIsAccounted(c, s) && Enabled(c, s, e)
    ensures var t := Step(c, s, e);
            && (e.Work? && t.workers[e.w].phase.Capturing?
                ==> && t.reserved == s.reserved + c.files[t.workers[e.w].file].charge
                    && e.reply.Budget?
                    && (t.reserved <= EffectiveBudget(c, e.reply.bytes) || s.reserved == 0))
            && (t.reserved < s.reserved ==> e.Work? && s.reserved - t.reserved == s.held[e.w])
  {
    hide Sum, RowAfter, HistoryAfter, Counted, Moved, WrappingSum, WrappingDifference;
    if e.Work? {
      assert HoldsItsCharge(c, s, e.w);
      SumUpdate(s.held, e.w, 0);
      NothingWraps(s.reserved, c.files[s.workers[e.w].file].charge);
      NothingWraps(s.reserved, s.held[e.w]);
      ActMovesWorker(c, s, e.w, e.reply);
    }
  }

  /** Commit gate: at most one commit call is in progress, and its file was recaptured unchanged. */
  lemma CommitsAreSerialAndReviewed(c: Config, run: seq<Event>, v: nat, w: nat)
    requires c.Valid() && After(c, run).Some?
    requires var s := After(c, run).value;
             && v < |s.workers| && w < |s.workers|
             && s.workers[v].phase.Committing? && s.workers[w].phase.Committing?
    ensures v == w
    ensures var s := After(c, run).value; var f := s.workers[w].file;
            f < |c.files| == |s.history.captured| && s.history.captured[f] == Some(c.files[f].revision)
  {
    var s := After(c, run).value;
    InvariantHoldsAlways(c, run);
    assert IsOutsideOrHolds(s, v) && IsOutsideOrHolds(s, w) && CaptureIsReviewed(c, s, w);
  }

  lemma ClosedStays(c: Config, s: State, e: Event)
    requires Enabled(c, s, e)
    ensures s.history.closed ==> Step(c, s, e).history.closed
    ensures e.Work? && e.reply == CommitFailed(RecoveryConflict) ==> Step(c, s, e).history.closed
  {
  }

  lemma {:induction false} ConflictClosesHistory(c: Config, run: seq<Event>, i: nat)
    requires i < |run| && After(c, run).Some?
    requires run[i].Work? && run[i].reply == CommitFailed(RecoveryConflict)
    ensures After(c, run).value.history.closed
  {
    var n := |run| - 1;
    assert run[..n + 1] == run;
    StepOfRun(c, run, n);
    ClosedStays(c, After(c, run[..n]).value, run[n]);
    if i < n {
      ConflictClosesHistory(c, run[..n], i);
    }
  }

  /** Integrity: once a commit call has returned a conflict, no commit call is in progress at any later
      point of the run, so none ever starts. */
  lemma NoCommitAfterConflict(c: Config, run: seq<Event>, i: nat, j: nat, w: nat)
    requires c.Valid() && i < j <= |run| && After(c, run).Some?
    requires run[i].Work? && run[i].reply == CommitFailed(RecoveryConflict)
    requires w < c.workers
    ensures After(c, run[..j]).Some? && w < |After(c, run[..j]).value.workers|
    ensures !After(c, run[..j]).value.workers[w].phase.Committing?
  {
    PrefixIsRun(c, run, j);
    InvariantHoldsAlways(c, run[..j]);
    ConflictClosesHistory(c, run[..j], i);
    assert IsBarred(After(c, run[..j]).value, w);
  }

  ghost predicate AllFinished(s: State) {
    forall w | 0 <= w < |s.workers| :: s.workers[w].phase.Finished?
  }

  lemma {:induction false} NobodyHolds(c: Config, s: State)
    requires MemoryIsAccounted(c, s) && AllFinished(s)
    ensures s.reserved == 0
  {
    forall w | 0 <= w < |s.held|
      ensures s.held[w] == 0
    {
      assert HoldsItsCharge(c, s, w);
    }
    SumOfNothing(s.held);
  }

  lemma EveryFileIsTallied(c: Config, s: State)
    requires c.Valid() && ClaimsAreUnique(c, s) && AllFinished(s)
    ensures Tallied(s.history.tallied) == |c.files| == s.nextIndex
    ensures forall i | 0 <= i < |c.files| :: s.history.owners[i].Some? && s.history.tallied[i]
  {
    assert OwnsItsFile(s, 0);
    forall i | 0 <= i < |c.files|
      ensures s.history.owners[i].Some? && s.history.tallied[i]
    {
      assert IsOwned(s, i);
    }
    EverythingTallied(s.history.tallied);
  }

  /** Exactly once: when every worker has finished, every file was claimed and tallied, the counters
      partition the rows, no memory and no gate is held, and uncertainty is reported by a row. */
  lemma BatchIsAccountedFor(c: Config, run: seq<Event>)
    requires c.Valid() && After(c, run).Some? && AllFinished(After(c, run).value)
    ensures var s := After(c, run).value;
            && s.progress.completed == |c.files| == |s.rows| == |s.history.owners| == |s.history.tallied|
            && (forall i | 0 <= i < |c.files| :: s.history.owners[i].Some? && s.history.tallied[i])
            && s.progress.completed
               == s.progress.failed + s.progress.skipped + s.progress.cancelled
                  + Total(s.rows, s.history.tallied, SavedFile)
            && s.reserved == 0 && s.gate.None?
            && (s.uncertain <==> HasConflict(s.rows))
  {
    hide After, OwnsItsFile, HoldsItsCharge, IsOutsideOrHolds, CaptureIsReviewed, ConflictClosesGate, RowAwaits,
      Sum, Total, Tallied, HasConflict, IsOwned;
    var s := After(c, run).value;
    InvariantHoldsAlways(c, run);
    NobodyHolds(c, s);
    EveryFileIsTallied(c, s);
    KindsPartition(s.rows, s.history.tallied);
  }

  /** A claim gives a file to one worker for good: it was free before, and its owner never changes. */
  lemma {:induction false} ClaimsAreFinal(c: Config, run: seq<Event>, n: nat, i: nat)
    requires c.Valid() && n <= |run| && After(c, run).Some? && i < |c.files|
    ensures After(c, run[..n]).Some?
    ensures i < |After(c, run[..n]).value.history.owners| && i < |After(c, run).value.history.owners|
    ensures After(c, run[..n]).value.history.owners[i].Some?
            ==> After(c, run).value.history.owners[i] == After(c, run[..n]).value.history.owners[i]
  {
    PrefixIsRun(c, run, n);
    InvariantHoldsAlways(c, run);
    InvariantHoldsAlways(c, run[..n]);
    if n < |run| {
      var m := |run| - 1;
      assert run[..m + 1] == run && run[..m][..n] == run[..n];
      StepOfRun(c, run, m);
      ClaimsAreFinal(c, run[..m], n, i);
      InvariantHoldsAlways(c, run[..m]);
      OwnerIsKept(c, After(c, run[..m]).value, run[m], i);
    } else {
      assert run[..n] == run;
    }
  }

  lemma OwnerIsKept(c: Config, s: State, e: Event, i: nat)
    requires ClaimsAreUnique(c, s) && Enabled(c, s, e) && i < |c.files|
    ensures s.history.owners[i].Some? ==> Step(c, s, e).history.owners[i] == s.history.owners[i]
  {
    assert i < s.nextIndex || s.history.owners[i].None?;
  }
}
