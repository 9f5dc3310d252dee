/** What every step of the batch scheduler keeps, and so what holds in every reachable state. */
module BatchSafety {
  import opened Options
  import opened Batch

  function Sum(held: seq<nat>): nat {
    if held == [] then 0 else held[0] + Sum(held[1..])
  }

  lemma {:induction false} SumUpdate(held: seq<nat>, w: nat, v: nat)
    requires w < |held|
    ensures Sum(held[w := v]) == Sum(held) - held[w] + v
    ensures held[w] <= Sum(held)
  {
    if w > 0 {
      assert held[w := v][1..] == held[1..][w - 1 := v];
      SumUpdate(held[1..], w - 1, v);
    } else {
      assert held[w := v][1..] == held[1..];
    }
  }

  lemma {:induction false} SumOfNothing(held: seq<nat>)
    ensures Sum(held) == 0 <==> forall w | 0 <= w < |held| :: held[w] == 0
  {
    if held != [] {
      SumOfNothing(held[1..]);
      assert (forall w | 0 <= w < |held| :: held[w] == 0) ==>
               forall w | 0 <= w < |held[1..]| :: held[1..][w] == held[w + 1] == 0;
      assert forall w | 1 <= w < |held| :: held[w] == held[1..][w - 1];
    }
  }

  /** How many tallied rows are of one kind. */
  function Total(rows: seq<Row>, tallied: seq<bool>, k: Kind): nat
    requires |rows| == |tallied|
  {
    if rows == [] then 0
    else (if tallied[0] && KindOf(rows[0].outcome) == k then 1 else 0) + Total(rows[1..], tallied[1..], k)
  }

  function Tallied(tallied: seq<bool>): nat {
    if tallied == [] then 0 else (if tallied[0] then 1 else 0) + Tallied(tallied[1..])
  }

  /** Every tallied row is of exactly one kind. */
  lemma {:induction false} KindsPartition(rows: seq<Row>, tallied: seq<bool>)
    requires |rows| == |tallied|
    ensures Tallied(tallied) == Total(rows, tallied, FailedFile) + Total(rows, tallied, SkippedFile)
                                + Total(rows, tallied, CancelledFile) + Total(rows, tallied, SavedFile)
  {
    if rows != [] {
      KindsPartition(rows[1..], tallied[1..]);
    }
  }

  lemma {:induction false} TotalUpdate(rows: seq<Row>, tallied: seq<bool>, i: nat, row: Row, now: bool, k: Kind)
    requires |rows| == |tallied| && i < |rows| && !tallied[i]
    ensures Total(rows[i := row], tallied[i := now], k)
         == Total(rows, tallied, k) + (if now && KindOf(row.outcome) == k then 1 else 0)
    ensures Tallied(tallied[i := now]) == Tallied(tallied) + (if now then 1 else 0)
  {
    if i > 0 {
      assert rows[i := row][1..] == rows[1..][i - 1 := row];
      assert tallied[i := now][1..] == tallied[1..][i - 1 := now];
      TotalUpdate(rows[1..], tallied[1..], i - 1, row, now, k);
    } else {
      assert rows[i := row][1..] == rows[1..];
      assert tallied[i := now][1..] == tallied[1..];
    }
  }

  lemma {:induction false} NothingTallied(rows: seq<Row>, tallied: seq<bool>, k: Kind)
    requires |rows| == |tallied| && forall i | 0 <= i < |tallied| :: !tallied[i]
    ensures Total(rows, tallied, k) == 0 && Tallied(tallied) == 0
  {
    if rows != [] {
      NothingTallied(rows[1..], tallied[1..], k);
    }
  }

  lemma {:induction false} EverythingTallied(tallied: seq<bool>)
    requires forall i | 0 <= i < |tallied| :: tallied[i]
    ensures Tallied(tallied) == |tallied|
  {
    if tallied != [] {
      EverythingTallied(tallied[1..]);
    }
  }

  ghost predicate IsBystander(e: Event, v: nat) {
    e.CancelBatch? || v != e.w
  }

  /** A step moves one worker; the others at most wake up. */
  lemma BystandersWait(c: Config, s: State, e: Event, v: nat)
    requires Enabled(c, s, e) && v < |s.workers| && IsBystander(e, v)
    ensures |Step(c, s, e).workers| == |s.workers|
    ensures Step(c, s, e).workers[v] == s.workers[v] || Step(c, s, e).workers[v] == Woken(s.workers[v])
  {
  }

  lemma StaysShaped(c: Config, s: State, e: Event)
    requires Enabled(c, s, e) && s.nextIndex <= |c.files|
    ensures |Step(c, s, e).workers| == |s.workers|
    ensures Shaped(c, Step(c, s, e)) && Step(c, s, e).nextIndex <= |c.files|
  {
  }

  /** Each claimed file has one owner, which works on it until it is tallied. */
  ghost predicate ClaimsAreUnique(c: Config, s: State) {
    && Shaped(c, s)
    && s.nextIndex <= |c.files|
    && (forall i | s.nextIndex <= i < |c.files| :: s.history.owners[i].None? && !s.history.tallied[i])
    && (forall w | 0 <= w < |s.workers| :: OwnsItsFile(s, w))
    && (forall i | 0 <= i < s.nextIndex :: IsOwned(s, i))
  }

  ghost predicate OwnsItsFile(s: State, w: nat)
    requires w < |s.workers|
    requires s.workers[w].file < |s.history.owners| == |s.history.tallied|
  {
    var x := s.workers[w];
    && (x.phase.HasFile() ==>
          && s.history.owners[x.file] == Some(w)
          && s.history.tallied[x.file] == x.phase.IsTallied())
    && (x.phase.Finished? ==> s.nextIndex == |s.history.owners|)
  }

  ghost predicate IsOwned(s: State, i: nat)
    requires i < |s.history.owners| == |s.history.tallied|
  {
    var owner := s.history.owners[i];
    && owner.Some?
    && (!s.history.tallied[i] ==>
          owner.value < |s.workers| && s.workers[owner.value].phase.HasFile() && s.workers[owner.value].file == i)
  }

  /** A file in hand stays in hand until it is tallied and released. */
  lemma FileStaysInHand(c: Config, s: State, w: nat, reply: Reply)
    requires Enabled(c, s, Work(w, reply))
    ensures var x, next := s.workers[w].phase, Next(c, s, w, reply);
            && (next.Starting? <==> x.Claiming? && s.nextIndex < |c.files|)
            && (next.Finished? <==> x.Claiming? && s.nextIndex >= |c.files|)
            && (next.Releasing? <==> x.Tallying?)
            && (x.HasFile() && !x.IsTallied() ==> next.HasFile() && !next.Notifying?)
            && (x.IsTallied() ==> next.Claiming? || next.Notifying?)
            && (next.Claiming? || next.Notifying? ==> x.IsTallied())
  {
  }

  lemma OwnershipOutlives(c: Config, s: State, e: Event, v: nat)
    requires ClaimsAreUnique(c, s) && Enabled(c, s, e) && v < |s.workers|
    ensures Shaped(c, Step(c, s, e)) && OwnsItsFile(Step(c, s, e), v)
  {
    hide Next, RowAfter, Counted;
    StaysShaped(c, s, e);
    assert OwnsItsFile(s, v);
    if e.Work? {
      FileStaysInHand(c, s, e.w, e.reply);
    }
    if IsBystander(e, v) {
      BystandersWait(c, s, e, v);
      assert !e.CancelBatch? ==> OwnsItsFile(s, e.w);
    }
  }

  lemma OwnerOutlives(c: Config, s: State, e: Event, i: nat)
    requires ClaimsAreUnique(c, s) && Enabled(c, s, e) && i < Step(c, s, e).nextIndex
    ensures Shaped(c, Step(c, s, e)) && IsOwned(Step(c, s, e), i)
  {
    hide Next, RowAfter, Counted;
    StaysShaped(c, s, e);
    assert i < s.nextIndex ==> IsOwned(s, i);
    if !e.CancelBatch? {
      assert OwnsItsFile(s, e.w);
      if e.Work? {
        FileStaysInHand(c, s, e.w, e.reply);
      }
      if i < s.nextIndex && !s.history.tallied[i] && IsBystander(e, s.history.owners[i].value) {
        BystandersWait(c, s, e, s.history.owners[i].value);
      }
    }
  }

  lemma UnclaimedStayFree(c: Config, s: State, e: Event)
    requires ClaimsAreUnique(c, s) && Enabled(c, s, e)
    ensures Shaped(c, Step(c, s, e))
    ensures var t := Step(c, s, e);
            forall i | t.nextIndex <= i < |c.files| :: t.history.owners[i].None? && !t.history.tallied[i]
  {
    StaysShaped(c, s, e);
    assert !e.CancelBatch? ==> OwnsItsFile(s, e.w);
    assert !e.CancelBatch? && s.workers[e.w].phase.HasFile() ==> s.workers[e.w].file < s.nextIndex;
  }

  lemma ClaimsStayUnique(c: Config, s: State, e: Event)
    requires ClaimsAreUnique(c, s) && Enabled(c, s, e)
    ensures ClaimsAreUnique(c, Step(c, s, e))
  {
    var t := Step(c, s, e);
    StaysShaped(c, s, e);
    UnclaimedStayFree(c, s, e);
    hide Step, OwnsItsFile, IsOwned;
    forall v | 0 <= v < |t.workers|
      ensures OwnsItsFile(t, v)
    {
      OwnershipOutlives(c, s, e, v);
    }
    forall i | 0 <= i < t.nextIndex
      ensures IsOwned(t, i)
    {
      OwnerOutlives(c, s, e, i);
    }
  }

  /** The reserved total is the sum of the live reservations and never wraps. */
  ghost predicate MemoryIsAccounted(c: Config, s: State) {
    && Shaped(c, s)
    && s.reserved == Sum(s.held) < U64_LIMIT
    && forall w | 0 <= w < |s.workers| :: HoldsItsCharge(c, s, w)
  }

  ghost predicate HoldsItsCharge(c: Config, s: State, w: nat)
    requires w < |s.workers| == |s.held| && s.workers[w].file < |c.files|
  {
    var p := s.workers[w].phase;
    && (s.held[w] != 0 ==> p.MayHoldMemory() && s.held[w] == c.files[s.workers[w].file].charge)
    && (p.MustHoldMemory() ==> s.held[w] != 0)
  }

  lemma NextHoldsMemory(c: Config, s: State, w: nat, reply: Reply)
    requires Enabled(c, s, Work(w, reply))
    ensures var x, next := s.workers[w].phase, Next(c, s, w, reply);
            && (next.Capturing? ==> x.Waiting?)
            && (next.Starting? ==> x.Claiming?)
            && (next.MustHoldMemory() && !next.Capturing? ==> x.MustHoldMemory())
            && (x.MayHoldMemory() ==> next.MayHoldMemory() || next.Notifying? || s.held[w] == 0)
            && (next.Notifying? ==> x.Releasing?)
  {
  }

  lemma ChargeStaysHeld(c: Config, s: State, e: Event, v: nat)
    requires c.Valid() && MemoryIsAccounted(c, s) && Enabled(c, s, e) && v < |s.workers|
    requires Shaped(c, Step(c, s, e))
    ensures HoldsItsCharge(c, Step(c, s, e), v)
  {
    hide Sum, Next, RowAfter, HistoryAfter, Counted;
    assert HoldsItsCharge(c, s, v);
    if e.Work? {
      NextHoldsMemory(c, s, e.w, e.reply);
    }
    if IsBystander(e, v) {
      BystandersWait(c, s, e, v);
    }
  }

  lemma ReservedStaysSum(c: Config, s: State, e: Event)
    requires c.Valid() && MemoryIsAccounted(c, s) && Enabled(c, s, e)
    ensures Step(c, s, e).reserved == Sum(Step(c, s, e).held) < U64_LIMIT
  {
    hide RowAfter, HistoryAfter, Counted, Moved, WrappingSum, WrappingDifference;
    if e.Work? {
      assert HoldsItsCharge(c, s, e.w);
      SumUpdate(s.held, e.w, c.files[s.workers[e.w].file].charge);
      SumUpdate(s.held, e.w, 0);
      NothingWraps(s.reserved, c.files[s.workers[e.w].file].charge);
      NothingWraps(s.reserved, s.held[e.w]);
    }
  }

  lemma NothingWraps(reserved: nat, amount: nat)
    requires reserved < U64_LIMIT
    ensures reserved + amount < U64_LIMIT ==> WrappingSum(reserved, amount) == reserved + amount
    ensures amount <= reserved ==> WrappingDifference(reserved, amount) == reserved - amount
  {
  }

  lemma MemoryStaysAccounted(c: Config, s: State, e: Event)
    requires c.Valid() && MemoryIsAccounted(c, s) && Enabled(c, s, e) && s.nextIndex <= |c.files|
    ensures MemoryIsAccounted(c, Step(c, s, e))
  {
    StaysShaped(c, s, e);
    ReservedStaysSum(c, s, e);
    hide Step, HoldsItsCharge;
    forall v | 0 <= v < |s.workers|
      ensures HoldsItsCharge(c, Step(c, s, e), v)
    {
      ChargeStaysHeld(c, s, e, v);
    }
  }

  /** The gate has one holder. */
  ghost predicate GateIsExclusive(c: Config, s: State) {
    && Shaped(c, s)
    && (s.gate.Some? ==> s.gate.value < |s.workers| && s.workers[s.gate.value].phase.MayHoldGate())
    && (forall w | 0 <= w < |s.workers| :: IsOutsideOrHolds(s, w))
  }

  ghost predicate IsOutsideOrHolds(s: State, w: nat)
    requires w < |s.workers|
  {
    s.workers[w].phase.MustHoldGate() ==> s.gate == Some(w)
  }

  lemma HolderStaysInside(c: Config, s: State, e: Event)
    requires GateIsExclusive(c, s) && Enabled(c, s, e)
    ensures var t := Step(c, s, e);
            t.gate.Some? ==> t.gate.value < |t.workers| && t.workers[t.gate.value].phase.MayHoldGate()
  {
    if s.gate.Some? && IsBystander(e, s.gate.value) {
      BystandersWait(c, s, e, s.gate.value);
    }
  }

  lemma OthersStayOutside(c: Config, s: State, e: Event, v: nat)
    requires GateIsExclusive(c, s) && Enabled(c, s, e) && v < |s.workers| == |Step(c, s, e).workers|
    ensures IsOutsideOrHolds(Step(c, s, e), v)
  {
    assert IsOutsideOrHolds(s, v);
    if IsBystander(e, v) {
      BystandersWait(c, s, e, v);
    }
  }

  lemma GateStaysExclusive(c: Config, s: State, e: Event)
    requires GateIsExclusive(c, s) && Enabled(c, s, e) && s.nextIndex <= |c.files|
    ensures GateIsExclusive(c, Step(c, s, e))
  {
    StaysShaped(c, s, e);
    HolderStaysInside(c, s, e);
    hide Step, IsOutsideOrHolds;
    forall v | 0 <= v < |s.workers|
      ensures IsOutsideOrHolds(Step(c, s, e), v)
    {
      OthersStayOutside(c, s, e, v);
    }
  }

  /** A file past its capture was captured at the reviewed revision. */
  ghost predicate CapturesAreReviewed(c: Config, s: State) {
    && Shaped(c, s)
    && forall w | 0 <= w < |s.workers| :: CaptureIsReviewed(c, s, w)
  }

  ghost predicate CaptureIsReviewed(c: Config, s: State, w: nat)
    requires Shaped(c, s) && w < |s.workers|
  {
    var x := s.workers[w];
    x.phase.IsRevalidated() ==> s.history.captured[x.file] == Some(c.files[x.file].revision)
  }

  lemma CaptureStaysReviewed(c: Config, s: State, e: Event, v: nat)
    requires ClaimsAreUnique(c, s) && CapturesAreReviewed(c, s) && Enabled(c, s, e) && v < |s.workers|
    requires Shaped(c, Step(c, s, e))
    ensures CaptureIsReviewed(c, Step(c, s, e), v)
  {
    assert CaptureIsReviewed(c, s, v) && OwnsItsFile(s, v);
    if IsBystander(e, v) {
      BystandersWait(c, s, e, v);
      assert !e.CancelBatch? ==> OwnsItsFile(s, e.w);
    }
  }

  lemma CapturesStayReviewed(c: Config, s: State, e: Event)
    requires ClaimsAreUnique(c, s) && CapturesAreReviewed(c, s) && Enabled(c, s, e)
    ensures CapturesAreReviewed(c, Step(c, s, e))
  {
    StaysShaped(c, s, e);
    hide Step, CaptureIsReviewed;
    forall v | 0 <= v < |s.workers|
      ensures CaptureIsReviewed(c, Step(c, s, e), v)
    {
      CaptureStaysReviewed(c, s, e, v);
    }
  }

  /** After a commit call has returned a conflict, nobody is past the gate's check, and the conflict is
      published or its recorder still holds the gate. */
  ghost predicate ConflictClosesGate(c: Config, s: State) {
    && Shaped(c, s)
    && (s.history.closed ==> ConflictIsGuarded(s) && forall w | 0 <= w < |s.workers| :: IsBarred(s, w))
  }

  ghost predicate ConflictIsGuarded(s: State) {
    || s.integrity.Some?
    || (&& s.gate.Some? && s.gate.value < |s.workers|
        && s.workers[s.gate.value].phase == Recording(RecoveryConflict, true))
  }

  ghost predicate IsBarred(s: State, w: nat)
    requires w < |s.workers|
  {
    !s.workers[w].phase.Admitted? && !s.workers[w].phase.Committing?
  }

  lemma ConflictStaysGuarded(c: Config, s: State, e: Event)
    requires GateIsExclusive(c, s) && ConflictClosesGate(c, s) && Enabled(c, s, e) && Step(c, s, e).history.closed
    ensures ConflictIsGuarded(Step(c, s, e))
  {
    if s.gate.Some? && IsBystander(e, s.gate.value) {
      BystandersWait(c, s, e, s.gate.value);
    }
    assert e.Work? ==> IsOutsideOrHolds(s, e.w);
  }

  lemma WorkerStaysBarred(c: Config, s: State, e: Event, v: nat)
    requires GateIsExclusive(c, s) && ConflictClosesGate(c, s) && Enabled(c, s, e)
    requires Step(c, s, e).history.closed && v < |s.workers| == |Step(c, s, e).workers|
    ensures IsBarred(Step(c, s, e), v)
  {
    assert s.history.closed ==> IsBarred(s, v);
    assert IsOutsideOrHolds(s, v);
    assert !e.CancelBatch? ==> IsOutsideOrHolds(s, e.w);
    if IsBystander(e, v) {
      BystandersWait(c, s, e, v);
    }
  }

  lemma GateStaysClosed(c: Config, s: State, e: Event)
    requires GateIsExclusive(c, s) && ConflictClosesGate(c, s) && Enabled(c, s, e) && s.nextIndex <= |c.files|
    ensures ConflictClosesGate(c, Step(c, s, e))
  {
    StaysShaped(c, s, e);
    var t := Step(c, s, e);
    hide Step, IsBarred, ConflictIsGuarded;
    if t.history.closed {
      ConflictStaysGuarded(c, s, e);
      forall v | 0 <= v < |s.workers|
        ensures IsBarred(t, v)
      {
        WorkerStaysBarred(c, s, e, v);
      }
    }
  }

  /** The counters count the tallied rows by kind. */
  ghost predicate CountersAgree(c: Config, s: State) {
    && Shaped(c, s)
    && s.progress == ProgressOver(s.rows, s.history.tallied)
  }

  ghost function ProgressOver(rows: seq<Row>, tallied: seq<bool>): Progress
    requires |rows| == |tallied|
  {
    Progress(Tallied(tallied), Total(rows, tallied, FailedFile), Total(rows, tallied, SkippedFile),
             Total(rows, tallied, CancelledFile))
  }

  lemma ProgressUpdate(rows: seq<Row>, tallied: seq<bool>, i: nat, row: Row, now: bool)
    requires |rows| == |tallied| && i < |rows| && !tallied[i]
    ensures ProgressOver(rows[i := row], tallied[i := now])
         == if now then Counted(ProgressOver(rows, tallied), row.outcome) else ProgressOver(rows, tallied)
  {
    TotalUpdate(rows, tallied, i, row, now, FailedFile);
    TotalUpdate(rows, tallied, i, row, now, SkippedFile);
    TotalUpdate(rows, tallied, i, row, now, CancelledFile);
  }

  lemma FreshProgress(rows: seq<Row>, tallied: seq<bool>)
    requires |rows| == |tallied|
    requires forall i | 0 <= i < |rows| :: rows[i] == UNTOUCHED && !tallied[i]
    ensures ProgressOver(rows, tallied) == Progress(0, 0, 0, 0) && !HasConflict(rows)
  {
    NothingTallied(rows, tallied, FailedFile);
    NothingTallied(rows, tallied, SkippedFile);
    NothingTallied(rows, tallied, CancelledFile);
  }

  lemma CountersStayInAgreement(c: Config, s: State, e: Event)
    requires ClaimsAreUnique(c, s) && CountersAgree(c, s) && Enabled(c, s, e)
    ensures CountersAgree(c, Step(c, s, e))
  {
    hide ProgressOver;
    StaysShaped(c, s, e);
    if e.Work? {
      var t, i := Step(c, s, e), s.workers[e.w].file;
      assert OwnsItsFile(s, e.w);
      if s.workers[e.w].phase.HasFile() && !s.workers[e.w].phase.IsTallied() {
        ProgressUpdate(s.rows, s.history.tallied, i, t.rows[i], t.history.tallied[i]);
        assert t.rows == s.rows[i := t.rows[i]];
        assert t.history.tallied == s.history.tallied[i := t.history.tallied[i]];
      } else {
        assert t.rows == s.rows && t.history.tallied == s.history.tallied;
      }
    }
  }

  /** Integrity is uncertain exactly when a row carries a conflict. */
  ghost predicate UncertaintyIsReported(c: Config, s: State) {
    && Shaped(c, s)
    && (s.uncertain <==> HasConflict(s.rows))
    && s.integrity == (if s.uncertain then Some(RecoveryConflict) else None)
    && (forall i | s.nextIndex <= i < |s.rows| :: s.rows[i] == UNTOUCHED)
    && (forall w | 0 <= w < |s.workers| :: RowAwaits(s, w))
  }

  ghost predicate RowAwaits(s: State, w: nat)
    requires w < |s.workers| && s.workers[w].file < |s.rows|
  {
    s.workers[w].phase.HasFile() && !s.workers[w].phase.HasRow() ==> s.rows[s.workers[w].file] == UNTOUCHED
  }

  ghost predicate HasConflict(rows: seq<Row>) {
    exists i :: 0 <= i < |rows| && rows[i].error == Some(RecoveryConflict)
  }

  lemma ConflictIsWritten(rows: seq<Row>, i: nat, row: Row)
    requires i < |rows| && rows[i].error != Some(RecoveryConflict)
    ensures HasConflict(rows[i := row]) <==> HasConflict(rows) || row.error == Some(RecoveryConflict)
  {
    if HasConflict(rows) {
      var j :| 0 <= j < |rows| && rows[j].error == Some(RecoveryConflict);
      assert rows[i := row][j].error == Some(RecoveryConflict);
    }
    if row.error == Some(RecoveryConflict) {
      assert rows[i := row][i].error == Some(RecoveryConflict);
    }
  }

  lemma RowStaysAwaited(c: Config, s: State, e: Event, v: nat)
    requires ClaimsAreUnique(c, s) && UncertaintyIsReported(c, s) && Enabled(c, s, e) && v < |s.workers|
    requires Shaped(c, Step(c, s, e))
    ensures RowAwaits(Step(c, s, e), v)
  {
    assert RowAwaits(s, v) && OwnsItsFile(s, v);
    if IsBystander(e, v) {
      BystandersWait(c, s, e, v);
      assert !e.CancelBatch? ==> OwnsItsFile(s, e.w);
    }
  }

  lemma RowsAreWritten(c: Config, s: State, e: Event)
    requires ClaimsAreUnique(c, s) && UncertaintyIsReported(c, s) && Enabled(c, s, e)
    ensures var t := Step(c, s, e);
            && Shaped(c, t)
            && (t.uncertain <==> HasConflict(t.rows))
            && t.integrity == (if t.uncertain then Some(RecoveryConflict) else None)
            && (forall i | t.nextIndex <= i < |t.rows| :: t.rows[i] == UNTOUCHED)
  {
    hide HasConflict;
    StaysShaped(c, s, e);
    if e.Work? {
      var t, i := Step(c, s, e), s.workers[e.w].file;
      assert OwnsItsFile(s, e.w) && RowAwaits(s, e.w);
      if s.workers[e.w].phase.HasFile() && !s.workers[e.w].phase.HasRow() {
        ConflictIsWritten(s.rows, i, t.rows[i]);
        assert t.rows == s.rows[i := t.rows[i]];
      } else {
        assert t.rows == s.rows;
      }
    }
  }

  lemma UncertaintyStaysReported(c: Config, s: State, e: Event)
    requires ClaimsAreUnique(c, s) && UncertaintyIsReported(c, s) && Enabled(c, s, e)
    ensures UncertaintyIsReported(c, Step(c, s, e))
  {
    RowsAreWritten(c, s, e);
    hide Step, RowAwaits;
    forall v | 0 <= v < |s.workers|
      ensures RowAwaits(Step(c, s, e), v)
    {
      RowStaysAwaited(c, s, e, v);
    }
  }
}
