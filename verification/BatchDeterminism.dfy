/** The result of a batch does not depend on the schedule. */
module BatchDeterminism {
  import opened Options
  import opened Batch
  import opened BatchSafety
  import opened BatchRuns
  import opened BatchLiveness

  /** What the calls on one file answer, whenever they are made. */
  datatype Script = Script(capture: Reply, transform: Reply, commit: Reply)
  {
    predicate Valid() {
      && Fits(Capturing, capture) && Fits(Transforming, transform) && Fits(Committing, commit)
    }

    predicate HasNoConflict() {
      && (capture.CaptureFailed? ==> capture.error != RecoveryConflict)
      && (transform.TransformFailed? ==> transform.error != RecoveryConflict)
      && (commit.CommitFailed? ==> commit.error != RecoveryConflict)
    }
  }

  predicate HasNoConflictIn(c: Config, scripts: seq<Script>) {
    && |scripts| == |c.files|
    && forall i | 0 <= i < |c.files| ::
         && scripts[i].Valid() && scripts[i].HasNoConflict()
         && c.files[i].reviewError != Some(RecoveryConflict)
  }

  /** The row of a file that is processed alone and not interrupted. */
  function SerialRow(c: Config, f: File, script: Script): Row
    requires script.Valid()
  {
    if f.reviewError.Some? then ErrorRow(f.reviewError.value, false)
    else if !c.discoveryComplete then ErrorRow(Cancelled, false)
    else if !f.needsTransform then Row(NoOrientationNormalizationRequired, None)
    else if script.capture.CaptureFailed? then ErrorRow(script.capture.error, false)
    else if script.capture.revision != f.revision then ErrorRow(SourceChangedAfterAnalysis, false)
    else if script.transform.TransformFailed? then ErrorRow(script.transform.error, script.transform.started)
    else if script.commit.CommitFailed? then ErrorRow(script.commit.error, true)
    else Row(OutputSaved, None)
  }

  /** The environment answers by the scripts, and nothing is cancelled and no allocation fails. */
  predicate IsScripted(s: State, scripts: seq<Script>, e: Event) {
    || e.Wake?
    || (&& e.Work? && e.w < |s.workers| && s.workers[e.w].file < |scripts|
        && var script := scripts[s.workers[e.w].file];
           match s.workers[e.w].phase
           case Capturing => e.reply == script.capture
           case Transforming => e.reply == script.transform
           case Committing => e.reply == script.commit
           case _ => true)
  }

  predicate IsScriptedRun(c: Config, scripts: seq<Script>, run: seq<Event>) {
    if run == [] then true
    else
      && IsScriptedRun(c, scripts, run[..|run| - 1])
      && After(c, run[..|run| - 1]).Some?
      && IsScripted(After(c, run[..|run| - 1]).value, scripts, run[|run| - 1])
  }

  /** A worker is on the way to the serial row of its file. */
  ghost predicate IsOnTrack(c: Config, scripts: seq<Script>, s: State, w: nat)
    requires HasNoConflictIn(c, scripts) && Shaped(c, s) && w < |s.workers|
  {
    var p, i := s.workers[w].phase, s.workers[w].file;
    var f, script := c.files[i], scripts[i];
    && (p.Waiting? || p.Asleep? || p.MustHoldMemory() ==>
          f.reviewError.None? && c.discoveryComplete && f.needsTransform)
    && (p.IsRevalidated() ==> script.capture == CapturedRevision(f.revision))
    && (p.IsRevalidated() && !p.Transforming? ==> script.transform.ValidatedOutput?)
    && (p.Recording? ==> p.error != RecoveryConflict && ErrorRow(p.error, p.entered) == SerialRow(c, f, script))
    && (p.HasRow() ==> !p.RequestingStop? && s.rows[i] == SerialRow(c, f, script))
  }

  ghost predicate RowIsSerial(c: Config, scripts: seq<Script>, s: State, i: nat)
    requires HasNoConflictIn(c, scripts) && Shaped(c, s) && i < |c.files|
  {
    s.history.tallied[i] ==> s.rows[i] == SerialRow(c, c.files[i], scripts[i])
  }

  ghost predicate IsUndisturbed(c: Config, scripts: seq<Script>, s: State)
    requires HasNoConflictIn(c, scripts)
  {
    && Shaped(c, s)
    && !s.stop && s.integrity.None?
    && (forall w | 0 <= w < |s.workers| :: IsOnTrack(c, scripts, s, w))
    && (forall i | 0 <= i < |c.files| :: RowIsSerial(c, scripts, s, i))
  }

  lemma StaysOnTrack(c: Config, scripts: seq<Script>, s: State, e: Event, v: nat)
    requires HasNoConflictIn(c, scripts) && ClaimsAreUnique(c, s) && IsUndisturbed(c, scripts, s)
    requires Enabled(c, s, e) && IsScripted(s, scripts, e) && v < |s.workers| && Shaped(c, Step(c, s, e))
    ensures IsOnTrack(c, scripts, Step(c, s, e), v)
  {
    if IsBystander(e, v) {
      BystanderStaysOnTrack(c, scripts, s, e, v);
    } else {
      MoverStaysOnTrack(c, scripts, s, e);
    }
  }

  lemma BystanderStaysOnTrack(c: Config, scripts: seq<Script>, s: State, e: Event, v: nat)
    requires HasNoConflictIn(c, scripts) && ClaimsAreUnique(c, s) && IsUndisturbed(c, scripts, s)
    requires Enabled(c, s, e) && IsScripted(s, scripts, e) && v < |s.workers| && Shaped(c, Step(c, s, e))
    requires IsBystander(e, v)
    ensures IsOnTrack(c, scripts, Step(c, s, e), v)
  {
    hide HistoryAfter, Counted, WokenAll, ErrorRow, SerialRow;
    BystandersWait(c, s, e, v);
    assert IsOnTrack(c, scripts, s, v) && OwnsItsFile(s, v) && OwnsItsFile(s, e.w);
  }

  lemma MoverStaysOnTrack(c: Config, scripts: seq<Script>, s: State, e: Event)
    requires HasNoConflictIn(c, scripts) && ClaimsAreUnique(c, s) && IsUndisturbed(c, scripts, s)
    requires Enabled(c, s, e) && IsScripted(s, scripts, e) && Shaped(c, Step(c, s, e))
    ensures IsOnTrack(c, scripts, Step(c, s, e), e.w)
  {
    hide HistoryAfter, Counted, WokenAll, ErrorRow;
    assert IsOnTrack(c, scripts, s, e.w) && OwnsItsFile(s, e.w);
  }

  lemma StaysSerial(c: Config, scripts: seq<Script>, s: State, e: Event, i: nat)
    requires HasNoConflictIn(c, scripts) && ClaimsAreUnique(c, s) && IsUndisturbed(c, scripts, s)
    requires Enabled(c, s, e) && IsScripted(s, scripts, e) && i < |c.files| && Shaped(c, Step(c, s, e))
    ensures RowIsSerial(c, scripts, Step(c, s, e), i)
    ensures !Step(c, s, e).stop && Step(c, s, e).integrity.None?
  {
    hide Counted, WokenAll, ErrorRow, SerialRow;
    assert IsOnTrack(c, scripts, s, e.w) && OwnsItsFile(s, e.w) && RowIsSerial(c, scripts, s, i);
  }

  lemma StaysUndisturbed(c: Config, scripts: seq<Script>, s: State, e: Event)
    requires HasNoConflictIn(c, scripts) && ClaimsAreUnique(c, s) && IsUndisturbed(c, scripts, s)
    requires Enabled(c, s, e) && IsScripted(s, scripts, e)
    ensures IsUndisturbed(c, scripts, Step(c, s, e))
  {
    StaysShaped(c, s, e);
    var t := Step(c, s, e);
    assert |c.files| > 0 by {
      assert s.workers[e.w].file < |c.files|;
    }
    StaysSerial(c, scripts, s, e, 0);
    hide Step, IsOnTrack, RowIsSerial;
    forall v | 0 <= v < |s.workers|
      ensures IsOnTrack(c, scripts, t, v)
    {
      StaysOnTrack(c, scripts, s, e, v);
    }
    forall i | 0 <= i < |c.files|
      ensures RowIsSerial(c, scripts, t, i)
    {
      StaysSerial(c, scripts, s, e, i);
    }
  }

  lemma {:induction false} ScriptedRunIsUndisturbed(c: Config, scripts: seq<Script>, run: seq<Event>)
    requires c.Valid() && HasNoConflictIn(c, scripts) && IsScriptedRun(c, scripts, run) && After(c, run).Some?
    ensures IsUndisturbed(c, scripts, After(c, run).value)
  {
    hide Step, Enabled, IsScripted, HasNoConflictIn;
    if run != [] {
      var s := After(c, run[..|run| - 1]).value;
      ScriptedRunIsUndisturbed(c, scripts, run[..|run| - 1]);
      InvariantHoldsAlways(c, run[..|run| - 1]);
      hide IsUndisturbed, ClaimsAreUnique;
      StaysUndisturbed(c, scripts, s, run[|run| - 1]);
    }
  }

  lemma SerialRowHasNoConflict(c: Config, scripts: seq<Script>, i: nat)
    requires HasNoConflictIn(c, scripts) && i < |c.files|
    ensures SerialRow(c, c.files[i], scripts[i]).error != Some(RecoveryConflict)
  {
  }

  function SerialRows(c: Config, scripts: seq<Script>): (r: seq<Row>)
    requires HasNoConflictIn(c, scripts)
  {
    seq(|c.files|, i requires 0 <= i < |c.files| => SerialRow(c, c.files[i], scripts[i]))
  }

  /** Schedule independence: without cancellation, failed allocations or conflicts, every interleaving of
      any number of workers, under any budget samples, ends in the rows of the serial loop and in the
      same counters. */
  lemma ScheduleDoesNotMatter(c: Config, scripts: seq<Script>, run: seq<Event>)
    requires c.Valid() && HasNoConflictIn(c, scripts) && IsScriptedRun(c, scripts, run)
    requires After(c, run).Some? && AllFinished(After(c, run).value)
    ensures After(c, run).value.rows == SerialRows(c, scripts)
    ensures After(c, run).value.progress == ProgressOver(SerialRows(c, scripts), seq(|c.files|, _ => true))
    ensures !After(c, run).value.uncertain
  {
    var s := After(c, run).value;
    ScriptedRunIsUndisturbed(c, scripts, run);
    InvariantHoldsAlways(c, run);
    BatchIsAccountedFor(c, run);
    forall i | 0 <= i < |c.files|
      ensures s.rows[i] == SerialRow(c, c.files[i], scripts[i])
    {
      assert RowIsSerial(c, scripts, s, i);
    }
    assert s.history.tallied == seq(|c.files|, _ => true);
  }

  // ----- scripted runs exist

  /** A reply that lets a worker act in its phase. */
  function SomeReply(phase: Phase): (r: Reply)
    ensures Fits(phase, r)
  {
    match phase
    case Waiting => Budget(1)
    case Capturing => CapturedRevision(0)
    case Transforming => ValidatedOutput
    case Committing => CommitSucceeded
    case _ => Silence
  }

  /** What the scripts answer to a worker, with the smallest budget for those that wait for memory. */
  function ScriptedReply(scripts: seq<Script>, x: Worker): Reply {
    if x.file >= |scripts| then SomeReply(x.phase)
    else
      match x.phase
      case Capturing => scripts[x.file].capture
      case Transforming => scripts[x.file].transform
      case Committing => scripts[x.file].commit
      case _ => SomeReply(x.phase)
  }

  function Scripted(scripts: seq<Script>): Worker -> Reply {
    (x: Worker) => ScriptedReply(scripts, x)
  }

  lemma {:induction false} AnsweredRunIsScripted(c: Config, scripts: seq<Script>, run: seq<Event>, more: seq<Event>)
    requires c.Valid() && HasNoConflictIn(c, scripts) && IsScriptedRun(c, scripts, run) && After(c, run + more).Some?
    requires IsAnsweredRun(c, Scripted(scripts), run, more)
    ensures IsScriptedRun(c, scripts, run + more)
    decreases |more|
  {
    hide Step, Enabled, IsAnswered, IsScripted;
    if more == [] {
      assert run + more == run;
    } else {
      var next := run + [more[0]];
      assert next[..|run|] == run && next + more[1..] == run + more;
      InvariantHoldsAlways(c, run);
      AnsweredIsScripted(c, scripts, After(c, run).value, more[0]);
      AnsweredRunIsScripted(c, scripts, next, more[1..]);
    }
  }

  lemma AnsweredIsScripted(c: Config, scripts: seq<Script>, s: State, e: Event)
    requires Shaped(c, s) && |scripts| == |c.files| && IsAnswered(s, Scripted(scripts), e)
    ensures IsScripted(s, scripts, e)
  {
  }

  /** The premises of `ScheduleDoesNotMatter` are met from every scripted state on: whatever has
      happened so far, there is a way to the end on which the calls go on answering by the scripts. */
  lemma ScriptedRunCanFinish(c: Config, scripts: seq<Script>, run: seq<Event>) returns (more: seq<Event>)
    requires c.Valid() && HasNoConflictIn(c, scripts) && IsScriptedRun(c, scripts, run) && After(c, run).Some?
    ensures IsScriptedRun(c, scripts, run + more)
    ensures After(c, run + more).Some? && AllFinished(After(c, run + more).value)
    ensures After(c, run + more).value.rows == SerialRows(c, scripts)
  {
    assert IsAnswer(Scripted(scripts));
    more := CanAlwaysFinish(c, run, Scripted(scripts));
    AnsweredRunIsScripted(c, scripts, run, more);
    ScheduleDoesNotMatter(c, scripts, run + more);
  }
}
