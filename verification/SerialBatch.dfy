/** The batch loop that runs without a pool when one worker is enough. */
module SerialBatch {
  import opened Options
  import opened Batch
  import opened BatchSafety
  import opened BatchDeterminism

  class BatchProcessingCoordinator {
    const config: Config
    const scripts: seq<Script>
    /** Whether the caller may cancel at all. */
    const mayCancel: bool

    var rows: seq<Row>
    var progress: Progress
    var stop: bool
    var integrity: Option<ErrorCode>
    var uncertain: bool

    constructor (config: Config, scripts: seq<Script>, mayCancel: bool)
      requires |scripts| == |config.files| && forall i | 0 <= i < |scripts| :: scripts[i].Valid()
      ensures this.config == config && this.scripts == scripts && this.mayCancel == mayCancel
      ensures rows == seq(|config.files|, _ => UNTOUCHED) && progress == Progress(0, 0, 0, 0)
      ensures !stop && integrity.None? && !uncertain
    {
      this.config, this.scripts, this.mayCancel := config, scripts, mayCancel;
      rows := seq(|config.files|, _ => UNTOUCHED);
      progress := Progress(0, 0, 0, 0);
      stop, integrity, uncertain := false, None, false;
    }

    /** Reads the stop token, which the caller may have set meanwhile. */
    method StopRequested() returns (requested: bool)
      modifies `stop
      ensures requested == stop
      ensures old(stop) ==> stop
      ensures !mayCancel ==> stop == old(stop)
    {
      if mayCancel {
        var arrived: bool := *;
        stop := stop || arrived;
      }
      requested := stop;
    }

    method RecordError(index: nat, error: ErrorCode, entered: bool)
      requires index < |rows|
      modifies `rows, `stop, `integrity, `uncertain
      ensures rows == old(rows)[index := ErrorRow(error, entered)]
      ensures stop == (old(stop) || error == RecoveryConflict)
      ensures uncertain == (old(uncertain) || error == RecoveryConflict)
      ensures integrity == if old(integrity).None? && error == RecoveryConflict then Some(error) else old(integrity)
    {
      rows := rows[index := ErrorRow(error, entered)];
      if error == RecoveryConflict {
        if integrity.None? {
          integrity := Some(error);
        }
        uncertain := true;
        stop := true;
      }
    }

    ghost predicate Valid()
      reads this
    {
      && |rows| == |scripts| == |config.files|
      && (forall i | 0 <= i < |scripts| :: scripts[i].Valid())
      && integrity == (if uncertain then Some(RecoveryConflict) else None)
      && (uncertain ==> stop)
    }

    /** One file: its row is the row of an undisturbed file unless a stop or a conflict came first, and
        once either is there, the file is not committed. */
    method ProcessFile(index: nat)
      requires Valid() && index < |rows| && rows[index] == UNTOUCHED
      modifies `rows, `stop, `integrity, `uncertain
      ensures Valid()
      ensures rows == old(rows)[index := rows[index]]
      ensures old(stop) ==> stop
      ensures uncertain == (old(uncertain) || rows[index].error == Some(RecoveryConflict))
      ensures old(uncertain) ==> rows[index] == Row(ProcessingFailed, Some(RecoveryConflict))
      ensures old(stop) ==> rows[index].outcome != OutputSaved
      ensures !stop ==> rows[index] == SerialRow(config, config.files[index], scripts[index])
      ensures rows[index].outcome == OutputSaved
              ==> rows[index] == SerialRow(config, config.files[index], scripts[index])
      ensures !mayCancel && !old(stop) && rows[index].error != Some(RecoveryConflict) ==> !stop
      ensures !mayCancel && !old(stop) ==> rows[index] == SerialRow(config, config.files[index], scripts[index])
    {
      var f, script := config.files[index], scripts[index];
      if integrity.Some? {
        RecordError(index, integrity.value, false);
        return;
      }
      if f.reviewError.Some? {
        RecordError(index, f.reviewError.value, false);
        return;
      }
      var requested := StopRequested();
      if requested || !config.discoveryComplete {
        RecordError(index, Cancelled, false);
        return;
      }
      if !f.needsTransform {
        rows := rows[index := Row(NoOrientationNormalizationRequired, None)];
        return;
      }
      if script.capture.CaptureFailed? {
        RecordError(index, script.capture.error, false);
        return;
      }
      if script.capture.revision != f.revision {
        RecordError(index, SourceChangedAfterAnalysis, false);
        return;
      }
      requested := StopRequested();
      if requested {
        RecordError(index, Cancelled, false);
        return;
      }
      if script.transform.TransformFailed? {
        RecordError(index, script.transform.error, script.transform.started);
        return;
      }
      requested := StopRequested();
      if requested {
        RecordError(index, Cancelled, true);
        return;
      }
      // The gate's own look at the integrity failure: nobody else runs, so it is still absent.
      assert integrity.None?;
      requested := StopRequested();
      if requested {
        RecordError(index, Cancelled, true);
        return;
      }
      if script.commit.CommitFailed? {
        RecordError(index, script.commit.error, true);
        return;
      }
      rows := rows[index := Row(OutputSaved, None)];
    }

    ghost function Done(n: nat): seq<bool>
      reads `rows
    {
      seq(|rows|, i => i < n)
    }

    /** The serial loop. The counters partition the rows. A conflict is reported on its file and on every
        later one, and nothing is saved after a stop. Unless the batch was stopped, the rows are those of
        every schedule. */
    method ExecuteSerially()
      requires |scripts| == |config.files| && forall i | 0 <= i < |scripts| :: scripts[i].Valid()
      requires rows == seq(|config.files|, _ => UNTOUCHED) && progress == Progress(0, 0, 0, 0)
      requires !stop && integrity.None? && !uncertain
      modifies this
      ensures |rows| == |config.files|
      ensures progress == ProgressOver(rows, seq(|rows|, _ => true))
      ensures uncertain <==> HasConflict(rows)
      ensures forall i, j | 0 <= i < j < |rows| ::
                rows[i].error == Some(RecoveryConflict) ==> rows[j] == Row(ProcessingFailed, Some(RecoveryConflict))
      ensures forall i | 0 <= i < |rows| && (!stop || rows[i].outcome == OutputSaved) ::
                rows[i] == SerialRow(config, config.files[i], scripts[i])
      ensures !mayCancel && HasNoConflictIn(config, scripts) ==> rows == SerialRows(config, scripts)
    {
      var index := 0;
      hide ProgressOver, HasConflict, SerialRow, Counted;
      FreshProgress(rows, Done(0));
      while index < |rows|
        invariant 0 <= index <= |rows| && Valid()
        invariant progress == ProgressOver(rows, Done(index))
        invariant uncertain <==> HasConflict(rows)
        invariant forall i | index <= i < |rows| :: rows[i] == UNTOUCHED
        invariant forall i | 0 <= i < index :: rows[i].error == Some(RecoveryConflict) ==> uncertain
        invariant forall i, j | 0 <= i < j < index ::
                    rows[i].error == Some(RecoveryConflict) ==> rows[j] == Row(ProcessingFailed, Some(RecoveryConflict))
        invariant forall i | 0 <= i < index && (!stop || rows[i].outcome == OutputSaved) ::
                    rows[i] == SerialRow(config, config.files[i], scripts[i])
        invariant !mayCancel && HasNoConflictIn(config, scripts) ==> !stop
      {
        ghost var before := rows;
        ProcessFile(index);
        progress := Counted(progress, rows[index].outcome);
        if HasNoConflictIn(config, scripts) {
          SerialRowHasNoConflict(config, scripts, index);
        }
        ConflictIsWritten(before, index, rows[index]);
        ProgressUpdate(before, Done(index), index, rows[index], true);
        assert Done(index)[index := true] == Done(index + 1);
        index := index + 1;
      }
      assert Done(index) == seq(|rows|, _ => true);
    }
  }
}
