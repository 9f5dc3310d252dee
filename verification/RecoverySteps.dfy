/** What one recovery of one transaction may leave behind when any of its native effects can fail
    or be the last: a transition relation, and the proof that it keeps the record's meaning. */
module RecoverySteps {
  import opened Native
  import opened Journal
  import opened World
  import opened Recovery

  datatype RecoveryOutcome = OutputCommittedOutcome | OriginalPreservedOutcome

  datatype Report =
    | NothingToDo
    | Recovered(outcome: RecoveryOutcome)
    | ConflictFound
    | ReadCancelled
    | Stopped

  /** What recovery reports for a verdict when nothing fails. */
  function ReportOf(v: Verdict): Report {
    match v
    case AlreadyClosed => NothingToDo
    case AnotherRoot => NothingToDo
    case Conflicting => ConflictFound
    case OutputWasCommitted => Recovered(OutputCommittedOutcome)
    case OriginalWasPreserved(_) => Recovered(OriginalPreservedOutcome)
  }

  /** What acting on a verdict leaves when nothing fails. */
  function FilesAfter(r: Record, v: Verdict, files: Files): Files {
    if v.OriginalWasPreserved? then files - {r.stagePath} else files
  }

  /** What acting on a verdict needs of the folder: the next name, and room between two publications. */
  predicate CanFinish(r: Record, v: Verdict, folder: Folder) {
    match v
    case OutputWasCommitted =>
      r.generation + 1 !in folder.generations
      && (r.state == OutputCommitted || folder.FileCount() < MAXIMUM_FOLDER_FILES)
    case OriginalWasPreserved(_) => r.generation + 1 !in folder.generations
    case _ => true
  }

  function FinishedReport(r: Record, v: Verdict, folder: Folder): Report {
    if CanFinish(r, v, folder) then ReportOf(v) else ConflictFound
  }

  /** The report on a transaction and the files it leaves on a sound host, as functions of what is
      found, whatever is found. A folder without a readable record is a conflict, and so is one whose
      next name is taken or that is full between two publications. */
  function FoundReport(root: Root, id: TransactionId, folder: Folder, files: Files): Report {
    match Read(folder, id)
    case Latest(r) => FinishedReport(r, VerdictOn(root, id, r, files), folder)
    case _ => ConflictFound
  }

  function FoundFiles(root: Root, id: TransactionId, folder: Folder, files: Files): Files {
    match Read(folder, id)
    case Latest(r) => FilesAfter(r, VerdictOn(root, id, r, files), files)
    case _ => files
  }

  /** A commit that the files prove and that is not yet recorded is reported exactly when the next name is
      free and the folder is not full. */
  lemma UnrecordedCommitIsReportedIff(root: Root, id: TransactionId, folder: Folder, files: Files, r: Record)
    requires Read(folder, id) == Latest(r) && IsValidRecord(r) && r.state != OutputCommitted
    requires VerdictOn(root, id, r, files) == OutputWasCommitted
    ensures FoundReport(root, id, folder, files) ==
              if r.generation + 1 !in folder.generations && folder.FileCount() < MAXIMUM_FOLDER_FILES
              then Recovered(OutputCommittedOutcome) else ConflictFound
  {
    hide Read, VerdictOn, IsValidRecord;
  }

  /** A transaction that recovery has nothing to do with: closed, or another root's. */
  predicate IsNotOpenHere(root: Root, r: Record) {
    r.state.IsTerminal() || (r.rootIdentity != root.identity && r.rootPath != root.path)
  }

  lemma NothingToDoMeans(root: Root, id: TransactionId, r: Record, files: Files)
    requires IsValidRecord(r)
    ensures ReportOf(VerdictOn(root, id, r, files)) == NothingToDo <==> IsNotOpenHere(root, r)
  {
  }

  function Continuation(r: Record, state: State): Record {
    r.(generation := r.generation + 1, state := state)
  }

  /** The two publications that close a committed save. The second is attempted only after the
      first was completed, now or by an earlier run. */
  ghost predicate MayCloseCommitted(id: TransactionId, seen: Record, folder: Folder, folder': Folder) {
    var committed := Continuation(seen, OutputCommitted);
    if seen.state == OutputCommitted then
      IsAttempt(folder, folder', id, Continuation(seen, OwnedStagingArtifactsCleaned))
    else
      || IsAttempt(folder, folder', id, committed)
      || (CanExtend(folder, id, committed)
          && IsAttempt(Extended(folder, committed), folder', id, Continuation(committed, OwnedStagingArtifactsCleaned)))
  }

  /** The stage goes first; the abandonment is published only when no stage is left. */
  ghost predicate MayAbandon(id: TransactionId, seen: Record, files: Files, folder: Folder, files': Files,
                             folder': Folder) {
    && (files' == files || files' == files - {seen.stagePath})
    && IsAttempt(folder, folder', id, Continuation(seen, TransactionAbandonedBeforeCommit))
    && (folder'.generations != folder.generations ==> seen.stagePath !in files')
  }

  /** The effects of acting on a verdict, cut off anywhere. */
  ghost predicate MayActOn(
    id: TransactionId, seen: Record, verdict: Verdict, files: Files, folder: Folder, files': Files, folder': Folder)
  {
    match verdict
    case OutputWasCommitted => files' == files && MayCloseCommitted(id, seen, folder, folder')
    case OriginalWasPreserved(_) => MayAbandon(id, seen, files, folder, files', folder')
    case _ => files' == files && folder' == folder
  }

  /** Recovery saw `seen` and acted on what the files prove about it. */
  ghost predicate IsActionOn(root: Root, id: TransactionId, seen: Record, report: Report,
                             files: Files, folder: Folder, files': Files, folder': Folder)
  {
    && IsJournaled(folder, id, seen) && IsValidRecord(seen) && !seen.state.IsTerminal()
    && var verdict := VerdictOn(root, id, seen, files);
       && MayActOn(id, seen, verdict, files, folder, files', folder')
       && (report.Recovered? ==> Read(folder, id) == Latest(seen) && report == ReportOf(verdict))
  }

  /** One recovery of one transaction without outside writers. It acts, if at all, on the verdict of
      some readable generation: a read fault may hide the latest one. */
  ghost predicate IsRecoveryStep(
    root: Root, id: TransactionId, report: Report, files: Files, folder: Folder, files': Files, folder': Folder)
  {
    || (!report.Recovered? && files' == files && folder' == folder)
    || (exists seen :: IsActionOn(root, id, seen, report, files, folder, files', folder'))
  }

  /** A step acts on a generation that states the facts of the latest one. */
  lemma SeenStatesTheFacts(folder: Folder, id: TransactionId, seen: Record)
    requires IsJournaled(folder, id, seen)
    ensures Chained(folder, id).Latest? && SameFacts(seen, Chained(folder, id).record)
  {
    JournaledFacts(folder, id, seen);
  }

  /** Evidence of preservation, even for an outdated record, shows that nothing was committed. */
  lemma PreservedIsUncommitted(q: Request, before: Files, files: Files, root: Root, seen: Record, latest: Record)
    requires Consistent(q, before, files, Latest(latest)) && SameFacts(seen, latest)
    requires IsValidRecord(seen) && VerdictOn(root, q.transaction, seen, files).OriginalWasPreserved?
    ensures seen.stagePath == q.StagePath() && seen.sourcePath == q.sourcePath
    ensures Uncommitted(q, before, files) && q.StagePath() !in before
  {
    PreservationIsProved(root, q.transaction, seen, files);
  }

  /** Evidence of the commit, even for an outdated record, is the commit. */
  lemma ProvedIsCommitted(q: Request, before: Files, files: Files, root: Root, seen: Record, latest: Record)
    requires Consistent(q, before, files, Latest(latest)) && SameFacts(seen, latest)
    requires IsValidRecord(seen) && VerdictOn(root, q.transaction, seen, files) == OutputWasCommitted
    ensures Committed(q, before, files, latest.stageIdentity)
  {
    CommitIsProved(root, q.transaction, seen, files);
  }

  /** A record whose publishable continuation is `seen`'s continuation is `seen`. */
  lemma ContinuationIdentifies(prior: Record, seen: Record, next: Record)
    requires IsValidRecord(prior) && IsValidRecord(seen) && !seen.state.IsTerminal()
    requires IsValidSuccessor(prior, next)
    requires next == Continuation(seen, next.state) && next.state != VerifiedBackupCreated
    ensures prior == seen
  {
    ValidRecordStates(prior);
    ValidRecordStates(seen);
  }

  /** What a publication attempt adds to the chain continues its latest record. */
  lemma AttemptContinues(folder: Folder, folder': Folder, id: TransactionId, seen: Record, state: State)
    requires IsValidRecord(seen) && !seen.state.IsTerminal() && state != VerifiedBackupCreated
    requires IsAttempt(folder, folder', id, Continuation(seen, state))
    ensures Chained(folder', id) == Chained(folder, id) ||
            (Chained(folder, id) == Latest(seen) && Chained(folder', id) == Latest(Continuation(seen, state)))
    ensures Chained(folder', id) != Chained(folder, id) ==> folder'.generations != folder.generations
  {
    var next := Continuation(seen, state);
    AttemptIsChained(folder, folder', id, next);
    if Chained(folder', id) != Chained(folder, id) {
      LatestIsValid(folder, id);
      ContinuationIdentifies(Read(folder, id).record, seen, next);
    }
  }

  /** Abandoning, cut off anywhere, keeps the meaning of the chain. */
  lemma AbandoningKeepsMeaning(q: Request, before: Files, root: Root, seen: Record,
                               files: Files, folder: Folder, files': Files, folder': Folder)
    requires IsJournaled(folder, q.transaction, seen) && IsValidRecord(seen) && !seen.state.IsTerminal()
    requires Consistent(q, before, files, Chained(folder, q.transaction))
    requires VerdictOn(root, q.transaction, seen, files).OriginalWasPreserved?
    requires MayAbandon(q.transaction, seen, files, folder, files', folder')
    ensures IsBelow(q.rootPath, q.sourcePath) && Uncommitted(q, before, files) && Uncommitted(q, before, files')
    ensures files' == files || files' == files - {q.StagePath()}
    ensures Consistent(q, before, files', Chained(folder', q.transaction))
  {
    hide Chained, IsJournaled, VerdictOn, IsValidRecord, IsAttempt, IsPreserved;
    SeenStatesTheFacts(folder, q.transaction, seen);
    var latest := Chained(folder, q.transaction).record;
    PreservedIsUncommitted(q, before, files, root, seen, latest);
    if files' != files {
      StageRemoved(q, before, files, files', Latest(latest));
    }
    AttemptContinues(folder, folder', q.transaction, seen, TransactionAbandonedBeforeCommit);
    if Chained(folder', q.transaction) != Chained(folder, q.transaction) {
      AbandonmentExplained(q, before, files', latest, Continuation(latest, TransactionAbandonedBeforeCommit));
    }
  }

  lemma RecordIsBelow(q: Request, before: Files, files: Files, r: Record)
    requires Consistent(q, before, files, Latest(r))
    ensures IsBelow(q.rootPath, q.sourcePath)
  {
  }

  lemma ClosingAttemptKeepsMeaning(q: Request, before: Files, files: Files, seen: Record, state: State,
                                   folder: Folder, folder': Folder)
    requires IsValidRecord(seen) && !seen.state.IsTerminal()
    requires state == OutputCommitted || state == OwnedStagingArtifactsCleaned
    requires Chained(folder, q.transaction).Latest?
    requires Consistent(q, before, files, Chained(folder, q.transaction))
    requires Committed(q, before, files, Chained(folder, q.transaction).record.stageIdentity)
    requires IsAttempt(folder, folder', q.transaction, Continuation(seen, state))
    ensures Chained(folder', q.transaction).Latest?
    ensures Consistent(q, before, files, Chained(folder', q.transaction))
    ensures Chained(folder', q.transaction).record.stageIdentity == Chained(folder, q.transaction).record.stageIdentity
  {
    hide Chained, IsValidRecord, IsAttempt, Consistent, Committed;
    AttemptContinues(folder, folder', q.transaction, seen, state);
    if Chained(folder', q.transaction) != Chained(folder, q.transaction) {
      ClosingExplained(q, before, files, seen, Continuation(seen, state));
    }
  }

  /** Closing a committed save, cut off anywhere, keeps the meaning of the chain. */
  lemma ClosingKeepsMeaning(q: Request, before: Files, root: Root, seen: Record, files: Files, folder: Folder,
                            folder': Folder)
    requires IsJournaled(folder, q.transaction, seen) && IsValidRecord(seen) && !seen.state.IsTerminal()
    requires Consistent(q, before, files, Chained(folder, q.transaction))
    requires VerdictOn(root, q.transaction, seen, files) == OutputWasCommitted
    requires MayCloseCommitted(q.transaction, seen, folder, folder')
    ensures Consistent(q, before, files, Chained(folder', q.transaction))
    ensures Chained(folder, q.transaction).Latest? && IsBelow(q.rootPath, q.sourcePath)
    ensures Committed(q, before, files, Chained(folder, q.transaction).record.stageIdentity)
  {
    hide Chained, Read, IsJournaled, VerdictOn, IsValidRecord, IsValidSuccessor, Consistent, Committed;
    SeenStatesTheFacts(folder, q.transaction, seen);
    var latest := Chained(folder, q.transaction).record;
    RecordIsBelow(q, before, files, latest);
    ProvedIsCommitted(q, before, files, root, seen, latest);
    var committed := Continuation(seen, OutputCommitted);
    if seen.state == OutputCommitted {
      ClosingAttemptKeepsMeaning(q, before, files, seen, OwnedStagingArtifactsCleaned, folder, folder');
    } else if IsAttempt(folder, folder', q.transaction, committed) {
      ClosingAttemptKeepsMeaning(q, before, files, seen, OutputCommitted, folder, folder');
    } else {
      var middle := Extended(folder, committed);
      ClosingAttemptKeepsMeaning(q, before, files, seen, OutputCommitted, folder, middle);
      ClosingAttemptKeepsMeaning(q, before, files, committed, OwnedStagingArtifactsCleaned, middle, folder');
    }
  }

  /** Nothing has changed, or the stage of a save that committed nothing is gone. */
  predicate AtMostStageRemoved(q: Request, before: Files, files: Files, files': Files) {
    || files' == files
    || (IsBelow(q.rootPath, q.sourcePath) && files' == files - {q.StagePath()}
        && Uncommitted(q, before, files) && Uncommitted(q, before, files'))
  }

  /** One recovery with any faults, cut off anywhere, keeps what the chain says of the files; it
      never changes whether the commit has happened, and a completed one reports which. */
  lemma StepKeepsMeaning(q: Request, before: Files, root: Root, report: Report,
                         files: Files, folder: Folder, files': Files, folder': Folder)
    requires Consistent(q, before, files, Chained(folder, q.transaction))
    requires IsRecoveryStep(root, q.transaction, report, files, folder, files', folder')
    ensures Consistent(q, before, files', Chained(folder', q.transaction))
    ensures AtMostStageRemoved(q, before, files, files')
    ensures report.Recovered? ==>
              && IsBelow(q.rootPath, q.sourcePath)
              && (report.outcome == OriginalPreservedOutcome <==> Uncommitted(q, before, files))
  {
    hide Chained, Read, IsJournaled, VerdictOn, IsValidRecord, IsAttempt, Consistent, Committed, Uncommitted;
    if report.Recovered? || files' != files || folder' != folder {
      var seen :| IsActionOn(root, q.transaction, seen, report, files, folder, files', folder');
      match VerdictOn(root, q.transaction, seen, files)
      case OutputWasCommitted =>
        ClosingKeepsMeaning(q, before, root, seen, files, folder, folder');
        CommitIsNotUndone(q, before, files, Chained(folder, q.transaction).record);
      case OriginalWasPreserved(_) =>
        AbandoningKeepsMeaning(q, before, root, seen, files, folder, files', folder');
      case _ =>
    }
  }

  lemma CommitIsNotUndone(q: Request, before: Files, files: Files, r: Record)
    requires Consistent(q, before, files, Latest(r)) && Committed(q, before, files, r.stageIdentity)
    ensures !Uncommitted(q, before, files)
  {
    CommittedIsNotUncommitted(q, before, files, r);
  }

  /** A folder whose first publication never finished stays as it is, whatever recovery is tried on
      it, and is reported as a conflict every time. */
  lemma UnopenedStaysUnopened(root: Root, id: TransactionId, report: Report,
                              files: Files, folder: Folder, files': Files, folder': Folder)
    requires Chained(folder, id) == Nothing && IsRecoveryStep(root, id, report, files, folder, files', folder')
    ensures files' == files && folder' == folder && !report.Recovered?
    ensures FoundReport(root, id, folder, files) == ConflictFound
  {
    if seen :| IsActionOn(root, id, seen, report, files, folder, files', folder') {
      SeenStatesTheFacts(folder, id, seen);
    }
  }

  lemma ClosingKeepsWhole(id: TransactionId, seen: Record, folder: Folder, folder': Folder)
    requires IsWhole(folder, id) && MayCloseCommitted(id, seen, folder, folder')
    ensures IsWhole(folder', id) && folder'.pending <= folder.pending + 1
  {
    hide Read, IsWhole, CanExtend;
    var committed := Continuation(seen, OutputCommitted);
    if seen.state == OutputCommitted {
      AttemptIsChained(folder, folder', id, Continuation(seen, OwnedStagingArtifactsCleaned));
    } else if IsAttempt(folder, folder', id, committed) {
      AttemptIsChained(folder, folder', id, committed);
    } else {
      AttemptIsChained(folder, Extended(folder, committed), id, committed);
      AttemptIsChained(Extended(folder, committed), folder', id, Continuation(committed, OwnedStagingArtifactsCleaned));
    }
  }

  /** One recovery leaves a whole folder whole, with at most one more pending file. */
  lemma StepKeepsWhole(root: Root, id: TransactionId, report: Report,
                       files: Files, folder: Folder, files': Files, folder': Folder)
    requires IsWhole(folder, id) && IsRecoveryStep(root, id, report, files, folder, files', folder')
    ensures IsWhole(folder', id) && folder'.pending <= folder.pending + 1
  {
    hide Read, IsWhole, CanExtend, IsJournaled, VerdictOn, IsValidRecord;
    if folder' != folder {
      var seen :| IsActionOn(root, id, seen, report, files, folder, files', folder');
      match VerdictOn(root, id, seen, files)
      case OutputWasCommitted => ClosingKeepsWhole(id, seen, folder, folder');
      case OriginalWasPreserved(_) =>
        AttemptIsChained(folder, folder', id, Continuation(seen, TransactionAbandonedBeforeCommit));
      case _ =>
    }
  }
}
