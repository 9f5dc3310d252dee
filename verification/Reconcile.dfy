/** Recovery as it runs: observations one native call at a time, then the closing effects. */
module Reconcile {
  import opened Options
  import opened Native
  import opened Journal
  import opened Storage
  import opened JournalStore
  import opened World
  import opened Recovery
  import opened RecoverySteps

  /** An observation that may have been cancelled. */
  datatype Seen<+T> = Seen(value: T) | Interrupted

  /** Length and digest of a file; a failed read is an exception here, a cancelled one is not. */
  method ReadContent(storage: NativeStorage, path: Path) returns (c: Try<Seen<Revision>>)
    modifies storage`files, storage`lastCapture
    ensures storage.quiet ==> storage.files == old(storage.files)
    ensures c.Done? && c.value.Seen? ==> path in storage.files && c.value.value == storage.files[path].Revised()
    ensures storage.reliable && storage.quiet && path in storage.files ==> c.Done? && c.value.Seen?
  {
    var capture :- storage.CaptureRevision(path);
    return match capture
      case Captured(revision) => Done(Seen(revision))
      case NotCaptured(error) => if error == CaptureCancelled then Done(Interrupted) else Threw(OtherNative);
  }

  predicate HasContent(revision: Revision, length: nat, sha256: Digest) {
    revision.length == length && revision.sha256 == sha256
  }

  method ObserveBackup(storage: NativeStorage, root: Root, r: Record) returns (c: Try<Seen<bool>>)
    requires IsValidRecord(r) && IsBelow(root.path, r.sourcePath) && IsBelow(OutputRoot(root.path), Parent(r.stagePath))
    modifies storage`files, storage`lastCapture
    ensures storage.quiet ==> storage.files == old(storage.files)
    ensures storage.quiet && c.Done? && c.value.Seen? ==> c.value.value == IsBackupIntact(root, r, storage.files)
    ensures storage.reliable && storage.quiet ==>
              (c.Done? && c.value.Seen?) || (c.Threw? && !IsBackupIntact(root, r, storage.files))
  {
    var identity :- storage.Inspect(r.backupPath);
    if r.backupPath != BackupRoot(root.path) + [BatchOf(root, r)] + r.sourcePath[|root.path|..]
       || r.backupIdentity != Some(identity)
       || r.backupIdentity == Some(r.sourceIdentity) || r.backupIdentity == Some(r.stageIdentity) {
      return Done(Seen(false));
    }
    var content :- ReadContent(storage, r.backupPath);
    return if content.Interrupted? then Done(Interrupted)
           else Done(Seen(HasContent(content.value, r.sourceRevision.length, r.sourceRevision.sha256)));
  }

  /** Whether the file at a copy's destination is this transaction's output. */
  method ObserveDestination(storage: NativeStorage, r: Record) returns (c: Try<Seen<bool>>)
    modifies storage`files, storage`lastCapture
    ensures storage.quiet ==> storage.files == old(storage.files)
    ensures storage.quiet && c.Done? && c.value.Seen? ==>
              r.destinationPath in storage.files && c.value.value == IsTransformed(r, storage.files[r.destinationPath])
    ensures storage.reliable && storage.quiet && r.destinationPath in storage.files ==> c.Done? && c.value.Seen?
  {
    var identity :- storage.Inspect(r.destinationPath);
    var content :- ReadContent(storage, r.destinationPath);
    return if content.Interrupted? then Done(Interrupted)
           else Done(Seen(identity == r.stageIdentity && HasContent(content.value, r.outputLength, r.outputSha256)));
  }

  method ObserveStage(storage: NativeStorage, r: Record) returns (c: Try<Seen<bool>>)
    modifies storage`files, storage`lastCapture
    ensures storage.quiet ==> storage.files == old(storage.files)
    ensures storage.quiet && c.Done? && c.value.Seen? ==>
              r.stagePath in storage.files && c.value.value == IsOwnedStage(r, storage.files[r.stagePath])
    ensures storage.reliable && storage.quiet && r.stagePath in storage.files ==> c.Done? && c.value.Seen?
  {
    var identity :- storage.Inspect(r.stagePath);
    if identity != r.stageIdentity || r.stageIdentity == r.sourceIdentity || r.backupIdentity == Some(r.stageIdentity) {
      return Done(Seen(false));
    }
    if r.state == TransactionInitialized {
      return Done(Seen(true));
    }
    var content :- ReadContent(storage, r.stagePath);
    return if content.Interrupted? then Done(Interrupted)
           else Done(Seen(HasContent(content.value, r.outputLength, r.outputSha256)));
  }

  /** The states in which a verdict may be acted on. */
  predicate IsActionable(r: Record, v: Verdict) {
    && (v == OutputWasCommitted ==>
          r.state.Index() >= (if r.disposition == ReplaceOriginalWithVerifiedBackup
                              then VerifiedBackupCreated else StagedOutputHashVerified).Index())
    && (v.OriginalWasPreserved? ==> r.state.Index() < OutputCommitted.Index())
  }

  /** The observations behind `VerdictOnArtifacts`, in the order in which they are made. */
  method ObserveArtifacts(storage: NativeStorage, r: Record, sourceIdentity: Identity) returns (v: Try<Seen<Verdict>>)
    requires !r.state.IsTerminal()
    requires storage.quiet ==> r.sourcePath in storage.files && sourceIdentity == storage.files[r.sourcePath].identity
    modifies storage`files, storage`lastCapture
    ensures storage.quiet ==> storage.files == old(storage.files)
    ensures v.Done? && v.value.Seen? ==> IsActionable(r, v.value.value)
    ensures storage.quiet && v.Done? && v.value.Seen? ==> v.value.value == VerdictOnArtifacts(r, storage.files)
    ensures storage.reliable && storage.quiet ==> v.Done? && v.value.Seen?
  {
    var content :- ReadContent(storage, r.sourcePath);
    if content.Interrupted? {
      return Done(Interrupted);
    }
    var captured := HasContent(content.value, r.sourceRevision.length, r.sourceRevision.sha256);
    var transformed := HasContent(content.value, r.outputLength, r.outputSha256);
    if captured && transformed {
      return Done(Seen(Conflicting));
    }
    var stagePresent :- storage.TryGetItem(r.stagePath);
    var preserved := captured && sourceIdentity == r.sourceIdentity;
    var replacement := r.disposition != CreateCorrectedCopy;
    var retains := r.disposition == ReplaceOriginalWithVerifiedBackup;
    var committed :=
      replacement && transformed && sourceIdentity == r.stageIdentity && (!retains || r.backupPath != []);
    if !replacement {
      var present :- storage.TryGetItem(r.destinationPath);
      if present {
        var output :- ObserveDestination(storage, r);
        if output.Interrupted? {
          return Done(Interrupted);
        }
        if !preserved || !output.value {
          return Done(Seen(Conflicting));
        }
        committed := true;
      }
    }
    if committed {
      return Done(Seen(
        if stagePresent
           || r.state.Index() < (if retains then VerifiedBackupCreated else StagedOutputHashVerified).Index()
        then Conflicting else OutputWasCommitted));
    }
    if !preserved || r.state == OutputCommitted || r.state == OwnedStagingArtifactsCleaned
       || (!replacement && !stagePresent && r.state == StagedOutputHashVerified) {
      return Done(Seen(Conflicting));
    }
    if stagePresent {
      var owned :- ObserveStage(storage, r);
      if owned.Interrupted? {
        return Done(Interrupted);
      }
      if !owned.value {
        return Done(Seen(Conflicting));
      }
    }
    return Done(Seen(OriginalWasPreserved(stagePresent)));
  }

  method Observe(storage: NativeStorage, root: Root, id: TransactionId, r: Record) returns (v: Try<Seen<Verdict>>)
    requires IsValidRecord(r)
    modifies storage`files, storage`lastCapture
    ensures storage.quiet ==> storage.files == old(storage.files)
    ensures v.Done? && v.value.Seen? ==> IsActionable(r, v.value.value)
    ensures v == Done(Seen(OutputWasCommitted)) ==> !r.state.IsTerminal()
    ensures storage.quiet && v.Done? && v.value.Seen? ==> v.value.value == VerdictOn(root, id, r, storage.files)
    ensures storage.reliable && storage.quiet ==>
              (v.Done? && v.value.Seen?) || (v.Threw? && VerdictOn(root, id, r, storage.files) == Conflicting)
  {
    if r.state.IsTerminal() {
      return Done(Seen(AlreadyClosed));
    }
    if r.rootIdentity != root.identity && r.rootPath != root.path {
      return Done(Seen(AnotherRoot));
    }
    if r.rootIdentity != root.identity || r.rootPath != root.path {
      return Done(Seen(Conflicting));
    }
    var identity :- storage.Inspect(r.sourcePath);
    if !IsPlaced(root, id, r) {
      return Done(Seen(Conflicting));
    }
    if r.backupPath != [] {
      var backup :- ObserveBackup(storage, root, r);
      if backup.Interrupted? {
        return Done(Interrupted);
      }
      if !backup.value {
        return Done(Seen(Conflicting));
      }
    }
    v := ObserveArtifacts(storage, r, identity);
  }

  /** A continuation of `seen` that could be appended shows that `seen` was current, and is then read. */
  lemma AppendedContinuation(f: Folder, id: TransactionId, seen: Record, state: State)
    requires IsValidRecord(seen) && !seen.state.IsTerminal() && state != VerifiedBackupCreated
    requires CanExtend(f, id, Continuation(seen, state))
    ensures Read(f, id) == Latest(seen)
    ensures IsClosedAs(Extended(f, Continuation(seen, state)), id, seen, state)
  {
    hide IsValidRecord, IsValidSuccessor, Read, Chained;
    var next := Continuation(seen, state);
    ContinuationIsCurrent(f, id, seen, next);
    ExtensionIsRead(f, id, next, f.pending);
    AttemptIsChained(f, Extended(f, next), id, next);
    ReadIsEnumerable(f, id);
  }

  lemma ReadIsEnumerable(f: Folder, id: TransactionId)
    requires Read(f, id).Latest?
    ensures IsEnumerable(f)
  {
  }

  lemma ContinuationIsCurrent(f: Folder, id: TransactionId, seen: Record, next: Record)
    requires IsValidRecord(seen) && !seen.state.IsTerminal() && next == Continuation(seen, next.state)
    requires next.state != VerifiedBackupCreated && CanExtend(f, id, next)
    ensures Read(f, id) == Latest(seen)
  {
    LatestIsValid(f, id);
    ContinuationIdentifies(Read(f, id).record, seen, next);
  }

  /** Publish the continuation of what was read. Completion proves that the reading was current. */
  method PublishContinuation(journal: ImageFileTransactionJournal, seen: Record, state: State) returns (r: Try<Unit>)
    requires journal.transaction in journal.storage.folders && journal.Folder().Valid()
    requires IsValidRecord(seen) && !seen.state.IsTerminal() && state != VerifiedBackupCreated
    requires seen.transaction == journal.transaction
    modifies journal.storage`folders
    ensures var next := Continuation(seen, state);
            && journal.MayHavePublished(old(journal.storage.folders), journal.storage.folders, next)
            && journal.Folder().Valid()
            && (r.Done? ==>
                  && CanExtend(old(journal.Folder()), journal.transaction, next)
                  && Read(old(journal.Folder()), journal.transaction) == Latest(seen)
                  && journal.Folder() == Extended(old(journal.Folder()), next)
                  && IsClosedAs(journal.Folder(), journal.transaction, seen, state))
            && (journal.storage.reliable ==>
                  !r.Crash? && (r.Done? <==> CanExtend(old(journal.Folder()), journal.transaction, next)))
  {
    hide Read, IsValidRecord, CanExtend, IsClosedAs;
    ghost var f := journal.Folder();
    r := journal.Publish(Continuation(seen, state));
    if r.Done? {
      AppendedContinuation(f, journal.transaction, seen, state);
    }
  }

  /** Journal effects of recovery only ever append to one folder. */
  ghost predicate FoldersGrow(before: map<TransactionId, Folder>, after: map<TransactionId, Folder>, id: TransactionId)
  {
    && id in before && id in after && after == before[id := after[id]]
    && after[id].Valid()
    && forall g | g in before[id].generations ::
         g in after[id].generations && after[id].generations[g] == before[id].generations[g]
  }

  /** The chain ends with a later state of `seen`, and within the bound that is what a reader finds. */
  ghost predicate IsClosedAs(folder: Folder, id: TransactionId, seen: Record, state: State) {
    && Chained(folder, id).Latest?
    && Chained(folder, id).record == seen.(generation := Chained(folder, id).record.generation, state := state)
    && (folder.FileCount() <= MAXIMUM_FOLDER_FILES ==> Read(folder, id) == Chained(folder, id))
  }

  /** The record that ends a committed save. */
  method PublishClosing(journal: ImageFileTransactionJournal, committed: Record) returns (r: Try<Unit>)
    requires journal.transaction in journal.storage.folders && journal.Folder().Valid()
    requires IsValidRecord(committed) && committed.transaction == journal.transaction
             && committed.state == OutputCommitted
    modifies journal.storage`folders
    ensures journal.MayHavePublished(old(journal.storage.folders), journal.storage.folders,
                                     Continuation(committed, OwnedStagingArtifactsCleaned))
    ensures journal.Folder().Valid()
    ensures r.Done? ==>
              && Read(old(journal.Folder()), journal.transaction) == Latest(committed)
              && IsClosedAs(journal.Folder(), journal.transaction, committed, OwnedStagingArtifactsCleaned)
    ensures journal.storage.reliable ==>
              && !r.Crash?
              && (r.Done? <==> CanExtend(old(journal.Folder()), journal.transaction,
                                         Continuation(committed, OwnedStagingArtifactsCleaned)))
  {
    hide Read, IsTidy, IsValidSuccessor, IsStorablePath, IsClosedAs;
    NextMilestoneFollows(committed, Continuation(committed, OwnedStagingArtifactsCleaned));
    r := PublishContinuation(journal, committed, OwnedStagingArtifactsCleaned);
  }

  lemma FoldersGrowByAttempts(before: map<TransactionId, Folder>, middle: map<TransactionId, Folder>,
                              after: map<TransactionId, Folder>, id: TransactionId, record: Record)
    requires id in before && before[id].Valid() && id in after && after[id].Valid()
    requires FoldersGrow(before, middle, id)
    requires after == middle[id := after[id]] && IsAttempt(middle[id], after[id], id, record)
    ensures FoldersGrow(before, after, id)
  {
  }

  method CloseCommitted(journal: ImageFileTransactionJournal, seen: Record) returns (r: Try<Unit>)
    requires journal.transaction in journal.storage.folders && journal.Folder().Valid()
    requires IsValidRecord(seen) && seen.transaction == journal.transaction && !seen.state.IsTerminal()
    requires seen.state.Index() >= (if seen.disposition == ReplaceOriginalWithVerifiedBackup
                                    then VerifiedBackupCreated else StagedOutputHashVerified).Index()
    modifies journal.storage`folders
    ensures FoldersGrow(old(journal.storage.folders), journal.storage.folders, journal.transaction)
    ensures MayCloseCommitted(journal.transaction, seen, old(journal.Folder()), journal.Folder())
    ensures r.Done? ==>
              && Read(old(journal.Folder()), journal.transaction) == Latest(seen)
              && IsClosedAs(journal.Folder(), journal.transaction, seen, OwnedStagingArtifactsCleaned)
    ensures journal.storage.reliable ==>
              && !r.Crash?
              && (Read(old(journal.Folder()), journal.transaction) == Latest(seen) ==>
                    (r.Done? <==> CanFinish(seen, OutputWasCommitted, old(journal.Folder()))))
  {
    hide Read, IsTidy, IsValidRecord, IsValidSuccessor, CanExtend;
    ghost var folders, f := journal.storage.folders, journal.Folder();
    if Read(f, journal.transaction) == Latest(seen) {
      ClosingIsAdmitted(f, journal.transaction, seen);
    }
    var committed := seen;
    if seen.state != OutputCommitted {
      committed := Continuation(seen, OutputCommitted);
      NextMilestoneFollows(seen, committed);
      var published := PublishContinuation(journal, seen, OutputCommitted);
      FoldersGrowByAttempts(folders, folders, journal.storage.folders, journal.transaction, committed);
      if !published.Done? {
        return published;
      }
      ExtensionIsValid(f, journal.transaction, committed);
    }
    ghost var middle := journal.storage.folders;
    r := PublishClosing(journal, committed);
    FoldersGrowByAttempts(folders, middle, journal.storage.folders, journal.transaction,
                          Continuation(committed, OwnedStagingArtifactsCleaned));
  }

  lemma ExtensionIsValid(f: Folder, id: TransactionId, next: Record)
    requires CanExtend(f, id, next)
    ensures IsValidRecord(next)
  {
  }

  /** The publications that close a committed save are admitted exactly when the verdict can be finished. */
  lemma ClosingIsAdmitted(f: Folder, id: TransactionId, seen: Record)
    requires Read(f, id) == Latest(seen) && IsValidRecord(seen) && !seen.state.IsTerminal()
    requires seen.state.Index() >= (if seen.disposition == ReplaceOriginalWithVerifiedBackup
                                    then VerifiedBackupCreated else StagedOutputHashVerified).Index()
    ensures var committed := Continuation(seen, OutputCommitted);
            var current := if seen.state == OutputCommitted then seen else committed;
            var last := Continuation(current, OwnedStagingArtifactsCleaned);
            CanFinish(seen, OutputWasCommitted, f) <==>
              if seen.state == OutputCommitted then CanExtend(f, id, last)
              else CanExtend(f, id, committed) && CanExtend(Extended(f, committed), id, last)
  {
    LatestIsValid(f, id);
    if seen.state == OutputCommitted {
      var last := Continuation(seen, OwnedStagingArtifactsCleaned);
      NextMilestoneFollows(seen, last);
      SuccessorCanExtend(f, id, seen, last);
    } else {
      var committed := Continuation(seen, OutputCommitted);
      NextMilestoneFollows(seen, committed);
      SuccessorCanExtend(f, id, seen, committed);
      var last := Continuation(committed, OwnedStagingArtifactsCleaned);
      NextMilestoneFollows(committed, last);
      if CanExtend(f, id, committed) {
        SecondCanExtend(f, id, committed, last);
      }
    }
  }

  /** The abandonment is admitted exactly when its name is free. */
  lemma AbandonmentIsAdmitted(f: Folder, id: TransactionId, seen: Record)
    requires Read(f, id) == Latest(seen) && seen.state.Index() < OutputCommitted.Index()
    ensures CanExtend(f, id, Continuation(seen, TransactionAbandonedBeforeCommit)) <==>
              seen.generation + 1 !in f.generations
  {
    LatestIsValid(f, id);
    AbandonmentFollows(seen);
    SuccessorCanExtend(f, id, seen, Continuation(seen, TransactionAbandonedBeforeCommit));
  }

  /** Delete the stage only under the identity that the journal bound to it. */
  method RemoveOwnedStage(storage: NativeStorage, r: Record) returns (c: Try<Unit>)
    modifies storage`files, storage`lastCapture
    ensures storage.quiet ==>
              storage.files == old(storage.files) ||
              (r.stagePath in old(storage.files) && old(storage.files)[r.stagePath].identity == r.stageIdentity
               && storage.files == old(storage.files) - {r.stagePath})
    ensures storage.quiet && c.Done? ==> storage.files == old(storage.files) - {r.stagePath}
    ensures (storage.reliable && storage.quiet && r.stagePath in old(storage.files)
             && old(storage.files)[r.stagePath].identity == r.stageIdentity) ==> c.Done?
  {
    var proof := storage.Inspect(r.stagePath);
    if proof == Threw(FileNotFound) {
      assert storage.quiet ==> storage.files == old(storage.files) - {r.stagePath};
      return Done(Unit);
    }
    var identity :- proof;
    if identity != r.stageIdentity {
      return Threw(InvalidData);
    }
    c := storage.DeleteByHandle(r.stagePath, identity);
  }

  /** Only a journaled stage, under its recorded identity, may disappear, and only beside the
      journaled original itself. */
  ghost predicate MayRemove(folder: Folder, id: TransactionId, files: Files, path: Path) {
    path in files && path != [] && FileName(path) == StageName(id) &&
    exists r :: IsJournaled(folder, id, r) && IsSpare(r, files, path)
  }

  predicate IsSpare(r: Record, files: Files, path: Path)
    requires path in files
  {
    && r.stagePath == path && files[path].identity == r.stageIdentity
    && r.sourcePath in files && IsPreserved(r, files[r.sourcePath])
    && path != r.sourcePath && (r.backupPath != [] ==> path != r.backupPath)
  }

  /** What a reported recovery proves: the evidence in the files as they were, and no stage left. */
  ghost predicate IsProved(folder: Folder, id: TransactionId, outcome: RecoveryOutcome, before: Files, after: Files) {
    match Read(folder, id)
    case Latest(r) =>
      && r.stagePath !in after
      && (match outcome
          case OriginalPreservedOutcome => r.sourcePath in before && IsPreserved(r, before[r.sourcePath])
          case OutputCommittedOutcome => r.destinationPath in before && IsTransformed(r, before[r.destinationPath]))
    case _ => false
  }

  function ClosingState(outcome: RecoveryOutcome): State {
    if outcome == OutputCommittedOutcome then OwnedStagingArtifactsCleaned else TransactionAbandonedBeforeCommit
  }

  /** The transaction's latest record is now the closing continuation of what it was. */
  ghost predicate IsClosedFrom(before: Folder, after: Folder, id: TransactionId, outcome: RecoveryOutcome) {
    match Read(before, id)
    case Latest(r) => IsClosedAs(after, id, r, ClosingState(outcome))
    case _ => false
  }

  /** Close a transaction whose original was proved: remove the stage, publish the abandonment. */
  method Abandon(journal: ImageFileTransactionJournal, seen: Record, stageLeft: bool) returns (r: Try<Unit>)
    requires journal.transaction in journal.storage.folders && journal.Folder().Valid()
    requires IsValidRecord(seen) && seen.transaction == journal.transaction
             && seen.state.Index() < OutputCommitted.Index()
    requires journal.storage.quiet ==>
               && (stageLeft <==> seen.stagePath in journal.storage.files)
               && (stageLeft ==> journal.storage.files[seen.stagePath].identity == seen.stageIdentity)
    modifies journal.storage`files, journal.storage`lastCapture, journal.storage`folders
    ensures FoldersGrow(old(journal.storage.folders), journal.storage.folders, journal.transaction)
    ensures journal.transaction in journal.storage.folders
    ensures journal.storage.quiet ==>
              MayAbandon(journal.transaction, seen, old(journal.storage.files), old(journal.Folder()),
                         journal.storage.files, journal.Folder())
    ensures journal.storage.quiet && r.Done? ==> seen.stagePath !in journal.storage.files
    ensures r.Done? ==>
              && Read(old(journal.Folder()), journal.transaction) == Latest(seen)
              && IsClosedAs(journal.Folder(), journal.transaction, seen, TransactionAbandonedBeforeCommit)
    ensures journal.storage.reliable && journal.storage.quiet ==>
              && !r.Crash?
              && journal.storage.files == old(journal.storage.files) - {seen.stagePath}
              && (Read(old(journal.Folder()), journal.transaction) == Latest(seen) ==>
                    (r.Done? <==> seen.generation + 1 !in old(journal.Folder()).generations))
  {
    hide Read, IsTidy, IsValidRecord, IsValidSuccessor, CanExtend, IsClosedAs;
    ghost var folders, f := journal.storage.folders, journal.Folder();
    if Read(f, journal.transaction) == Latest(seen) {
      AbandonmentIsAdmitted(f, journal.transaction, seen);
    }
    if stageLeft {
      var _ :- RemoveOwnedStage(journal.storage, seen);
    }
    AbandonmentFollows(seen);
    ghost var abandoned := Continuation(seen, TransactionAbandonedBeforeCommit);
    r := PublishContinuation(journal, seen, TransactionAbandonedBeforeCommit);
    FoldersGrowByAttempts(folders, folders, journal.storage.folders, journal.transaction, abandoned);
  }

  /** What one folder's recovery may change, and what its report then proves. */
  ghost predicate IsSoundReport(
    id: TransactionId, report: Report, quiet: bool,
    files: Files, folders: map<TransactionId, Folder>, files': Files, folders': map<TransactionId, Folder>)
    requires id in folders
  {
    && FoldersGrow(folders, folders', id)
    && (quiet ==>
          && OnlyRemoved(files, files')
          && forall p | p in files && p !in files' :: MayRemove(folders[id], id, files, p))
    && (report.Recovered? ==>
          && IsClosedFrom(folders[id], folders'[id], id, report.outcome)
          && (quiet ==> IsProved(folders[id], id, report.outcome, files, files')))
  }

  lemma StageRemovalIsAllowed(folder: Folder, id: TransactionId, seen: Record, before: Files, after: Files)
    requires IsJournaled(folder, id, seen) && seen.stagePath != [] && FileName(seen.stagePath) == StageName(id)
    requires seen.stagePath in before ==> IsSpare(seen, before, seen.stagePath)
    requires after == before || after == before - {seen.stagePath}
    ensures OnlyRemoved(before, after)
    ensures forall p | p in before && p !in after :: MayRemove(folder, id, before, p)
  {
  }

  method ActOnCommitted(journal: ImageFileTransactionJournal, root: Root, seen: Record) returns (report: Report)
    requires journal.transaction in journal.storage.folders && journal.Folder().Valid()
    requires IsValidRecord(seen) && seen.transaction == journal.transaction && !seen.state.IsTerminal()
    requires IsJournaled(journal.Folder(), journal.transaction, seen)
    requires IsActionable(seen, OutputWasCommitted)
    requires journal.storage.quiet ==>
               VerdictOn(root, journal.transaction, seen, journal.storage.files) == OutputWasCommitted
    modifies journal.storage`folders
    ensures IsSoundReport(journal.transaction, report, journal.storage.quiet,
                          old(journal.storage.files), old(journal.storage.folders),
                          journal.storage.files, journal.storage.folders)
    ensures journal.storage.quiet ==>
              IsRecoveryStep(root, journal.transaction, report, old(journal.storage.files), old(journal.Folder()),
                             journal.storage.files, journal.Folder())
    ensures journal.storage.reliable && Read(old(journal.Folder()), journal.transaction) == Latest(seen) ==>
              report == FinishedReport(seen, OutputWasCommitted, old(journal.Folder()))
  {
    hide Read, IsTidy, VerdictOn, IsValidRecord, IsJournaled, MayCloseCommitted;
    if journal.storage.quiet {
      CommitIsProved(root, journal.transaction, seen, journal.storage.files);
    }
    ghost var folder := journal.Folder();
    var closed := CloseCommitted(journal, seen);
    report := if closed.Done? then Recovered(OutputCommittedOutcome)
              else if closed.Crash? then Stopped else ConflictFound;
    assert journal.storage.quiet ==>
             IsActionOn(root, journal.transaction, seen, report, journal.storage.files, folder,
                        journal.storage.files, journal.Folder());
  }

  method ActOnPreserved(journal: ImageFileTransactionJournal, root: Root, seen: Record, stageLeft: bool)
    returns (report: Report)
    requires journal.transaction in journal.storage.folders && journal.Folder().Valid()
    requires IsValidRecord(seen) && seen.transaction == journal.transaction
    requires IsJournaled(journal.Folder(), journal.transaction, seen)
    requires IsActionable(seen, OriginalWasPreserved(stageLeft))
    requires journal.storage.quiet ==>
               VerdictOn(root, journal.transaction, seen, journal.storage.files) == OriginalWasPreserved(stageLeft)
    modifies journal.storage`files, journal.storage`lastCapture, journal.storage`folders
    ensures IsSoundReport(journal.transaction, report, journal.storage.quiet,
                          old(journal.storage.files), old(journal.storage.folders),
                          journal.storage.files, journal.storage.folders)
    ensures journal.storage.quiet ==>
              IsRecoveryStep(root, journal.transaction, report, old(journal.storage.files), old(journal.Folder()),
                             journal.storage.files, journal.Folder())
    ensures (journal.storage.reliable && journal.storage.quiet
             && Read(old(journal.Folder()), journal.transaction) == Latest(seen)) ==>
              && report == FinishedReport(seen, OriginalWasPreserved(stageLeft), old(journal.Folder()))
              && journal.storage.files == old(journal.storage.files) - {seen.stagePath}
  {
    hide Read, IsTidy, VerdictOn, IsJournaled, IsValidRecord, MayRemove, FoldersGrow, IsClosedAs, Folder.FileCount,
      OnlyRemoved;
    ghost var folder, files := journal.Folder(), journal.storage.files;
    if journal.storage.quiet {
      PreservationIsProved(root, journal.transaction, seen, journal.storage.files);
    }
    var closed := Abandon(journal, seen, stageLeft);
    if journal.storage.quiet {
      StageRemovalIsAllowed(folder, journal.transaction, seen, files, journal.storage.files);
    }
    report := if closed.Done? then Recovered(OriginalPreservedOutcome)
              else if closed.Crash? then Stopped else ConflictFound;
    assert journal.storage.quiet ==>
             IsActionOn(root, journal.transaction, seen, report, files, folder, journal.storage.files,
                        journal.Folder());
  }

  /** Carry out a verdict on the record it was reached for. */
  method ActOn(journal: ImageFileTransactionJournal, root: Root, seen: Record, verdict: Verdict)
    returns (report: Report)
    requires journal.transaction in journal.storage.folders && journal.Folder().Valid()
    requires IsValidRecord(seen) && seen.transaction == journal.transaction
    requires IsJournaled(journal.Folder(), journal.transaction, seen)
    requires IsActionable(seen, verdict) && (verdict == OutputWasCommitted ==> !seen.state.IsTerminal())
    requires journal.storage.quiet ==> verdict == VerdictOn(root, journal.transaction, seen, journal.storage.files)
    modifies journal.storage`files, journal.storage`lastCapture, journal.storage`folders
    ensures IsSoundReport(journal.transaction, report, journal.storage.quiet,
                          old(journal.storage.files), old(journal.storage.folders),
                          journal.storage.files, journal.storage.folders)
    ensures journal.storage.quiet ==>
              IsRecoveryStep(root, journal.transaction, report, old(journal.storage.files), old(journal.Folder()),
                             journal.storage.files, journal.Folder())
    ensures (journal.storage.reliable && journal.storage.quiet
             && Read(old(journal.Folder()), journal.transaction) == Latest(seen)) ==>
              && report == FinishedReport(seen, verdict, old(journal.Folder()))
              && journal.storage.files == FilesAfter(seen, verdict, old(journal.storage.files))
  {
    hide Read, IsTidy, VerdictOn, IsJournaled, IsValidRecord;
    match verdict {
      case AlreadyClosed => return NothingToDo;
      case AnotherRoot => return NothingToDo;
      case Conflicting => return ConflictFound;
      case OutputWasCommitted => report := ActOnCommitted(journal, root, seen);
      case OriginalWasPreserved(stageLeft) => report := ActOnPreserved(journal, root, seen, stageLeft);
    }
  }

  /** One journal folder: read, observe, close. */
  method ReconcileTransaction(storage: NativeStorage, root: Root, id: TransactionId) returns (report: Report)
    requires id in storage.folders && storage.folders[id].Valid()
    modifies storage`files, storage`lastCapture, storage`folders
    ensures IsSoundReport(id, report, storage.quiet, old(storage.files), old(storage.folders), storage.files,
                          storage.folders)
    ensures storage.quiet ==>
              IsRecoveryStep(root, id, report, old(storage.files), old(storage.folders)[id], storage.files,
                             storage.folders[id])
    ensures storage.reliable && storage.quiet ==>
              && report == FoundReport(root, id, old(storage.folders)[id], old(storage.files))
              && storage.files == FoundFiles(root, id, old(storage.folders)[id], old(storage.files))
  {
    hide Read, VerdictOn, IsJournaled, IsValidRecord;
    LatestIsValid(storage.folders[id], id);
    var stop := storage.StopRequested();
    if stop {
      return ReadCancelled;
    }
    var journal := new ImageFileTransactionJournal(storage, id);
    var persisted := journal.ReadLatest();
    if !persisted.Done? || persisted.value.None? {
      return if persisted.Crash? then Stopped else ConflictFound;
    }
    var seen := persisted.value.value;
    var observed := Observe(storage, root, id, seen);
    if !observed.Done? || observed.value.Interrupted? {
      return if observed.Crash? then Stopped else if observed.Threw? then ConflictFound else ReadCancelled;
    }
    report := ActOn(journal, root, seen, observed.value.value);
  }
}
