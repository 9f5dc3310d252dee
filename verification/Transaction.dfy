/** One recoverable save, from exclusive stage to terminal journal record. */
module Transaction {
  import opened Options
  import opened Native
  import opened Journal
  import opened Storage
  import opened JournalStore
  import opened World

  datatype Phase =
    | StagingFileCreation
    | TransactionRecoverabilityPreflight
    | JournalStoreLeaseAcquisition
    | SourceRevisionRevalidation
    | JournalPersistence
    | StagingWrite
    | StagedOutputVerification
    | BackupCreation
    | BackupVerification
    | OriginalReplacement
    | CorrectedCopyCommit

  datatype ErrorCode =
    | Cancelled
    | OutputValidationFailed
    | WindowsLongPathSupportUnavailable
    | StorageProviderRecoveryContractNotEstablished
    | SourceChangedAfterAnalysis
    | SourceRevisionCaptureFailed
    | StagedOutputVerificationFailed
    | StagedOutputHashMismatch
    | BackupVerificationFailed
    | OutputRelativePathCollision
    | WorkingMemoryAllocationFailed
    | NativeFailureAt(phase: Phase)
    | RecoveryConflict

  datatype Result = Saved | Failed(code: ErrorCode)

  /** What the caller sees: a result, or nothing because the process stopped. */
  datatype Outcome = Finished(result: Result) | Crashed

  /** A phase goes on, or ends the save with a failure that is already cleaned up. */
  datatype Step = Continue | Refuse(code: ErrorCode)

  /** Facts of the host that are read, never changed. */
  datatype Host = Host(longPathPolicy: bool, qualifiedFileSystems: bool, batchRootIdentity: Option<Identity>,
                       reviewedSourceIdentity: Option<Identity>)

  function TranslateFailure(error: NativeError, phase: Phase): (code: ErrorCode)
    ensures code != RecoveryConflict
  {
    match error
    case OutOfMemory => WorkingMemoryAllocationFailed
    case OperationCancelled => Cancelled
    case AlreadyExists =>
      if phase.TransactionRecoverabilityPreflight? || phase.JournalStoreLeaseAcquisition?
         || phase.SourceRevisionRevalidation?
      then NativeFailureAt(phase) else OutputRelativePathCollision
    case FileNotFound =>
      if phase.SourceRevisionRevalidation? then SourceChangedAfterAnalysis else NativeFailureAt(phase)
    case _ => NativeFailureAt(phase)
  }

  function CaptureFailure(error: CaptureError): (code: ErrorCode)
    ensures code != RecoveryConflict
  {
    match error
    case CaptureCancelled => Cancelled
    case CaptureOutOfMemory => WorkingMemoryAllocationFailed
    case CaptureFailedOtherwise => SourceRevisionCaptureFailed
  }

  /** No folder but this transaction's own has changed. */
  ghost predicate KeepsOthers(before: map<TransactionId, Folder>, after: map<TransactionId, Folder>,
                              id: TransactionId) {
    after - {id} == before - {id}
  }

  lemma OwnFolderChanges(before: map<TransactionId, Folder>, after: map<TransactionId, Folder>, id: TransactionId,
                         f: Folder)
    ensures KeepsOthers(before, before, id)
    ensures KeepsOthers(before, after, id) ==> KeepsOthers(before, after[id := f], id)
  {
  }

  class RecoverableImageFileTransaction {
    const storage: NativeStorage
    const journal: ImageFileTransactionJournal
    const request: Request
    const host: Host

    var phase: Phase
    /** The owned stage: its file handle, its identity, and whether it became the output. */
    var stageHeld: bool
    var stageIdentity: Option<Identity>
    var stageCommitted: bool
    /** The in-memory record; `None` until the journal folder exists. */
    var record: Option<Record>

    ghost const before: Files
    ghost const priorFolders: map<TransactionId, Folder>

    constructor (storage: NativeStorage, request: Request, host: Host)
      ensures this.storage == storage && this.request == request && this.host == host
      ensures before == storage.files && priorFolders == storage.folders
      ensures fresh(journal) && Started()
    {
      this.storage, this.request, this.host := storage, request, host;
      this.journal := new ImageFileTransactionJournal(storage, request.transaction);
      this.phase := StagingFileCreation;
      this.stageHeld, this.stageIdentity, this.stageCommitted := false, None, false;
      this.record := None;
      this.before, this.priorFolders := storage.files, storage.folders;
    }

    ghost predicate Started()
      reads this, storage
    {
      && phase == StagingFileCreation && !stageHeld && stageIdentity == None && !stageCommitted && record == None
      && storage.files == before && storage.folders == priorFolders
      && journal.storage == storage && journal.transaction == request.transaction
    }

    /** What a later reader of this transaction's folder finds. A folder that was there before
        belongs to somebody else. */
    ghost function Reading(): Reading
      reads storage`folders
    {
      if request.transaction in priorFolders || request.transaction !in storage.folders then Nothing
      else Read(storage.folders[request.transaction], request.transaction)
    }

    ghost predicate FolderBounded(limit: nat)
      reads storage`folders
    {
      && journal.storage == storage && journal.transaction == request.transaction
      && KeepsOthers(priorFolders, storage.folders, request.transaction)
      && (request.transaction in priorFolders ==>
            request.transaction in storage.folders
            && storage.folders[request.transaction] == priorFolders[request.transaction])
      && (request.transaction !in priorFolders && request.transaction in storage.folders ==>
            var f := storage.folders[request.transaction];
            f.Valid() && IsTidy(f, request.transaction) && f.FileCount() <= limit)
    }

    lemma BoundGrows(limit: nat, greater: nat)
      requires FolderBounded(limit) && limit <= greater
      ensures FolderBounded(greater)
    {
    }

    ghost predicate IsUncommitted()
      reads storage`files
    {
      if IsBelow(request.rootPath, request.sourcePath) then Uncommitted(request, before, storage.files)
      else storage.files == before
    }

    /** No fault, no outside writer, and nothing in the starting world in the way. */
    ghost predicate Unobstructed()
      reads storage
    {
      && storage.reliable && storage.quiet && IsFit(request, before) && request.transaction !in priorFolders
      && host.longPathPolicy && host.qualifiedFileSystems
      && (host.batchRootIdentity.Some? ==> host.batchRootIdentity.value == request.rootIdentity)
      && (host.reviewedSourceIdentity.Some? ==>
          host.reviewedSourceIdentity.value == before[request.sourcePath].identity)
    }

    /** What holds between any two native effects, whatever has failed so far. */
    ghost predicate Inv(limit: nat)
      reads this, storage
    {
      && FolderBounded(limit)
      && (Reading().Latest? ==>
            record.Some? && stageIdentity == Some(Reading().record.stageIdentity)
            && IsRecordOf(request, Reading().record))
      && (record.Some? ==>
            && request.transaction !in priorFolders && request.transaction in storage.folders
            && IsBelow(request.rootPath, request.sourcePath)
            && record.value.sourcePath == request.sourcePath)
      && (stageHeld || stageCommitted ==> IsBelow(request.rootPath, request.sourcePath))
      && (stageCommitted ==> stageIdentity.Some? && record.Some?)
      && (phase == OriginalReplacement ==> !request.IsCopy())
      && (storage.quiet ==>
            && Consistent(request, before, storage.files, Reading())
            && (record.Some? ==>
                request.sourcePath in before && record.value.sourceIdentity == before[request.sourcePath].identity)
            && (stageHeld ==> request.sourcePath in before && request.StagePath() !in before)
            && (stageCommitted ==> Committed(request, before, storage.files, stageIdentity.value))
            && (!stageCommitted && phase != CorrectedCopyCommit && phase != OriginalReplacement ==> IsUncommitted())
            && (!stageHeld ==> IsUncommitted() && (Reading().Latest? ==> request.StagePath() !in storage.files)))
    }

    /** The save is under way with every publication so far completed. */
    ghost predicate Live(state: State)
      reads this, storage
    {
      && record.Some? && record.value.state == state && Reading() == Latest(record.value)
      && record.value.generation == state.Index() + 1
      && (state.Index() < VerifiedBackupCreated.Index() ==> record.value.backupIdentity.None?)
      && stageHeld && !stageCommitted
      && Inv(record.value.generation)
      && (storage.quiet ==>
            && IsUncommitted() && request.StagePath() in storage.files
            && storage.files[request.StagePath()].identity == stageIdentity.value)
    }

    /** `next` is a first generation or one of the record's two legal continuations. */
    ghost predicate Follows(reading: Reading, next: Record) {
      match reading
      case Refused => false
      case Nothing => next.generation == 1
      case Latest(prior) => IsValidSuccessor(prior, next)
    }

    /** One publication, as a reader sees it: it either moved on to `next` or changed nothing. */
    method PublishRecord(next: Record, ghost limit: nat) returns (r: Try<Unit>)
      requires FolderBounded(limit) && limit < MAXIMUM_FOLDER_FILES
      requires request.transaction !in priorFolders && request.transaction in storage.folders
      modifies storage`folders
      ensures FolderBounded(limit + 1) && request.transaction in storage.folders
      ensures Reading() == old(Reading()) || (Reading() == Latest(next) && Follows(old(Reading()), next))
      ensures r.Done? ==> Reading() == Latest(next)
      ensures (storage.reliable && Follows(old(Reading()), next) && IsValidRecord(next)
               && next.transaction == request.transaction) ==> r.Done?
    {
      ghost var folders, f := storage.folders, storage.folders[request.transaction];
      if Follows(Reading(), next) && IsValidRecord(next) && next.transaction == request.transaction {
        TidyCanExtend(f, request.transaction, next);
      }
      r := journal.Publish(next);
      OwnFolderChanges(priorFolders, folders, request.transaction, storage.folders[request.transaction]);
      AttemptIsRead(f, storage.folders[request.transaction], request.transaction, next);
    }

    /** Delete exactly the owned stage. A missing stage is harmless before the commit effect was
        attempted; after it, absence may mean that the commit happened. */
    method RemoveStage(rejectMissingStage: bool, ghost limit: nat) returns (r: Try<Unit>)
      requires Inv(limit)
      requires storage.quiet && !rejectMissingStage && !stageCommitted ==> IsUncommitted()
      modifies this`stageHeld, storage`files, storage`lastCapture
      ensures Inv(limit)
      ensures r.Done? && !stageCommitted ==> !stageHeld
      ensures stageCommitted ==> stageHeld == old(stageHeld)
      ensures storage.quiet ==> old(IsUncommitted()) ==> IsUncommitted()
    {
      if !stageHeld || stageCommitted {
        return Done(Unit);
      }
      var path := request.StagePath();
      var proof := storage.Inspect(path);
      if proof == Threw(FileNotFound) && !rejectMissingStage {
        stageHeld := false;
        return Done(Unit);
      }
      var identity :- proof;
      if stageIdentity != Some(identity) {
        return Threw(InvalidData);
      }
      ghost var files := storage.files;
      var deleted := storage.DeleteByHandle(path, identity);
      if storage.quiet {
        StageRemoved(request, before, files, files - {path}, Reading());
      }
      if !deleted.Done? {
        return deleted;
      }
      stageHeld := false;
      return Done(Unit);
    }

    /** After an attempted replacement, require the full reviewed revision and identity at the
        recorded source path. */
    method ReobserveOriginal(ghost limit: nat) returns (r: Try<Unit>)
      requires Inv(limit) && phase == OriginalReplacement && !stageCommitted
      modifies storage`files, storage`lastCapture
      ensures Inv(limit) && (storage.quiet ==> storage.files == old(storage.files))
      ensures r.Done? && storage.quiet ==> IsUncommitted()
    {
      if record.None? {
        return Threw(InvalidData);
      }
      var identity :- storage.Inspect(record.value.sourcePath);
      var capture :- storage.CaptureRevision(record.value.sourcePath);
      if capture != Captured(request.revision) || identity != record.value.sourceIdentity {
        return Threw(InvalidData);
      }
      if storage.quiet {
        OriginalObserved(request, before, storage.files, Reading());
      }
      return Done(Unit);
    }

    /** Close a transaction that committed nothing. An unpublished first generation is left alone. */
    method PublishAbandonment(ghost limit: nat) returns (r: Try<Unit>)
      requires Inv(limit) && limit < MAXIMUM_FOLDER_FILES
      requires record.Some? && !stageHeld && !stageCommitted && (storage.quiet ==> IsUncommitted())
      modifies storage`folders
      ensures Inv(limit + 1)
      ensures r.Done? && Reading().Latest? ==> Reading().record.state == TransactionAbandonedBeforeCommit
    {
      hide Read, IsTidy, IsJournaled, Consistent, IsBelow, KeepsOthers;
      var persisted :- journal.ReadLatest();
      if persisted.None? || persisted.value.state == TransactionAbandonedBeforeCommit {
        return Done(Unit);
      }
      if persisted.value.state.Index() >= OutputCommitted.Index() {
        return Threw(InvalidData);
      }
      var abandoned := persisted.value.(generation := persisted.value.generation + 1,
                                        state := TransactionAbandonedBeforeCommit);
      ghost var reading := Reading();
      r := PublishRecord(abandoned, limit);
      if Reading() != reading && storage.quiet {
        AbandonmentExplained(request, before, storage.files, reading.record, abandoned);
      }
    }

    /** Remove the owned stage and close the journal with an abandonment. After an attempted
        replacement the reviewed original must first be observed again at its path. */
    method CleanupAndAbandon(rejectMissingStage: bool, ghost limit: nat) returns (r: Try<Unit>)
      requires Inv(limit) && limit < MAXIMUM_FOLDER_FILES
      requires storage.quiet && !rejectMissingStage && phase != OriginalReplacement && !stageCommitted ==>
                 IsUncommitted()
      modifies this`stageHeld, storage`files, storage`lastCapture, storage`folders
      ensures Inv(limit + 1)
      ensures r.Done? && !stageCommitted ==> !stageHeld
      ensures r.Done? && !stageCommitted && Reading().Latest? ==>
                Reading().record.state == TransactionAbandonedBeforeCommit
    {
      if phase == OriginalReplacement && !stageCommitted {
        var _ :- ReobserveOriginal(limit);
      }
      var _ :- RemoveStage(rejectMissingStage, limit);
      if stageCommitted || record.None? {
        return Done(Unit);
      }
      r := PublishAbandonment(limit);
    }

    /** Advance the in-memory record and publish it. */
    method PublishState(state: State, ghost limit: nat) returns (r: Try<Unit>)
      requires Inv(limit) && limit < MAXIMUM_FOLDER_FILES && record.Some? && Reading().Latest?
      requires IsRecordOf(request, record.value) && stageIdentity == Some(record.value.stageIdentity)
      requires storage.quiet ==>
                 && (!stageCommitted ==> IsUncommitted()) && (!stageHeld ==> request.StagePath() !in storage.files)
                 && Consistent(request, before, storage.files,
                               Latest(record.value.(generation := record.value.generation + 1, state := state)))
      modifies this`phase, this`record, storage`folders
      ensures Inv(limit + 1) && phase == JournalPersistence
      ensures record == Some(old(record).value.(generation := old(record).value.generation + 1, state := state))
      ensures Reading() == old(Reading()) || Reading() == Latest(record.value)
      ensures r.Done? ==> Reading() == Latest(record.value)
      ensures storage.reliable && Follows(old(Reading()), record.value) && IsValidRecord(record.value) ==> r.Done?
    {
      hide Read, IsTidy, IsValidRecord, Explains, IsBelow, Committed, Consistent, KeepsOthers, FolderBounded;
      phase := JournalPersistence;
      record := Some(record.value.(generation := record.value.generation + 1, state := state));
      r := PublishRecord(record.value, limit);
    }

    /** The checks before anything is created. */
    method Preflight() returns (r: Try<Step>, sourceIdentity: Identity)
      requires Started()
      modifies this`phase, storage`files, storage`lastCapture
      ensures Inv(0) && !stageHeld && record.None? && storage.folders == old(storage.folders)
      ensures !stageCommitted && stageIdentity == None && phase != OriginalReplacement && phase != CorrectedCopyCommit
      ensures storage.quiet ==> storage.files == before
      ensures r == Done(Continue) ==>
                && IsBelow(request.rootPath, request.sourcePath)
                && (storage.quiet ==>
                    request.sourcePath in before && sourceIdentity == before[request.sourcePath].identity)
      ensures Unobstructed() ==> r == Done(Continue)
    {
      sourceIdentity := 0;
      var stop := storage.StopRequested();
      if stop {
        return Done(Refuse(Cancelled)), sourceIdentity;
      }
      if request.output == [] {
        return Done(Refuse(OutputValidationFailed)), sourceIdentity;
      }
      phase := TransactionRecoverabilityPreflight;
      if !host.longPathPolicy {
        return Done(Refuse(WindowsLongPathSupportUnavailable)), sourceIdentity;
      }
      if !host.qualifiedFileSystems {
        return Done(Refuse(StorageProviderRecoveryContractNotEstablished)), sourceIdentity;
      }
      phase := SourceRevisionRevalidation;
      if host.batchRootIdentity.Some? && host.batchRootIdentity.value != request.rootIdentity {
        return Done(Refuse(RecoveryConflict)), sourceIdentity;
      }
      sourceIdentity :- storage.Inspect(request.sourcePath);
      if host.reviewedSourceIdentity.Some? && host.reviewedSourceIdentity.value != sourceIdentity {
        return Done(Refuse(SourceChangedAfterAnalysis)), sourceIdentity;
      }
      if !IsBelow(request.rootPath, request.sourcePath) {
        return Threw(InvalidData), sourceIdentity;
      }
      phase := JournalStoreLeaseAcquisition;
      var _ :- storage.Ending();
      return Done(Continue), sourceIdentity;
    }

    /** The save owns an inspected stage and has not opened its journal. */
    ghost predicate Staged(sourceIdentity: Identity)
      reads this, storage
    {
      && Inv(0) && record.None? && stageHeld && stageIdentity.Some? && !stageCommitted
      && IsBelow(request.rootPath, request.sourcePath) && storage.folders == priorFolders
      && (storage.quiet ==>
            && request.StagePath() in storage.files
            && storage.files[request.StagePath()].identity == stageIdentity.value
            && IsFresh(before, stageIdentity.value)
            && request.sourcePath in before && sourceIdentity == before[request.sourcePath].identity)
    }

    method CreateStage(ghost sourceIdentity: Identity) returns (r: Try<Unit>)
      requires Inv(0) && !stageHeld && record.None? && !stageCommitted && storage.folders == priorFolders
      requires IsBelow(request.rootPath, request.sourcePath)
      requires storage.quiet ==> storage.files == before && request.sourcePath in before
                                 && sourceIdentity == before[request.sourcePath].identity
      modifies this, storage`files, storage`lastCapture
      ensures Inv(0) && !stageCommitted && phase == StagingFileCreation && record.None?
              && storage.folders == priorFolders
      ensures r.Done? ==> Staged(sourceIdentity)
      ensures Unobstructed() ==> r.Done?
    {
      hide Read, IsTidy, KeepsOthers, FolderBounded, Reading;
      phase := StagingFileCreation;
      var path := request.StagePath();
      ghost var files := storage.files;
      var created := storage.CreateFile(path);
      if storage.quiet && storage.files != files {
        StageChanged(request, before, files, storage.files, Nothing);
      }
      if !created.Done? {
        return created;
      }
      stageHeld := true;
      var identity :- storage.Inspect(path);
      stageIdentity := Some(identity);
      return Done(Unit);
    }

    /** The transaction's own journal folder and the record that opens it. */
    method OpenFolder(sourceIdentity: Identity) returns (r: Try<Unit>)
      requires Staged(sourceIdentity)
      modifies this`phase, this`record, storage`folders
      ensures Inv(0) && phase == JournalPersistence && Reading() == Nothing
      ensures r.Done? ==> record == Some(request.FirstRecord(sourceIdentity, stageIdentity.value))
      ensures Unobstructed() ==> r.Done?
    {
      hide Read, IsTidy, Explains, OthersKept, Uncommitted, Committed, IsRecordOf, IsBelow, Request.StagePath, IsChain,
        IsLinked, KeepsOthers;
      phase := JournalPersistence;
      EmptyFolderIsTidy(request.transaction);
      OwnFolderChanges(priorFolders, storage.folders, request.transaction, EMPTY_FOLDER);
      var _ :- storage.CreateJournalFolder(request.transaction);
      record := Some(request.FirstRecord(sourceIdentity, stageIdentity.value));
      return Done(Unit);
    }

    method OpenJournal(sourceIdentity: Identity) returns (r: Try<Unit>)
      requires Staged(sourceIdentity)
      modifies this`phase, this`record, storage`folders
      ensures Inv(1) && phase == JournalPersistence
      ensures r.Done? ==> Live(TransactionInitialized)
      ensures Unobstructed() ==> r.Done?
    {
      hide Read, IsTidy, OthersKept, IsFresh, KeepsOthers;
      var _ :- OpenFolder(sourceIdentity);
      if storage.quiet {
        FirstRecordExplained(request, before, storage.files, sourceIdentity, stageIdentity.value);
      }
      if IsFit(request, before) {
        FitFirstRecord(request, before, sourceIdentity, stageIdentity.value);
      }
      var _ :- PublishRecord(record.value, 0);
      return Done(Unit);
    }

    method Prepare() returns (r: Try<Step>)
      requires Started()
      modifies this, storage`files, storage`lastCapture, storage`folders
      ensures Inv(1) && !stageCommitted && phase != OriginalReplacement && phase != CorrectedCopyCommit
      ensures r == Done(Continue) ==> Live(TransactionInitialized)
      ensures r.Done? && r.value.Refuse? ==> IsClosed()
      ensures Unobstructed() ==> r == Done(Continue)
    {
      hide Read, IsTidy, Consistent, Committed, IsRecordOf, IsFit, IsFresh, KeepsOthers;
      var step, sourceIdentity :- Preflight();
      if step.Refuse? {
        return Done(step);
      }
      var _ :- CreateStage(sourceIdentity);
      var _ :- OpenJournal(sourceIdentity);
      return Done(Continue);
    }

    /** Nothing was published, or the transaction is closed by its abandonment; either way the
        commit effect has not happened. */
    ghost predicate IsClosed()
      reads this, storage
    {
      && (Reading().Latest? ==> Reading().record.state == TransactionAbandonedBeforeCommit)
      && (storage.quiet ==>
            && IsUncommitted()
            && (Reading().Latest? && IsBelow(request.rootPath, request.sourcePath) ==>
                request.StagePath() !in storage.files))
    }

    /** Clean up and, if that succeeds, end the save with `code`. */
    method RefuseWith(code: ErrorCode, ghost limit: nat) returns (r: Try<Step>)
      requires Inv(limit) && limit < MAXIMUM_FOLDER_FILES && phase != OriginalReplacement && !stageCommitted
      requires storage.quiet ==> IsUncommitted()
      modifies this`stageHeld, storage`files, storage`lastCapture, storage`folders
      ensures Inv(limit + 1)
      ensures r.Done? ==> r.value == Refuse(code) && IsClosed()
    {
      hide Read, IsTidy, Consistent, Committed, IsRecordOf, KeepsOthers, FolderBounded;
      var _ :- CleanupAndAbandon(false, limit);
      return Done(Refuse(code));
    }

    /** The ordinary milestones: each is published only after what it states was observed. */
    method Advance(state: State) returns (r: Try<Unit>)
      requires record.Some? && Live(record.value.state) && state.Index() == record.value.state.Index() + 1 <= 2
      requires state == StagedOutputHashVerified && storage.quiet ==>
                 storage.files[request.StagePath()].bytes == request.output
      modifies this`phase, this`record, storage`folders
      ensures Inv(state.Index() + 1) && phase == JournalPersistence
      ensures r.Done? ==> Live(state)
      ensures Unobstructed() ==> r.Done?
    {
      hide Read, IsTidy, IsValidRecord, IsValidSuccessor, Explains, OthersKept, IsRecordOf, IsFresh, KeepsOthers,
        FolderBounded;
      if storage.quiet {
        MilestoneExplained(request, before, storage.files, record.value,
                           record.value.(generation := record.value.generation + 1, state := state));
      }
      LatestIsValid(storage.folders[request.transaction], request.transaction);
      NextMilestoneFollows(record.value, record.value.(generation := record.value.generation + 1, state := state));
      r := PublishState(state, record.value.generation);
    }

    /** Write the validated bytes to the stage. */
    method WriteStage() returns (r: Try<Unit>)
      requires Live(TransactionInitialized)
      modifies this`phase, this`record, storage`files, storage`lastCapture, storage`folders
      ensures Inv(2) && phase != OriginalReplacement && phase != CorrectedCopyCommit
      ensures r.Done? ==> Live(StagedOutputWritten)
      ensures Unobstructed() ==> r.Done? && storage.files[request.StagePath()].bytes == request.output
    {
      hide Read, IsTidy, Consistent, Uncommitted, Committed, IsRecordOf, Explains, OthersKept, IsFit, KeepsOthers;
      phase := StagingWrite;
      ghost var files := storage.files;
      var written := storage.WriteFile(request.StagePath(), request.output);
      if storage.quiet && storage.files != files {
        StageChanged(request, before, files, storage.files, Reading());
      }
      if !written.Done? {
        return written;
      }
      r := Advance(StagedOutputWritten);
    }

    /** Reopen the stage, compare length and digest, and check the identity again. */
    method CheckStage() returns (r: Try<Step>)
      requires Live(StagedOutputWritten)
      modifies this`phase, this`stageHeld, storage`files, storage`lastCapture, storage`folders
      ensures Inv(3) && phase == StagedOutputVerification && record == old(record)
      ensures r == Done(Continue) ==>
                && Live(StagedOutputWritten)
                && (storage.quiet ==> storage.files[request.StagePath()].bytes == request.output)
      ensures r.Done? && r.value.Refuse? ==> r.value.code != RecoveryConflict && IsClosed()
      ensures Unobstructed() && old(storage.files)[request.StagePath()].bytes == request.output ==> r == Done(Continue)
    {
      hide Read, IsTidy, Consistent, Uncommitted, Committed, IsRecordOf, IsFit, KeepsOthers, FolderBounded;
      BoundGrows(2, 3);
      phase := StagedOutputVerification;
      var capture :- storage.CaptureRevision(request.StagePath());
      if capture.NotCaptured? {
        var code := CaptureFailure(capture.error);
        r := RefuseWith(if code == SourceRevisionCaptureFailed then StagedOutputVerificationFailed else code, 2);
        return;
      }
      if capture.revision.length != |request.output| || capture.revision.sha256 != Sha256(request.output) {
        r := RefuseWith(StagedOutputHashMismatch, 2);
        return;
      }
      var identity :- storage.Inspect(request.StagePath());
      if stageIdentity != Some(identity) {
        return Threw(InvalidData);
      }
      return Done(Continue);
    }

    method VerifyStage() returns (r: Try<Step>)
      requires Live(StagedOutputWritten)
      modifies this`phase, this`record, this`stageHeld, storage`files, storage`lastCapture, storage`folders
      ensures Inv(3) && phase != OriginalReplacement && phase != CorrectedCopyCommit
      ensures r == Done(Continue) ==> Live(StagedOutputHashVerified) && BackupNameFree()
      ensures r.Done? && r.value.Refuse? ==> r.value.code != RecoveryConflict && IsClosed()
      ensures Unobstructed() && old(storage.files)[request.StagePath()].bytes == request.output ==> r == Done(Continue)
    {
      hide Read, IsTidy, Consistent, Uncommitted, Committed, IsRecordOf, IsFit, KeepsOthers, FolderBounded;
      var checked :- CheckStage();
      if checked.Refuse? {
        return Done(checked);
      }
      if storage.quiet {
        BackupNameKept(request, before, storage.files, record.value);
      }
      var _ :- Advance(StagedOutputHashVerified);
      return Done(Continue);
    }

    ghost predicate BackupNameFree()
      requires IsBelow(request.rootPath, request.sourcePath)
      reads storage`files
    {
      storage.quiet ==> SameAt(before, storage.files, request.BackupPath())
    }

    /** The source must still have the reviewed revision. */
    method RecheckSource() returns (r: Try<Step>)
      requires Live(StagedOutputHashVerified)
      modifies this`phase, this`stageHeld, storage`files, storage`lastCapture, storage`folders
      ensures Inv(4) && phase == SourceRevisionRevalidation && record == old(record)
      ensures r == Done(Continue) ==>
                && Live(StagedOutputHashVerified)
                && (storage.quiet ==> before[request.sourcePath].Revised() == request.revision
                                      && storage.files == old(storage.files))
      ensures r.Done? && r.value.Refuse? ==> r.value.code != RecoveryConflict && IsClosed()
      ensures Unobstructed() ==> r == Done(Continue)
    {
      hide Read, IsTidy, Committed, IsRecordOf, Explains, IsBelow, KeepsOthers, FolderBounded, Reading;
      BoundGrows(3, 4);
      phase := SourceRevisionRevalidation;
      var capture :- storage.CaptureRevision(request.sourcePath);
      if capture.NotCaptured? {
        r := RefuseWith(CaptureFailure(capture.error), 3);
        return;
      }
      if capture.revision != request.revision {
        r := RefuseWith(SourceChangedAfterAnalysis, 3);
        return;
      }
      return Done(Continue);
    }

    /** The file at the backup's name has this identity and the reviewed content. */
    ghost predicate IsGoodBackup(files: Files, identity: Identity)
      requires IsBelow(request.rootPath, request.sourcePath)
    {
      && request.BackupPath() in files && files[request.BackupPath()].identity == identity
      && files[request.BackupPath()].HasContent(request.revision.length, request.revision.sha256)
    }

    /** Copy the source to a free backup name. An incomplete copy is retained, never deleted. */
    method CopyBackup() returns (r: Try<Identity>)
      requires Live(StagedOutputHashVerified) && BackupNameFree() && request.RetainsBackup()
      modifies this`phase, storage`files, storage`lastCapture
      ensures Inv(3) && phase == BackupCreation
      ensures r.Done? ==>
                && Live(StagedOutputHashVerified) && r.value != record.value.sourceIdentity
                && (storage.quiet ==>
                      && request.BackupPath() in storage.files
                      && storage.files[request.BackupPath()].identity == r.value
                      && r.value != record.value.stageIdentity)
      ensures Unobstructed() ==> r.Done? && IsGoodBackup(storage.files, r.value)
    {
      hide Read, IsTidy, OthersKept, BackupKept, IsRecordOf, KeepsOthers, FolderBounded, Explains;
      phase := BackupCreation;
      ghost var files := storage.files;
      var copied := storage.CopyFile(request.sourcePath, request.BackupPath());
      if storage.quiet && storage.files != files {
        BackupAdded(request, before, files, storage.files, record.value);
      }
      if !copied.Done? {
        return copied.PropagateFailure();
      }
      var identity :- storage.Inspect(request.BackupPath());
      if identity == record.value.sourceIdentity {
        return Threw(InvalidData);
      }
      return Done(identity);
    }

    /** Flush, close, reopen and hash the backup, then check its identity again. */
    method VerifyBackup(identity: Identity) returns (r: Try<Step>)
      requires Live(StagedOutputHashVerified) && request.RetainsBackup()
      modifies this`phase, this`stageHeld, storage`files, storage`lastCapture, storage`folders
      ensures Inv(4) && phase == BackupVerification && record == old(record)
      ensures storage.quiet && r == Done(Continue) ==>
                storage.files == old(storage.files) && IsGoodBackup(storage.files, identity)
      ensures r == Done(Continue) ==> Live(StagedOutputHashVerified)
      ensures r.Done? && r.value.Refuse? ==> r.value.code != RecoveryConflict && IsClosed()
      ensures Unobstructed() && IsGoodBackup(old(storage.files), identity) ==> r == Done(Continue)
    {
      hide Read, IsTidy, Consistent, Uncommitted, Committed, IsRecordOf, IsFit, IsBelow, KeepsOthers, FolderBounded;
      BoundGrows(3, 4);
      phase := BackupVerification;
      var _ :- storage.Ending();
      var capture :- storage.CaptureRevision(request.BackupPath());
      if capture.NotCaptured? {
        r := RefuseWith(if capture.error == CaptureCancelled then Cancelled else BackupVerificationFailed, 3);
        return;
      }
      var again :- storage.Inspect(request.BackupPath());
      if capture.revision.length != request.revision.length || capture.revision.sha256 != request.revision.sha256
         || again != identity {
        return Threw(OtherNative);
      }
      return Done(Continue);
    }

    /** Record the verified backup. */
    method RecordBackup(identity: Identity) returns (r: Try<Unit>)
      requires Live(StagedOutputHashVerified) && request.RetainsBackup()
      requires identity != record.value.sourceIdentity
      requires storage.quiet ==> IsGoodBackup(storage.files, identity) && identity != record.value.stageIdentity
      modifies this`phase, this`record, storage`folders
      ensures Inv(4) && phase == JournalPersistence
      ensures r.Done? ==> Live(VerifiedBackupCreated)
      ensures Unobstructed() ==> r.Done?
    {
      hide Read, IsTidy, IsJournaled, Consistent, Committed, IsLinked, OthersKept, KeepsOthers, Explains;
      ghost var prior := record.value;
      record := Some(record.value.(backupPath := request.BackupPath(), backupIdentity := Some(identity)));
      if storage.quiet {
        MilestoneExplained(request, before, storage.files, prior,
                           record.value.(generation := record.value.generation + 1, state := VerifiedBackupCreated));
      }
      r := PublishState(VerifiedBackupCreated, 3);
    }

    /** Record the verified backup and read the record back. */
    method PublishBackup(identity: Identity) returns (r: Try<Unit>)
      requires Live(StagedOutputHashVerified) && request.RetainsBackup()
      requires identity != record.value.sourceIdentity
      requires storage.quiet ==> IsGoodBackup(storage.files, identity) && identity != record.value.stageIdentity
      modifies this`phase, this`record, storage`folders
      ensures Inv(4) && phase == JournalPersistence
      ensures r.Done? ==> Live(VerifiedBackupCreated)
      ensures Unobstructed() ==> r.Done?
    {
      hide Read, IsTidy, IsJournaled, Consistent, Uncommitted, Committed, IsRecordOf, IsFit, KeepsOthers;
      var _ :- RecordBackup(identity);
      var persisted :- journal.ReadLatest();
      if persisted != record || record.value.state != VerifiedBackupCreated {
        return Threw(InvalidData);
      }
      return Done(Unit);
    }

    /** Verify the copy, recheck the source, and take the last chance to cancel. */
    method CheckBackup(identity: Identity) returns (r: Try<Step>)
      requires Live(StagedOutputHashVerified) && request.RetainsBackup()
      modifies this`phase, this`stageHeld, storage`files, storage`lastCapture, storage`folders
      ensures Inv(4) && phase != OriginalReplacement && phase != CorrectedCopyCommit && record == old(record)
      ensures storage.quiet && r == Done(Continue) ==> IsGoodBackup(storage.files, identity)
      ensures r == Done(Continue) ==> Live(StagedOutputHashVerified)
      ensures r.Done? && r.value.Refuse? ==> r.value.code != RecoveryConflict && IsClosed()
      ensures Unobstructed() && IsGoodBackup(old(storage.files), identity) ==> r == Done(Continue)
    {
      hide Read, IsTidy, Consistent, Uncommitted, Committed, IsRecordOf, IsFit, KeepsOthers, FolderBounded, Reading,
        IsClosed;
      BoundGrows(3, 4);
      var verified :- VerifyBackup(identity);
      if verified.Refuse? {
        return Done(verified);
      }
      r := RecheckSource();
      if r != Done(Continue) {
        return;
      }
      var stop := storage.StopRequested();
      if stop {
        r := RefuseWith(Cancelled, 3);
      }
    }

    /** Copy, verify, recheck the source, record the backup. */
    method BackUpOriginal() returns (r: Try<Step>)
      requires Live(StagedOutputHashVerified) && BackupNameFree() && request.RetainsBackup()
      modifies this`phase, this`record, this`stageHeld, storage`files, storage`lastCapture, storage`folders
      ensures Inv(4) && phase != OriginalReplacement && phase != CorrectedCopyCommit
      ensures r == Done(Continue) ==> Live(VerifiedBackupCreated)
      ensures r.Done? && r.value.Refuse? ==> r.value.code != RecoveryConflict && IsClosed()
      ensures Unobstructed() ==> r == Done(Continue)
    {
      hide Read, IsTidy, Consistent, Committed, IsRecordOf, KeepsOthers, IsClosed;
      var identity :- CopyBackup();
      var checked :- CheckBackup(identity);
      if checked.Refuse? {
        return Done(checked);
      }
      var _ :- PublishBackup(identity);
      return Done(Continue);
    }

    /** The state whose publication authorises this request's commit effect. */
    function IntentState(): State {
      if request.RetainsBackup() then VerifiedBackupCreated else StagedOutputHashVerified
    }

    /** Without a backup the intent can still be cancelled; then it is read back. */
    method RereadIntent() returns (r: Try<Step>)
      requires Live(IntentState()) && !request.IsCopy() && phase != OriginalReplacement && phase != CorrectedCopyCommit
      modifies this`stageHeld, storage`files, storage`lastCapture, storage`folders
      ensures Inv(5) && record == old(record)
      ensures r == Done(Continue) ==> Live(IntentState())
      ensures r.Done? && r.value.Refuse? ==> r.value.code != RecoveryConflict && IsClosed()
      ensures Unobstructed() ==> r == Done(Continue)
    {
      hide Read, IsTidy, Consistent, Uncommitted, IsJournaled, IsValidRecord, IsFit, IsBelow, IsRecordOf, KeepsOthers;
      if request.disposition == ReplaceOriginalWithoutRetainedBackup {
        var stop := storage.StopRequested();
        if stop {
          r := RefuseWith(Cancelled, 4);
          return;
        }
      }
      var intent :- journal.ReadLatest();
      if intent != record {
        return Threw(InvalidData);
      }
      return Done(Continue);
    }

    /** The last look at the source, with nothing between it and the replacement. */
    method RecheckBeforeReplacement() returns (r: Try<Step>)
      requires Live(IntentState()) && !request.IsCopy()
      modifies this`phase, this`stageHeld, storage`files, storage`lastCapture, storage`folders
      ensures Inv(5) && phase == SourceRevisionRevalidation && record == old(record)
      ensures r == Done(Continue) ==>
                && Live(IntentState()) && storage.lastCapture == Some((request.sourcePath, request.revision))
                && (storage.quiet ==> before[request.sourcePath].Revised() == request.revision)
      ensures r.Done? && r.value.Refuse? ==> r.value.code != RecoveryConflict && IsClosed()
      ensures Unobstructed() ==> r == Done(Continue)
    {
      hide Read, IsTidy, Consistent, Committed, IsRecordOf, KeepsOthers, FolderBounded, Reading;
      BoundGrows(record.value.generation, 4);
      BoundGrows(4, 5);
      phase := SourceRevisionRevalidation;
      var capture :- storage.CaptureRevision(request.sourcePath);
      if capture.NotCaptured? {
        r := RefuseWith(CaptureFailure(capture.error), 4);
        return;
      }
      if capture.revision != request.revision {
        r := RefuseWith(SourceChangedAfterAnalysis, 4);
        return;
      }
      return Done(Continue);
    }

    /** What is known after a commit effect that did not report success. */
    ghost predicate AttemptedCommit()
      reads this, storage
    {
      Inv(5) && stageHeld && !stageCommitted && (phase == OriginalReplacement || phase == CorrectedCopyCommit)
    }

    ghost predicate CommitDone()
      reads this, storage
    {
      && Inv(4) && stageHeld && !stageCommitted && record.Some? && Reading() == Latest(record.value)
      && record.value.state == IntentState() && record.value.generation == IntentState().Index() + 1
      && (storage.quiet ==> Committed(request, before, storage.files, record.value.stageIdentity))
    }

    method ReplaceOriginal() returns (r: Try<Unit>)
      requires Live(IntentState()) && !request.IsCopy()
      requires storage.lastCapture == Some((request.sourcePath, request.revision))
      requires storage.quiet ==> before[request.sourcePath].Revised() == request.revision
      modifies this`phase, storage`files, storage`lastCapture
      ensures AttemptedCommit()
      ensures r.Done? ==> CommitDone()
      ensures Unobstructed() ==> r.Done?
    {
      hide Read, IsTidy, OthersKept, IsFit, KeepsOthers;
      phase := OriginalReplacement;
      ghost var files := storage.files;
      r := storage.ReplaceOriginalWithStage(record.value, request.StagePath(), request.sourcePath);
      if storage.quiet && storage.files != files {
        CommitApplied(request, before, files, storage.files, record.value);
      }
    }

    method MoveCopy() returns (r: Try<Unit>)
      requires Live(StagedOutputHashVerified) && request.IsCopy() && phase == CorrectedCopyCommit
      requires storage.quiet ==> before[request.sourcePath].Revised() == request.revision
      modifies storage`files, storage`lastCapture
      ensures AttemptedCommit()
      ensures r.Done? ==> CommitDone()
      ensures Unobstructed() ==> r.Done?
    {
      hide Read, IsTidy, KeepsOthers;
      ghost var files := storage.files;
      r := storage.MoveStageToCorrectedCopy(record.value, request.StagePath(), request.DestinationPath());
      if storage.quiet && storage.files != files {
        CommitApplied(request, before, files, storage.files, record.value);
      }
    }

    /** The commit effect as its disposition performs it. */
    method CommitOutput() returns (r: Try<Step>)
      requires Live(IntentState()) && phase != OriginalReplacement && phase != CorrectedCopyCommit
      requires storage.quiet ==> before[request.sourcePath].Revised() == request.revision
      modifies this`phase, this`stageHeld, storage`files, storage`lastCapture, storage`folders
      ensures Inv(5) && !stageCommitted
      ensures r == Done(Continue) ==> CommitDone()
      ensures r.Done? && r.value.Refuse? ==> r.value.code != RecoveryConflict && IsClosed()
      ensures Unobstructed() ==> r == Done(Continue)
    {
      hide Read, IsTidy, Consistent, Committed, IsRecordOf, IsFit, IsBelow, KeepsOthers, Reading;
      if !request.IsCopy() {
        var confirmed :- RereadIntent();
        if confirmed.Refuse? {
          return Done(confirmed);
        }
        var rechecked :- RecheckBeforeReplacement();
        if rechecked.Refuse? {
          return Done(rechecked);
        }
        var _ :- ReplaceOriginal();
        return Done(Continue);
      }
      phase := CorrectedCopyCommit;
      var stop := storage.StopRequested();
      if stop {
        r := RefuseWith(Cancelled, 4);
        return;
      }
      var _ :- MoveCopy();
      return Done(Continue);
    }

    /** The output has been committed; only its two closing records may be missing. */
    ghost predicate AfterCommit()
      reads this, storage
    {
      && Inv(6) && stageHeld && stageCommitted
    }

    /** Publish one of the two records that close a successful save. */
    method Close(state: State, ghost limit: nat) returns (r: Try<Unit>)
      requires Inv(limit) && limit <= 5 && stageHeld && stageCommitted && record.Some?
      requires Reading() == Latest(record.value)
      requires !record.value.state.IsTerminal() && state == NextMilestone(record.value)
      requires state == OutputCommitted || state == OwnedStagingArtifactsCleaned
      modifies this`phase, this`record, storage`folders
      ensures Inv(limit + 1) && phase == JournalPersistence
      ensures record == Some(old(record).value.(generation := old(record).value.generation + 1, state := state))
      ensures r.Done? ==> Reading() == Latest(record.value)
      ensures Unobstructed() ==> r.Done?
    {
      hide Read, IsTidy, Consistent, Committed, IsRecordOf, IsValidRecord, OthersKept, IsFresh, KeepsOthers;
      if storage.quiet {
        ClosingExplained(request, before, storage.files, record.value,
                         record.value.(generation := record.value.generation + 1, state := state));
      }
      LatestIsValid(storage.folders[request.transaction], request.transaction);
      NextMilestoneFollows(record.value, record.value.(generation := record.value.generation + 1, state := state));
      r := PublishState(state, limit);
    }

    /** Verify the committed bytes without a cancellation token. */
    method CheckCommitted() returns (r: Try<bool>)
      requires CommitDone()
      modifies this`stageCommitted, storage`files, storage`lastCapture
      ensures Inv(4) && stageHeld && stageCommitted
      ensures Unobstructed() ==> r == Done(true)
    {
      hide Read, IsTidy, Consistent, Uncommitted, IsRecordOf, KeepsOthers, FolderBounded, Reading;
      stageCommitted := true;
      var capture :- storage.CaptureRevision(request.DestinationPath());
      if capture.NotCaptured? || capture.revision.length != |request.output|
         || capture.revision.sha256 != Sha256(request.output) {
        return Done(false);
      }
      var identity :- storage.Inspect(request.DestinationPath());
      return Done(stageIdentity == Some(identity));
    }

    /** Check what was committed, then publish the two records that close the save. */
    method FinishCommit() returns (r: Try<Result>)
      requires CommitDone()
      modifies this`stageCommitted, this`phase, this`record, storage`files, storage`lastCapture, storage`folders
      ensures AfterCommit()
      ensures r.Done? ==> r.value == Saved || r.value == Failed(RecoveryConflict)
      ensures r == Done(Saved) ==> Reading().Latest? && Reading().record.state == OwnedStagingArtifactsCleaned
      ensures Unobstructed() ==> r == Done(Saved)
    {
      hide Read, IsTidy, Consistent, Uncommitted, Committed, IsBelow, KeepsOthers, Reading;
      var verified :- CheckCommitted();
      if !verified {
        return Done(Failed(RecoveryConflict));
      }
      var _ :- Close(OutputCommitted, 4);
      var _ :- Close(OwnedStagingArtifactsCleaned, 5);
      return Done(Saved);
    }

    method StageOutput() returns (r: Try<Step>)
      requires Started()
      modifies this, storage`files, storage`lastCapture, storage`folders
      ensures Inv(3) && !stageCommitted && phase != OriginalReplacement && phase != CorrectedCopyCommit
      ensures r == Done(Continue) ==> Live(StagedOutputHashVerified) && BackupNameFree()
      ensures r.Done? && r.value.Refuse? ==> IsClosed()
      ensures Unobstructed() ==> r == Done(Continue)
    {
      hide Read, IsTidy, Consistent, Committed, IsRecordOf, IsFit, Uncommitted, KeepsOthers;
      var prepared :- Prepare();
      if prepared.Refuse? {
        return Done(prepared);
      }
      var _ :- WriteStage();
      r := VerifyStage();
    }

    /** The guarded part of a save: everything whose exceptions lead to one cleanup. */
    method Attempt() returns (r: Try<Result>)
      requires Started()
      modifies this, storage`files, storage`lastCapture, storage`folders
      ensures Inv(6)
      ensures r == Done(Saved) ==>
                stageCommitted && Reading().Latest? && Reading().record.state == OwnedStagingArtifactsCleaned
      ensures r.Done? && r.value.Failed? && r.value.code != RecoveryConflict ==> !stageCommitted && IsClosed()
      ensures Unobstructed() ==> r == Done(Saved)
    {
      hide Read, IsTidy, Consistent, Committed, IsRecordOf, IsFit, KeepsOthers;
      var staged :- StageOutput();
      if staged.Refuse? {
        return Done(Failed(staged.code));
      }
      r := CommitVerifiedStage();
    }

    method CommitVerifiedStage() returns (r: Try<Result>)
      requires Live(StagedOutputHashVerified) && BackupNameFree()
      requires phase != OriginalReplacement && phase != CorrectedCopyCommit
      modifies this, storage`files, storage`lastCapture, storage`folders
      ensures Inv(6)
      ensures r == Done(Saved) ==>
                stageCommitted && Reading().Latest? && Reading().record.state == OwnedStagingArtifactsCleaned
      ensures r.Done? && r.value.Failed? && r.value.code != RecoveryConflict ==> !stageCommitted && IsClosed()
      ensures Unobstructed() ==> r == Done(Saved)
    {
      hide Read, IsTidy, Consistent, Committed, IsRecordOf, KeepsOthers, IsClosed;
      var rechecked :- RecheckSource();
      if rechecked.Refuse? {
        return Done(Failed(rechecked.code));
      }
      if request.RetainsBackup() {
        var backedUp :- BackUpOriginal();
        if backedUp.Refuse? {
          return Done(Failed(backedUp.code));
        }
      }
      var committed :- CommitOutput();
      if committed.Refuse? {
        return Done(Failed(committed.code));
      }
      r := FinishCommit();
    }

    /** One save. Whatever fails, and wherever the process stops, the published record explains the
        files; and every reported result tells the truth about them. */
    method Execute() returns (outcome: Outcome)
      requires Started()
      modifies this, storage`files, storage`lastCapture, storage`folders
      ensures Inv(7)
      ensures outcome == Finished(Saved) ==>
                && Reading().Latest? && Reading().record.state == OwnedStagingArtifactsCleaned
                && (storage.quiet ==> Committed(request, before, storage.files, Reading().record.stageIdentity))
      ensures outcome.Finished? && outcome.result.Failed? && outcome.result.code != RecoveryConflict ==> IsClosed()
      ensures Unobstructed() ==> outcome == Finished(Saved)
    {
      hide Read, IsTidy, Consistent, Committed, IsRecordOf, KeepsOthers;
      var attempt := Attempt();
      if attempt.Crash? {
        return Crashed;
      }
      if attempt.Done? {
        return Finished(attempt.value);
      }
      var cleanup := CleanupAndAbandon(phase == CorrectedCopyCommit || phase == OriginalReplacement, 6);
      if cleanup.Crash? {
        return Crashed;
      }
      if cleanup.Threw? || stageCommitted {
        return Finished(Failed(RecoveryConflict));
      }
      return Finished(Failed(TranslateFailure(attempt.error, phase)));
    }
  }
}
