/** What a transaction's published record says about the files, at every point where the
    process can stop: the meaning that execution keeps and recovery reads. */
module World {
  import opened Options
  import opened Native
  import opened Journal
  import opened Storage

  datatype Request = Request(
    transaction: TransactionId,
    disposition: Disposition,
    rootPath: Path,
    rootIdentity: Identity,
    batch: string,
    sourcePath: Path,
    revision: Revision,
    output: seq<Byte>)
  {
    predicate IsCopy() { disposition == CreateCorrectedCopy }

    predicate RetainsBackup() { disposition == ReplaceOriginalWithVerifiedBackup }

    function BatchFolder(): Path {
      OutputRoot(rootPath) + [batch]
    }

    function Relative(): (p: Path)
      requires IsBelow(rootPath, sourcePath)
      ensures p != []
    {
      sourcePath[|rootPath|..]
    }

    function StagePath(): Path
      requires IsBelow(rootPath, sourcePath)
    {
      Parent(BatchFolder() + Relative()) + [StageName(transaction)]
    }

    function BackupPath(): Path
      requires IsBelow(rootPath, sourcePath)
    {
      BackupRoot(rootPath) + [batch] + Relative()
    }

    function DestinationPath(): Path
      requires IsBelow(rootPath, sourcePath)
    {
      if IsCopy() then Parent(BatchFolder() + Relative()) + [FileName(Relative())] else sourcePath
    }

    /** The first generation, which fixes every artifact fact but the backup. */
    function FirstRecord(sourceIdentity: Identity, stageIdentity: Identity): Record
      requires IsBelow(rootPath, sourcePath)
    {
      Record(transaction, 1, TransactionInitialized, disposition, rootPath, rootIdentity,
             sourcePath, sourceIdentity, revision, StagePath(), stageIdentity,
             |output|, Sha256(output), [], None, DestinationPath())
    }
  }

  function OutputRoot(root: Path): Path { root + ["JPG Spinner Output"] }

  function BackupRoot(root: Path): Path { root + ["JPG Spinner Backups"] }

  function StageName(id: TransactionId): string { ".jpg-spinner-staged-" + id + ".jpg" }

  /** `r` is one of the records this request's transaction can publish. */
  predicate IsRecordOf(q: Request, r: Record)
  {
    && IsBelow(q.rootPath, q.sourcePath)
    && r.(generation := 1, state := TransactionInitialized, backupPath := [], backupIdentity := None)
       == q.FirstRecord(r.sourceIdentity, r.stageIdentity)
    && (r.backupIdentity.Some? ==>
          && r.backupPath == q.BackupPath()
          && r.backupIdentity.value != r.sourceIdentity)
  }

  predicate SameAt(before: Files, files: Files, path: Path) {
    if path in before then path in files && files[path] == before[path] else path !in files
  }

  /** No file outside the transaction's own names has changed. From hash verification on, a
      retained backup may have taken a free name. */
  ghost predicate OthersKept(q: Request, before: Files, files: Files, mayBackUp: bool)
    requires IsBelow(q.rootPath, q.sourcePath)
  {
    forall p | p != q.sourcePath && p != q.StagePath() && p != q.DestinationPath()
               && (p in before || !mayBackUp || p != q.BackupPath()) :: SameAt(before, files, p)
  }

  predicate MayBackUp(q: Request, r: Record) {
    q.RetainsBackup() && r.state.Index() >= StagedOutputHashVerified.Index()
  }

  /** The commit effect has not happened. */
  predicate Uncommitted(q: Request, before: Files, files: Files)
    requires IsBelow(q.rootPath, q.sourcePath)
  {
    && SameAt(before, files, q.sourcePath)
    && (q.DestinationPath() != q.StagePath() ==> SameAt(before, files, q.DestinationPath()))
  }

  /** The commit effect has happened, to the file with the stage's identity, on reviewed bytes. */
  predicate Committed(q: Request, before: Files, files: Files, stage: Identity)
    requires IsBelow(q.rootPath, q.sourcePath)
  {
    && q.DestinationPath() in files
    && files[q.DestinationPath()].identity == stage
    && files[q.DestinationPath()].bytes == q.output
    && q.StagePath() !in files
    && q.sourcePath in before && before[q.sourcePath].Revised() == q.revision
    && (q.IsCopy() ==> SameAt(before, files, q.sourcePath) && q.DestinationPath() !in before)
  }

  predicate StageOwned(q: Request, files: Files, stage: Identity)
    requires IsBelow(q.rootPath, q.sourcePath)
  {
    q.StagePath() in files ==> files[q.StagePath()].identity == stage
  }

  predicate StageVerified(q: Request, files: Files)
    requires IsBelow(q.rootPath, q.sourcePath)
  {
    q.StagePath() in files ==> files[q.StagePath()].bytes == q.output
  }

  predicate BackupKept(before: Files, files: Files, r: Record) {
    r.backupIdentity.Some? ==>
      && r.backupPath in files
      && files[r.backupPath].identity == r.backupIdentity.value
      && r.sourcePath in before
      && files[r.backupPath].HasContent(r.sourceRevision.length, r.sourceRevision.sha256)
      && r.backupIdentity.value != r.stageIdentity
  }

  /** Identities observed in the files as they were when the transaction started. */
  predicate IdentitiesDistinct(q: Request, before: Files, r: Record)
    requires IsBelow(q.rootPath, q.sourcePath)
  {
    && q.sourcePath in before && r.sourceIdentity == before[q.sourcePath].identity
    && IsFresh(before, r.stageIdentity)
    && q.StagePath() !in before
  }

  /** The files that a published state allows. */
  ghost predicate Explains(q: Request, before: Files, files: Files, r: Record)
    requires IsRecordOf(q, r)
  {
    && IdentitiesDistinct(q, before, r)
    && BackupKept(before, files, r)
    && match r.state
       case TransactionInitialized => Uncommitted(q, before, files) && StageOwned(q, files, r.stageIdentity)
       case StagedOutputWritten => Uncommitted(q, before, files) && StageOwned(q, files, r.stageIdentity)
       case StagedOutputHashVerified =>
         || (Uncommitted(q, before, files) && StageOwned(q, files, r.stageIdentity) && StageVerified(q, files))
         || (!q.RetainsBackup() && Committed(q, before, files, r.stageIdentity))
       case VerifiedBackupCreated =>
         || (Uncommitted(q, before, files) && StageOwned(q, files, r.stageIdentity) && StageVerified(q, files))
         || Committed(q, before, files, r.stageIdentity)
       case OutputCommitted => Committed(q, before, files, r.stageIdentity)
       case OwnedStagingArtifactsCleaned => Committed(q, before, files, r.stageIdentity)
       case TransactionAbandonedBeforeCommit => Uncommitted(q, before, files) && q.StagePath() !in files
  }

  /** The crash invariant: the latest published record explains the files, and before the first
      publication nothing but the stage has changed. */
  ghost predicate Consistent(q: Request, before: Files, files: Files, reading: Reading)
  {
    match reading
    case Refused => false
    case Nothing =>
      if IsBelow(q.rootPath, q.sourcePath) then Uncommitted(q, before, files) && OthersKept(q, before, files, false)
      else files == before
    case Latest(r) => IsRecordOf(q, r) && Explains(q, before, files, r) && OthersKept(q, before, files, MayBackUp(q, r))
  }

  /** The two situations exclude each other, so the files themselves tell whether the commit happened. */
  lemma CommittedIsNotUncommitted(q: Request, before: Files, files: Files, r: Record)
    requires IsRecordOf(q, r) && IdentitiesDistinct(q, before, r)
    ensures !(Committed(q, before, files, r.stageIdentity) && Uncommitted(q, before, files))
  {
  }

  /** A stage that is still present proves that no commit happened, and removing it keeps the
      record's meaning. */
  lemma StageRemoved(q: Request, before: Files, files: Files, after: Files, reading: Reading)
    requires IsBelow(q.rootPath, q.sourcePath) && q.StagePath() in files
    requires Consistent(q, before, files, reading)
    requires after == files - {q.StagePath()} && q.StagePath() !in before
    ensures Consistent(q, before, after, reading)
    ensures Uncommitted(q, before, files) && Uncommitted(q, before, after)
  {
    forall p | p != q.StagePath() ensures SameAt(before, files, p) ==> SameAt(before, after, p) {
    }
  }

  /** Every record before OutputCommitted may be followed by abandonment once the stage is gone
      and nothing was committed. */
  lemma AbandonmentExplained(q: Request, before: Files, files: Files, r: Record, abandoned: Record)
    requires Consistent(q, before, files, Latest(r)) && Uncommitted(q, before, files) && q.StagePath() !in files
    requires abandoned == r.(generation := abandoned.generation, state := TransactionAbandonedBeforeCommit)
    ensures Consistent(q, before, files, Latest(abandoned))
  {
  }

  /** After a replacement attempt, the original's identity at the source path rules the commit out. */
  lemma OriginalObserved(q: Request, before: Files, files: Files, reading: Reading)
    requires IsBelow(q.rootPath, q.sourcePath) && !q.IsCopy()
    requires Consistent(q, before, files, reading)
    requires q.sourcePath in before && q.sourcePath in files
    requires files[q.sourcePath].identity == before[q.sourcePath].identity
    ensures Uncommitted(q, before, files)
  {
  }

  /** Creating or writing the stage changes nothing that an unverified record talks about. */
  lemma StageChanged(q: Request, before: Files, files: Files, after: Files, reading: Reading)
    requires IsBelow(q.rootPath, q.sourcePath) && q.sourcePath in before && q.StagePath() !in before
    requires Consistent(q, before, files, reading) && Uncommitted(q, before, files)
    requires ChangedAt(files, after, q.StagePath())
    requires reading.Latest? ==>
               && reading.record.state.Index() <= StagedOutputWritten.Index()
               && after[q.StagePath()].identity == reading.record.stageIdentity
    ensures Consistent(q, before, after, reading) && Uncommitted(q, before, after)
  {
    forall p | p != q.StagePath() ensures SameAt(before, files, p) ==> SameAt(before, after, p) {
    }
  }

  /** The copy that becomes the backup sits at a name no record has mentioned yet. */
  lemma BackupAdded(q: Request, before: Files, files: Files, after: Files, r: Record)
    requires Consistent(q, before, files, Latest(r)) && Uncommitted(q, before, files)
    requires q.RetainsBackup() && r.state == StagedOutputHashVerified && r.backupIdentity.None?
    requires CreatedAt(files, after, q.BackupPath()) && q.sourcePath in files && q.StagePath() in files
    ensures Consistent(q, before, after, Latest(r)) && Uncommitted(q, before, after)
    ensures after[q.BackupPath()].identity != r.sourceIdentity
    ensures after[q.BackupPath()].identity != r.stageIdentity
  {
    forall p | p != q.BackupPath() ensures SameAt(before, files, p) ==> SameAt(before, after, p) {
    }
  }

  /** The commit effect turns an uncommitted world into a committed one and nothing else. */
  lemma CommitApplied(q: Request, before: Files, files: Files, after: Files, r: Record)
    requires Consistent(q, before, files, Latest(r)) && Uncommitted(q, before, files)
    requires q.StagePath() in files && before[q.sourcePath].Revised() == q.revision
    requires r.state == if q.RetainsBackup() then VerifiedBackupCreated else StagedOutputHashVerified
    requires MovedTo(files, after, q.StagePath(), q.DestinationPath())
    requires q.IsCopy() ==> q.DestinationPath() !in files
    ensures Consistent(q, before, after, Latest(r)) && Committed(q, before, after, r.stageIdentity)
  {
    forall p | p != q.StagePath() && p != q.DestinationPath()
      ensures SameAt(before, files, p) ==> SameAt(before, after, p)
    {
    }
    if r.backupIdentity.Some? {
      BackupIsElsewhere(q);
    }
  }

  lemma BackupIsElsewhere(q: Request)
    requires IsBelow(q.rootPath, q.sourcePath)
    ensures q.BackupPath() != q.StagePath()
  {
    assert q.BackupPath()[|q.rootPath|] == "JPG Spinner Backups";
    assert q.StagePath()[|q.rootPath|] == "JPG Spinner Output";
  }

  /** The first generation describes a world in which only the stage is new. */
  lemma FirstRecordExplained(q: Request, before: Files, files: Files, source: Identity, stage: Identity)
    requires IsBelow(q.rootPath, q.sourcePath)
    requires Consistent(q, before, files, Nothing) && Uncommitted(q, before, files)
    requires q.sourcePath in before && source == before[q.sourcePath].identity
    requires q.StagePath() !in before && IsFresh(before, stage)
    requires q.StagePath() in files && files[q.StagePath()].identity == stage
    ensures IsRecordOf(q, q.FirstRecord(source, stage))
    ensures Consistent(q, before, files, Latest(q.FirstRecord(source, stage)))
  {
  }

  /** The next milestone is explained once what it adds has been observed. */
  lemma MilestoneExplained(q: Request, before: Files, files: Files, r: Record, next: Record)
    requires Consistent(q, before, files, Latest(r)) && Uncommitted(q, before, files) && r.state.Index() < 3
    requires q.StagePath() in files
    requires next.state.Index() == r.state.Index() + 1
    requires next == r.(generation := next.generation, state := next.state,
                        backupPath := next.backupPath, backupIdentity := next.backupIdentity)
    requires next.state == StagedOutputHashVerified ==> files[q.StagePath()].bytes == q.output
    requires if next.state == VerifiedBackupCreated then
               && next.backupPath == q.BackupPath() && q.BackupPath() in files
               && next.backupIdentity == Some(files[q.BackupPath()].identity)
               && files[q.BackupPath()].HasContent(q.revision.length, q.revision.sha256)
               && files[q.BackupPath()].identity != r.sourceIdentity
               && files[q.BackupPath()].identity != r.stageIdentity
             else next.backupPath == r.backupPath && next.backupIdentity == r.backupIdentity
    ensures IsRecordOf(q, next) && Consistent(q, before, files, Latest(next))
  {
  }

  /** After the commit effect the two closing records are true. */
  lemma ClosingExplained(q: Request, before: Files, files: Files, r: Record, next: Record)
    requires Consistent(q, before, files, Latest(r)) && Committed(q, before, files, r.stageIdentity)
    requires next == r.(generation := next.generation, state := next.state)
    requires next.state == OutputCommitted || next.state == OwnedStagingArtifactsCleaned
    ensures IsRecordOf(q, next) && Consistent(q, before, files, Latest(next))
  {
  }

  /** A request that nothing in the starting world stands in the way of. */
  ghost predicate IsFit(q: Request, before: Files)
  {
    && IsBelow(q.rootPath, q.sourcePath)
    && q.transaction != "" && q.output != []
    && q.sourcePath in before && before[q.sourcePath].Revised() == q.revision && q.revision.length != 0
    && q.StagePath() !in before
    && (q.IsCopy() ==> q.DestinationPath() !in before && q.DestinationPath() != q.StagePath())
    && (q.RetainsBackup() ==> q.BackupPath() !in before && IsStorablePath(q.BackupPath()))
    && q.rootPath != [] && IsStorablePath(q.rootPath) && IsStorablePath(q.sourcePath)
    && IsStorablePath(q.StagePath()) && IsStorablePath(q.DestinationPath())
  }

  lemma FitFirstRecord(q: Request, before: Files, source: Identity, stage: Identity)
    requires IsFit(q, before)
    ensures IsValidRecord(q.FirstRecord(source, stage))
  {
  }

  /** Until hash verification the backup's name is as free as it was. */
  lemma BackupNameKept(q: Request, before: Files, files: Files, r: Record)
    requires Consistent(q, before, files, Latest(r)) && Uncommitted(q, before, files)
    requires r.state.Index() < StagedOutputHashVerified.Index()
    ensures SameAt(before, files, q.BackupPath())
  {
    BackupIsElsewhere(q);
    if q.BackupPath() != q.sourcePath && q.BackupPath() != q.DestinationPath() {
      assert SameAt(before, files, q.BackupPath());
    }
  }
}
