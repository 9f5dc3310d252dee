/** Restart recovery: what identities and digests prove about an interrupted save, and the
    effects that close it. */
module Recovery {
  import opened Options
  import opened Native
  import opened Journal
  import opened World

  datatype Verdict =
    | AlreadyClosed
    | AnotherRoot
    | Conflicting
    | OutputWasCommitted
    | OriginalWasPreserved(stageLeft: bool)

  datatype Root = Root(path: Path, identity: Identity)

  function BatchOf(root: Root, r: Record): string
    requires r.stagePath != [] && IsBelow(OutputRoot(root.path), Parent(r.stagePath))
  {
    Parent(r.stagePath)[|root.path| + 1]
  }

  /** Every stored path stands where this transaction's artifacts must stand below this root. */
  predicate IsPlaced(root: Root, id: TransactionId, r: Record)
    requires IsValidRecord(r)
  {
    && IsBelow(root.path, r.sourcePath)
    && IsBelow(OutputRoot(root.path), Parent(r.stagePath))
    && var relative := r.sourcePath[|root.path|..];
       && Parent(r.stagePath) == Parent(OutputRoot(root.path) + [BatchOf(root, r)] + relative)
       && FileName(r.stagePath) == StageName(id)
       && FileName(r.destinationPath) == FileName(relative)
       && Parent(r.destinationPath) ==
            (if r.disposition == CreateCorrectedCopy then Parent(r.stagePath) else Parent(r.sourcePath))
  }

  predicate IsBackupIntact(root: Root, r: Record, files: Files)
    requires r.stagePath != [] && IsBelow(root.path, r.sourcePath)
             && IsBelow(OutputRoot(root.path), Parent(r.stagePath))
  {
    && r.backupPath in files
    && r.backupPath == BackupRoot(root.path) + [BatchOf(root, r)] + r.sourcePath[|root.path|..]
    && r.backupIdentity == Some(files[r.backupPath].identity)
    && r.backupIdentity != Some(r.sourceIdentity) && r.backupIdentity != Some(r.stageIdentity)
    && files[r.backupPath].HasContent(r.sourceRevision.length, r.sourceRevision.sha256)
  }

  predicate IsOwnedStage(r: Record, stage: File) {
    && stage.identity == r.stageIdentity
    && r.stageIdentity != r.sourceIdentity && r.backupIdentity != Some(r.stageIdentity)
    && (r.state != TransactionInitialized ==> stage.HasContent(r.outputLength, r.outputSha256))
  }

  predicate IsPreserved(r: Record, source: File) {
    source.HasContent(r.sourceRevision.length, r.sourceRevision.sha256) && source.identity == r.sourceIdentity
  }

  predicate IsTransformed(r: Record, file: File) {
    file.HasContent(r.outputLength, r.outputSha256) && file.identity == r.stageIdentity
  }

  /** What the artifacts of a placed, open record prove. */
  function VerdictOnArtifacts(r: Record, files: Files): Verdict
    requires r.sourcePath in files
  {
    var source := files[r.sourcePath];
    var copy := r.disposition == CreateCorrectedCopy;
    var retains := r.disposition == ReplaceOriginalWithVerifiedBackup;
    var committed :=
      if copy then r.destinationPath in files
      else IsTransformed(r, source) && (!retains || r.backupPath != []);
    if source.HasContent(r.sourceRevision.length, r.sourceRevision.sha256)
       && source.HasContent(r.outputLength, r.outputSha256)
    then Conflicting
    else if copy && committed && !(IsPreserved(r, source) && IsTransformed(r, files[r.destinationPath]))
      then Conflicting
    else if committed then
      if r.stagePath in files
         || r.state.Index() < (if retains then VerifiedBackupCreated else StagedOutputHashVerified).Index()
      then Conflicting else OutputWasCommitted
    else if !IsPreserved(r, source) || r.state == OutputCommitted || r.state == OwnedStagingArtifactsCleaned
      then Conflicting
    else if copy && r.stagePath !in files && r.state == StagedOutputHashVerified then Conflicting
    else if r.stagePath in files && !IsOwnedStage(r, files[r.stagePath]) then Conflicting
    else OriginalWasPreserved(r.stagePath in files)
  }

  /** The decision of recovery on one record, as a function of what is on disk. */
  function VerdictOn(root: Root, id: TransactionId, r: Record, files: Files): Verdict
    requires IsValidRecord(r)
  {
    if r.state.IsTerminal() then AlreadyClosed
    else if r.rootIdentity != root.identity && r.rootPath != root.path then AnotherRoot
    else if r.rootIdentity != root.identity || r.rootPath != root.path then Conflicting
    else if r.sourcePath !in files || !IsPlaced(root, id, r) then Conflicting
    else if r.backupPath != [] && !IsBackupIntact(root, r, files) then Conflicting
    else VerdictOnArtifacts(r, files)
  }

  // ----- soundness on any filesystem whatsoever

  /** A reported preservation means that the original is there, by identity and by content. */
  lemma PreservationIsProved(root: Root, id: TransactionId, r: Record, files: Files)
    requires IsValidRecord(r) && VerdictOn(root, id, r, files).OriginalWasPreserved?
    ensures VerdictOn(root, id, r, files).stageLeft == (r.stagePath in files)
    ensures r.sourcePath in files && files[r.sourcePath].identity == r.sourceIdentity
    ensures files[r.sourcePath].HasContent(r.sourceRevision.length, r.sourceRevision.sha256)
    ensures r.stagePath in files ==> files[r.stagePath].identity == r.stageIdentity
    ensures r.stagePath != r.sourcePath && (r.backupPath != [] ==> r.stagePath != r.backupPath)
    ensures r.state.Index() < OutputCommitted.Index() && r.stagePath != [] && FileName(r.stagePath) == StageName(id)
  {
    if r.stagePath in files {
      assert IsOwnedStage(r, files[r.stagePath]);
    }
  }

  /** A reported commit means that the output stands at the destination, by identity and by
      content, that nothing is left at the stage, and that a promised backup is intact. */
  lemma CommitIsProved(root: Root, id: TransactionId, r: Record, files: Files)
    requires IsValidRecord(r) && VerdictOn(root, id, r, files) == OutputWasCommitted
    ensures r.destinationPath in files && files[r.destinationPath].identity == r.stageIdentity
    ensures files[r.destinationPath].HasContent(r.outputLength, r.outputSha256)
    ensures r.stagePath !in files
    ensures r.disposition == CreateCorrectedCopy ==> r.sourcePath in files && IsPreserved(r, files[r.sourcePath])
    ensures r.disposition == ReplaceOriginalWithVerifiedBackup ==>
              r.backupPath in files && files[r.backupPath].HasContent(r.sourceRevision.length, r.sourceRevision.sha256)
  {
    if r.disposition != CreateCorrectedCopy {
      assert r.destinationPath == Parent(r.destinationPath) + [FileName(r.destinationPath)];
      assert r.sourcePath == Parent(r.sourcePath) + [FileName(r.sourcePath)];
      assert FileName(r.sourcePath) == FileName(r.sourcePath[|root.path|..]);
    }
  }

  // ----- exactness on every world that an interrupted save can leave

  /** What can be told apart at all: the recorded digests differ, the source is there with the
      recorded content or is the replaced stage, the name of a copy is free or holds the moved stage, and no
      evidence of the stage is missing or damaged. */
  predicate IsExplicable(r: Record, files: Files) {
    var copy := r.disposition == CreateCorrectedCopy;
    && r.sourcePath in files
    && var source := files[r.sourcePath];
    && (r.sourceRevision.length, r.sourceRevision.sha256) != (r.outputLength, r.outputSha256)
    && (source.HasContent(r.sourceRevision.length, r.sourceRevision.sha256)
        || (!copy && source.identity == r.stageIdentity))
    && (copy && r.destinationPath in files ==>
          files[r.destinationPath].identity == r.stageIdentity && r.stagePath !in files)
    && (copy && r.destinationPath !in files && r.state == StagedOutputHashVerified ==> r.stagePath in files)
    && (r.state == StagedOutputWritten && r.stagePath in files ==>
          files[r.stagePath].HasContent(r.outputLength, r.outputSha256))
  }

  lemma RecordIsPlaced(q: Request, r: Record)
    requires IsRecordOf(q, r) && IsValidRecord(r) && q.batch != "." && q.batch != ".."
    ensures IsPlaced(Root(q.rootPath, q.rootIdentity), q.transaction, r)
    ensures BatchOf(Root(q.rootPath, q.rootIdentity), r) == q.batch
  {
    var parent := Parent(q.BatchFolder() + q.Relative());
    assert Parent(r.stagePath) == parent;
    assert parent == q.BatchFolder() + q.Relative()[..|q.Relative()| - 1];
    assert IsBelow(OutputRoot(q.rootPath), parent) by {
      assert parent[..|q.rootPath| + 1] == OutputRoot(q.rootPath);
    }
    if q.IsCopy() {
      assert Parent(r.destinationPath) == parent;
    }
  }

  /** For every disposition and every interruption of a save, with no outside writer: recovery
      finds the commit exactly when it took effect, finds the original otherwise, and refuses
      exactly the worlds that do not tell. */
  lemma RecoveryIsExact(q: Request, before: Files, files: Files, r: Record)
    requires Consistent(q, before, files, Latest(r)) && IsValidRecord(r) && !r.state.IsTerminal()
    requires q.batch != "." && q.batch != ".."
    ensures VerdictOn(Root(q.rootPath, q.rootIdentity), q.transaction, r, files) ==
              if !IsExplicable(r, files) then Conflicting
              else if Committed(q, before, files, r.stageIdentity) then OutputWasCommitted
              else OriginalWasPreserved(q.StagePath() in files)
  {
    RecordIsPlaced(q, r);
    CommittedIsNotUncommitted(q, before, files, r);
    if r.backupPath != [] {
      assert IsBackupIntact(Root(q.rootPath, q.rootIdentity), r, files);
    }
    if Uncommitted(q, before, files) {
      UncommittedVerdict(q, before, files, r);
    } else {
      CommittedVerdict(q, before, files, r);
    }
  }

  lemma UncommittedVerdict(q: Request, before: Files, files: Files, r: Record)
    requires Consistent(q, before, files, Latest(r)) && IsValidRecord(r) && !r.state.IsTerminal()
    requires Uncommitted(q, before, files) && !Committed(q, before, files, r.stageIdentity)
    ensures q.sourcePath in files
    ensures VerdictOnArtifacts(r, files) == if IsExplicable(r, files)
                                           then OriginalWasPreserved(q.StagePath() in files) else Conflicting
  {
    assert files[q.sourcePath] == before[q.sourcePath];
  }

  lemma CommittedVerdict(q: Request, before: Files, files: Files, r: Record)
    requires Consistent(q, before, files, Latest(r)) && IsValidRecord(r) && !r.state.IsTerminal()
    requires Committed(q, before, files, r.stageIdentity) && !Uncommitted(q, before, files)
    ensures q.sourcePath in files
    ensures VerdictOnArtifacts(r, files) == if IsExplicable(r, files) then OutputWasCommitted else Conflicting
  {
    if q.IsCopy() {
      assert files[q.sourcePath] == before[q.sourcePath];
    }
  }

  /** The original is at its path untouched, or a recorded backup with another identity holds it. */
  predicate OriginalSurvives(q: Request, before: Files, files: Files, reading: Reading)
    requires q.sourcePath in before
  {
    || (q.sourcePath in files && files[q.sourcePath] == before[q.sourcePath])
    || (reading.Latest? && before[q.sourcePath].Revised() == q.revision
        && var r := reading.record;
           && r.state.Index() >= VerifiedBackupCreated.Index() && r.backupIdentity.Some?
           && r.backupIdentity.value != before[q.sourcePath].identity
           && r.backupPath in files && files[r.backupPath].identity == r.backupIdentity.value
           && files[r.backupPath].HasContent(q.revision.length, q.revision.sha256))
  }

  /** With a retained backup no interruption loses the original. */
  lemma NoOriginalIsLost(q: Request, before: Files, files: Files, reading: Reading)
    requires q.RetainsBackup() && IsBelow(q.rootPath, q.sourcePath) && q.sourcePath in before
    requires Consistent(q, before, files, reading) && (reading.Latest? ==> IsValidRecord(reading.record))
    ensures OriginalSurvives(q, before, files, reading)
  {
  }
}
