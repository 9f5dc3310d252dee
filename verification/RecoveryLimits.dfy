/** What recovery refuses although the save did nothing wrong. Five worlds that an interrupted save can leave
    and that recovery cannot tell, with one concrete request, files and record for each; and a full journal
    folder in which a commit that the files prove stays open. */
module RecoveryLimits {
  import opened Options
  import opened Native
  import opened Journal
  import opened Storage
  import opened World
  import opened Recovery
  import opened RecoverySteps

  const ROOT: Path := ["r"]
  const SOURCE: Path := ["r", "a.jpg"]
  const STAGE: Path := ["r", "JPG Spinner Output", "b", StageName("t")]
  const COPY: Path := ["r", "JPG Spinner Output", "b", "a.jpg"]
  const REVIEWED: seq<Byte> := [0]
  const OUTPUT: seq<Byte> := [1]

  function CopyRequest(output: seq<Byte>): Request {
    Request("t", CreateCorrectedCopy, ROOT, 1, "b", SOURCE, Revision(1, 0, Sha256(REVIEWED)), output)
  }

  lemma CopyPaths(output: seq<Byte>)
    ensures var q := CopyRequest(output);
            && IsBelow(q.rootPath, q.sourcePath) && q.StagePath() == STAGE && q.DestinationPath() == COPY
  {
    var q := CopyRequest(output);
    assert q.Relative() == ["a.jpg"];
    assert q.BatchFolder() + q.Relative() == COPY;
    assert Parent(COPY) + ["a.jpg"] == COPY && Parent(COPY) + [StageName("t")] == STAGE;
  }

  /** The record of `CopyRequest` in one of its first three states. */
  function CopyRecord(output: seq<Byte>, state: State): Record {
    Record("t", state.Index() + 1, state, CreateCorrectedCopy, ROOT, 1, SOURCE, 2, Revision(1, 0, Sha256(REVIEWED)),
           STAGE, 3, |output|, Sha256(output), [], None, COPY)
  }

  lemma CopyRecordIsValid(output: seq<Byte>, state: State)
    requires output != [] && state.Index() <= StagedOutputHashVerified.Index()
    ensures IsValidRecord(CopyRecord(output, state)) && IsRecordOf(CopyRequest(output), CopyRecord(output, state))
  {
    CopyPaths(output);
    StorableUpToFour("r", "a.jpg", "b", "a.jpg");
    StorableUpToFour("r", "JPG Spinner Output", "b", "a.jpg");
    StorableUpToFour("r", "JPG Spinner Output", "b", StageName("t"));
    assert TextLength([]) == 0;
  }

  lemma StorableUpToFour(a: string, b: string, c: string, d: string)
    requires |a| + |b| + |c| + |d| < 1000
    requires '\0' !in a && '\0' !in b && '\0' !in c && '\0' !in d
    ensures IsStorablePath([a]) && IsStorablePath([a, b]) && IsStorablePath([a, b, c, d])
  {
    assert [a, b][1..] == [b] && [a, b, c, d][1..] == [b, c, d] && [b, c, d][1..] == [c, d] && [c, d][1..] == [d];
    assert TextLength([c, d]) == |c| + 1 + TextLength([d]) == |c| + |d| + 2;
  }

  /** A world in which the save was interrupted before its commit, and which recovery refuses. */
  ghost predicate IsRefused(output: seq<Byte>, state: State, before: Files, files: Files) {
    var q, r := CopyRequest(output), CopyRecord(output, state);
    && Consistent(q, before, files, Latest(r)) && IsValidRecord(r) && !r.state.IsTerminal()
    && VerdictOn(Root(ROOT, 1), "t", r, files) == Conflicting
  }

  lemma UnfinishedIsConsistent(q: Request, before: Files, files: Files, r: Record)
    requires IsRecordOf(q, r) && IdentitiesDistinct(q, before, r) && r.backupIdentity.None?
    requires r.state.Index() <= StagedOutputHashVerified.Index()
    requires files == before
             || (ChangedAt(before, files, q.StagePath()) && files[q.StagePath()].identity == r.stageIdentity)
    requires r.state == StagedOutputHashVerified ==> StageVerified(q, files)
    ensures Consistent(q, before, files, Latest(r))
  {
  }

  /** An uncommitted world with this stage is consistent; if it is not explicable, it is refused. */
  lemma InexplicableIsRefused(output: seq<Byte>, state: State, before: Files, stage: Option<File>)
    requires output != [] && state.Index() <= StagedOutputHashVerified.Index()
    requires SOURCE in before && before[SOURCE].identity == 2 && IsFresh(before, 3) && STAGE !in before
    requires stage.Some? ==>
               stage.value.identity == 3 && (state == StagedOutputHashVerified ==> stage.value.bytes == output)
    requires var files := if stage.Some? then before[STAGE := stage.value] else before;
             !IsExplicable(CopyRecord(output, state), files)
    ensures IsRefused(output, state, before, if stage.Some? then before[STAGE := stage.value] else before)
  {
    hide IsValidRecord, VerdictOn, IsExplicable, Consistent, IsRecordOf, IsBelow, Request.StagePath,
      Request.DestinationPath;
    var q, r := CopyRequest(output), CopyRecord(output, state);
    var files := if stage.Some? then before[STAGE := stage.value] else before;
    CopyPaths(output);
    CopyRecordIsValid(output, state);
    UnfinishedIsConsistent(q, before, files, r);
    RecoveryIsExact(q, before, files, r);
  }

  /** A file already stood at the copy's name. */
  lemma TakenDestinationIsRefused()
    ensures var before := map[SOURCE := File(2, 0, REVIEWED), COPY := File(4, 0, [7])];
            IsRefused(OUTPUT, StagedOutputHashVerified, before, before[STAGE := File(3, 0, OUTPUT)])
  {
    var before := map[SOURCE := File(2, 0, REVIEWED), COPY := File(4, 0, [7])];
    assert SOURCE[1] != COPY[1] && STAGE[3] != COPY[3];
    InexplicableIsRefused(OUTPUT, StagedOutputHashVerified, before, Some(File(3, 0, OUTPUT)));
  }

  /** The stage was written but does not hold the output. */
  lemma DamagedStageIsRefused()
    ensures var before := map[SOURCE := File(2, 0, REVIEWED)];
            IsRefused(OUTPUT, StagedOutputWritten, before, before[STAGE := File(3, 0, [9])])
  {
    InexplicableIsRefused(OUTPUT, StagedOutputWritten, map[SOURCE := File(2, 0, REVIEWED)], Some(File(3, 0, [9])));
  }

  /** The verified stage of a copy is gone and the abandonment is not published. */
  lemma LostStageIsRefused()
    ensures var before := map[SOURCE := File(2, 0, REVIEWED)];
            IsRefused(OUTPUT, StagedOutputHashVerified, before, before)
  {
    InexplicableIsRefused(OUTPUT, StagedOutputHashVerified, map[SOURCE := File(2, 0, REVIEWED)], None);
  }

  /** The source had changed before the save. */
  lemma ChangedSourceIsRefused()
    ensures var before := map[SOURCE := File(2, 0, [5])];
            IsRefused(OUTPUT, TransactionInitialized, before, before[STAGE := File(3, 0, [])])
  {
    InexplicableIsRefused(OUTPUT, TransactionInitialized, map[SOURCE := File(2, 0, [5])], Some(File(3, 0, [])));
  }

  /** The output is the source. */
  lemma UnchangedOutputIsRefused()
    ensures var before := map[SOURCE := File(2, 0, REVIEWED)];
            IsRefused(REVIEWED, StagedOutputHashVerified, before, before[STAGE := File(3, 0, REVIEWED)])
  {
    InexplicableIsRefused(REVIEWED, StagedOutputHashVerified, map[SOURCE := File(2, 0, REVIEWED)],
                          Some(File(3, 0, REVIEWED)));
  }

  // ----- a commit that the files prove and a full folder keeps open

  const FIRST_STATES := [TransactionInitialized, StagedOutputWritten, StagedOutputHashVerified]

  function RecordNumber(n: nat): Record
    requires 1 <= n <= 3
  {
    CopyRecord(OUTPUT, FIRST_STATES[n - 1])
  }

  /** The folder of the copy after its first `n` publications, beside some pending files. */
  function Published(pending: nat, n: nat): Folder
    requires n <= 3
  {
    if n == 0 then Folder(map[], pending, 0) else Extended(Published(pending, n - 1), RecordNumber(n))
  }

  lemma {:induction false} PublishedIsRead(pending: nat, n: nat)
    requires n <= 3 && pending + n <= MAXIMUM_FOLDER_FILES
    ensures Published(pending, n).FileCount() == pending + n && Published(pending, n).strays == 0
    ensures forall g | g in Published(pending, n).generations :: g <= n
    ensures Read(Published(pending, n), "t") == if n == 0 then Nothing else Latest(RecordNumber(n))
  {
    hide Read, CanExtend, RecordNumber, IsValidRecord;
    if n == 0 {
      NothingIsRead(pending);
    } else {
      var before := Published(pending, n - 1);
      PublishedIsRead(pending, n - 1);
      NumberCanExtend(before, n);
      ExtensionIsRead(before, "t", RecordNumber(n), before.pending);
    }
  }

  lemma NothingIsRead(pending: nat)
    requires pending <= MAXIMUM_FOLDER_FILES
    ensures Read(Folder(map[], pending, 0), "t") == Nothing
  {
    var folder := Folder(map[], pending, 0);
    hide IsValidRecord, IsValidSuccessor;
    assert IsChain(folder, "t", 0) && !IsLinked(folder, "t", 1);
    ChainLengthIs(folder, "t", 0);
  }

  lemma NumberCanExtend(folder: Folder, n: nat)
    requires 1 <= n <= 3 && forall g | g in folder.generations :: g < n
    requires Read(folder, "t") == if n == 1 then Nothing else Latest(RecordNumber(n - 1))
    ensures CanExtend(folder, "t", RecordNumber(n)) && RecordNumber(n).generation == n
  {
    hide Read, IsValidSuccessor, CopyRequest;
    CopyRecordIsValid(OUTPUT, FIRST_STATES[n - 1]);
    if n > 1 {
      CopyRecordIsValid(OUTPUT, FIRST_STATES[n - 2]);
      RecordsFollow(n);
      SuccessorCanExtend(folder, "t", RecordNumber(n - 1), RecordNumber(n));
    }
  }

  lemma RecordsFollow(n: nat)
    requires 2 <= n <= 3 && IsValidRecord(RecordNumber(n - 1))
    ensures IsValidSuccessor(RecordNumber(n - 1), RecordNumber(n))
  {
    NextMilestoneFollows(RecordNumber(n - 1), RecordNumber(n));
  }

  const COMMITTED_FILES: Files := map[SOURCE := File(2, 0, REVIEWED), COPY := File(3, 0, OUTPUT)]

  lemma CommitIsFound()
    ensures IsValidRecord(RecordNumber(3))
    ensures RecordNumber(3).generation == 3 && RecordNumber(3).state == StagedOutputHashVerified
    ensures VerdictOn(Root(ROOT, 1), "t", RecordNumber(3), COMMITTED_FILES) == OutputWasCommitted
  {
    var q, r := CopyRequest(OUTPUT), RecordNumber(3);
    CopyPaths(OUTPUT);
    CopyRecordIsValid(OUTPUT, StagedOutputHashVerified);
    RecordIsPlaced(q, r);
    hide IsValidRecord, IsRecordOf, IsPlaced;
    assert |STAGE| == 4 && |STAGE[3]| != |COPY[3]| && |SOURCE| == 2;
    assert STAGE !in COMMITTED_FILES && SOURCE != COPY;
  }

  /** With 29 pending files beside three generations the folder is full, and recovery reports a conflict; with
      fewer it reports the commit that the files prove. */
  lemma FullFolderKeepsCommitOpen(pending: nat)
    requires pending + 3 <= MAXIMUM_FOLDER_FILES
    ensures FoundReport(Root(ROOT, 1), "t", Published(pending, 3), COMMITTED_FILES) ==
              if pending + 3 == MAXIMUM_FOLDER_FILES then ConflictFound else Recovered(OutputCommittedOutcome)
  {
    CommitIsFound();
    PublishedIsRead(pending, 3);
    hide IsValidRecord, Read, VerdictOn, Published, RecordNumber, Folder.FileCount, FoundReport;
    UnrecordedCommitIsReportedIff(Root(ROOT, 1), "t", Published(pending, 3), COMMITTED_FILES, RecordNumber(3));
  }
}
