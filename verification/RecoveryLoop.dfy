/** Recovery over the whole journal store: what one transaction gets never depends on the conflicts
    of another. */
module RecoveryLoop {
  import opened Native
  import opened Journal
  import opened Storage
  import opened World
  import opened Recovery
  import opened RecoverySteps
  import opened Reconcile

  datatype RecoveryResult =
    | RecoverySummary(recovered: seq<(TransactionId, RecoveryOutcome)>)
    | FirstConflict
    | RecoveryCancelled
    | RecoveryStopped

  ghost predicate AreDistinct(ids: seq<TransactionId>) {
    forall i, j | 0 <= i < j < |ids| :: ids[i] != ids[j]
  }

  /** Every entry of the summary is proved by the files recovery started from, has no stage left,
      and is closed in the journal as it now stands. */
  ghost predicate IsProvedSummary(
    recovered: seq<(TransactionId, RecoveryOutcome)>, quiet: bool,
    files: Files, folders: map<TransactionId, Folder>, files': Files, folders': map<TransactionId, Folder>)
  {
    forall k | 0 <= k < |recovered| ::
      var (id, outcome) := recovered[k];
      && id in folders && id in folders'
      && IsClosedFrom(folders[id], folders'[id], id, outcome)
      && (quiet ==> IsProved(folders[id], id, outcome, files, files'))
  }

  /** Files only disappear, and only as a journaled stage under its own identity. */
  ghost predicate OnlyStagesRemoved(ids: seq<TransactionId>, files: Files, folders: map<TransactionId, Folder>,
                                    files': Files)
    requires forall i | 0 <= i < |ids| :: ids[i] in folders
  {
    && OnlyRemoved(files, files')
    && forall p | p in files && p !in files' ::
         exists i :: 0 <= i < |ids| && MayRemove(folders[ids[i]], ids[i], files, p)
  }

  lemma ProofsPersist(
    recovered: seq<(TransactionId, RecoveryOutcome)>, quiet: bool, id: TransactionId,
    files: Files, folders: map<TransactionId, Folder>, files': Files, folders': map<TransactionId, Folder>,
    files'': Files, folders'': map<TransactionId, Folder>)
    requires IsProvedSummary(recovered, quiet, files, folders, files', folders')
    requires quiet ==> OnlyRemoved(files', files'')
    requires forall k | 0 <= k < |recovered| :: recovered[k].0 != id
    requires id in folders' && id in folders'' && folders'' == folders'[id := folders''[id]]
    ensures IsProvedSummary(recovered, quiet, files, folders, files'', folders'')
  {
    hide Read, IsClosedFrom, IsPreserved, IsTransformed;
  }

  /** The files that the recovery of transaction `n` finds, after those before it. */
  function FilesFound(root: Root, ids: seq<TransactionId>, folders: map<TransactionId, Folder>, files: Files,
                      n: nat): Files
    requires n <= |ids| && forall i | 0 <= i < |ids| :: ids[i] in folders
  {
    if n == 0 then files
    else FoundFiles(root, ids[n - 1], folders[ids[n - 1]], FilesFound(root, ids, folders, files, n - 1))
  }

  /** What transaction `i` gets on a sound host, whatever the others got. */
  function ReportAt(root: Root, ids: seq<TransactionId>, folders: map<TransactionId, Folder>, files: Files,
                    i: nat): Report
    requires i < |ids| && forall i | 0 <= i < |ids| :: ids[i] in folders
  {
    FoundReport(root, ids[i], folders[ids[i]], FilesFound(root, ids, folders, files, i))
  }

  function Appended(recovered: seq<(TransactionId, RecoveryOutcome)>, id: TransactionId, report: Report)
    : seq<(TransactionId, RecoveryOutcome)>
  {
    if report.Recovered? then recovered + [(id, report.outcome)] else recovered
  }

  /** The recovered transactions among the first `n`, in order. */
  function Collected(root: Root, ids: seq<TransactionId>, folders: map<TransactionId, Folder>, files: Files, n: nat)
    : seq<(TransactionId, RecoveryOutcome)>
    requires n <= |ids| && forall i | 0 <= i < |ids| :: ids[i] in folders
  {
    if n == 0 then []
    else
      var report := ReportAt(root, ids, folders, files, n - 1);
      Appended(Collected(root, ids, folders, files, n - 1), ids[n - 1], report)
  }

  predicate Conflicts(root: Root, ids: seq<TransactionId>, folders: map<TransactionId, Folder>, files: Files, n: nat)
    requires n <= |ids| && forall i | 0 <= i < |ids| :: ids[i] in folders
  {
    exists i | 0 <= i < n :: ReportAt(root, ids, folders, files, i) == ConflictFound
  }

  /** A transaction that was to be recovered is closed by the outcome that its evidence proves. */
  ghost predicate IsTreated(root: Root, ids: seq<TransactionId>, folders: map<TransactionId, Folder>, files: Files,
                            i: nat, folders': map<TransactionId, Folder>)
    requires i < |ids| && forall i | 0 <= i < |ids| :: ids[i] in folders
  {
    ReportAt(root, ids, folders, files, i).Recovered? ==>
      && ids[i] in folders'
      && IsClosedFrom(folders[ids[i]], folders'[ids[i]], ids[i], ReportAt(root, ids, folders, files, i).outcome)
  }

  /** The first `n` transactions have been treated as each of them deserves: nothing is said of
      conflicts here, so a conflict takes nothing from the others. */
  ghost predicate AreTreated(root: Root, ids: seq<TransactionId>, folders: map<TransactionId, Folder>, files: Files,
                             n: nat, folders': map<TransactionId, Folder>, files': Files)
    requires n <= |ids| && forall i | 0 <= i < |ids| :: ids[i] in folders
  {
    && files' == FilesFound(root, ids, folders, files, n)
    && forall i | 0 <= i < n :: IsTreated(root, ids, folders, files, i, folders')
  }

  lemma StaysTreated(root: Root, ids: seq<TransactionId>, folders: map<TransactionId, Folder>, files: Files, i: nat,
                     folders': map<TransactionId, Folder>, folders'': map<TransactionId, Folder>)
    requires i < |ids| && forall i | 0 <= i < |ids| :: ids[i] in folders
    requires IsTreated(root, ids, folders, files, i, folders')
    requires ids[i] in folders' ==> ids[i] in folders'' && folders''[ids[i]] == folders'[ids[i]]
    ensures IsTreated(root, ids, folders, files, i, folders'')
  {
    hide ReportAt, IsClosedFrom;
  }

  lemma OneMoreTreated(root: Root, ids: seq<TransactionId>, folders: map<TransactionId, Folder>, files: Files, n: nat,
                       folders': map<TransactionId, Folder>, files': Files,
                       folders'': map<TransactionId, Folder>, files'': Files)
    requires AreDistinct(ids) && n < |ids| && forall i | 0 <= i < |ids| :: ids[i] in folders
    requires AreTreated(root, ids, folders, files, n, folders', files')
    requires ids[n] in folders'' && folders'' == folders'[ids[n] := folders''[ids[n]]]
    requires files'' == FoundFiles(root, ids[n], folders[ids[n]], files')
    requires var report := FoundReport(root, ids[n], folders[ids[n]], files');
             report.Recovered? ==> IsClosedFrom(folders[ids[n]], folders''[ids[n]], ids[n], report.outcome)
    ensures AreTreated(root, ids, folders, files, n + 1, folders'', files'')
    ensures ReportAt(root, ids, folders, files, n) == FoundReport(root, ids[n], folders[ids[n]], files')
  {
    hide FoundReport, FoundFiles, IsClosedFrom, ReportAt, FilesFound, IsTreated;
    ReportOfNext(root, ids, folders, files, n);
    NextIsTreated(root, ids, folders, files, n, folders'');
    forall i | 0 <= i < n
      ensures IsTreated(root, ids, folders, files, i, folders'')
    {
      OtherFolderIsKept(folders', folders'', ids[n], ids[i]);
      StaysTreated(root, ids, folders, files, i, folders', folders'');
    }
  }

  lemma OtherFolderIsKept(before: map<TransactionId, Folder>, after: map<TransactionId, Folder>, id: TransactionId,
                          other: TransactionId)
    requires id in after && after == before[id := after[id]] && other != id
    ensures other in before ==> other in after && after[other] == before[other]
  {
  }

  lemma NextIsTreated(root: Root, ids: seq<TransactionId>, folders: map<TransactionId, Folder>, files: Files, n: nat,
                      folders'': map<TransactionId, Folder>)
    requires n < |ids| && (forall i | 0 <= i < |ids| :: ids[i] in folders) && ids[n] in folders''
    requires var report := ReportAt(root, ids, folders, files, n);
             report.Recovered? ==> IsClosedFrom(folders[ids[n]], folders''[ids[n]], ids[n], report.outcome)
    ensures IsTreated(root, ids, folders, files, n, folders'')
  {
    hide ReportAt, IsClosedFrom;
  }

  lemma ReportOfNext(root: Root, ids: seq<TransactionId>, folders: map<TransactionId, Folder>, files: Files, n: nat)
    requires n < |ids| && forall i | 0 <= i < |ids| :: ids[i] in folders
    ensures var found := FilesFound(root, ids, folders, files, n);
            && ReportAt(root, ids, folders, files, n) == FoundReport(root, ids[n], folders[ids[n]], found)
            && FilesFound(root, ids, folders, files, n + 1) == FoundFiles(root, ids[n], folders[ids[n]], found)
  {
    hide FoundReport, FoundFiles;
  }

  /** What the loop has achieved after `n` transactions. */
  ghost predicate IsProgress(
    root: Root, ids: seq<TransactionId>, quiet: bool, sound: bool, files: Files, folders: map<TransactionId, Folder>,
    n: nat, recovered: seq<(TransactionId, RecoveryOutcome)>, conflict: bool,
    files': Files, folders': map<TransactionId, Folder>)
    requires n <= |ids| && forall i | 0 <= i < |ids| :: ids[i] in folders
  {
    && (forall j | 0 <= j < |ids| :: ids[j] in folders')
    && (forall j | n <= j < |ids| :: folders'[ids[j]] == folders[ids[j]])
    && (quiet ==> OnlyStagesRemoved(ids, files, folders, files'))
    && IsProvedSummary(recovered, quiet, files, folders, files', folders')
    && (forall k | 0 <= k < |recovered| :: recovered[k].0 in ids[..n])
    && (sound ==>
          && AreTreated(root, ids, folders, files, n, folders', files')
          && recovered == Collected(root, ids, folders, files, n)
          && (conflict <==> Conflicts(root, ids, folders, files, n)))
  }

  /** One sound report takes the loop one transaction further. */
  lemma ProgressGoesOn(
    root: Root, ids: seq<TransactionId>, quiet: bool, sound: bool, files: Files, folders: map<TransactionId, Folder>,
    n: nat, recovered: seq<(TransactionId, RecoveryOutcome)>, conflict: bool,
    files': Files, folders': map<TransactionId, Folder>,
    report: Report, files'': Files, folders'': map<TransactionId, Folder>)
    requires AreDistinct(ids) && n < |ids| && forall i | 0 <= i < |ids| :: ids[i] in folders
    requires IsProgress(root, ids, quiet, sound, files, folders, n, recovered, conflict, files', folders')
    requires IsSoundReport(ids[n], report, quiet, files', folders', files'', folders'')
    requires sound ==>
               && quiet
               && report == FoundReport(root, ids[n], folders[ids[n]], files')
               && files'' == FoundFiles(root, ids[n], folders[ids[n]], files')
    ensures IsProgress(root, ids, quiet, sound, files, folders, n + 1,
                       Appended(recovered, ids[n], report), conflict || report == ConflictFound, files'', folders'')
  {
    hide Read, MayRemove, IsClosedFrom, IsProved, FoundReport, FoundFiles, AreTreated, OnlyRemoved;
    hide IsProvedSummary, Collected, Conflicts;
    if quiet {
      RemovalsPersist(ids, n, files, folders, files', files'');
    }
    ProofsGoOn(recovered, quiet, ids[n], report, files, folders, files', folders', files'', folders'');
    if sound {
      OneMoreTreated(root, ids, folders, files, n, folders', files', folders'', files'');
      OneMoreReport(root, ids, folders, files, n);
    }
  }

  lemma OneMoreReport(root: Root, ids: seq<TransactionId>, folders: map<TransactionId, Folder>, files: Files, n: nat)
    requires n < |ids| && forall i | 0 <= i < |ids| :: ids[i] in folders
    ensures var report := ReportAt(root, ids, folders, files, n);
            && Collected(root, ids, folders, files, n + 1) ==
                 Appended(Collected(root, ids, folders, files, n), ids[n], report)
            && (Conflicts(root, ids, folders, files, n + 1) <==>
                  Conflicts(root, ids, folders, files, n) || report == ConflictFound)
  {
    hide ReportAt;
  }

  lemma ProofsGoOn(
    recovered: seq<(TransactionId, RecoveryOutcome)>, quiet: bool, id: TransactionId, report: Report,
    files: Files, folders: map<TransactionId, Folder>, files': Files, folders': map<TransactionId, Folder>,
    files'': Files, folders'': map<TransactionId, Folder>)
    requires IsProvedSummary(recovered, quiet, files, folders, files', folders')
    requires quiet ==> OnlyRemoved(files, files')
    requires forall k | 0 <= k < |recovered| :: recovered[k].0 != id
    requires id in folders && id in folders' && folders'[id] == folders[id]
    requires IsSoundReport(id, report, quiet, files', folders', files'', folders'')
    ensures IsProvedSummary(Appended(recovered, id, report), quiet, files, folders, files'', folders'')
  {
    hide Read, MayRemove, IsClosedFrom, IsProved, OnlyRemoved;
    if quiet && report.Recovered? {
      ProofReachesBack(folders[id], id, report.outcome, files, files', files'');
    }
    ProofsPersist(recovered, quiet, id, files, folders, files', folders', files'', folders'');
  }

  /** The loop over the journal store: a cancellation ends it at once, and a summary is returned
      only when nothing conflicted. On a sound host every transaction gets its own report on the
      files it finds, and is closed accordingly, whether or not another one conflicted. */
  method RecoverIncompleteTransactions(storage: NativeStorage, root: Root, ids: seq<TransactionId>)
    returns (r: RecoveryResult)
    requires AreDistinct(ids)
    requires forall i | 0 <= i < |ids| :: ids[i] in storage.folders && storage.folders[ids[i]].Valid()
    modifies storage`files, storage`lastCapture, storage`folders
    ensures storage.quiet ==> OnlyStagesRemoved(ids, old(storage.files), old(storage.folders), storage.files)
    ensures r.RecoverySummary? ==>
              && IsProvedSummary(r.recovered, storage.quiet, old(storage.files), old(storage.folders), storage.files,
                                 storage.folders)
              && (forall k | 0 <= k < |r.recovered| :: r.recovered[k].0 in ids)
    ensures storage.reliable && storage.quiet ==>
              && AreTreated(root, ids, old(storage.folders), old(storage.files), |ids|, storage.folders, storage.files)
              && r == if Conflicts(root, ids, old(storage.folders), old(storage.files), |ids|) then FirstConflict
                      else RecoverySummary(Collected(root, ids, old(storage.folders), old(storage.files), |ids|))
  {
    hide IsProgress, IsSoundReport, FoundReport, FoundFiles, IsRecoveryStep, AreTreated, OnlyStagesRemoved,
      IsProvedSummary, Collected, Conflicts;
    var recovered := [];
    var conflict := false;
    ghost var files, folders := storage.files, storage.folders;
    ghost var sound := storage.reliable && storage.quiet;
    NoProgressYet(root, ids, storage.quiet, sound, files, folders);
    for i := 0 to |ids|
      invariant IsProgress(root, ids, storage.quiet, sound, files, folders, i, recovered, conflict,
                           storage.files, storage.folders)
    {
      ghost var midFiles, midFolders := storage.files, storage.folders;
      NextIsUntouched(root, ids, storage.quiet, sound, files, folders, i, recovered, conflict, midFiles, midFolders);
      var report := ReconcileTransaction(storage, root, ids[i]);
      ProgressGoesOn(root, ids, storage.quiet, sound, files, folders, i, recovered, conflict, midFiles, midFolders,
                     report, storage.files, storage.folders);
      conflict := conflict || report == ConflictFound;
      recovered := Appended(recovered, ids[i], report);
      if report.ReadCancelled? || report.Stopped? {
        ProgressPromises(root, ids, storage.quiet, sound, files, folders, i + 1, recovered, conflict,
                         storage.files, storage.folders);
        ReportsEnd(root, ids[i], folders[ids[i]], midFiles);
        return if report.ReadCancelled? then RecoveryCancelled else RecoveryStopped;
      }
    }
    ProgressPromises(root, ids, storage.quiet, sound, files, folders, |ids|, recovered, conflict,
                     storage.files, storage.folders);
    return if conflict then FirstConflict else RecoverySummary(recovered);
  }

  lemma NextIsUntouched(
    root: Root, ids: seq<TransactionId>, quiet: bool, sound: bool, files: Files, folders: map<TransactionId, Folder>,
    n: nat, recovered: seq<(TransactionId, RecoveryOutcome)>, conflict: bool,
    files': Files, folders': map<TransactionId, Folder>)
    requires n < |ids| && forall i | 0 <= i < |ids| :: ids[i] in folders
    requires IsProgress(root, ids, quiet, sound, files, folders, n, recovered, conflict, files', folders')
    ensures ids[n] in folders' && folders'[ids[n]] == folders[ids[n]]
  {
    hide OnlyStagesRemoved, IsProvedSummary, AreTreated, Collected, Conflicts;
  }

  lemma ProgressPromises(
    root: Root, ids: seq<TransactionId>, quiet: bool, sound: bool, files: Files, folders: map<TransactionId, Folder>,
    n: nat, recovered: seq<(TransactionId, RecoveryOutcome)>, conflict: bool,
    files': Files, folders': map<TransactionId, Folder>)
    requires n <= |ids| && forall i | 0 <= i < |ids| :: ids[i] in folders
    requires IsProgress(root, ids, quiet, sound, files, folders, n, recovered, conflict, files', folders')
    ensures quiet ==> OnlyStagesRemoved(ids, files, folders, files')
    ensures IsProvedSummary(recovered, quiet, files, folders, files', folders')
    ensures forall k | 0 <= k < |recovered| :: recovered[k].0 in ids
    ensures sound ==>
              && AreTreated(root, ids, folders, files, n, folders', files')
              && recovered == Collected(root, ids, folders, files, n)
              && (conflict <==> Conflicts(root, ids, folders, files, n))
  {
    hide OnlyStagesRemoved, IsProvedSummary, AreTreated, Collected, Conflicts;
  }

  lemma NoProgressYet(root: Root, ids: seq<TransactionId>, quiet: bool, sound: bool, files: Files,
                      folders: map<TransactionId, Folder>)
    requires forall i | 0 <= i < |ids| :: ids[i] in folders
    ensures IsProgress(root, ids, quiet, sound, files, folders, 0, [], false, files, folders)
  {
  }

  lemma ReportsEnd(root: Root, id: TransactionId, folder: Folder, files: Files)
    ensures var report := FoundReport(root, id, folder, files);
            report.NothingToDo? || report.ConflictFound? || report.Recovered?
  {
  }

  lemma RemovalsPersist(ids: seq<TransactionId>, i: nat, files: Files, folders: map<TransactionId, Folder>,
                        files': Files, files'': Files)
    requires i < |ids| && forall j | 0 <= j < |ids| :: ids[j] in folders
    requires OnlyStagesRemoved(ids, files, folders, files')
    requires OnlyRemoved(files', files'')
    requires forall p | p in files' && p !in files'' :: MayRemove(folders[ids[i]], ids[i], files', p)
    ensures OnlyStagesRemoved(ids, files, folders, files'')
  {
    hide IsJournaled;
    forall p | p in files && p !in files''
      ensures exists j :: 0 <= j < |ids| && MayRemove(folders[ids[j]], ids[j], files, p)
    {
      if p in files' {
        assert MayRemove(folders[ids[i]], ids[i], files, p);
      }
    }
  }

  lemma ProofReachesBack(folder: Folder, id: TransactionId, outcome: RecoveryOutcome, files: Files, files': Files,
                         files'': Files)
    requires IsProved(folder, id, outcome, files', files'') && OnlyRemoved(files, files')
    ensures IsProved(folder, id, outcome, files, files'')
  {
    hide Read;
  }

  // ----- one transaction's report does not depend on the others

  lemma StageNameIdentifies(a: TransactionId, b: TransactionId)
    requires StageName(a) == StageName(b)
    ensures a == b
  {
    var prefix := |".jpg-spinner-staged-"|;
    assert a == StageName(a)[prefix..|StageName(a)| - |".jpg"|];
    assert b == StageName(b)[prefix..|StageName(b)| - |".jpg"|];
  }

  /** A verdict looks at four names only. */
  lemma VerdictIsLocal(root: Root, id: TransactionId, r: Record, files: Files, files': Files)
    requires IsValidRecord(r)
    requires forall p | p in {r.sourcePath, r.destinationPath, r.backupPath} :: SameAt(files, files', p)
    requires FileName(r.stagePath) == StageName(id) ==> SameAt(files, files', r.stagePath)
    ensures VerdictOn(root, id, r, files') == VerdictOn(root, id, r, files)
  {
    assert SameAt(files, files', r.sourcePath) && SameAt(files, files', r.destinationPath)
           && SameAt(files, files', r.backupPath);
    if r.sourcePath in files && IsPlaced(root, id, r) {
      assert VerdictOnArtifacts(r, files') == VerdictOnArtifacts(r, files);
    }
  }

  /** No transaction's artifact bears the name of one of the first `n` stages. */
  predicate IsNoStage(ids: seq<TransactionId>, n: nat, path: Path)
    requires n <= |ids|
  {
    path == [] || forall j | 0 <= j < n :: FileName(path) != StageName(ids[j])
  }

  lemma {:induction false} OnlyStagesAreTaken(
    root: Root, ids: seq<TransactionId>, folders: map<TransactionId, Folder>, files: Files, n: nat, path: Path)
    requires n <= |ids| && (forall i | 0 <= i < |ids| :: ids[i] in folders) && IsNoStage(ids, n, path)
    ensures SameAt(files, FilesFound(root, ids, folders, files, n), path)
  {
    if n > 0 {
      OnlyStagesAreTaken(root, ids, folders, files, n - 1, path);
      var found := FilesFound(root, ids, folders, files, n - 1);
      LatestIsValid(folders[ids[n - 1]], ids[n - 1]);
      match Read(folders[ids[n - 1]], ids[n - 1])
      case Latest(r) =>
        if VerdictOn(root, ids[n - 1], r, found).OriginalWasPreserved? {
          PreservationIsProved(root, ids[n - 1], r, found);
        }
      case _ =>
    }
  }

  /** The report on a transaction is the one it would get alone: neither another's conflict nor
      another's cleanup can change it, unless a user's file bears another's stage name. */
  lemma OthersDoNotMatter(root: Root, ids: seq<TransactionId>, folders: map<TransactionId, Folder>, files: Files,
                          i: nat)
    requires AreDistinct(ids) && i < |ids| && forall i | 0 <= i < |ids| :: ids[i] in folders
    requires match Read(folders[ids[i]], ids[i])
             case Latest(r) => forall p | p in {r.sourcePath, r.destinationPath, r.backupPath} :: IsNoStage(ids, i, p)
             case _ => true
    ensures ReportAt(root, ids, folders, files, i) == FoundReport(root, ids[i], folders[ids[i]], files)
  {
    hide Read, VerdictOn, IsValidRecord, FilesFound;
    LatestIsValid(folders[ids[i]], ids[i]);
    match Read(folders[ids[i]], ids[i])
    case Latest(r) =>
      forall p | IsNoStage(ids, i, p) ensures SameAt(files, FilesFound(root, ids, folders, files, i), p) {
        OnlyStagesAreTaken(root, ids, folders, files, i, p);
      }
      forall j | 0 <= j < i ensures StageName(ids[i]) != StageName(ids[j]) {
        if StageName(ids[i]) == StageName(ids[j]) {
          StageNameIdentifies(ids[i], ids[j]);
        }
      }
      ValidPaths(r);
      VerdictIsLocal(root, ids[i], r, files, FilesFound(root, ids, folders, files, i));
    case _ =>
  }

  lemma ValidPaths(r: Record)
    requires IsValidRecord(r)
    ensures r.stagePath != []
  {
  }
}
