/** A save that may be stopped anywhere, then any number of recoveries that may themselves be stopped
    anywhere, then one recovery on a sound host. */
module Restart {
  import opened Options
  import opened Native
  import opened Journal
  import opened Storage
  import opened World
  import opened Transaction
  import opened Recovery
  import opened RecoverySteps
  import opened Reconcile

  /** A completed recovery reports the commit exactly when it took effect. */
  predicate IsTruthful(q: Request, before: Files, files: Files, report: Report) {
    report.Recovered? ==>
      && IsBelow(q.rootPath, q.sourcePath)
      && (report.outcome == OriginalPreservedOutcome <==> Uncommitted(q, before, files))
  }

  /** The transaction's folder means what it did: its chain explains the files. */
  ghost predicate IsExplained(q: Request, before: Files, files: Files, folder: Folder) {
    folder.Valid() && IsWhole(folder, q.transaction) && Consistent(q, before, files, Chained(folder, q.transaction))
  }

  lemma RemovalsCompose(q: Request, before: Files, a: Files, b: Files, c: Files, report: Report)
    requires AtMostStageRemoved(q, before, a, b) && AtMostStageRemoved(q, before, b, c)
    ensures AtMostStageRemoved(q, before, a, c)
    ensures IsTruthful(q, before, b, report) <==> IsTruthful(q, before, a, report)
  {
  }

  /** Recoveries of one transaction, each with any faults and stopped anywhere, and each for any
      selected root. However many there are, the chain goes on explaining the files. */
  method RecoverRepeatedly(storage: NativeStorage, request: Request, roots: seq<Root>, ghost before: Files)
    returns (reports: seq<Report>)
    requires storage.quiet && request.transaction in storage.folders
    requires IsExplained(request, before, storage.files, storage.folders[request.transaction])
    modifies storage`files, storage`lastCapture, storage`folders
    ensures request.transaction in storage.folders
    ensures IsExplained(request, before, storage.files, storage.folders[request.transaction])
    ensures storage.folders[request.transaction].pending <= old(storage.folders)[request.transaction].pending + |roots|
    ensures AtMostStageRemoved(request, before, old(storage.files), storage.files)
    ensures |reports| == |roots|
            && forall k | 0 <= k < |reports| :: IsTruthful(request, before, old(storage.files), reports[k])
  {
    hide IsRecoveryStep, Consistent, IsWhole, Chained, Read, AtMostStageRemoved, IsTruthful;
    ghost var files, pending := storage.files, storage.folders[request.transaction].pending;
    NothingRemoved(request, before, files);
    reports := [];
    for k := 0 to |roots|
      invariant request.transaction in storage.folders
      invariant IsExplained(request, before, storage.files, storage.folders[request.transaction])
      invariant storage.folders[request.transaction].pending <= pending + k
      invariant AtMostStageRemoved(request, before, files, storage.files)
      invariant |reports| == k && forall j | 0 <= j < k :: IsTruthful(request, before, files, reports[j])
    {
      ghost var middle, folder := storage.files, storage.folders[request.transaction];
      var report := ReconcileTransaction(storage, roots[k], request.transaction);
      StepIsExplained(request, before, roots[k], report, middle, folder, storage.files,
                      storage.folders[request.transaction]);
      RemovalsCompose(request, before, files, middle, storage.files, report);
      reports := reports + [report];
    }
  }

  lemma NothingRemoved(q: Request, before: Files, files: Files)
    ensures AtMostStageRemoved(q, before, files, files) && IsTruthful(q, before, files, NothingToDo)
  {
  }

  lemma StepIsExplained(q: Request, before: Files, root: Root, report: Report,
                        files: Files, folder: Folder, files': Files, folder': Folder)
    requires IsExplained(q, before, files, folder) && folder'.Valid()
    requires IsRecoveryStep(root, q.transaction, report, files, folder, files', folder')
    ensures IsExplained(q, before, files', folder') && folder'.pending <= folder.pending + 1
    ensures AtMostStageRemoved(q, before, files, files') && IsTruthful(q, before, files, report)
  {
    hide IsRecoveryStep, Consistent, IsWhole, Chained, Read, AtMostStageRemoved;
    StepKeepsMeaning(q, before, root, report, files, folder, files', folder');
    StepKeepsWhole(root, q.transaction, report, files, folder, files', folder');
  }

  /** What the last recovery reports on a sound host: nothing for a closed transaction, the commit or
      the preservation where the files tell, and a conflict otherwise. A folder whose first publication
      never finished is a conflict for good, and so is one that interrupted recoveries have overfilled;
      a full one has no room between the two publications that close a commit. */
  function LastReport(q: Request, before: Files, files: Files, folder: Folder): Report
    requires IsBelow(q.rootPath, q.sourcePath)
  {
    match Chained(folder, q.transaction)
    case Latest(r) =>
      if folder.FileCount() > MAXIMUM_FOLDER_FILES then ConflictFound
      else if r.state.IsTerminal() then NothingToDo
      else if !IsExplicable(r, files) then ConflictFound
      else if !Committed(q, before, files, r.stageIdentity) then Recovered(OriginalPreservedOutcome)
      else if r.state != OutputCommitted && folder.FileCount() == MAXIMUM_FOLDER_FILES then ConflictFound
      else Recovered(OutputCommittedOutcome)
    case _ => ConflictFound
  }

  lemma NextNameIsFree(folder: Folder, id: TransactionId)
    requires IsWhole(folder, id)
    ensures Chained(folder, id).Latest? ==> Chained(folder, id).record.generation + 1 !in folder.generations
    ensures folder.FileCount() > MAXIMUM_FOLDER_FILES ==> Read(folder, id) == Refused
    ensures Read(folder, id).Latest? ==> folder.FileCount() <= MAXIMUM_FOLDER_FILES
  {
  }

  lemma SaveIsExplained(q: Request, before: Files, files: Files, folder: Folder)
    requires Consistent(q, before, files, Read(folder, q.transaction))
    requires folder.Valid() && IsTidy(folder, q.transaction)
    ensures IsExplained(q, before, files, folder)
  {
    TidyIffWhole(folder, q.transaction);
  }

  /** On a sound host the report on an explained world is determined. */
  lemma LastReportIsExact(q: Request, before: Files, files: Files, folder: Folder)
    requires IsExplained(q, before, files, folder) && IsBelow(q.rootPath, q.sourcePath) && q.batch != "."
             && q.batch != ".."
    ensures FoundReport(Root(q.rootPath, q.rootIdentity), q.transaction, folder, files) ==
              LastReport(q, before, files, folder)
  {
    hide IsWhole, IsTidy, Committed, VerdictOn, IsExplicable;
    TidyIffWhole(folder, q.transaction);
    NextNameIsFree(folder, q.transaction);
    hide Chained, Read;
    match Chained(folder, q.transaction)
    case Latest(r) =>
      LatestIsValid(folder, q.transaction);
      var root := Root(q.rootPath, q.rootIdentity);
      if r.state.IsTerminal() {
        NothingToDoMeans(root, q.transaction, r, files);
      } else {
        RecoveryIsExact(q, before, files, r);
      }
    case _ =>
  }

  lemma SurvivesWhereExplained(q: Request, before: Files, files: Files, folder: Option<Folder>)
    requires IsBelow(q.rootPath, q.sourcePath) && q.sourcePath in before && q.RetainsBackup()
    requires Consistent(q, before, files, ReadingOf(folder, q.transaction))
    ensures OriginalSurvives(q, before, files, ReadingOf(folder, q.transaction))
  {
    NoOriginalIsLost(q, before, files, ReadingOf(folder, q.transaction));
  }

  /** What the save's folder says: nothing without a folder, else its chain's last record. */
  function ReadingOf(folder: Option<Folder>, id: TransactionId): Reading {
    if folder.None? then Nothing else Chained(folder.value, id)
  }

  function FolderOf(folders: map<TransactionId, Folder>, id: TransactionId): Option<Folder> {
    if id in folders then Some(folders[id]) else None
  }

  /** Where a save and its interrupted recoveries have left the world: `saved` is what the save left,
      `found` and `folder` are what the last recovery starts from. */
  datatype Remains = Remains(saved: Files, found: Files, folder: Option<Folder>)

  /** Crash safety end to end: a save stopped anywhere, any number of recoveries with any faults and
      stopped anywhere, and a last recovery on a sound host. The chain explains the files throughout,
      every report that claims a recovery tells what the save itself did, and the last report is
      determined. Seventeen interrupted recoveries never fill the folder. */
  method SaveThenRestart(storage: NativeStorage, request: Request, host: Host, roots: seq<Root>)
    returns (outcome: Outcome, reports: seq<Report>, last: Report, ghost remains: Remains)
    requires storage.quiet && request.transaction !in storage.folders
    requires IsBelow(request.rootPath, request.sourcePath) && request.sourcePath in storage.files
    requires request.batch != "." && request.batch != ".."
    modifies storage
    ensures Consistent(request, old(storage.files), remains.found, ReadingOf(remains.folder, request.transaction))
    ensures Consistent(request, old(storage.files), storage.files,
                       ReadingOf(FolderOf(storage.folders, request.transaction), request.transaction))
    ensures outcome == Finished(Saved) ==> !Uncommitted(request, old(storage.files), remains.saved)
    ensures outcome.Finished? && outcome.result.Failed? && outcome.result.code != RecoveryConflict ==>
              Uncommitted(request, old(storage.files), remains.saved)
    ensures AtMostStageRemoved(request, old(storage.files), remains.saved, remains.found)
    ensures AtMostStageRemoved(request, old(storage.files), remains.found, storage.files)
    ensures forall k | 0 <= k < |reports| :: IsTruthful(request, old(storage.files), remains.saved, reports[k])
    ensures IsTruthful(request, old(storage.files), remains.saved, last)
    ensures remains.folder.None? ==> last == NothingToDo
    ensures remains.folder.Some? ==>
              last == LastReport(request, old(storage.files), remains.found, remains.folder.value)
    ensures remains.folder.Some? && |roots| <= 17 ==> remains.folder.value.FileCount() + 2 <= MAXIMUM_FOLDER_FILES
    ensures request.RetainsBackup() ==>
              && OriginalSurvives(request, old(storage.files), remains.found,
                                  ReadingOf(remains.folder, request.transaction))
              && OriginalSurvives(request, old(storage.files), storage.files,
                                  ReadingOf(FolderOf(storage.folders, request.transaction), request.transaction))
  {
    hide Read, Chained, IsWhole, IsTidy, Consistent, IsRecoveryStep, AtMostStageRemoved, IsTruthful, OriginalSurvives,
         Committed, Uncommitted, LastReport, IsRecordOf, FoundReport, FoundFiles, MayRemove, IsClosedFrom, IsProved,
         OnlyRemoved;
    ghost var before := storage.files;
    var save := new RecoverableImageFileTransaction(storage, request, host);
    outcome := save.Execute();
    ghost var saved := storage.files;
    if outcome == Finished(Saved) {
      CommitIsNotUndone(request, before, saved, save.Reading().record);
    }
    reports, last, remains := [], NothingToDo, Remains(saved, saved, None);
    NothingRemoved(request, before, saved);
    if request.transaction in storage.folders {
      SaveIsExplained(request, before, saved, storage.folders[request.transaction]);
      reports := RecoverRepeatedly(storage, request, roots, before);
      ghost var found, folder := storage.files, storage.folders[request.transaction];
      remains := Remains(saved, found, Some(folder));
      WholeIsSmall(folder, request.transaction);
      LastReportIsExact(request, before, found, folder);
      storage.reliable := true;
      var root := Root(request.rootPath, request.rootIdentity);
      last := ReconcileTransaction(storage, root, request.transaction);
      StepIsExplained(request, before, root, last, found, folder, storage.files, storage.folders[request.transaction]);
      RemovalsCompose(request, before, saved, found, storage.files, last);
    }
    if request.RetainsBackup() {
      SurvivesWhereExplained(request, before, remains.found, remains.folder);
      SurvivesWhereExplained(request, before, storage.files, FolderOf(storage.folders, request.transaction));
    }
  }
}
