# JPG Spinner: a verified model

This project models the parts of JPG Spinner on which the safety of a user's photographs rests, and proves
what they promise. It has four cores.

**The recoverable save** (`Native`, `Journal`, `Storage`, `JournalStore`, `World`, `Transaction`, `Recovery`,
`RecoverySteps`, `RecoveryLimits`, `Reconcile`, `RecoveryLoop`, `Restart`). A save stages its output in an exclusive file, publishes an append-only, hash-linked
journal, optionally makes a verified backup, and commits by a move or a replacement. The file system is a map
from path to identity and bytes, and SHA-256 is injective. Every native effect has three outcomes (not
applied and failed, applied and reported, applied and failed), and the process may stop between any two
effects. The central definition is `World.Consistent`: the latest record of the journal's
chain explains the files. The save keeps it in every outcome, every recovery keeps it however many of its
effects fail and wherever it stops (`RecoverySteps.StepKeepsMeaning`), and a recovery on a sound host is proved
exact on every world that it allows. `Restart.SaveThenRestart` puts the three together: a save stopped anywhere,
any number of interrupted recoveries, and a last one. The proofs on files at rest hold for saves without outside
writers (`quiet` storage); journal safety, and the soundness of one recovery report, hold with them too.

**The batch scheduler** (`Batch`, `BatchSafety`, `BatchRuns`, `BatchLiveness`, `BatchDeterminism`,
`SerialBatch`). A transition system over worker phases, a 64-bit memory counter, a condition variable, and a
commit gate. Its theorems are about whole runs: any number of workers, any schedule, any budget samples, any
answers of capture, transform and commit, with cancellation, failed allocations and spurious wake-ups. The
path without a pool is a class with the loop itself, and is proved to end in the same rows.

**The marker scanner and the splice** (`Bytes`, `JpegSyntax`, `JpegScanner`, `JpegGrammar`, `JpegTiling`,
`ChunkOrder`, `XmpOrder`, `Jumbf`, `JumbfTransport`, `JumbfRecognition`, `JpegSplice`, `JpegRescan`,
`MetadataReconciler`, `MetadataValidator`, `MetadataAcceptance`, `OutputPipeline`, `JpegAcceptance`). The outer
syntax (ITU-T T.81, sections B.1.1.2 and B.1.1.5) is a grammar of parts with a printer. The scanner's loop is proved against a functional walk, and the
walk against the grammar in both directions; `JpegAcceptance` then says which sources are accepted without
mentioning the walk. The JUMBF recogniser is proved to accept exactly the sequences
of opaque markers and whole contiguous boxes. The writer of metadata segments and the independent validator
are proved to agree, acceptance by the validator is shown to mean what the validator is for, and the two ends
meet in `OutputPipeline.CreateValidatedOutput`: once the writer and the codec are done and the length fits, the output's rescan and metadata validation cannot fail.

**The transform planner** (`Planner`). Orientations, pixel geometry and iMCU divisibility.

## Findings

Where the code does not meet a natural promise on all inputs, the model keeps the code as it is and states
exactly when the promise holds.

- A publication into a journal folder that already holds 32 files completes, and every later reader then
  refuses the folder. The new record is read back if and only if the folder held fewer than 32 files
  (`Journal.PublicationIsReadIff`, with a concrete folder in `Journal.FullFolderPublishesUnread`).
- Recovery reports the commit if and only if it took effect, unless the record and the files do not tell
  (`Recovery.IsExplicable`). Exactly those worlds are refused as conflicts (`Recovery.RecoveryIsExact`), and each of
  the five kinds is shown on a concrete request, files and record: a file already stood at the copy's destination
  (`RecoveryLimits.TakenDestinationIsRefused`), at StagedOutputWritten the stage holds other bytes than the output
  (`RecoveryLimits.DamagedStageIsRefused`), a corrected copy at StagedOutputHashVerified has lost its stage but its
  abandonment is not yet published (`RecoveryLimits.LostStageIsRefused`), the source had already changed before the
  save (`RecoveryLimits.ChangedSourceIsRefused`), or the output equals the source
  (`RecoveryLimits.UnchangedOutputIsRefused`).
- Recovery closes a commit with two publications. On a sound host it succeeds if and only if the next name is free
  and the folder is not full between the two: a commit found in a folder of 32 files, with OutputCommitted not yet
  published, is reported as a conflict although the files prove it (`RecoverySteps.UnrecordedCommitIsReportedIff`,
  with a concrete folder in `RecoveryLimits.FullFolderKeepsCommitOpen`). Seventeen interrupted recoveries of a save never fill its folder
  (`Restart.SaveThenRestart`).
- A save that was stopped before its first generation was published leaves a folder that every later recovery
  reports as a conflict and none ever changes (`RecoverySteps.UnopenedStaysUnopened`).
- The verdict on Extended XMP depends on how an unstable sort orders chunks with equal offsets if and only if
  an empty chunk starts at or inside a chunk with data (`XmpOrder.VerdictIgnoresTiesIff`, with a concrete packet
  in `XmpOrder.TieOrderDecides`). The theorems on the output pipeline carry that condition.

## Model

| member | source | states |
|---|---|---|
| Journal.ChainLanguage | src/JpgSpinner.WindowsStorage/src/internal/ImageFileTransactionJournal.cpp:95-172 | every accepted chain follows its disposition's milestones, or branches once to abandonment before OutputCommitted; nothing follows a terminal state; at most six generations |
| Journal.ChainFacts | src/JpgSpinner.WindowsStorage/src/internal/ImageFileTransactionJournal.cpp:135-172 | along a chain every fact stays fixed, except that a backup may be recorded once |
| Journal.ExtensionIsRead | src/JpgSpinner.WindowsStorage/src/internal/ImageFileTransactionJournal.cpp:314-376 | an appended generation is what the next reader finds, whatever pending files stand beside it, while the folder is bounded |
| Journal.PublicationIsReadIff | src/JpgSpinner.WindowsStorage/src/internal/ImageFileTransactionJournal.cpp:388-451 | a completed publication is read back if and only if the folder held fewer than 32 files |
| Journal.FullFolderPublishesUnread | src/JpgSpinner.WindowsStorage/src/internal/ImageFileTransactionJournal.cpp:314-345 | a concrete folder of 32 files in which a second generation publishes and is then unreadable |
| Journal.PendingIsIgnored | src/JpgSpinner.WindowsStorage/src/internal/ImageFileTransactionJournal.cpp:314-376 | abandoned pending files never change what is read |
| Journal.AttemptIsChained | src/JpgSpinner.WindowsStorage/src/internal/ImageFileTransactionJournal.cpp:388-451 | on any folder a publication attempt leaves the chain as it was or longer by exactly the record, and at most one more file |
| Journal.AttemptIsRead | src/JpgSpinner.WindowsStorage/src/internal/ImageFileTransactionJournal.cpp:388-451 | a publication attempt on a tidy folder leaves a reader with the prior record or the new one, and the folder tidy |
| JournalStore.ImageFileTransactionJournal.ReadChain | src/JpgSpinner.WindowsStorage/src/internal/ImageFileTransactionJournal.cpp:314-376 | the reading loop stops at the end of the linked prefix, at a damaged newer generation, or refuses a gap, and changes nothing |
| JournalStore.ImageFileTransactionJournal.ReadLatest | src/JpgSpinner.WindowsStorage/src/internal/ImageFileTransactionJournal.cpp:447-451 | what is returned is the record of a linked chain; on a sound host it is exactly the reading of the folder |
| JournalStore.ImageFileTransactionJournal.Publish | src/JpgSpinner.WindowsStorage/src/internal/ImageFileTransactionJournal.cpp:388-445 | all or nothing, never overwriting: success appended exactly the record, failure or crash appended it or changed no generation |
| Storage.NativeStorage.MoveStageToCorrectedCopy | src/JpgSpinner.WindowsStorage/src/internal/FileTransactionOperations.h:149-154 | the move effect: fails if the name is taken, may apply and still fail, is called only after its intent was published |
| Storage.NativeStorage.ReplaceOriginalWithStage | src/JpgSpinner.WindowsStorage/src/internal/FileTransactionOperations.h:155-162 | the replacement effect: called only with reread intent and right after a capture equal to the reviewed revision |
| World.CommittedIsNotUncommitted | src/JpgSpinner.WindowsStorage/src/internal/RecoverableImageFileTransaction.cpp:718-906 | no file system is both before and after the commit effect, so the files themselves tell which |
| World.CommitApplied | src/JpgSpinner.WindowsStorage/src/internal/RecoverableImageFileTransaction.cpp:534-582 | the commit effect, applied while its intent is the latest record, leaves a world that record explains |
| World.MilestoneExplained | src/JpgSpinner.WindowsStorage/src/internal/RecoverableImageFileTransaction.cpp:392-419 | each milestone explains the files at the moment it is published |
| Transaction.RecoverableImageFileTransaction.RemoveStage | src/JpgSpinner.WindowsStorage/src/internal/RecoverableImageFileTransaction.cpp:108-135 | only the owned stage is deleted; after an attempted commit its absence is not taken for a harmless one |
| Transaction.RecoverableImageFileTransaction.CleanupAndAbandon | src/JpgSpinner.WindowsStorage/src/internal/RecoverableImageFileTransaction.cpp:152-186 | a cleanup that completes leaves no stage, the commit not applied, and the journal closed or never opened |
| Transaction.RecoverableImageFileTransaction.VerifyStage | src/JpgSpinner.WindowsStorage/src/internal/RecoverableImageFileTransaction.cpp:393-419 | the save goes on only with a stage whose captured revision is the output's |
| Transaction.RecoverableImageFileTransaction.BackUpOriginal | src/JpgSpinner.WindowsStorage/src/internal/RecoverableImageFileTransaction.cpp:433-533 | before VerifiedBackupCreated is published, an independent file holds the reviewed bytes and was verified |
| Transaction.RecoverableImageFileTransaction.CommitOutput | src/JpgSpinner.WindowsStorage/src/internal/RecoverableImageFileTransaction.cpp:534-582 | refusals before the effect leave the save closed; an interrupted effect leaves a world that the record explains |
| Transaction.RecoverableImageFileTransaction.FinishCommit | src/JpgSpinner.WindowsStorage/src/internal/RecoverableImageFileTransaction.cpp:336-351 | success is reported only when the committed file has the stage's identity and the output's digest and both closing records are published |
| Transaction.RecoverableImageFileTransaction.Execute | src/JpgSpinner.WindowsStorage/src/internal/RecoverableImageFileTransaction.cpp:139-626 | in every outcome the latest record explains the files; a reported success is committed and closed; any failure but RecoveryConflict means not committed, no stage left, and the journal abandoned or never opened; without faults the save succeeds |
| Recovery.PreservationIsProved | src/JpgSpinner.WindowsStorage/src/internal/RecoverableImageFileTransaction.cpp:718-906 | on any file system, even a tampered one, OriginalPreserved implies the recorded identity, length and digest at the source path |
| Recovery.CommitIsProved | src/JpgSpinner.WindowsStorage/src/internal/RecoverableImageFileTransaction.cpp:718-906 | on any file system, OutputCommitted implies the stage's identity and the output's digest at the destination, no stage, and an intact promised backup |
| Recovery.RecoveryIsExact | src/JpgSpinner.WindowsStorage/src/internal/RecoverableImageFileTransaction.cpp:686-907 | for every disposition and every world that an interrupted save and its interrupted recoveries can leave, recovery finds the commit exactly when it took effect, finds the original otherwise, and refuses exactly when record and files do not tell |
| Recovery.NoOriginalIsLost | src/JpgSpinner.WindowsStorage/src/internal/RecoverableImageFileTransaction.cpp:433-569 | with a retained backup, in every world that the chain explains the original is at its path or a recorded, independently identified backup holds it |
| RecoveryLimits.TakenDestinationIsRefused | src/JpgSpinner.WindowsStorage/src/internal/RecoverableImageFileTransaction.cpp:805-826 | a concrete verified copy whose name was taken before the save: nothing was committed, and recovery refuses |
| RecoveryLimits.DamagedStageIsRefused | src/JpgSpinner.WindowsStorage/src/internal/RecoverableImageFileTransaction.cpp:878-885 | a concrete stage with other bytes at StagedOutputWritten: the original is untouched, and recovery refuses |
| RecoveryLimits.LostStageIsRefused | src/JpgSpinner.WindowsStorage/src/internal/RecoverableImageFileTransaction.cpp:861-867 | a concrete verified copy whose stage is gone: the original is untouched, and recovery refuses |
| RecoveryLimits.ChangedSourceIsRefused | src/JpgSpinner.WindowsStorage/src/internal/RecoverableImageFileTransaction.cpp:799-857 | a concrete source that had changed before the save: nothing was committed, and recovery refuses |
| RecoveryLimits.UnchangedOutputIsRefused | src/JpgSpinner.WindowsStorage/src/internal/RecoverableImageFileTransaction.cpp:789-797 | a concrete output equal to its source: nothing was committed, and recovery refuses |
| RecoveryLimits.FullFolderKeepsCommitOpen | src/JpgSpinner.WindowsStorage/src/internal/RecoverableImageFileTransaction.cpp:827-855 | a concrete committed copy whose recovery succeeds beside up to 28 pending files and is a conflict beside 29 |
| RecoverySteps.AbandoningKeepsMeaning | src/JpgSpinner.WindowsStorage/src/internal/RecoverableImageFileTransaction.cpp:868-906 | deleting the stage and publishing the abandonment, cut off anywhere and even for an outdated record, leaves a world that the chain explains, and happens only where nothing was committed |
| RecoverySteps.ClosingKeepsMeaning | src/JpgSpinner.WindowsStorage/src/internal/RecoverableImageFileTransaction.cpp:827-855 | publishing the two closing records, cut off anywhere and even for an outdated record, leaves a world that the chain explains, and happens only where the output was committed |
| RecoverySteps.StepKeepsMeaning | src/JpgSpinner.WindowsStorage/src/internal/RecoverableImageFileTransaction.cpp:686-907 | one recovery with any faults, stopped anywhere, keeps the meaning of the chain, removes at most the stage of an uncommitted save, and reports the commit exactly when it took effect |
| RecoverySteps.StepKeepsWhole | src/JpgSpinner.WindowsStorage/src/internal/RecoverableImageFileTransaction.cpp:686-907 | one recovery leaves no name outside the chain and at most one more pending file |
| RecoverySteps.UnrecordedCommitIsReportedIff | src/JpgSpinner.WindowsStorage/src/internal/RecoverableImageFileTransaction.cpp:827-855 | a proved commit that is not yet recorded is reported exactly when the next name is free and the folder is not full |
| RecoverySteps.UnopenedStaysUnopened | src/JpgSpinner.WindowsStorage/src/internal/RecoverableImageFileTransaction.cpp:697-699 | a folder without a first generation is never changed by recovery and is a conflict every time |
| Reconcile.ObserveArtifacts | src/JpgSpinner.WindowsStorage/src/internal/RecoverableImageFileTransaction.cpp:786-880 | the observing code reaches the verdict that the files on disk determine |
| Reconcile.ClosingIsAdmitted | src/JpgSpinner.WindowsStorage/src/internal/RecoverableImageFileTransaction.cpp:827-855 | the publications that close a commit are admitted exactly when the next name is free and, if there are two, the folder holds fewer than 32 files |
| Reconcile.ReconcileTransaction | src/JpgSpinner.WindowsStorage/src/internal/RecoverableImageFileTransaction.cpp:686-907 | one transaction: a sound report, only its own stage removed, only its own journal extended; with any faults what it leaves is a recovery step; on a sound host the report and the files left are those of the verdict on what is found, whatever the state of the folder |
| RecoveryLoop.RecoverIncompleteTransactions | src/JpgSpinner.WindowsStorage/src/internal/RecoverableImageFileTransaction.cpp:627-950 | the loop over journals: every entry of a summary is proved and closed and nothing but journaled stages is deleted; on a sound host, for any store, damaged or full folders included, each transaction gets its own report on the files it finds and is closed accordingly, also when another one conflicts, and the result is the list of the recovered, or a conflict exactly when some transaction conflicts |
| RecoveryLoop.OthersDoNotMatter | src/JpgSpinner.WindowsStorage/src/internal/RecoverableImageFileTransaction.cpp:680-924 | the report on a transaction is the one it would get alone, whatever stands before it in the store, unless a user's file bears another transaction's stage name |
| Restart.RecoverRepeatedly | src/JpgSpinner.WindowsStorage/src/internal/RecoverableImageFileTransaction.cpp:627-950 | any number of recoveries, each with any faults, stopped anywhere and for any selected root, leave the chain explaining the files, and every completed report tells what the save did |
| Restart.LastReportIsExact | src/JpgSpinner.WindowsStorage/src/internal/RecoverableImageFileTransaction.cpp:686-907 | on a sound host the report is determined by the chain, the files and the number of files in the folder |
| Restart.SaveThenRestart | src/JpgSpinner.WindowsStorage/src/internal/RecoverableImageFileTransaction.cpp:139-950 | a save stopped anywhere, any number of interrupted recoveries and a last one: the chain explains the files throughout, every report is truthful about the save, the last report is exact, only the stage of an uncommitted save may go, and with a retained backup the original survives all of them |
| Planner.OrientationsAreNumbered | src/JpgSpinner.Domain/src/ExifOrientation.cpp:7-63 | exactly the raw values 1 to 8 are orientations, each its own, and those from 5 on swap the axes |
| Planner.TransformShowsOrientation | src/JpgSpinner.Domain/src/ExifOrientation.cpp:32-63 | for every image the chosen transform puts each pixel where a viewer shows it for the orientation |
| Planner.TransformIsInvertible | src/JpgSpinner.Domain/src/ExifOrientation.cpp:32-63 | no pixel is lost or doubled: every transform is undone by its inverse |
| Planner.PixelCount | src/JpgSpinner.Domain/src/JpegTransformPlanner.cpp:99-179 | the overflow check by division is exact |
| Planner.PlanIsAcceptedIff | src/JpgSpinner.Domain/src/JpegTransformPlanner.cpp:99-179 | a plan is accepted if and only if the geometry is positive and within the limit and every affected edge is whole or may be trimmed with something left |
| Planner.PlanTrimsLeast | src/JpgSpinner.Domain/src/JpegTransformPlanner.cpp:20-179 | a plan keeps the largest whole number of units on affected edges and everything elsewhere, and never trims under the perfect policy |
| Planner.PlanKeepsUnits | src/JpgSpinner.Domain/src/JpegTransformPlanner.cpp:20-179 | two retained pixels share an iMCU exactly when they share one in the output, axes swapped where the transform swaps them |
| Planner.PartialUnitTears | src/JpgSpinner.Domain/src/JpegTransformPlanner.cpp:20-45 | mirroring an untrimmed partial edge tears a unit apart, so the trim is necessary |
| BatchSafety.ClaimsStayUnique | src/JpgSpinner.BatchProcessing/src/BatchProcessingCoordinator.cpp:500-512 | every step keeps each claimed file with exactly one owner, which works on it until it is tallied |
| BatchSafety.MemoryStaysAccounted | src/JpgSpinner.BatchProcessing/src/BatchProcessingCoordinator.cpp:278-365 | every step keeps the counter the exact sum of the live reservations, without wrap-around |
| BatchSafety.GateStaysExclusive | src/JpgSpinner.BatchProcessing/src/BatchProcessingCoordinator.cpp:408-433 | every step keeps at most one worker inside the gate |
| BatchSafety.GateStaysClosed | src/JpgSpinner.BatchProcessing/src/BatchProcessingCoordinator.cpp:295-433 | after a commit call has returned a conflict nobody is past the gate's check, and the conflict is published or its recorder still holds the gate |
| BatchSafety.UncertaintyStaysReported | src/JpgSpinner.BatchProcessing/src/BatchProcessingCoordinator.cpp:295-312 | every step keeps integrity uncertain exactly when a row carries a conflict |
| BatchRuns.InvariantHoldsAlways | src/JpgSpinner.BatchProcessing/src/BatchProcessingCoordinator.cpp:275-512 | all of these hold in every state of every run |
| BatchRuns.MemoryIsNeverOverbooked | src/JpgSpinner.BatchProcessing/src/BatchProcessingCoordinator.cpp:278-365 | at every admission the total fits the budget just sampled or it is the only reservation; every release gives back what was charged |
| BatchRuns.CommitsAreSerialAndReviewed | src/JpgSpinner.BatchProcessing/src/BatchProcessingCoordinator.cpp:374-433 | at most one commit call is in progress, and its file was recaptured at the reviewed revision |
| BatchRuns.NoCommitAfterConflict | src/JpgSpinner.BatchProcessing/src/BatchProcessingCoordinator.cpp:295-433 | after a commit call has returned RecoveryConflict no commit call is in progress at any later point of the run |
| BatchRuns.ClaimsAreFinal | src/JpgSpinner.BatchProcessing/src/BatchProcessingCoordinator.cpp:500-512 | the owner of a file never changes |
| BatchRuns.BatchIsAccountedFor | src/JpgSpinner.BatchProcessing/src/BatchProcessingCoordinator.cpp:444-512 | when all workers have finished, every file was claimed and tallied once, the counters partition the rows, no memory or gate is held, and uncertainty is reported by a row |
| BatchLiveness.SleepersAreAlwaysAwaited | src/JpgSpinner.BatchProcessing/src/BatchProcessingCoordinator.cpp:278-365 | no wake-up is lost: while a worker sleeps for memory, no stop was requested and another worker is bound to notify |
| BatchLiveness.NeverStuck | src/JpgSpinner.BatchProcessing/src/BatchProcessingCoordinator.cpp:313-512 | deadlock freedom: until every worker has finished, some worker can act, whatever its call answers |
| BatchLiveness.RunsAreBounded | src/JpgSpinner.BatchProcessing/src/BatchProcessingCoordinator.cpp:275-512 | no run under any schedule is longer than a bound set by the batch, not counting spurious wake-ups |
| BatchLiveness.CanAlwaysFinish | src/JpgSpinner.BatchProcessing/src/BatchProcessingCoordinator.cpp:275-512 | from every reachable state the workers alone bring the batch to its end, whatever their calls answer |
| BatchDeterminism.ScheduleDoesNotMatter | src/JpgSpinner.BatchProcessing/src/BatchProcessingCoordinator.cpp:275-512 | without cancellation, failed allocations and conflicts, every interleaving under every budget ends in the rows and counters of the serial loop |
| BatchDeterminism.ScriptedRunCanFinish | src/JpgSpinner.BatchProcessing/src/BatchProcessingCoordinator.cpp:275-512 | every undisturbed run with per-file deterministic answers can be continued to the end on those answers, and then has the serial rows |
| SerialBatch.BatchProcessingCoordinator.ProcessFile | src/JpgSpinner.BatchProcessing/src/BatchProcessingCoordinator.cpp:295-443 | one file processed alone gets its serial row unless a stop or conflict came first, and is never saved after either |
| SerialBatch.BatchProcessingCoordinator.ExecuteSerially | src/JpgSpinner.BatchProcessing/src/BatchProcessingCoordinator.cpp:470-477 | the loop without a pool: counters partition the rows, a conflict is reported on its file and all later ones, and undisturbed it computes the rows of every schedule |
| ChunkOrder.DistinctIffComplete | src/JpgSpinner.JpegTransformation/src/internal/JpegSegmentScanner.cpp:510-543 | the pigeonhole: as many chunks as numbers, so none repeats exactly when none is missing |
| ChunkOrder.SortedProfileIsInOrder | src/JpgSpinner.JpegTransformation/src/internal/JpegSegmentScanner.cpp:510-543 | a complete profile sorted by number has chunk k at place k |
| ChunkOrder.PassesProfileChecks | src/JpgSpinner.JpegTransformation/src/internal/JpegSegmentScanner.cpp:510-543 | the checks pass if and only if the chunks are a permutation of 1 to their shared count and not all empty |
| ChunkOrder.ValidateAndOrderIccProfileChunks | src/JpgSpinner.JpegTransformation/src/internal/JpegSegmentScanner.cpp:510-543 | accepts exactly the complete profiles and leaves them in order in place; a refusal changes nothing |
| XmpOrder.AcceptanceMeansCover | src/JpgSpinner.JpegTransformation/src/internal/JpegSegmentScanner.cpp:559-596 | acceptance in some sorted order implies that every packet offset is covered exactly once, and conversely when empty chunks lie outside the others |
| XmpOrder.VerdictIgnoresTiesIff | src/JpgSpinner.JpegTransformation/src/internal/JpegSegmentScanner.cpp:559-596 | for an exact cover, every order that the sort may choose is accepted if and only if no empty chunk starts at or inside a chunk with data |
| XmpOrder.TieOrderDecides | src/JpgSpinner.JpegTransformation/src/internal/JpegSegmentScanner.cpp:585-596 | a concrete packet that one sorted order accepts and another refuses |
| XmpOrder.ValidateAndOrderExtendedXmpChunks | src/JpgSpinner.JpegTransformation/src/internal/JpegSegmentScanner.cpp:559-596 | accepts only exact covers, and all whose empty chunks lie outside; leaves accepted chunks sorted and contiguous in place |
| Jumbf.PrefixIsEnough | src/JpgSpinner.JpegTransformation/src/internal/JpegSegmentScanner.cpp:247-315 | the manifest store identity shows in the first 64 bytes of a box or not at all |
| Jumbf.ClassifyJumbfEnvelope | src/JpgSpinner.JpegTransformation/src/internal/JpegSegmentScanner.cpp:317-498 | the loop over the markers computes the fold, and stops as soon as it is broken |
| JumbfTransport.FragmentsReach | src/JpgSpinner.JpegTransformation/src/internal/JpegSegmentScanner.cpp:375-486 | after any number of fragments of a box the state is determined by the bytes so far, not by the split |
| JumbfTransport.FragmentationDoesNotMatter | src/JpgSpinner.JpegTransformation/src/internal/JpegSegmentScanner.cpp:317-498 | any split of any boxes, basic or large, between any opaque markers gets the verdict on the whole boxes, never Absent or Malformed |
| JumbfRecognition.ClassificationIsExact | src/JpgSpinner.JpegTransformation/src/internal/JpegSegmentScanner.cpp:317-498 | the classification is Malformed if and only if the markers are not a sequence of opaque markers and whole boxes in contiguous numbered fragments |
| JpegSyntax.EntropyRangeEnds | src/JpgSpinner.JpegTransformation/src/internal/JpegSegmentScanner.cpp:813-862 | entropy-coded data ends exactly where the fill of a marker begins that is neither stuffing nor a restart |
| JpegSyntax.EntropyIsLocal | src/JpgSpinner.JpegTransformation/src/internal/JpegSegmentScanner.cpp:813-862 | whether bytes are entropy-coded data, and its restarts, do not depend on what surrounds them |
| JpegScanner.FollowMarkers | src/JpgSpinner.JpegTransformation/src/internal/JpegSegmentScanner.cpp:810-1105 | the two-mode cursor loop computes the walk that takes whole markers and whole scans, and terminates by bytes left and mode |
| JpegScanner.Scan | src/JpgSpinner.JpegTransformation/src/internal/JpegSegmentScanner.cpp:779-1105 | the scanner answers what its walk and the three final checks determine |
| JpegGrammar.CodestreamIsScanned | src/JpgSpinner.JpegTransformation/src/internal/JpegSegmentScanner.cpp:779-1105 | completeness: on every printed codestream the walk is the fold over its parts, with the same first error or the same end |
| JpegGrammar.ScanIsRead | src/JpgSpinner.JpegTransformation/src/internal/JpegSegmentScanner.cpp:779-1105 | soundness: a walk that reaches an end of image has read a printed codestream, and is the fold over its parts |
| JpegTiling.SuccessfulScanTiles | src/JpgSpinner.JpegTransformation/src/internal/JpegSegmentScanner.cpp:779-1105 | non-restart markers and entropy ranges are in order, disjoint and cover everything up to the end of image but fill bytes; scan count is the number of ranges; the metadata total is the sum over APPn and COM segments |
| JpegAcceptance.FrameHeaderRoundTrips | src/JpgSpinner.JpegTransformation/src/internal/JpegSegmentScanner.cpp:669-760 | every supported frame within the pixel limit is read back from the header that T.81 section B.2.2 lays out |
| JpegAcceptance.FrameHeaderIsRead | src/JpgSpinner.JpegTransformation/src/internal/JpegSegmentScanner.cpp:669-760 | conversely, a header that parses is exactly the header of the frame returned, and that frame is valid |
| JpegAcceptance.WalkSucceedsIff | src/JpgSpinner.JpegTransformation/src/internal/JpegSegmentScanner.cpp:933-1102 | the walk goes through if and only if each part is acceptable in its place, there is at most one frame, no scan precedes it, and the scan, progressive and metadata limits hold |
| JpegAcceptance.CodestreamScansIff | src/JpgSpinner.JpegTransformation/src/internal/JpegSegmentScanner.cpp:779-1105 | a printed codestream scans only if it is within the file limit, supported, has a frame and a scan, and passes the ICC, XMP and JUMBF checks; and then it scans, up to the tie finding |
| JpegAcceptance.SourceScansOnlyIf | src/JpgSpinner.JpegTransformation/src/internal/JpegSegmentScanner.cpp:779-1105 | any bytes that scan print an accepted codestream |
| JpegAcceptance.RangesHoldData | src/JpgSpinner.JpegTransformation/src/internal/JpegSegmentScanner.cpp:983-1051 | the noted ranges exclude exactly the headers: read back, they are the Exif, XMP, ICC and Extended XMP data of the segments, with their numbers, lengths and offsets, in order |
| JpegSplice.Splice | src/JpgSpinner.JpegTransformation/src/LibJpegTurboTransformationEngine.cpp:116-142 | the estimate refuses exactly the outputs over the limit, and the loop copies everything but the metadata markers |
| JpegSplice.SpliceIsPrinted | src/JpgSpinner.JpegTransformation/src/LibJpegTurboTransformationEngine.cpp:126-142 | the spliced bytes print the segments and the remaining parts, with the fill of cut markers merged into the next marker's |
| JpegRescan.SpliceRoundTrips | src/JpgSpinner.JpegTransformation/src/LibJpegTurboTransformationEngine.cpp:110-142 | for a scannable codec output and segments valid by themselves, the spliced bytes scan; their APPn and COM bytes are exactly the segments; frame, scan count, other markers and entropy bytes are the codec's; the length adds up |
| JpegRescan.CompleteOutput | src/JpgSpinner.JpegTransformation/src/LibJpegTurboTransformationEngine.cpp:107-142 | scanning and splicing the codec's output: every scan of the result succeeds and finds the segments |
| MetadataReconciler.ReconcilePhotoshopResources | src/JpgSpinner.JpegTransformation/src/internal/MetadataReconciler.cpp:243-290 | the record loop copies every record but the previews of a transformed image, and reports whether there were any |
| MetadataReconciler.ReconcileMarkerSegments | src/JpgSpinner.JpegTransformation/src/internal/MetadataReconciler.cpp:345-487 | the writer succeeds exactly when Extended XMP may stay, no segment is refused and all fit their length fields and the aggregate limit, and then writes exactly the edition; otherwise it reports the first fault in source order |
| MetadataValidator.KeptRecordsAreFound | src/JpgSpinner.JpegTransformation/src/internal/MetadataReconciler.cpp:869-940 | the records that the writer keeps are found again in their concatenation, exactly, and hold no preview |
| MetadataValidator.ComparePhotoshopResources | src/JpgSpinner.JpegTransformation/src/internal/MetadataReconciler.cpp:869-940 | the two-index loop accepts exactly the source records without previews, and reports whether there were any |
| MetadataValidator.ValidateReconciledMetadata | src/JpgSpinner.JpegTransformation/src/internal/MetadataReconciler.cpp:1092-1183 | the loop over both marker sequences computes the pairwise comparison, with the first violated rule, and reports whether the output stores orientations |
| MetadataAcceptance.AcceptedKeepsTheRest | src/JpgSpinner.JpegTransformation/src/internal/MetadataReconciler.cpp:1108-1177 | acceptance means that the segments which the plan does not rewrite are the source's, byte for byte and in order |
| MetadataAcceptance.AcceptedHoldsNoPreview | src/JpgSpinner.JpegTransformation/src/internal/MetadataReconciler.cpp:1108-1177 | acceptance of a transformed image means that no segment holds a JFXX, JFIF or Photoshop preview |
| MetadataAcceptance.AcceptedKeepsResources | src/JpgSpinner.JpegTransformation/src/internal/MetadataReconciler.cpp:869-940 | acceptance means that the Photoshop records are the source's, without its previews exactly if the image is transformed |
| MetadataAcceptance.AcceptedIsCompared | src/JpgSpinner.JpegTransformation/src/internal/MetadataReconciler.cpp:1124-1142 | acceptance means that every Exif and XMP payload of the source has its counterpart, which its codec compared and accepted |
| MetadataAcceptance.AcceptedReportsRemovals | src/JpgSpinner.JpegTransformation/src/internal/MetadataReconciler.cpp:1108-1183 | every lost preview is reported, and a reported removal is a preview of the source or was found by an Exif or XMP comparison |
| MetadataValidator.WriterSatisfiesValidator | src/JpgSpinner.JpegTransformation/src/internal/MetadataReconciler.cpp:345-1183 | for every source whose orientation is readable and every plan, what the writer writes passes the validator with the same removed-thumbnail flag, within the limit |
| OutputPipeline.SourceIsCarried | src/JpgSpinner.JpegTransformation/src/internal/JpegSegmentScanner.cpp:933-1055 | the metadata segments of a scanned source carry its chunks, hold no JUMBF fragment, and pass the final checks by themselves |
| OutputPipeline.EditionIsValid | src/JpgSpinner.JpegTransformation/src/internal/MetadataReconciler.cpp:345-487 | whatever the writer can write for a source that scans is accepted by the scanner, wherever it is spliced in |
| OutputPipeline.OutputPasses | src/JpgSpinner.JpegTransformation/src/LibJpegTurboTransformationEngine.cpp:82-150 | the spliced output rescans, its metadata segments are the writer's, and the validator passes them with the writer's flag |
| OutputPipeline.CreateValidatedOutput | src/JpgSpinner.JpegTransformation/src/LibJpegTurboTransformationEngine.cpp:52-150 | the pipeline: after writer, codec and length check neither output check fails; every refusal states its fault; an output is the codec's image with the edition of the source's metadata, was scanned again and passed by the validator, and reports what the writer removed |

## Left out

- Native error codes, apartments, leases and handles: a failure carries its phase; a lease is one step that may fail.
- Folder creation, ownership proofs and reparse checks below the selected root: parent folders exist, and the host's qualifications are inputs of a save.
- Journal text: JSON syntax, its size limit and hexadecimal identities are one injective encoding; a file that does not parse is `Damaged`.
- Chunked stage writing, and flush and close of each stream: one write effect that may leave any bytes.
- Outside writers during a save: `Storage.NativeStorage` lets them act between effects, but exactness, truthfulness about files and survival of the original are stated for saves without them.
- Power failure below the file system's own guarantees: an effect is applied or not.
- Recovery.RecoveryIsExact: excludes the batch names "." and "..", which the generated batch folder names never take.
- A failed allocation during recovery: it is the conflict of the transaction at hand, where the code ends the whole recovery with a conflict.
- Worker startup, its latch, apartment failures and exceptions other than failed allocation; a failed allocation inside a commit call or while an error is recorded.
- Progress reports to the observer, and the discovery and analysis passes before execution.
- BatchLiveness.RunsAreBounded: a step of capture, transform or commit is assumed to return.
- Exiv2, libjpeg-turbo and TurboJPEG: the codecs are parameters of `MetadataReconciler.Codecs`, and `MetadataValidator.AreFaithful` states what is assumed of them, including that a located Photoshop record does not depend on what follows it.
- JPEG-coded JFXX thumbnails: whether one is acceptable is a parameter of the codecs; the recursive scan of the thumbnail is not unfolded.
- MetadataReconciler.ReconcileMarkerSegments: the properties compared by the Extended XMP precheck (`validateExtendedXmpPreservation`) are those of the XMP codec; the precheck is a parameter that is asked first.
- Content Credentials by provenance, Motion Photo classification and trailing data policy: sequential guards around the XMP codec.
- The pixel and table checks of `JpegOutputValidator`, the analyzer and the coefficient transform: the codec's output is an input.
- OutputPipeline.CreateValidatedOutput: the comparison with the approved analysis and the pixel and table checks of the output are guards around the codec and not part of it. The condition on empty Extended XMP chunks is the finding above; for other sources only what is returned is described.
- Locks of the metadata library and its diagnostics: folded into a codec's refusal.
- User interface, localization, discovery, diagnostics export and packaging: no protocol of their own.
