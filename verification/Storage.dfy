/** The native effects of a transaction over an abstract filesystem and journal store. Every
    effect can end without being applied, applied, or applied and then reported as an error,
    and the process can stop at any of them. */
module Storage {
  import opened Options
  import opened Native
  import Journal

  /** What a bounded read of a file's revision reports instead of throwing. */
  datatype CaptureError = CaptureCancelled | CaptureOutOfMemory | CaptureFailedOtherwise
  datatype Capture = Captured(revision: Revision) | NotCaptured(error: CaptureError)

  predicate IsFresh(files: Files, identity: Identity) {
    forall p | p in files :: files[p].identity != identity
  }

  lemma UnusedIdentity(used: set<Identity>) returns (id: Identity)
    ensures forall u | u in used :: u < id
  {
    if used == {} {
      id := 0;
    } else {
      var u :| u in used;
      var rest := UnusedIdentity(used - {u});
      id := if u < rest then rest else u + 1;
      assert forall v | v in used :: v == u || v in used - {u};
    }
  }

  lemma FreshIdentityExists(files: Files)
    ensures exists id: Identity :: IsFresh(files, id)
  {
    var used := set p | p in files :: files[p].identity;
    var id := UnusedIdentity(used);
    forall p | p in files ensures files[p].identity != id {
      assert files[p].identity in used;
    }
    assert IsFresh(files, id);
  }

  /** `after` is `before` with exactly one new or changed file at `path`. */
  ghost predicate ChangedAt(before: Files, after: Files, path: Path) {
    path in after && after == before[path := after[path]]
  }

  ghost predicate CreatedAt(before: Files, after: Files, path: Path) {
    path !in before && ChangedAt(before, after, path) && IsFresh(before, after[path].identity)
  }

  ghost predicate RewrittenAt(before: Files, after: Files, path: Path) {
    path in before && ChangedAt(before, after, path) && after[path].identity == before[path].identity
  }

  ghost predicate MovedTo(before: Files, after: Files, source: Path, target: Path) {
    source in before && source != target && after == (before - {source})[target := before[source]]
  }

  class NativeStorage {
    var files: Files
    var folders: map<Journal.TransactionId, Journal.Folder>

    /** No outside writer changes `files` between two native calls. */
    const quiet: bool
    /** No native call fails, no read is cancelled, and the process is not stopped. */
    var reliable: bool
    /** The revision read by the latest file operation, if that operation was such a read. */
    ghost var lastCapture: Option<(Path, Revision)>

    constructor (files: Files, folders: map<Journal.TransactionId, Journal.Folder>, quiet: bool, reliable: bool)
      ensures this.files == files && this.folders == folders
      ensures this.quiet == quiet && this.reliable == reliable
    {
      this.files, this.folders := files, folders;
      this.quiet, this.reliable := quiet, reliable;
      this.lastCapture := None;
    }

    /** How a native call without further content ends. */
    method Ending() returns (r: Try<Unit>)
      ensures reliable ==> r == Done(Unit)
    {
      r := *;
      if reliable || r.Done? {
        r := Done(Unit);
      }
    }

    /** Whether cancellation has been requested by now. */
    method StopRequested() returns (stop: bool)
      ensures reliable ==> !stop
    {
      stop := *;
      stop := stop && !reliable;
    }

    method Interfere()
      modifies `files, `lastCapture
      ensures quiet ==> files == old(files)
      ensures lastCapture == None
    {
      if !quiet {
        files := *;
      }
      lastCapture := None;
    }

    /** Open an item and read its identity through the handle. */
    method Inspect(path: Path) returns (r: Try<Identity>)
      modifies `files, `lastCapture
      ensures quiet ==> files == old(files)
      ensures r.Done? ==> path in files && r.value == files[path].identity
      ensures r == Threw(FileNotFound) ==> path !in files
      ensures reliable ==> r.Done? || (r.Threw? && path !in files)
    {
      Interfere();
      var ending := Ending();
      if path !in files {
        return if ending.Crash? then Crash else Threw(FileNotFound);
      }
      return if ending.Done? then Done(files[path].identity)
             else if ending == Threw(FileNotFound) then Threw(OtherNative)
             else if ending.Crash? then Crash else Threw(ending.error);
    }

    /** TryGetItemAsync: absence is a value here, not an error. */
    method TryGetItem(path: Path) returns (r: Try<bool>)
      modifies `files, `lastCapture
      ensures quiet ==> files == old(files)
      ensures r.Done? ==> (r.value <==> path in files)
      ensures reliable ==> r.Done?
    {
      Interfere();
      var _ :- Ending();
      return Done(path in files);
    }

    /** Reopen a file and hash it; errors of the bounded read are values. */
    method CaptureRevision(path: Path) returns (r: Try<Capture>)
      modifies `files, `lastCapture
      ensures quiet ==> files == old(files)
      ensures r.Done? && r.value.Captured? ==>
                && path in files && r.value.revision == files[path].Revised()
                && lastCapture == Some((path, r.value.revision))
      ensures reliable && path in files ==> r.Done? && r.value.Captured?
    {
      Interfere();
      var _ :- Ending();
      var error: CaptureError := *;
      var readable: bool := *;
      if path !in files || !(readable || reliable) {
        return Done(NotCaptured(error));
      }
      lastCapture := Some((path, files[path].Revised()));
      return Done(Captured(files[path].Revised()));
    }

    method FreshIdentity() returns (id: Identity)
      ensures IsFresh(files, id)
    {
      FreshIdentityExists(files);
      id :| IsFresh(files, id);
    }

    /** Exclusive creation of an empty file. */
    method CreateFile(path: Path) returns (r: Try<Unit>)
      modifies `files, `lastCapture
      ensures quiet ==> files == old(files) || CreatedAt(old(files), files, path)
      ensures quiet && r.Done? ==> CreatedAt(old(files), files, path)
      ensures reliable && quiet && path !in old(files) ==> r.Done?
    {
      Interfere();
      if path in files {
        return Threw(AlreadyExists);
      }
      r := Ending();
      var applied: bool := *;
      if r.Done? || applied {
        var id := FreshIdentity();
        var time: int := *;
        files := files[path := File(id, time, [])];
      }
    }

    /** Exclusive creation of a transaction's journal folder. */
    method CreateJournalFolder(id: Journal.TransactionId) returns (r: Try<Unit>)
      modifies `folders
      ensures folders == old(folders) || (id !in old(folders) && folders == old(folders)[id := Journal.EMPTY_FOLDER])
      ensures r.Done? ==> id !in old(folders) && folders == old(folders)[id := Journal.EMPTY_FOLDER]
      ensures reliable && id !in old(folders) ==> r.Done?
    {
      if id in folders {
        return Threw(AlreadyExists);
      }
      r := Ending();
      var applied: bool := *;
      if r.Done? || applied {
        folders := folders[id := Journal.EMPTY_FOLDER];
      }
    }

    /** Write, flush and close through one stream. Nothing short of a later hash shows what the
        medium holds, so even a completed write may leave other bytes. */
    method WriteFile(path: Path, bytes: seq<Byte>) returns (r: Try<Unit>)
      modifies `files, `lastCapture
      ensures quiet ==> files == old(files) || RewrittenAt(old(files), files, path)
      ensures reliable && quiet && path in old(files) ==> r.Done? && files[path].bytes == bytes
    {
      Interfere();
      if path !in files {
        return Threw(FileNotFound);
      }
      r := Ending();
      var stored: seq<Byte> := *;
      var time: int := *;
      files := files[path := File(files[path].identity, time, if reliable then bytes else stored)];
    }

    /** Copy to a name that must be free. The copied bytes are as unproved as a written file's. */
    method CopyFile(source: Path, target: Path) returns (r: Try<Unit>)
      modifies `files, `lastCapture
      ensures quiet ==> files == old(files) || CreatedAt(old(files), files, target)
      ensures quiet && r.Done? ==> CreatedAt(old(files), files, target)
      ensures reliable && quiet && source in old(files) && target !in old(files) ==>
                r.Done? && files[target].bytes == old(files)[source].bytes
    {
      Interfere();
      if source !in files {
        return Threw(FileNotFound);
      }
      if target in files {
        return Threw(AlreadyExists);
      }
      r := Ending();
      var applied: bool := *;
      if r.Done? || applied {
        var id := FreshIdentity();
        var stored: seq<Byte> := *;
        var time: int := *;
        files := files[target := File(id, time, if reliable then files[source].bytes else stored)];
      }
    }

    /** Delete through the handle whose identity was inspected; an open handle is never absent. */
    method DeleteByHandle(path: Path, ghost identity: Identity) returns (r: Try<Unit>)
      requires quiet ==> path in files && files[path].identity == identity
      modifies `files, `lastCapture
      ensures r != Threw(FileNotFound)
      ensures quiet ==> files == old(files) || files == old(files) - {path}
      ensures quiet && r.Done? ==> files == old(files) - {path}
      ensures reliable ==> r.Done?
    {
      Interfere();
      r := Ending();
      r := if r == Threw(FileNotFound) then Threw(OtherNative) else r;
      var applied: bool := *;
      if r.Done? || applied {
        files := files - {path};
      }
    }

    /** Write-ahead: the effect named by the latest published record, and only that effect. */
    ghost predicate HasIntent(intent: Journal.Record, state: Journal.State)
      reads `folders
    {
      && intent.transaction in folders
      && Journal.Read(folders[intent.transaction], intent.transaction) == Journal.Latest(intent)
      && intent.state == state
    }

    /** Move the stage to its free destination name. Reachable only with a published intent. */
    method MoveStageToCorrectedCopy(ghost intent: Journal.Record, stage: Path, target: Path) returns (r: Try<Unit>)
      requires HasIntent(intent, Journal.StagedOutputHashVerified)
      requires intent.disposition == Journal.CreateCorrectedCopy
      requires stage == intent.stagePath && target == intent.destinationPath
      modifies `files, `lastCapture
      ensures quiet ==> files == old(files) || (target !in old(files) && MovedTo(old(files), files, stage, target))
      ensures quiet && r.Done? ==> target !in old(files) && MovedTo(old(files), files, stage, target)
      ensures reliable && quiet && stage in old(files) && target !in old(files) ==> r.Done?
    {
      Interfere();
      if stage !in files {
        return Threw(FileNotFound);
      }
      if target in files {
        return Threw(AlreadyExists);
      }
      r := Ending();
      var applied: bool := *;
      if r.Done? || applied {
        files := (files - {stage})[target := files[stage]];
      }
    }

    /** Replace the source with the stage. Reachable only with a published and reread intent, and
        directly after reading the source at its reviewed revision. */
    method ReplaceOriginalWithStage(ghost intent: Journal.Record, stage: Path, source: Path) returns (r: Try<Unit>)
      requires HasIntent(intent, if intent.disposition == Journal.ReplaceOriginalWithVerifiedBackup
                                 then Journal.VerifiedBackupCreated else Journal.StagedOutputHashVerified)
      requires intent.disposition != Journal.CreateCorrectedCopy
      requires stage == intent.stagePath && source == intent.sourcePath
      requires lastCapture == Some((source, intent.sourceRevision))
      modifies `files, `lastCapture
      ensures quiet ==> files == old(files) || MovedTo(old(files), files, stage, source)
      ensures quiet && r.Done? ==> MovedTo(old(files), files, stage, source)
      ensures reliable && quiet && stage in old(files) && source in old(files) && source != stage ==> r.Done?
    {
      Interfere();
      if stage !in files || source !in files || source == stage {
        return Threw(FileNotFound);
      }
      r := Ending();
      var applied: bool := *;
      if r.Done? || applied {
        files := (files - {stage})[source := files[stage]];
      }
    }
  }
}
