/** One transaction's immutable, hash-linked chain of journal generations:
    which records are valid, which may follow which, and what a reader finds. */
module Journal {
  import opened Options
  import opened Native

  type TransactionId = string

  datatype State =
    | TransactionInitialized
    | StagedOutputWritten
    | StagedOutputHashVerified
    | VerifiedBackupCreated
    | OutputCommitted
    | OwnedStagingArtifactsCleaned
    | TransactionAbandonedBeforeCommit
  {
    function Index(): (i: nat)
      ensures i < 7
    {
      match this
      case TransactionInitialized => 0
      case StagedOutputWritten => 1
      case StagedOutputHashVerified => 2
      case VerifiedBackupCreated => 3
      case OutputCommitted => 4
      case OwnedStagingArtifactsCleaned => 5
      case TransactionAbandonedBeforeCommit => 6
    }

    predicate IsTerminal() {
      OwnedStagingArtifactsCleaned? || TransactionAbandonedBeforeCommit?
    }
  }

  datatype Disposition =
    | CreateCorrectedCopy
    | ReplaceOriginalWithVerifiedBackup
    | ReplaceOriginalWithoutRetainedBackup

  datatype Record = Record(
    transaction: TransactionId,
    generation: nat,
    state: State,
    disposition: Disposition,
    rootPath: Path,
    rootIdentity: Identity,
    sourcePath: Path,
    sourceIdentity: Identity,
    sourceRevision: Revision,
    stagePath: Path,
    stageIdentity: Identity,
    outputLength: nat,
    outputSha256: Digest,
    backupPath: Path,
    backupIdentity: Option<Identity>,
    destinationPath: Path)

  const MAXIMUM_GENERATION: nat := 6
  const MAXIMUM_PATH_LENGTH: nat := 32768
  const MAXIMUM_FOLDER_FILES: nat := 32

  function TextLength(path: Path): nat {
    if path == [] then 0 else |path[0]| + 1 + TextLength(path[1..])
  }

  predicate IsStorablePath(path: Path) {
    TextLength(path) < MAXIMUM_PATH_LENGTH && forall i | 0 <= i < |path| :: '\0' !in path[i]
  }

  /** The structural rules for one record on its own. */
  predicate IsValidRecord(r: Record) {
    var retains := r.disposition == ReplaceOriginalWithVerifiedBackup;
    var hasBackup := r.backupIdentity.Some?;
    && r.transaction != ""
    && 0 < r.generation <= MAXIMUM_GENERATION
    && r.sourceRevision.length != 0 && r.outputLength != 0
    && r.rootPath != [] && IsStorablePath(r.rootPath)
    && r.sourcePath != [] && IsStorablePath(r.sourcePath)
    && r.stagePath != [] && IsStorablePath(r.stagePath)
    && r.destinationPath != [] && IsStorablePath(r.destinationPath)
    && hasBackup == (r.backupPath != []) && IsStorablePath(r.backupPath)
    && if r.state == TransactionAbandonedBeforeCommit then
         && 2 <= r.generation <= (if retains then 5 else 4)
         && hasBackup == (retains && r.generation == 5)
       else
         && (!retains ==> !hasBackup && r.state != VerifiedBackupCreated)
         && (retains ==> hasBackup == (r.state.Index() >= VerifiedBackupCreated.Index()))
         && r.generation == r.state.Index() + 1 - (if !retains && r.state.Index() >= 4 then 1 else 0)
  }

  /** `next` may follow `prior`: exact adjacency in the state graph, and every fact but the
      one-time backup facts unchanged. */
  predicate IsValidSuccessor(prior: Record, next: Record) {
    var skips := prior.disposition != ReplaceOriginalWithVerifiedBackup && prior.state == StagedOutputHashVerified;
    var expectedState := prior.state.Index() + 1 + (if skips then 1 else 0);
    var moved := prior.(generation := next.generation, state := next.state);
    && IsValidRecord(next)
    && next.generation == prior.generation + 1
    && (if next.state == TransactionAbandonedBeforeCommit then
          prior.state.Index() < OutputCommitted.Index()
        else
          expectedState <= OwnedStagingArtifactsCleaned.Index() && next.state.Index() == expectedState)
    && next == if next.state == VerifiedBackupCreated
               then moved.(backupPath := next.backupPath, backupIdentity := next.backupIdentity)
               else moved
  }

  /** SHA-256 of a predecessor's encoding, or the all-zero digest before the first generation.
      Hashing is injective, so the digest of an encoding carries the encoding. */
  datatype ChainDigest = ZeroDigest | DigestOf(encoded: Encoded)

  /** The content of one generation file. `Damaged` is every byte string that does not parse. */
  datatype Encoded = Encoded(record: Record, predecessor: ChainDigest) | Damaged(noise: nat)

  /** One transaction's journal folder: published names, `.pending-` files, foreign files. */
  datatype Folder = Folder(generations: map<nat, Encoded>, pending: nat, strays: nat)
  {
    ghost predicate Valid() {
      forall g | g in generations :: 1 <= g <= MAXIMUM_GENERATION
    }

    function FileCount(): nat {
      |generations| + pending + strays
    }
  }

  const EMPTY_FOLDER := Folder(map[], 0, 0)

  function PredecessorOf(folder: Folder, g: nat): ChainDigest
  {
    if g <= 1 || g - 1 !in folder.generations then ZeroDigest else DigestOf(folder.generations[g - 1])
  }

  /** Generation `g` is readable and linked to its predecessor. */
  predicate IsLinked(folder: Folder, id: TransactionId, g: nat)
  {
    && g in folder.generations
    && var e := folder.generations[g];
       && e.Encoded?
       && IsValidRecord(e.record)
       && e.record.transaction == id
       && e.record.generation == g
       && e.predecessor == PredecessorOf(folder, g)
       && (g > 1 ==>
             && g - 1 in folder.generations
             && folder.generations[g - 1].Encoded?
             && IsValidSuccessor(folder.generations[g - 1].record, e.record))
  }

  /** The first `n` generations form a readable chain. */
  predicate IsChain(folder: Folder, id: TransactionId, n: nat)
  {
    n == 0 || (IsChain(folder, id, n - 1) && IsLinked(folder, id, n))
  }

  predicate IsEnumerable(folder: Folder) {
    folder.FileCount() <= MAXIMUM_FOLDER_FILES && folder.strays == 0
  }

  /** The longest readable chain from generation 1. */
  function ChainLength(folder: Folder, id: TransactionId, n: nat := MAXIMUM_GENERATION): (k: nat)
    requires n <= MAXIMUM_GENERATION
    ensures k <= n
    ensures IsChain(folder, id, k)
    ensures k < n ==> !IsLinked(folder, id, k + 1)
  {
    if n == 0 then 0
    else
      var k := ChainLength(folder, id, n - 1);
      if k == n - 1 && IsLinked(folder, id, n) then n else k
  }

  /** The first missing name is followed by a present one. */
  predicate HasGapAfter(folder: Folder, k: nat) {
    k + 1 !in folder.generations && exists g | k + 1 < g <= MAXIMUM_GENERATION :: g in folder.generations
  }

  /** What a reader without I/O faults gets: no chain, a record, or a refusal. A damaged newer
      generation leaves the valid prefix; a missing name below a present one is a refusal. */
  datatype Reading = Nothing | Latest(record: Record) | Refused

  function Read(folder: Folder, id: TransactionId): Reading
  {
    var k := ChainLength(folder, id);
    if !IsEnumerable(folder) || HasGapAfter(folder, k) then Refused
    else if k > 0 then Latest(RecordAt(folder, id, k, k))
    else if 1 in folder.generations then Refused
    else Nothing
  }

  /** The last record of the linked chain, whether or not the folder is small enough to be read. */
  function Chained(folder: Folder, id: TransactionId): Reading
  {
    var k := ChainLength(folder, id);
    if k > 0 then Latest(RecordAt(folder, id, k, k)) else Nothing
  }

  // ----- the language of accepted chains

  lemma {:induction false} ChainIsLinked(folder: Folder, id: TransactionId, n: nat, g: nat)
    requires IsChain(folder, id, n) && 1 <= g <= n
    ensures IsLinked(folder, id, g) && IsChain(folder, id, g)
  {
    if g < n {
      ChainIsLinked(folder, id, n - 1, g);
    }
  }

  /** The milestones of a disposition in order; abandonment is not one of them. */
  function Milestones(d: Disposition): seq<State> {
    if d == ReplaceOriginalWithVerifiedBackup then
      [TransactionInitialized, StagedOutputWritten, StagedOutputHashVerified, VerifiedBackupCreated,
       OutputCommitted, OwnedStagingArtifactsCleaned]
    else
      [TransactionInitialized, StagedOutputWritten, StagedOutputHashVerified,
       OutputCommitted, OwnedStagingArtifactsCleaned]
  }

  /** `later` states the same transaction as `first`: every fact fixed, except backup facts
      that may be added once. */
  predicate SameFacts(first: Record, later: Record) {
    && later.(generation := first.generation, state := first.state,
              backupPath := first.backupPath, backupIdentity := first.backupIdentity) == first
    && (first.backupPath != [] ==> later.backupPath == first.backupPath && later.backupIdentity == first.backupIdentity)
  }

  /** The record of generation `g` in a chain of `n`. */
  function RecordAt(folder: Folder, id: TransactionId, n: nat, g: nat): (r: Record)
    requires IsChain(folder, id, n) && 1 <= g <= n
    ensures IsValidRecord(r) && r.generation == g && r.transaction == id
  {
    ChainIsLinked(folder, id, n, g);
    folder.generations[g].record
  }

  predicate HasEnded(r: Record) {
    r.state == TransactionAbandonedBeforeCommit && 2 <= r.generation <= |Milestones(r.disposition)|
    && OutputCommitted !in Milestones(r.disposition)[..r.generation - 1]
  }

  lemma ValidRecordStates(r: Record)
    requires IsValidRecord(r)
    ensures r.generation <= |Milestones(r.disposition)| <= 6
    ensures r.state == Milestones(r.disposition)[r.generation - 1] || HasEnded(r)
  {
    assert forall d: Disposition, i, j | 0 <= i < j < |Milestones(d)| :: Milestones(d)[i] != Milestones(d)[j];
    if r.state == TransactionAbandonedBeforeCommit {
      assert Milestones(r.disposition)[..r.generation - 1] <= Milestones(r.disposition);
    }
  }

  lemma SuccessorStates(prior: Record, next: Record)
    requires IsValidRecord(prior) && IsValidSuccessor(prior, next)
    ensures !prior.state.IsTerminal() && SameFacts(prior, next) && next.disposition == prior.disposition
  {
  }

  /** The language of accepted chains: generation `g` is exactly its disposition's milestone, or
      the one abandonment that ends a chain before OutputCommitted; nothing follows a terminal
      state; a chain has at most six generations. */
  lemma ChainLanguage(folder: Folder, id: TransactionId, n: nat, g: nat)
    requires IsChain(folder, id, n) && 1 <= g <= n
    ensures var r := RecordAt(folder, id, n, g);
            var m := Milestones(r.disposition);
            && g <= |m| <= 6
            && (g < n ==> r.state == m[g - 1] && !r.state.IsTerminal())
            && (r.state == m[g - 1] || (g == n && HasEnded(r)))
  {
    hide IsValidRecord, IsValidSuccessor, IsChain;
    var r := RecordAt(folder, id, n, g);
    ValidRecordStates(r);
    if g < n {
      ChainIsLinked(folder, id, n, g + 1);
      SuccessorStates(r, folder.generations[g + 1].record);
    }
  }

  /** Along a chain every fact stays fixed, except that a backup may be recorded once. */
  lemma {:induction false} ChainFacts(folder: Folder, id: TransactionId, n: nat, g: nat, h: nat)
    requires IsChain(folder, id, n) && 1 <= g <= h <= n
    ensures SameFacts(RecordAt(folder, id, n, g), RecordAt(folder, id, n, h))
    decreases h
  {
    if g < h {
      ChainFacts(folder, id, n, g, h - 1);
      ChainIsLinked(folder, id, n, h);
      SuccessorStates(RecordAt(folder, id, n, h - 1), RecordAt(folder, id, n, h));
    }
  }

  /** What a reader may be left with when a generation cannot be read: a shorter chain, but only
      when the next name is taken. */
  ghost predicate IsPrefixReading(folder: Folder, id: TransactionId, n: nat) {
    && IsEnumerable(folder) && n <= ChainLength(folder, id) && IsChain(folder, id, n)
    && (n == 0 ==> Read(folder, id) == Nothing)
    && (n < MAXIMUM_GENERATION && n + 1 !in folder.generations ==>
          n == ChainLength(folder, id) && Read(folder, id) != Refused)
  }

  // ----- what publication does to a reader

  lemma {:induction false} ChainLengthIs(folder: Folder, id: TransactionId, k: nat)
    requires k <= MAXIMUM_GENERATION && IsChain(folder, id, k)
    requires k < MAXIMUM_GENERATION ==> !IsLinked(folder, id, k + 1)
    ensures ChainLength(folder, id) == k
  {
    var m := ChainLength(folder, id);
    if k < m {
      ChainIsLinked(folder, id, m, k + 1);
    } else if m < k {
      ChainIsLinked(folder, id, k, m + 1);
    }
  }

  lemma ChainBound(folder: Folder, id: TransactionId, k: nat)
    requires k <= MAXIMUM_GENERATION && IsChain(folder, id, k)
    ensures k <= ChainLength(folder, id)
  {
    var m := ChainLength(folder, id);
    if m < k {
      ChainIsLinked(folder, id, k, m + 1);
    }
  }

  lemma StopAtMissingName(folder: Folder, id: TransactionId, n: nat)
    requires n < MAXIMUM_GENERATION && IsChain(folder, id, n) && n + 1 !in folder.generations
    ensures n == ChainLength(folder, id)
    ensures IsEnumerable(folder) && !HasGapAfter(folder, n) ==> IsPrefixReading(folder, id, n)
    ensures HasGapAfter(folder, n) ==> Read(folder, id) == Refused
  {
    ChainLengthIs(folder, id, n);
  }

  lemma StopAtPresentName(folder: Folder, id: TransactionId, n: nat)
    requires 0 < n <= MAXIMUM_GENERATION && IsChain(folder, id, n) && IsEnumerable(folder)
    requires n < MAXIMUM_GENERATION ==> n + 1 in folder.generations
    ensures IsPrefixReading(folder, id, n)
  {
    ChainBound(folder, id, n);
  }

  lemma {:induction false} ChainIgnoresLaterNames(folder: Folder, other: Folder, id: TransactionId, n: nat)
    requires forall g | 1 <= g <= n && g in folder.generations ::
               g in other.generations && other.generations[g] == folder.generations[g]
    requires IsChain(folder, id, n)
    ensures IsChain(other, id, n)
  {
    if n > 0 {
      ChainIgnoresLaterNames(folder, other, id, n - 1);
    }
  }

  /** `record` is what the publication protocol may append to what is readable now. */
  predicate CanExtend(folder: Folder, id: TransactionId, record: Record)
  {
    && IsValidRecord(record) && record.transaction == id
    && record.generation !in folder.generations
    && match Read(folder, id)
       case Refused => false
       case Nothing => record.generation == 1
       case Latest(prior) => IsValidSuccessor(prior, record)
  }

  function Extended(folder: Folder, record: Record): Folder {
    var encoded := Encoded(record, PredecessorOf(folder, record.generation));
    folder.(generations := folder.generations[record.generation := encoded])
  }

  lemma ExtendsByOne(folder: Folder, id: TransactionId, record: Record)
    requires CanExtend(folder, id, record)
    ensures record.generation == ChainLength(folder, id) + 1 <= MAXIMUM_GENERATION
    ensures !HasGapAfter(folder, ChainLength(folder, id))
  {
  }

  lemma ExtensionIsLinked(folder: Folder, id: TransactionId, record: Record, after: Folder)
    requires CanExtend(folder, id, record)
    requires after.generations == Extended(folder, record).generations
    ensures var k := ChainLength(folder, id);
            && IsChain(after, id, k + 1)
            && (k + 1 < MAXIMUM_GENERATION ==> !IsLinked(after, id, k + 2))
            && !HasGapAfter(after, k + 1)
  {
    hide IsValidRecord, IsValidSuccessor, IsChain, IsLinked;
    var k := ChainLength(folder, id);
    ExtendsByOne(folder, id, record);
    ChainIgnoresLaterNames(folder, after, id, k);
    ExtensionLinks(folder, id, record, after);
    if k + 1 < MAXIMUM_GENERATION {
      MissingIsUnlinked(after, id, k + 2);
    }
  }

  lemma MissingIsUnlinked(folder: Folder, id: TransactionId, g: nat)
    requires g !in folder.generations
    ensures !IsLinked(folder, id, g)
  {
  }

  lemma ExtensionLinks(folder: Folder, id: TransactionId, record: Record, after: Folder)
    requires CanExtend(folder, id, record) && IsChain(after, id, record.generation - 1)
    requires after.generations == Extended(folder, record).generations
    ensures IsChain(after, id, record.generation)
  {
    hide IsValidRecord, IsValidSuccessor;
    var k := ChainLength(folder, id);
    ExtendsByOne(folder, id, record);
    assert PredecessorOf(after, k + 1) == PredecessorOf(folder, k + 1);
    if k > 0 {
      ReadIsCurrent(folder, id);
    }
    assert IsLinked(after, id, k + 1);
  }

  lemma ReadIsCurrent(folder: Folder, id: TransactionId)
    requires Read(folder, id).Latest?
    ensures var k := ChainLength(folder, id);
            && k > 0 && k in folder.generations && folder.generations[k].Encoded?
            && folder.generations[k].record == Read(folder, id).record
  {
  }

  /** What stands in the way of a legal continuation is only its own name. */
  lemma SuccessorCanExtend(folder: Folder, id: TransactionId, prior: Record, next: Record)
    requires Read(folder, id) == Latest(prior) && IsValidSuccessor(prior, next) && next.transaction == id
    ensures CanExtend(folder, id, next) <==> next.generation !in folder.generations
  {
  }

  /** Two continuations in a row: the second is admitted exactly when the first left the folder bounded. */
  lemma SecondCanExtend(folder: Folder, id: TransactionId, first: Record, second: Record)
    requires CanExtend(folder, id, first) && IsValidSuccessor(first, second) && second.transaction == id
    ensures Extended(folder, first).FileCount() == folder.FileCount() + 1
    ensures CanExtend(Extended(folder, first), id, second) <==> folder.FileCount() < MAXIMUM_FOLDER_FILES
  {
    hide IsValidSuccessor, IsChain, IsLinked;
    ExtendsByOne(folder, id, first);
    ExtensionIsRead(folder, id, first, folder.pending);
    SuccessorIsNext(first, second);
  }

  lemma SuccessorIsNext(prior: Record, next: Record)
    requires IsValidSuccessor(prior, next)
    ensures IsValidRecord(next) && next.generation == prior.generation + 1 <= MAXIMUM_GENERATION
  {
  }

  /** Publishing appends: the new record is what every later reader finds, as long as the folder
      still holds no more than 32 files. */
  lemma ExtensionIsRead(folder: Folder, id: TransactionId, record: Record, pending: nat)
    requires CanExtend(folder, id, record)
    ensures var after := Extended(folder, record).(pending := pending);
            Read(after, id) == if IsEnumerable(after) then Latest(record) else Refused
  {
    var after := Extended(folder, record).(pending := pending);
    ExtendsByOne(folder, id, record);
    ExtensionIsLinked(folder, id, record, after);
    hide IsValidRecord, IsValidSuccessor, IsLinked, IsChain, HasGapAfter;
    ChainLengthIs(after, id, ChainLength(folder, id) + 1);
  }

  /** Pending files never change the chain, only whether the folder is still bounded. */
  lemma PendingIsIgnored(folder: Folder, id: TransactionId, pending: nat)
    ensures var after := folder.(pending := pending);
            && ChainLength(after, id) == ChainLength(folder, id) && Chained(after, id) == Chained(folder, id)
            && (IsEnumerable(folder) && IsEnumerable(after) ==> Read(after, id) == Read(folder, id))
  {
    hide IsChain, IsValidRecord, IsValidSuccessor;
    var after := folder.(pending := pending);
    var k := ChainLength(folder, id);
    ChainIgnoresLaterNames(folder, after, id, k);
    assert IsLinked(after, id, k + 1) ==> IsLinked(folder, id, k + 1);
    ChainLengthIs(after, id, k);
  }

  /** After a completed publication the new record is read back exactly when the folder held
      fewer than 32 files before: the thirty-third name makes every later reader refuse. */
  lemma PublicationIsReadIff(folder: Folder, id: TransactionId, record: Record)
    requires CanExtend(folder, id, record)
    ensures Read(Extended(folder, record), id) == Latest(record) <==> folder.FileCount() < MAXIMUM_FOLDER_FILES
  {
    ExtensionIsRead(folder, id, record, folder.pending);
  }

  /** The bound is reached: one generation beside 31 abandoned pending files still publishes. */
  lemma FullFolderPublishesUnread(first: Record, second: Record)
    requires IsValidRecord(first) && first.generation == 1 && IsValidSuccessor(first, second)
    ensures var full := Folder(map[1 := Encoded(first, ZeroDigest)], 31, 0);
            && Read(full, first.transaction) == Latest(first)
            && CanExtend(full, first.transaction, second)
            && Read(Extended(full, second), first.transaction) == Refused
  {
    var full := Folder(map[1 := Encoded(first, ZeroDigest)], 31, 0);
    assert IsChain(full, first.transaction, 0);
    assert IsLinked(full, first.transaction, 1);
    ChainLengthIs(full, first.transaction, 1);
    PublicationIsReadIff(full, first.transaction, second);
  }

  /** No name is taken above the latest readable generation. */
  ghost predicate IsTidy(folder: Folder, id: TransactionId) {
    match Read(folder, id)
    case Refused => false
    case Nothing => folder.generations == map[]
    case Latest(record) => forall g | g in folder.generations :: 1 <= g <= record.generation
  }

  /** What one publication attempt may leave: at most one more pending file, or the record. */
  ghost predicate IsAttempt(before: Folder, after: Folder, id: TransactionId, record: Record) {
    || (after == before.(pending := after.pending) && after.pending <= before.pending + 1)
    || (CanExtend(before, id, record) && after == Extended(before, record))
  }

  /** One publication attempt on a tidy folder, seen by a reader: it moved on or it did not. */
  lemma AttemptIsRead(before: Folder, after: Folder, id: TransactionId, record: Record)
    requires before.Valid() && IsTidy(before, id) && before.FileCount() < MAXIMUM_FOLDER_FILES
    requires IsAttempt(before, after, id, record)
    ensures after.Valid() && IsTidy(after, id) && after.FileCount() <= before.FileCount() + 1
    ensures Read(after, id) == if after.generations == before.generations then Read(before, id) else Latest(record)
    ensures CanExtend(before, id, record) && after == Extended(before, record) ==>
              Read(after, id) == Latest(record) && after.FileCount() == before.FileCount() + 1
  {
    PendingIsIgnored(before, id, after.pending);
    if CanExtend(before, id, record) && after == Extended(before, record) {
      ExtensionIsRead(before, id, record, before.pending);
    }
  }

  /** Every name in the folder belongs to its chain, however many pending files stand beside it. */
  ghost predicate IsWhole(folder: Folder, id: TransactionId) {
    && folder.strays == 0
    && forall g | g in folder.generations :: 1 <= g <= ChainLength(folder, id)
  }

  /** One publication attempt on any folder, seen by the chain: it grew by the record or not at all. */
  lemma AttemptIsChained(before: Folder, after: Folder, id: TransactionId, record: Record)
    requires IsAttempt(before, after, id, record)
    ensures Chained(after, id) == Chained(before, id) ||
            (CanExtend(before, id, record) && Chained(before, id) == Read(before, id)
             && Chained(after, id) == Latest(record))
    ensures CanExtend(before, id, record) && after == Extended(before, record) ==> Chained(after, id) == Latest(record)
    ensures after.FileCount() <= before.FileCount() + 1
    ensures IsWhole(before, id) ==> IsWhole(after, id)
  {
    PendingIsIgnored(before, id, after.pending);
    if CanExtend(before, id, record) && after == Extended(before, record) {
      ExtendsByOne(before, id, record);
      ExtensionIsLinked(before, id, record, after);
      ChainLengthIs(after, id, ChainLength(before, id) + 1);
    }
  }

  /** A whole folder holds at most six generations, so only pending files can fill it. */
  lemma WholeIsSmall(folder: Folder, id: TransactionId)
    requires IsWhole(folder, id)
    ensures folder.FileCount() <= MAXIMUM_GENERATION + folder.pending
  {
    SmallNamesAreFew(folder.generations.Keys, MAXIMUM_GENERATION);
  }

  lemma {:induction false} SmallNamesAreFew(names: set<nat>, n: nat)
    requires forall g | g in names :: 1 <= g <= n
    ensures |names| <= n
  {
    if n == 0 {
      assert names == {};
    } else {
      SmallNamesAreFew(names - {n}, n - 1);
    }
  }

  /** A whole folder within the bound is what a reader can rely on, and the other way round. */
  lemma TidyIffWhole(folder: Folder, id: TransactionId)
    ensures IsTidy(folder, id) <==> IsWhole(folder, id) && folder.FileCount() <= MAXIMUM_FOLDER_FILES
    ensures IsTidy(folder, id) ==> Read(folder, id) == Chained(folder, id)
  {
    if IsWhole(folder, id) && ChainLength(folder, id) == 0 {
      assert folder.generations == map[];
    }
  }

  lemma EmptyFolderIsTidy(id: TransactionId)
    ensures EMPTY_FOLDER.Valid() && Read(EMPTY_FOLDER, id) == Nothing && IsTidy(EMPTY_FOLDER, id)
  {
    ChainLengthIs(EMPTY_FOLDER, id, 0);
  }

  /** On a tidy folder the next valid record can always be published. */
  lemma TidyCanExtend(folder: Folder, id: TransactionId, record: Record)
    requires IsTidy(folder, id) && IsValidRecord(record) && record.transaction == id
    requires match Read(folder, id)
             case Refused => false
             case Nothing => record.generation == 1
             case Latest(prior) => IsValidSuccessor(prior, record)
    ensures CanExtend(folder, id, record)
  {
  }

  lemma LatestIsValid(folder: Folder, id: TransactionId)
    ensures match Read(folder, id)
            case Latest(record) => IsValidRecord(record) && record.transaction == id
            case _ => true
  {
  }

  /** The state that follows `r` when nothing is refused. */
  function NextMilestone(r: Record): State
    requires !r.state.IsTerminal()
  {
    match r.state
    case TransactionInitialized => StagedOutputWritten
    case StagedOutputWritten => StagedOutputHashVerified
    case StagedOutputHashVerified =>
      if r.disposition == ReplaceOriginalWithVerifiedBackup then VerifiedBackupCreated else OutputCommitted
    case VerifiedBackupCreated => OutputCommitted
    case _ => OwnedStagingArtifactsCleaned
  }

  /** From every valid non-terminal record the next milestone is publishable. */
  lemma NextMilestoneFollows(prior: Record, next: Record)
    requires IsValidRecord(prior) && !prior.state.IsTerminal() && next.state == NextMilestone(prior)
    requires next == prior.(generation := prior.generation + 1, state := next.state,
                            backupPath := next.backupPath, backupIdentity := next.backupIdentity)
    requires if next.state == VerifiedBackupCreated
             then next.backupIdentity.Some? && next.backupPath != [] && IsStorablePath(next.backupPath)
             else next.backupPath == prior.backupPath && next.backupIdentity == prior.backupIdentity
    ensures IsValidSuccessor(prior, next)
  {
  }

  /** Before OutputCommitted, abandonment is publishable too. */
  lemma AbandonmentFollows(prior: Record)
    requires IsValidRecord(prior) && prior.state.Index() < OutputCommitted.Index()
    ensures var next := prior.(generation := prior.generation + 1, state := TransactionAbandonedBeforeCommit);
            IsValidSuccessor(prior, next)
  {
  }

  /** `r` is one of the readable generations. */
  ghost predicate IsJournaled(folder: Folder, id: TransactionId, r: Record) {
    exists n :: 0 < n <= ChainLength(folder, id) && IsChain(folder, id, n) && RecordAt(folder, id, n, n) == r
  }

  /** Every readable generation states the facts of the latest one. */
  lemma JournaledFacts(folder: Folder, id: TransactionId, r: Record)
    requires IsJournaled(folder, id, r)
    ensures ChainLength(folder, id) > 0
    ensures var n := ChainLength(folder, id); SameFacts(r, RecordAt(folder, id, n, n))
  {
    var n := ChainLength(folder, id);
    var k :| 0 < k <= n && IsChain(folder, id, k) && RecordAt(folder, id, k, k) == r;
    ChainFacts(folder, id, n, k, n);
  }
}
