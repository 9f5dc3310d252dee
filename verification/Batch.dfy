/** The batch scheduler as a transition system: workers that claim files, wait for memory under a
    moving budget, transform in parallel, and pass one commit gate. */
module Batch {
  import opened Options

  /** The error codes that the scheduler itself tells apart. */
  datatype ErrorCode =
    | Cancelled
    | RecoveryConflict
    | SourceChangedAfterAnalysis
    | WorkingMemoryAllocationFailed
    | UnsupportedSource(policy: nat)
    | Operational(code: nat)

  datatype FileOutcome =
    | CancelledBeforeTransformation
    | CancelledBeforeCommit
    | ProcessingFailed
    | UnsupportedSourceSkipped
    | NoOrientationNormalizationRequired
    | OutputSaved

  datatype Row = Row(outcome: FileOutcome, error: Option<ErrorCode>)

  const UNTOUCHED := Row(CancelledBeforeTransformation, None)

  const U64_LIMIT: nat := 0x1_0000_0000_0000_0000

  /** What review found out about one file: an error, or a plan with its revision and memory charge. */
  datatype File = File(reviewError: Option<ErrorCode>, needsTransform: bool, revision: nat, charge: nat)

  datatype Config = Config(files: seq<File>, workers: nat, discoveryComplete: bool, budgetLimit: nat)
  {
    predicate Valid() {
      && 0 < workers <= |files|
      && (forall i | 0 <= i < |files| :: 0 < files[i].charge < U64_LIMIT)
      && 0 < budgetLimit < U64_LIMIT
    }
  }

  /** Where a worker is in `processFileAt`. */
  datatype Phase =
    | Claiming
    | Starting
    | Checking
    | Waiting
    | Asleep
    | Capturing
    | Transforming
    | AtGate
    | InGate
    | Admitted
    | Committing
    | Recording(error: ErrorCode, entered: bool)
    | RequestingStop
    | Leaving
    | Tallying
    | Releasing
    | Notifying
    | Finished
  {
    predicate HasFile() { !Claiming? && !Finished? }

    /** The row of the file is final. */
    predicate HasRow() { RequestingStop? || Leaving? || Tallying? || IsTallied() }

    predicate IsTallied() { Releasing? || Notifying? }

    predicate MustHoldMemory() { Capturing? || IsRevalidated() }

    /** Admitted to memory and not yet past the release. */
    predicate MayHoldMemory() {
      MustHoldMemory() || Recording? || RequestingStop? || Leaving? || Tallying? || Releasing?
    }

    /** Past a capture that returned the reviewed revision. */
    predicate IsRevalidated() { Transforming? || AtGate? || InGate? || Admitted? || Committing? }

    /** Inside the commit mutex for certain. */
    predicate MustHoldGate() { InGate? || Admitted? || Committing? }

    predicate MayHoldGate() { MustHoldGate() || Recording? || RequestingStop? || Leaving? }
  }

  /** The file index means something only in a phase that has a file. */
  datatype Worker = Worker(phase: Phase, file: nat)

  datatype Kind = FailedFile | SkippedFile | CancelledFile | SavedFile

  datatype Progress = Progress(completed: nat, failed: nat, skipped: nat, cancelled: nat)

  /** Which worker claimed each file, which files are tallied, what each capture returned, and whether
      a commit call has ever returned a conflict. */
  datatype History = History(
    owners: seq<Option<nat>>, tallied: seq<bool>, captured: seq<Option<nat>>, closed: bool)

  /** `reserved` is an unsigned 64-bit counter; `gate` is the holder of the commit mutex. */
  datatype State = State(
    workers: seq<Worker>,
    nextIndex: nat,
    held: seq<nat>,
    reserved: nat,
    stop: bool,
    integrity: Option<ErrorCode>,
    uncertain: bool,
    gate: Option<nat>,
    rows: seq<Row>,
    progress: Progress,
    history: History)

  /** What the environment answers to a worker: nothing, a budget sample, or the result of a call. */
  datatype Reply =
    | Silence
    | Budget(bytes: nat)
    | CapturedRevision(revision: nat)
    | CaptureFailed(error: ErrorCode)
    | ValidatedOutput
    | TransformFailed(error: ErrorCode, started: bool)
    | CommitSucceeded
    | CommitFailed(error: ErrorCode)

  /** One atomic step: a worker takes the action of its phase, an allocation of it fails, a sleeping
      worker wakes up for no reason, or the caller cancels. */
  datatype Event = Work(w: nat, reply: Reply) | OutOfMemory(w: nat) | Wake(w: nat) | CancelBatch

  function Initial(c: Config): State {
    State(seq(c.workers, _ => Worker(Claiming, 0)), 0, seq(c.workers, _ => 0), 0, false, None, false, None,
          seq(|c.files|, _ => UNTOUCHED), Progress(0, 0, 0, 0),
          History(seq(|c.files|, _ => None), seq(|c.files|, _ => false), seq(|c.files|, _ => None), false))
  }

  /** The budget of one sample, never zero and never above the configured limit. */
  function EffectiveBudget(c: Config, sampled: nat): nat {
    var b := if sampled < c.budgetLimit then sampled else c.budgetLimit;
    if b == 0 then 1 else b
  }

  predicate Admits(c: Config, reserved: nat, charge: nat, sampled: nat) {
    var b := EffectiveBudget(c, sampled);
    reserved == 0 || (reserved <= b && charge <= b - reserved)
  }

  predicate Shaped(c: Config, s: State) {
    && |s.workers| == |s.held| == c.workers
    && |s.rows| == |s.history.tallied| == |s.history.captured| == |s.history.owners| == |c.files|
    && forall w | 0 <= w < |s.workers| :: s.workers[w].file < |c.files|
  }

  /** The reply fits the call that the phase makes. */
  predicate Fits(phase: Phase, reply: Reply) {
    match phase
    case Waiting => reply.Budget? && reply.bytes < U64_LIMIT
    case Capturing => reply.CapturedRevision? || reply.CaptureFailed?
    case Transforming => reply.ValidatedOutput? || reply.TransformFailed?
    case Committing => reply.CommitSucceeded? || reply.CommitFailed?
    case _ => reply.Silence?
  }

  /** A worker waits in two places only: asleep for memory, and for a gate that another worker holds. */
  predicate Enabled(c: Config, s: State, e: Event) {
    && Shaped(c, s)
    && (!e.CancelBatch? ==> e.w < |s.workers|)
    && match e
       case CancelBatch => !s.stop
       case Wake(w) => s.workers[w].phase.Asleep?
       case OutOfMemory(w) =>
         var p := s.workers[w].phase;
         p.HasFile() && !p.HasRow() && !p.Asleep? && !p.Committing? && !p.Recording?
       case Work(w, reply) =>
         var p := s.workers[w].phase;
         Fits(p, reply) && !p.Asleep? && !p.Finished? && (p.AtGate? ==> s.gate.None?)
  }

  function WrappingSum(a: nat, b: nat): nat { (a + b) % U64_LIMIT }

  function WrappingDifference(a: nat, b: nat): nat { (a - b) % U64_LIMIT }

  function Woken(x: Worker): Worker {
    if x.phase.Asleep? then Worker(Waiting, x.file) else x
  }

  /** The row that `recordError` writes. */
  function ErrorRow(error: ErrorCode, entered: bool): Row {
    Row(match error
        case Cancelled => if entered then CancelledBeforeCommit else CancelledBeforeTransformation
        case UnsupportedSource(_) => UnsupportedSourceSkipped
        case _ => ProcessingFailed,
        Some(error))
  }

  function KindOf(o: FileOutcome): Kind {
    match o
    case ProcessingFailed => FailedFile
    case UnsupportedSourceSkipped => SkippedFile
    case NoOrientationNormalizationRequired => SkippedFile
    case CancelledBeforeTransformation => CancelledFile
    case CancelledBeforeCommit => CancelledFile
    case OutputSaved => SavedFile
  }

  function Counted(p: Progress, o: FileOutcome): Progress {
    var q := p.(completed := p.completed + 1);
    match KindOf(o)
    case FailedFile => q.(failed := p.failed + 1)
    case SkippedFile => q.(skipped := p.skipped + 1)
    case CancelledFile => q.(cancelled := p.cancelled + 1)
    case SavedFile => q
  }

  /** The control flow of a worker: the phase after its action. */
  function Next(c: Config, s: State, w: nat, reply: Reply): Phase
    requires Enabled(c, s, Work(w, reply))
  {
    var f := c.files[s.workers[w].file];
    match s.workers[w].phase
    case Claiming => if s.nextIndex >= |c.files| then Finished else Starting
    case Starting => if s.integrity.Some? then Recording(s.integrity.value, false) else Checking
    case Checking =>
      if f.reviewError.Some? then Recording(f.reviewError.value, false)
      else if s.stop || !c.discoveryComplete then Recording(Cancelled, false)
      else if !f.needsTransform then Leaving
      else Waiting
    case Waiting =>
      if Admits(c, s.reserved, f.charge, reply.bytes) then Capturing
      else if !s.stop then Asleep
      else Recording(if s.integrity.Some? then s.integrity.value else Cancelled, false)
    case Capturing =>
      if reply.CaptureFailed? then Recording(reply.error, false)
      else if reply.revision != f.revision then Recording(SourceChangedAfterAnalysis, false)
      else if s.stop then Recording(Cancelled, false)
      else Transforming
    case Transforming =>
      if reply.TransformFailed? then Recording(reply.error, reply.started)
      else if s.stop then Recording(Cancelled, true)
      else AtGate
    case AtGate => InGate
    case InGate => if s.integrity.Some? then Recording(s.integrity.value, true) else Admitted
    case Admitted => if s.stop then Recording(Cancelled, true) else Committing
    case Committing => if reply.CommitFailed? then Recording(reply.error, true) else Leaving
    case Recording(error, _) => if error == RecoveryConflict then RequestingStop else Leaving
    case RequestingStop => Leaving
    case Leaving => Tallying
    case Tallying => Releasing
    case Releasing => if s.held[w] == 0 then Claiming else Notifying
    case Notifying => Claiming
  }

  /** A stop request and a release of memory wake every waiter. */
  function Moved(s: State, w: nat, next: Phase, file: nat): seq<Worker>
    requires w < |s.workers|
  {
    var x := s.workers[w];
    if x.phase.RequestingStop? || x.phase.Notifying? then WokenAll(s.workers)[w := Worker(next, file)]
    else s.workers[w := Worker(next, file)]
  }

  function WokenAll(workers: seq<Worker>): (r: seq<Worker>)
    ensures |r| == |workers|
  {
    seq(|workers|, i requires 0 <= i < |workers| => Woken(workers[i]))
  }

  /** The row that is written on the way to the next phase. */
  function RowAfter(x: Phase, next: Phase, row: Row): Row {
    match x
    case Checking => if next.Leaving? then Row(NoOrientationNormalizationRequired, None) else row
    case Committing => if next.Leaving? then Row(OutputSaved, None) else row
    case Recording(error, entered) => ErrorRow(error, entered)
    case _ => row
  }

  function HistoryAfter(s: State, w: nat, next: Phase, file: nat, reply: Reply): History
    requires file < |s.history.owners| == |s.history.tallied| == |s.history.captured|
  {
    var h := s.history;
    if next.Starting? then h.(owners := h.owners[file := Some(w)])
    else if next.Releasing? then h.(tallied := h.tallied[file := true])
    else if reply.CapturedRevision? then h.(captured := h.captured[file := Some(reply.revision)])
    else h.(closed := h.closed || reply == CommitFailed(RecoveryConflict))
  }

  /** The action of a worker in its phase. */
  function Act(c: Config, s: State, w: nat, reply: Reply): State
    requires Enabled(c, s, Work(w, reply))
  {
    var x, next := s.workers[w].phase, Next(c, s, w, reply);
    var file := if next.Starting? then s.nextIndex else s.workers[w].file;
    var conflict := next.RequestingStop?;
    State(
      Moved(s, w, next, file),
      if next.Starting? then s.nextIndex + 1 else s.nextIndex,
      if next.Capturing? then s.held[w := c.files[file].charge] else if next.Notifying? then s.held[w := 0] else s.held,
      if next.Capturing? then WrappingSum(s.reserved, c.files[file].charge)
      else if next.Notifying? then WrappingDifference(s.reserved, s.held[w]) else s.reserved,
      s.stop || x.RequestingStop?,
      if conflict && s.integrity.None? then Some(RecoveryConflict) else s.integrity,
      s.uncertain || conflict,
      if next.InGate? then Some(w) else if next.Tallying? && s.gate == Some(w) then None else s.gate,
      s.rows[file := RowAfter(x, next, s.rows[file])],
      if next.Releasing? then Counted(s.progress, s.rows[file].outcome) else s.progress,
      HistoryAfter(s, w, next, file, reply))
  }

  function Step(c: Config, s: State, e: Event): State
    requires Enabled(c, s, e)
  {
    match e
    case CancelBatch => s.(stop := true, workers := WokenAll(s.workers))
    case Wake(w) => s.(workers := s.workers[w := Woken(s.workers[w])])
    case OutOfMemory(w) =>
      s.(workers := s.workers[w := Worker(Recording(WorkingMemoryAllocationFailed, false), s.workers[w].file)],
         gate := if s.gate == Some(w) then None else s.gate)
    case Work(w, reply) => Act(c, s, w, reply)
  }

  /** The state after a run of events, when every event was enabled in its turn. */
  function After(c: Config, run: seq<Event>): Option<State> {
    if run == [] then Some(Initial(c))
    else
      match After(c, run[..|run| - 1])
      case None => None
      case Some(s) => if Enabled(c, s, run[|run| - 1]) then Some(Step(c, s, run[|run| - 1])) else None
  }
}
