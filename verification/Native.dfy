/** Values that the storage protocol observes through Windows: canonical paths, file
    identities, content digests, revisions, and the way a native call can end. */
module Native {

  type Byte = bv8

  /** A canonical path, one component per element. */
  type Path = seq<string>

  /** FILE_ID_INFO: it survives rename and replacement on a qualified volume. */
  type Identity = nat

  /** SHA-256 is modelled as an injective function of the bytes. */
  datatype Digest = Sha256(bytes: seq<Byte>)

  datatype Revision = Revision(length: nat, lastWrite: int, sha256: Digest)

  datatype File = File(identity: Identity, lastWrite: int, bytes: seq<Byte>)
  {
    function Revised(): Revision {
      Revision(|bytes|, lastWrite, Sha256(bytes))
    }

    /** The two facts about content that recovery compares; the timestamp is not one of them. */
    predicate HasContent(length: nat, sha256: Digest) {
      |bytes| == length && Sha256(bytes) == sha256
    }
  }

  type Files = map<Path, File>

  /** The native errors that the protocol distinguishes. */
  datatype NativeError = FileNotFound | AlreadyExists | OperationCancelled | OutOfMemory | InvalidData | OtherNative

  /** How a native call ends. `Threw` is an exception seen by the caller; `Crash` is the end of
      the process at that point, after which nothing of the caller runs. */
  datatype Try<+T> = Done(value: T) | Threw(error: NativeError) | Crash
  {
    predicate IsFailure() { !Done? }

    function PropagateFailure<U>(): Try<U>
      requires !Done?
    {
      if Crash? then Crash else Threw(error)
    }

    function Extract(): T
      requires Done?
    {
      value
    }
  }

  datatype Unit = Unit

  /** `a` with the entries of `b` missing from it, if any, taken away: `a` only lost entries. */
  ghost predicate OnlyRemoved(before: Files, after: Files) {
    forall p | p in after :: p in before && after[p] == before[p]
  }

  /** `path` names something strictly inside `folder`, with no traversal component. */
  predicate IsBelow(folder: Path, path: Path) {
    && |folder| < |path|
    && path[..|folder|] == folder
    && forall i | |folder| <= i < |path| :: path[i] != "." && path[i] != ".."
  }

  function Parent(path: Path): Path
    requires path != []
  {
    path[..|path| - 1]
  }

  function FileName(path: Path): string
    requires path != []
  {
    path[|path| - 1]
  }
}
