/** Reading and publishing one transaction's generations, effect by effect. */
module JournalStore {
  import opened Options
  import opened Native
  import opened Journal
  import opened Storage

  class ImageFileTransactionJournal {
    const storage: NativeStorage
    const transaction: TransactionId

    constructor (storage: NativeStorage, transaction: TransactionId)
      ensures this.storage == storage && this.transaction == transaction
    {
      this.storage, this.transaction := storage, transaction;
    }

    function Folder(): Folder
      requires transaction in storage.folders
      reads storage`folders
    {
      storage.folders[transaction]
    }

    /** The number of generations that read back as one chain. A generation that cannot be read
        ends the chain unless it is the first. */
    method ReadChain() returns (r: Try<nat>)
      requires transaction in storage.folders && Folder().Valid()
      ensures r.Done? ==> IsPrefixReading(Folder(), transaction, r.value)
      ensures storage.reliable ==>
                if Read(Folder(), transaction) == Refused then r.Threw?
                else r == Done(ChainLength(Folder(), transaction))
    {
      var folder := storage.folders[transaction];
      var _ :- storage.Ending();
      if !IsEnumerable(folder) {
        return Threw(InvalidData);
      }
      var g := 0;
      while g < MAXIMUM_GENERATION
        invariant g <= MAXIMUM_GENERATION && IsChain(folder, transaction, g)
      {
        var _ :- storage.Ending();
        if g + 1 !in folder.generations {
          StopAtMissingName(folder, transaction, g);
          return if HasGapAfter(folder, g) then Threw(InvalidData) else Done(g);
        }
        var reading := storage.Ending();
        if reading.Crash? {
          return Crash;
        }
        if reading.Threw? || !IsLinked(folder, transaction, g + 1) {
          if !reading.Threw? {
            ChainLengthIs(folder, transaction, g);
          }
          if g == 0 {
            return Threw(InvalidData);
          }
          StopAtPresentName(folder, transaction, g);
          return Done(g);
        }
        g := g + 1;
      }
      ChainLengthIs(folder, transaction, g);
      StopAtPresentName(folder, transaction, g);
      return Done(g);
    }

    /** The latest record a reader gets. A transient read failure can only shorten the answer to an
        earlier record of the same chain, never to a closing one. */
    method ReadLatest() returns (r: Try<Option<Record>>)
      requires transaction in storage.folders && Folder().Valid()
      ensures r == Done(None) ==> Read(Folder(), transaction) == Nothing
      ensures r.Done? && r.value.Some? ==>
                IsValidRecord(r.value.value) && r.value.value.transaction == transaction
                && IsJournaled(Folder(), transaction, r.value.value)
      ensures r.Done? && r.value.Some? && Read(Folder(), transaction).Latest? ==>
                var latest := Read(Folder(), transaction).record;
                r.value.value == latest ||
                (r.value.value.generation < latest.generation && !r.value.value.state.IsTerminal())
      ensures storage.reliable ==>
                match Read(Folder(), transaction)
                case Refused => r.Threw?
                case Nothing => r == Done(None)
                case Latest(record) => r == Done(Some(record))
    {
      var n :- ReadChain();
      if n == 0 {
        return Done(None);
      }
      var length := ChainLength(Folder(), transaction);
      ChainLanguage(Folder(), transaction, length, n);
      ChainIsLinked(Folder(), transaction, length, n);
      return Done(Some(RecordAt(Folder(), transaction, n, n)));
    }

    /** Everything but this transaction's folder is untouched, and its folder either keeps its
        generations or gains `record` at a free name, linked to what was readable. */
    ghost predicate MayHavePublished(
      before: map<TransactionId, Folder>, after: map<TransactionId, Folder>, record: Record)
      requires transaction in before
    {
      && transaction in after
      && after == before[transaction := after[transaction]]
      && IsAttempt(before[transaction], after[transaction], transaction, record)
    }

    /** A pending file is written, read back, and renamed to a name that must be free. */
    method AddPending() returns (r: Try<Unit>)
      requires transaction in storage.folders
      modifies storage`folders
      ensures var f := old(storage.folders)[transaction];
              var f' := f.(pending := f.pending + 1);
              (storage.folders == old(storage.folders) && !r.Done?)
              || storage.folders == old(storage.folders)[transaction := f']
      ensures storage.reliable ==> r.Done?
    {
      r := storage.Ending();
      var applied: bool := *;
      if r.Done? || applied {
        var folder := storage.folders[transaction];
        storage.folders := storage.folders[transaction := folder.(pending := folder.pending + 1)];
      }
    }

    /** What a finished write of `encoded` reads back as: anything, unless the medium is sound. */
    method WriteAndReadBack(encoded: Encoded) returns (r: Try<Encoded>)
      ensures storage.reliable ==> r == Done(encoded)
    {
      var _ :- storage.Ending();
      var stored: Encoded := *;
      return Done(if storage.reliable then encoded else stored);
    }

    method RenamePending(content: Encoded, generation: nat) returns (r: Try<Unit>)
      requires transaction in storage.folders && Folder().pending > 0
      modifies storage`folders
      ensures var f := old(storage.folders)[transaction];
              var f' := f.(pending := f.pending - 1, generations := f.generations[generation := content]);
              || (storage.folders == old(storage.folders) && !r.Done?)
              || (generation !in f.generations && storage.folders == old(storage.folders)[transaction := f'])
      ensures storage.reliable && generation !in old(storage.folders)[transaction].generations ==> r.Done?
    {
      var folder := storage.folders[transaction];
      if generation in folder.generations {
        return Threw(AlreadyExists);
      }
      r := storage.Ending();
      var applied: bool := *;
      if r.Done? || applied {
        storage.folders := storage.folders[transaction :=
          folder.(pending := folder.pending - 1, generations := folder.generations[generation := content])];
      }
    }

    /** The checks before any effect: the record continues exactly what is readable, at a free name. */
    method Admit(record: Record) returns (r: Try<Encoded>)
      requires transaction in storage.folders && Folder().Valid()
      ensures r.Done? ==> CanExtend(Folder(), transaction, record)
                          && r.value == Encoded(record, PredecessorOf(Folder(), record.generation))
      ensures storage.reliable ==> !r.Crash? && (CanExtend(Folder(), transaction, record) ==> r.Done?)
    {
      var n :- ReadChain();
      if !IsValidRecord(record) || record.transaction != transaction {
        return Threw(InvalidData);
      }
      if n > 0 {
        if !IsValidSuccessor(RecordAt(Folder(), transaction, n, n), record) {
          return Threw(InvalidData);
        }
      } else if record.generation != 1 {
        return Threw(InvalidData);
      }
      if record.generation in Folder().generations {
        return Threw(InvalidData);
      }
      return Done(Encoded(record, PredecessorOf(Folder(), record.generation)));
    }

    /** Pending file, write, read-back, rename and reread of one admitted encoding. */
    method Persist(encoded: Encoded, generation: nat) returns (r: Try<Unit>)
      requires transaction in storage.folders && generation !in Folder().generations
      modifies storage`folders
      ensures transaction in storage.folders
      ensures storage.folders == old(storage.folders)[transaction := Folder()]
      ensures var f := old(storage.folders)[transaction];
              || (Folder() == f.(generations := f.generations[generation := encoded]))
              || (!r.Done? && Folder() == f.(pending := Folder().pending) && Folder().pending <= f.pending + 1)
      ensures storage.reliable ==> r.Done?
    {
      var _ :- AddPending();
      var content :- WriteAndReadBack(encoded);
      if content != encoded {
        return Threw(InvalidData);
      }
      var _ :- RenamePending(content, generation);
      var published := storage.Ending();
      return if published.Done? && Folder().generations[generation] != content then Threw(InvalidData) else published;
    }

    /** Publication is all or nothing and never overwrites: a completed call appended exactly
        `record`, a failed or interrupted one appended it or left the generations alone. */
    method Publish(record: Record) returns (r: Try<Unit>)
      requires transaction in storage.folders && Folder().Valid()
      modifies storage`folders
      ensures MayHavePublished(old(storage.folders), storage.folders, record)
      ensures var f := old(storage.folders)[transaction];
              && Folder().Valid()
              && (r.Done? ==> CanExtend(f, transaction, record) && Folder() == Extended(f, record))
              && (storage.reliable ==> !r.Crash? && (CanExtend(f, transaction, record) ==> r.Done?))
    {
      var encoded :- Admit(record);
      r := Persist(encoded, record.generation);
    }
  }
}
