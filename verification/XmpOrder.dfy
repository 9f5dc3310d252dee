/** Reassembly of Extended XMP by the offsets that its chunks carry. */
module XmpOrder {
  import opened Bytes
  import opened ChunkOrder

  predicate IsUppercaseHexadecimal(c: char) {
    '0' <= c <= '9' || 'A' <= c <= 'F'
  }

  predicate IsValidGuid(guid: seq<char>) {
    |guid| == 32 && forall i | 0 <= i < 32 :: IsUppercaseHexadecimal(guid[i])
  }

  /** One identifier, one nonempty packet, and every chunk inside it. */
  predicate HeadersAgree(chunks: seq<XmpChunk>) {
    && |chunks| > 0
    && IsValidGuid(chunks[0].guid)
    && chunks[0].total > 0
    && forall i | 0 <= i < |chunks| ::
         && chunks[i].guid == chunks[0].guid && chunks[i].total == chunks[0].total
         && chunks[i].End() <= chunks[0].total
  }

  function Covering(chunks: seq<XmpChunk>, o: int): nat {
    if chunks == [] then 0
    else Covering(chunks[..|chunks| - 1], o) + Covers(chunks[|chunks| - 1], o)
  }

  function Covers(chunk: XmpChunk, o: int): nat {
    if chunk.offset <= o < chunk.End() then 1 else 0
  }

  /** Every byte of the packet lies in exactly one chunk. */
  ghost predicate CoverOnce(chunks: seq<XmpChunk>, total: nat) {
    forall o | 0 <= o < total :: Covering(chunks, o) == 1
  }

  /** No empty chunk starts inside, or at the start of, a chunk with data. */
  predicate EmptyChunksLieOutside(chunks: seq<XmpChunk>) {
    forall i, j | 0 <= i < |chunks| && 0 <= j < |chunks| ::
      chunks[i].data.length == 0 ==> Covers(chunks[j], chunks[i].offset) == 0
  }

  function Filled(chunks: seq<XmpChunk>): nat {
    if chunks == [] then 0 else Filled(chunks[..|chunks| - 1]) + chunks[|chunks| - 1].data.length
  }

  /** Each chunk starts where the ones before it end. */
  predicate IsContiguous(chunks: seq<XmpChunk>) {
    forall k | 0 <= k < |chunks| :: chunks[k].offset == Filled(chunks[..k])
  }

  const OFFSET := (c: XmpChunk) => c.offset

  lemma {:induction false} CoveringOfParts(a: seq<XmpChunk>, b: seq<XmpChunk>, o: int)
    ensures Covering(a + b, o) == Covering(a, o) + Covering(b, o)
  {
    if b == [] {
      assert a + b == a;
    } else {
      assert (a + b)[..|a + b| - 1] == a + b[..|b| - 1];
      CoveringOfParts(a, b[..|b| - 1], o);
    }
  }

  lemma LastIsElsewhere<T>(a: seq<T>, b: seq<T>) returns (i: nat)
    requires a != [] && multiset(a) == multiset(b)
    ensures i < |b| && b[i] == a[|a| - 1]
    ensures multiset(a[..|a| - 1]) == multiset(b[..i] + b[i + 1..])
  {
    var last := a[|a| - 1];
    TakeOut(a, |a| - 1);
    assert a[..|a| - 1] + a[|a|..] == a[..|a| - 1];
    assert last in multiset(b);
    i :| 0 <= i < |b| && b[i] == last;
    TakeOut(b, i);
    OneLess(last, multiset(a[..|a| - 1]), multiset(b[..i] + b[i + 1..]));
  }

  lemma OneLess<T>(x: T, m: multiset<T>, n: multiset<T>)
    requires multiset{x} + m == multiset{x} + n
    ensures m == n
  {
    assert m == multiset{x} + m - multiset{x};
    assert n == multiset{x} + n - multiset{x};
  }

  lemma {:induction false} CoveringIgnoresOrder(a: seq<XmpChunk>, b: seq<XmpChunk>, o: int)
    requires multiset(a) == multiset(b)
    ensures Covering(a, o) == Covering(b, o)
  {
    PermutationKeepsAll(a, b);
    if a != [] {
      var i := LastIsElsewhere(a, b);
      CoveringIgnoresOrder(a[..|a| - 1], b[..i] + b[i + 1..], o);
      CoveringWithout(b, i, o);
    }
  }

  lemma CoveringWithout(chunks: seq<XmpChunk>, i: nat, o: int)
    requires i < |chunks|
    ensures Covering(chunks, o) == Covering(chunks[..i] + chunks[i + 1..], o) + Covers(chunks[i], o)
  {
    assert chunks == chunks[..i] + [chunks[i]] + chunks[i + 1..];
    CoveringOfParts(chunks[..i], chunks[i + 1..], o);
    CoveringOfParts(chunks[..i], [chunks[i]], o);
    CoveringOfParts(chunks[..i] + [chunks[i]], chunks[i + 1..], o);
    assert [chunks[i]][..0] == [];
  }

  /** Contiguous chunks cover what they fill, once, and nothing else. */
  lemma {:induction false} ContiguousChunksCover(chunks: seq<XmpChunk>, o: int)
    requires IsContiguous(chunks)
    ensures Covering(chunks, o) == if 0 <= o < Filled(chunks) then 1 else 0
  {
    if chunks != [] {
      var front := chunks[..|chunks| - 1];
      assert forall k | 0 <= k < |front| :: front[..k] == chunks[..k];
      ContiguousChunksCover(front, o);
    }
  }

  lemma {:induction false} LaterChunksMiss(chunks: seq<XmpChunk>, o: int)
    requires forall i | 0 <= i < |chunks| :: chunks[i].offset > o
    ensures Covering(chunks, o) == 0
  {
    if chunks != [] {
      LaterChunksMiss(chunks[..|chunks| - 1], o);
    }
  }

  lemma {:induction false} UncoveredByEach(chunks: seq<XmpChunk>, o: int)
    requires forall i | 0 <= i < |chunks| :: Covers(chunks[i], o) == 0
    ensures Covering(chunks, o) == 0
  {
    if chunks != [] {
      UncoveredByEach(chunks[..|chunks| - 1], o);
    }
  }

  lemma {:induction false} CoveringAtLeast(chunks: seq<XmpChunk>, o: int, i: nat)
    requires i < |chunks|
    ensures Covering(chunks, o) >= Covering(chunks[..i], o) + Covers(chunks[i], o)
  {
    assert chunks == chunks[..i] + chunks[i..];
    assert chunks[i..] == [chunks[i]] + chunks[i + 1..];
    CoveringOfParts(chunks[..i], chunks[i..], o);
    CoveringOfParts([chunks[i]], chunks[i + 1..], o);
    assert [chunks[i]][..0] == [];
  }

  /** In sorted order, exact cover leaves the next chunk no choice but to start where the last ended. */
  lemma {:induction false} CoverForcesContiguity(chunks: seq<XmpChunk>, k: nat)
    requires IsSortedBy(chunks, OFFSET) && HeadersAgree(chunks)
    requires CoverOnce(chunks, chunks[0].total) && EmptyChunksLieOutside(chunks)
    requires k <= |chunks|
    ensures IsContiguous(chunks[..k])
  {
    hide IsSortedBy, HeadersAgree, CoverOnce, EmptyChunksLieOutside, IsContiguous;
    if k > 0 {
      CoverForcesContiguity(chunks, k - 1);
      NextStartsAtFilled(chunks, k - 1);
      ContiguityExtends(chunks, k);
    } else {
      NothingIsContiguous();
      assert chunks[..k] == [];
    }
  }

  lemma NothingIsContiguous()
    ensures IsContiguous([])
  {
  }

  lemma ContiguityExtends(chunks: seq<XmpChunk>, k: nat)
    requires 0 < k <= |chunks| && IsContiguous(chunks[..k - 1])
    requires chunks[k - 1].offset == Filled(chunks[..k - 1])
    ensures IsContiguous(chunks[..k])
  {
    hide Filled;
    forall j | 0 <= j < k ensures chunks[..k][..j] == chunks[..j] {
    }
    forall j | 0 <= j < k - 1 ensures chunks[..k - 1][..j] == chunks[..j] && chunks[..k - 1][j] == chunks[j] {
    }
  }

  lemma NextStartsAtFilled(chunks: seq<XmpChunk>, k: nat)
    requires IsSortedBy(chunks, OFFSET) && HeadersAgree(chunks)
    requires CoverOnce(chunks, chunks[0].total) && EmptyChunksLieOutside(chunks)
    requires k < |chunks| && IsContiguous(chunks[..k])
    ensures chunks[k].offset == Filled(chunks[..k])
  {
    hide IsContiguous, IsSortedBy, Covering, Covers, Filled;
    if chunks[k].offset < Filled(chunks[..k]) {
      NextIsNotInside(chunks, k);
    } else if chunks[k].offset > Filled(chunks[..k]) {
      NextLeavesNoGap(chunks, k);
    }
  }

  lemma NextIsNotInside(chunks: seq<XmpChunk>, k: nat)
    requires k < |chunks| && IsContiguous(chunks[..k]) && EmptyChunksLieOutside(chunks)
    requires chunks[k].offset < Filled(chunks[..k])
    ensures chunks[k].data.length > 0 && Covering(chunks, chunks[k].offset) >= 2
  {
    hide IsContiguous, Filled, Covering;
    var front, o := chunks[..k], chunks[k].offset;
    ContiguousChunksCover(front, o);
    if chunks[k].data.length == 0 {
      UncoveredByEach(front, o);
    }
    CoveringAtLeast(chunks, o, k);
  }

  lemma NextLeavesNoGap(chunks: seq<XmpChunk>, k: nat)
    requires IsSortedBy(chunks, OFFSET) && k < |chunks| && IsContiguous(chunks[..k])
    requires chunks[k].offset > Filled(chunks[..k])
    ensures Covering(chunks, Filled(chunks[..k])) == 0
  {
    hide IsContiguous, Filled, Covering;
    var front, filled := chunks[..k], Filled(chunks[..k]);
    ContiguousChunksCover(front, filled);
    assert forall i | k <= i < |chunks| :: OFFSET(chunks[k]) <= OFFSET(chunks[i]);
    LaterChunksMiss(chunks[k..], filled);
    assert chunks == front + chunks[k..];
    CoveringOfParts(front, chunks[k..], filled);
  }

  lemma CoverFillsPacket(chunks: seq<XmpChunk>)
    requires HeadersAgree(chunks) && CoverOnce(chunks, chunks[0].total) && IsContiguous(chunks)
    ensures Filled(chunks) == chunks[0].total
  {
    var n := |chunks|;
    assert chunks[n - 1].End() == Filled(chunks);
    if Filled(chunks) < chunks[0].total {
      ContiguousChunksCover(chunks, Filled(chunks));
    }
  }

  /** What the walk over the sorted chunks decides. */
  predicate IsExact(sorted: seq<XmpChunk>, total: nat) {
    IsContiguous(sorted) && Filled(sorted) == total
  }

  /** Accepted in some sorted order: then the chunks cover the packet exactly once. Covered exactly
      once, with the empty chunks outside the others: then accepted in every sorted order. */
  lemma AcceptanceMeansCover(chunks: seq<XmpChunk>, sorted: seq<XmpChunk>)
    requires HeadersAgree(chunks)
    requires IsSortedBy(sorted, OFFSET) && multiset(sorted) == multiset(chunks)
    ensures IsExact(sorted, chunks[0].total) ==> CoverOnce(chunks, chunks[0].total)
    ensures CoverOnce(chunks, chunks[0].total) && EmptyChunksLieOutside(chunks) ==> IsExact(sorted, chunks[0].total)
  {
    PermutationKeepsAll(sorted, chunks);
    var total := chunks[0].total;
    if IsExact(sorted, total) {
      forall o | 0 <= o < total
        ensures Covering(chunks, o) == 1
      {
        ContiguousChunksCover(sorted, o);
        CoveringIgnoresOrder(sorted, chunks, o);
      }
    }
    if CoverOnce(chunks, total) && EmptyChunksLieOutside(chunks) {
      forall o | 0 <= o < total
        ensures Covering(sorted, o) == 1
      {
        CoveringIgnoresOrder(sorted, chunks, o);
      }
      HeadersOfPermutation(chunks, sorted);
      CoverForcesContiguity(sorted, |sorted|);
      assert sorted[..|sorted|] == sorted;
      CoverFillsPacket(sorted);
    }
  }

  lemma HeadersOfPermutation(chunks: seq<XmpChunk>, sorted: seq<XmpChunk>)
    requires HeadersAgree(chunks) && multiset(sorted) == multiset(chunks)
    ensures HeadersAgree(sorted) && sorted[0].total == chunks[0].total
    ensures EmptyChunksLieOutside(chunks) ==> EmptyChunksLieOutside(sorted)
  {
    PermutationKeepsAll(sorted, chunks);
    forall i | 0 <= i < |sorted|
      ensures sorted[i].guid == chunks[0].guid && sorted[i].total == chunks[0].total
      ensures sorted[i].End() <= chunks[0].total
    {
      assert sorted[i] in chunks;
    }
    if EmptyChunksLieOutside(chunks) {
      forall i, j | 0 <= i < |sorted| && 0 <= j < |sorted| && sorted[i].data.length == 0
        ensures Covers(sorted[j], sorted[i].offset) == 0
      {
        assert sorted[i] in chunks && sorted[j] in chunks;
      }
    }
  }

  lemma {:induction false} FilledGrows(chunks: seq<XmpChunk>, p: nat, q: nat)
    requires p < q <= |chunks|
    ensures Filled(chunks[..p]) + chunks[p].data.length <= Filled(chunks[..q])
  {
    assert chunks[..q][..q - 1] == chunks[..q - 1];
    if p < q - 1 {
      FilledGrows(chunks, p, q - 1);
    }
  }

  function Swapped(chunks: seq<XmpChunk>, p: nat, q: nat): seq<XmpChunk>
    requires p < q < |chunks|
  {
    chunks[p := chunks[q]][q := chunks[p]]
  }

  lemma TiesMaySwap(sorted: seq<XmpChunk>, p: nat, q: nat)
    requires IsSortedBy(sorted, OFFSET) && p < q < |sorted| && sorted[p].offset == sorted[q].offset
    ensures IsSortedBy(Swapped(sorted, p, q), OFFSET)
    ensures multiset(Swapped(sorted, p, q)) == multiset(sorted)
  {
    var other := Swapped(sorted, p, q);
    assert forall i | 0 <= i < |other| :: OFFSET(other[i]) == OFFSET(sorted[i]);
  }

  /** Where the sort may decide: if an empty chunk starts at or inside a chunk with data, some sorted
      order is refused, whatever order was accepted. */
  lemma SomeOrderIsRefused(sorted: seq<XmpChunk>, total: nat) returns (other: seq<XmpChunk>)
    requires IsSortedBy(sorted, OFFSET) && !EmptyChunksLieOutside(sorted)
    ensures IsSortedBy(other, OFFSET) && multiset(other) == multiset(sorted)
    ensures !IsExact(other, total)
  {
    var p, q :| 0 <= p < |sorted| && 0 <= q < |sorted| && sorted[p].data.length == 0
                && Covers(sorted[q], sorted[p].offset) != 0;
    other := sorted;
    if IsExact(sorted, total) {
      hide IsSortedBy, Filled;
      if q < p {
        FilledGrows(sorted, q, p);
        assert false;
      }
      FilledGrows(sorted, p, q);
      TiesMaySwap(sorted, p, q);
      other := Swapped(sorted, p, q);
      FilledGrows(other, p, q);
      assert other[q].offset < Filled(other[..q]);
    }
  }

  /** The verdict is the sort's to make exactly when an empty chunk starts at or inside a chunk with
      data: for chunks that cover the packet once, every sorted order is accepted if and only if none
      does. The last parameter is any sorted order, for instance the one that the sort returns. */
  lemma VerdictIgnoresTiesIff(chunks: seq<XmpChunk>, some: seq<XmpChunk>)
    requires HeadersAgree(chunks) && CoverOnce(chunks, chunks[0].total)
    requires IsSortedBy(some, OFFSET) && multiset(some) == multiset(chunks)
    ensures EmptyChunksLieOutside(chunks)
            <==> forall s: seq<XmpChunk> ::
                   IsSortedBy(s, OFFSET) && multiset(s) == multiset(chunks) ==> IsExact(s, chunks[0].total)
  {
    if EmptyChunksLieOutside(chunks) {
      forall s: seq<XmpChunk> | IsSortedBy(s, OFFSET) && multiset(s) == multiset(chunks)
        ensures IsExact(s, chunks[0].total)
      {
        AcceptanceMeansCover(chunks, s);
      }
    } else {
      if EmptyChunksLieOutside(some) {
        HeadersOfPermutation(chunks, some);
        HeadersOfPermutation(some, chunks);
      }
      var other := SomeOrderIsRefused(some, chunks[0].total);
    }
  }

  /** A concrete packet of four bytes with an empty chunk at its start: one sorted order is accepted,
      and the other is refused. */
  lemma TieOrderDecides(guid: seq<char>)
    requires IsValidGuid(guid)
    ensures var empty, whole := XmpChunk(guid, 4, 0, Range(0, 0)), XmpChunk(guid, 4, 0, Range(0, 4));
            && HeadersAgree([empty, whole])
            && IsSortedBy([empty, whole], OFFSET) && IsSortedBy([whole, empty], OFFSET)
            && IsExact([empty, whole], 4) && !IsExact([whole, empty], 4)
  {
    var empty, whole := XmpChunk(guid, 4, 0, Range(0, 0)), XmpChunk(guid, 4, 0, Range(0, 4));
    assert [empty, whole][..1] == [empty] && [whole, empty][..1] == [whole];
    assert [empty][..0] == [] && [whole][..0] == [];
  }

  method PassesHeaderChecks(chunks: seq<XmpChunk>) returns (ok: bool)
    requires |chunks| > 0
    ensures ok <==> HeadersAgree(chunks)
  {
    var guid, total := chunks[0].guid, chunks[0].total;
    if !IsValidGuid(guid) || total == 0 {
      return false;
    }
    for i := 0 to |chunks|
      invariant forall j | 0 <= j < i ::
                  chunks[j].guid == guid && chunks[j].total == total && chunks[j].End() <= total
    {
      if chunks[i].guid != guid || chunks[i].total != total || chunks[i].offset > total
         || chunks[i].data.length > total - chunks[i].offset {
        return false;
      }
    }
    ok := true;
  }

  method WalkIsExact(sorted: seq<XmpChunk>, total: nat) returns (ok: bool)
    ensures ok <==> IsExact(sorted, total)
  {
    var next := 0;
    for i := 0 to |sorted|
      invariant next == Filled(sorted[..i])
      invariant forall k | 0 <= k < i :: sorted[k].offset == Filled(sorted[..k])
    {
      if sorted[i].offset != next {
        return false;
      }
      next := next + sorted[i].data.length;
      assert sorted[..i + 1][..i] == sorted[..i];
    }
    assert sorted[..|sorted|] == sorted;
    ok := next == total;
  }

  /** Accepts only exact covers; accepts all of them whose empty chunks lie outside the others; leaves
      accepted chunks sorted and contiguous, and refused ones permuted at most. */
  method ValidateAndOrderExtendedXmpChunks(chunks: array<XmpChunk>) returns (ok: bool)
    modifies chunks
    ensures multiset(chunks[..]) == multiset(old(chunks[..]))
    ensures chunks.Length == 0 ==> ok
    ensures (ok && chunks.Length > 0) ==>
              && HeadersAgree(old(chunks[..])) && CoverOnce(old(chunks[..]), old(chunks[0].total))
              && IsSortedBy(chunks[..], OFFSET) && IsExact(chunks[..], old(chunks[0].total))
    ensures (&& chunks.Length > 0 && HeadersAgree(old(chunks[..]))
             && CoverOnce(old(chunks[..]), old(chunks[0].total)) && EmptyChunksLieOutside(old(chunks[..]))) ==> ok
  {
    if chunks.Length == 0 {
      return true;
    }
    hide IsSortedBy, CoverOnce, EmptyChunksLieOutside, HeadersAgree, IsExact;
    ok := PassesHeaderChecks(chunks[..]);
    if ok {
      var total := chunks[0].total;
      var sorted := Sort(chunks[..], OFFSET);
      AcceptanceMeansCover(chunks[..], sorted);
      PermutationKeepsAll(sorted, chunks[..]);
      forall k | 0 <= k < chunks.Length {
        chunks[k] := sorted[k];
      }
      assert chunks[..] == sorted;
      ok := WalkIsExact(chunks[..], total);
    }
  }
}
