/** Ordering of ICC profile chunks and of Extended XMP chunks. */
module ChunkOrder {
  import opened Bytes

  datatype IccChunk = IccChunk(sequence: byte, count: byte, data: Range)

  datatype XmpChunk = XmpChunk(guid: seq<char>, total: nat, offset: nat, data: Range)
  {
    function End(): nat { offset + data.length }
  }

  predicate IsSortedBy<T>(items: seq<T>, key: T -> int) {
    forall i, j | 0 <= i < j < |items| :: key(items[i]) <= key(items[j])
  }

  method LeastIndex<T>(items: seq<T>, key: T -> int) returns (least: nat)
    requires |items| > 0
    ensures least < |items| && forall j | 0 <= j < |items| :: key(items[least]) <= key(items[j])
  {
    least := 0;
    for i := 1 to |items|
      invariant 0 <= least < |items|
      invariant forall j | 0 <= j < i :: key(items[least]) <= key(items[j])
    {
      if key(items[i]) <= key(items[least]) {
        least := i;
      }
    }
  }

  lemma TakeOut<T>(items: seq<T>, i: nat)
    requires i < |items|
    ensures multiset(items) == multiset{items[i]} + multiset(items[..i] + items[i + 1..])
    ensures forall x :: x in items[..i] + items[i + 1..] ==> x in items
  {
    assert items == items[..i] + [items[i]] + items[i + 1..];
  }

  ghost predicate Precedes<T(!new)>(a: seq<T>, b: seq<T>, key: T -> int) {
    forall x, y | x in a && y in b :: key(x) <= key(y)
  }

  lemma LeastMovesOver<T(!new)>(sorted: seq<T>, rest: seq<T>, smaller: seq<T>, least: T, key: T -> int)
    requires IsSortedBy(sorted, key) && Precedes(sorted, rest, key)
    requires least in rest && forall x :: x in smaller ==> x in rest
    requires forall y | y in rest :: key(least) <= key(y)
    ensures IsSortedBy(sorted + [least], key) && Precedes(sorted + [least], smaller, key)
  {
  }

  /** Some sorted order. Nothing is promised about items with equal keys. */
  method Sort<T(!new)>(items: seq<T>, key: T -> int) returns (sorted: seq<T>)
    ensures IsSortedBy(sorted, key)
    ensures multiset(sorted) == multiset(items)
  {
    sorted := [];
    var rest := items;
    while rest != []
      invariant IsSortedBy(sorted, key) && Precedes(sorted, rest, key)
      invariant multiset(sorted) + multiset(rest) == multiset(items)
      decreases |rest|
    {
      var i := LeastIndex(rest, key);
      TakeOut(rest, i);
      assert forall y | y in rest :: key(rest[i]) <= key(y);
      LeastMovesOver(sorted, rest, rest[..i] + rest[i + 1..], rest[i], key);
      sorted, rest := sorted + [rest[i]], rest[..i] + rest[i + 1..];
    }
  }

  lemma PermutationKeepsAll<T>(a: seq<T>, b: seq<T>)
    requires multiset(a) == multiset(b)
    ensures |a| == |b|
    ensures forall x :: x in a <==> x in b
  {
    assert forall x :: x in a <==> x in multiset(a);
    assert forall x :: x in b <==> x in multiset(b);
    assert |a| == |multiset(a)| == |multiset(b)| == |b|;
  }

  function TotalLength(chunks: seq<IccChunk>): nat {
    if chunks == [] then 0 else TotalLength(chunks[..|chunks| - 1]) + chunks[|chunks| - 1].data.length
  }

  /** Every number from 1 to the shared count names a chunk, there are no more chunks than numbers, and
      the profile is not empty. */
  ghost predicate IsCompleteProfile(chunks: seq<IccChunk>) {
    && (forall i | 0 <= i < |chunks| :: chunks[i].count as int == |chunks|)
    && (forall k | 1 <= k <= |chunks| :: Occurs(chunks, k))
    && TotalLength(chunks) > 0
  }

  ghost predicate Occurs(chunks: seq<IccChunk>, k: int) {
    exists i :: 0 <= i < |chunks| && chunks[i].sequence as int == k
  }

  ghost predicate AreDistinct(chunks: seq<IccChunk>) {
    forall i, j | 0 <= i < j < |chunks| :: chunks[i].sequence != chunks[j].sequence
  }

  ghost predicate AreNumbered(chunks: seq<IccChunk>, n: nat) {
    forall i | 0 <= i < |chunks| :: 1 <= chunks[i].sequence as int <= n
  }

  function Numbers(chunks: seq<IccChunk>): (r: set<int>) {
    set i | 0 <= i < |chunks| :: chunks[i].sequence as int
  }

  function UpTo(n: nat): (r: set<int>)
    ensures |r| == n
    ensures forall k :: k in r <==> 1 <= k <= n
  {
    if n == 0 then {} else UpTo(n - 1) + {n}
  }

  lemma {:induction false} NumbersAreCounted(chunks: seq<IccChunk>)
    ensures |Numbers(chunks)| <= |chunks|
    ensures |Numbers(chunks)| == |chunks| <==> AreDistinct(chunks)
  {
    if chunks != [] {
      var front, last := chunks[..|chunks| - 1], chunks[|chunks| - 1].sequence as int;
      NumbersAreCounted(front);
      assert Numbers(chunks) == Numbers(front) + {last};
      LastIsNew(chunks);
      hide AreDistinct;
      assert last in Numbers(front) ==> Numbers(chunks) == Numbers(front);
    }
  }

  lemma LastIsNew(chunks: seq<IccChunk>)
    requires |chunks| > 0
    ensures var front, last := chunks[..|chunks| - 1], chunks[|chunks| - 1].sequence as int;
            AreDistinct(chunks) <==> AreDistinct(front) && last !in Numbers(front)
  {
    var n := |chunks| - 1;
    assert forall i | 0 <= i < n :: chunks[..n][i] == chunks[i];
    if chunks[n].sequence as int in Numbers(chunks[..n]) {
      var i :| 0 <= i < n && chunks[..n][i].sequence as int == chunks[n].sequence as int;
      assert chunks[i].sequence == chunks[n].sequence;
    } else {
      assert forall i | 0 <= i < n :: chunks[..n][i].sequence as int in Numbers(chunks[..n]);
    }
  }

  lemma SubsetOfSameSize<T>(a: set<T>, b: set<T>)
    requires a <= b && |a| == |b|
    ensures a == b
  {
    if !(b <= a) {
      var x :| x in b && x !in a;
      SubsetIsSmaller(a, b - {x});
    }
  }

  lemma {:induction false} SubsetIsSmaller<T>(a: set<T>, b: set<T>)
    requires a <= b
    ensures |a| <= |b|
  {
    if a != {} {
      var x :| x in a;
      SubsetIsSmaller(a - {x}, b - {x});
    }
  }

  /** The pigeonhole: as many chunks as numbers, each numbered in range; then no number repeats exactly
      when no number is missing. */
  lemma DistinctIffComplete(chunks: seq<IccChunk>)
    requires |chunks| > 0
    ensures AreNumbered(chunks, |chunks|) && AreDistinct(chunks)
            <==> forall k | 1 <= k <= |chunks| :: Occurs(chunks, k)
  {
    NumbersAreCounted(chunks);
    var all := UpTo(|chunks|);
    if AreNumbered(chunks, |chunks|) && AreDistinct(chunks) {
      SubsetOfSameSize(Numbers(chunks), all);
      forall k | 1 <= k <= |chunks|
        ensures Occurs(chunks, k)
      {
        assert k in Numbers(chunks);
      }
    }
    if forall k | 1 <= k <= |chunks| :: Occurs(chunks, k) {
      forall k | k in all
        ensures k in Numbers(chunks)
      {
        assert Occurs(chunks, k);
      }
      SubsetIsSmaller(all, Numbers(chunks));
      SubsetOfSameSize(all, Numbers(chunks));
      forall i | 0 <= i < |chunks|
        ensures 1 <= chunks[i].sequence as int <= |chunks|
      {
        assert chunks[i].sequence as int in Numbers(chunks);
      }
    }
  }

  /** Sorted, distinct, and numbered within its own length: then in order from 1. */
  lemma {:induction false} SortedNumbersAreInOrder(chunks: seq<IccChunk>, n: nat, k: nat)
    requires AreNumbered(chunks, n) && |chunks| == n && k < n
    requires forall i, j | 0 <= i < j < n :: chunks[i].sequence < chunks[j].sequence
    ensures chunks[k].sequence as int == k + 1
  {
    AtLeastPosition(chunks, k);
    AtMostPosition(chunks, n, k);
  }

  lemma {:induction false} AtLeastPosition(chunks: seq<IccChunk>, k: nat)
    requires k < |chunks| && chunks[0].sequence >= 1
    requires forall i, j | 0 <= i < j < |chunks| :: chunks[i].sequence < chunks[j].sequence
    ensures chunks[k].sequence as int >= k + 1
  {
    if k > 0 {
      AtLeastPosition(chunks, k - 1);
    }
  }

  lemma {:induction false} AtMostPosition(chunks: seq<IccChunk>, n: nat, k: nat)
    requires k < n == |chunks| && chunks[n - 1].sequence as int <= n
    requires forall i, j | 0 <= i < j < n :: chunks[i].sequence < chunks[j].sequence
    ensures chunks[k].sequence as int <= k + 1
    decreases n - k
  {
    if k < n - 1 {
      AtMostPosition(chunks, n, k + 1);
    }
  }

  lemma {:induction false} DistinctIsKept(a: seq<IccChunk>, b: seq<IccChunk>)
    requires multiset(a) == multiset(b) && AreDistinct(a)
    ensures AreDistinct(b)
  {
    PermutationKeepsAll(a, b);
    NumbersAreCounted(a);
    NumbersAreCounted(b);
    assert Numbers(a) == Numbers(b) by {
      forall k
        ensures k in Numbers(a) <==> k in Numbers(b)
      {
        if k in Numbers(a) {
          var i :| 0 <= i < |a| && a[i].sequence as int == k;
          assert a[i] in b;
        }
        if k in Numbers(b) {
          var i :| 0 <= i < |b| && b[i].sequence as int == k;
          assert b[i] in a;
        }
      }
    }
  }

  lemma SortedProfileIsInOrder(chunks: seq<IccChunk>, sorted: seq<IccChunk>, k: nat)
    requires IsCompleteProfile(chunks) && multiset(sorted) == multiset(chunks)
    requires IsSortedBy(sorted, (c: IccChunk) => c.sequence as int) && k < |sorted|
    ensures |sorted| == |chunks| && sorted[k].sequence as int == k + 1
  {
    PermutationKeepsAll(sorted, chunks);
    DistinctIffComplete(chunks);
    DistinctIsKept(chunks, sorted);
    forall j | 0 <= j < |sorted|
      ensures 1 <= sorted[j].sequence as int <= |sorted|
    {
      assert sorted[j] in chunks;
    }
    SortedNumbersAreInOrder(sorted, |sorted|, k);
  }

  lemma RepeatedIsIncomplete(chunks: seq<IccChunk>, i: nat)
    requires i < |chunks| && chunks[i].sequence in (set j | 0 <= j < i :: chunks[j].sequence)
    ensures !AreDistinct(chunks)
  {
    var j :| 0 <= j < i && chunks[j].sequence == chunks[i].sequence;
  }

  /** The checks before the sort: they pass exactly for a complete profile. */
  method PassesProfileChecks(chunks: seq<IccChunk>) returns (ok: bool)
    requires |chunks| > 0
    ensures ok <==> IsCompleteProfile(chunks)
  {
    var expected := chunks[0].count;
    if expected == 0 || |chunks| != expected as int {
      return false;
    }
    DistinctIffComplete(chunks);
    hide Occurs;
    var observed: set<byte> := {};
    var assembled := 0;
    for i := 0 to |chunks|
      invariant forall j | 0 <= j < i :: chunks[j].count == expected && 1 <= chunks[j].sequence as int <= |chunks|
      invariant observed == set j | 0 <= j < i :: chunks[j].sequence
      invariant AreDistinct(chunks[..i])
      invariant assembled == TotalLength(chunks[..i])
    {
      var chunk := chunks[i];
      if chunk.count != expected || chunk.sequence == 0 || chunk.sequence > expected {
        return false;
      }
      if chunk.sequence in observed {
        RepeatedIsIncomplete(chunks, i);
        return false;
      }
      observed := observed + {chunk.sequence};
      assembled := assembled + chunk.data.length;
      assert chunks[..i + 1][..i] == chunks[..i];
    }
    assert chunks[..|chunks|] == chunks;
    ok := assembled != 0;
  }

  /** Accepts exactly the complete profiles, and then leaves the chunks in order; a refusal leaves them
      as they were. */
  method ValidateAndOrderIccProfileChunks(chunks: array<IccChunk>) returns (ok: bool)
    modifies chunks
    ensures ok <==> chunks.Length == 0 || IsCompleteProfile(old(chunks[..]))
    ensures multiset(chunks[..]) == multiset(old(chunks[..]))
    ensures ok ==> forall i | 0 <= i < chunks.Length :: chunks[i].sequence as int == i + 1
    ensures !ok ==> chunks[..] == old(chunks[..])
  {
    if chunks.Length == 0 {
      return true;
    }
    hide IsCompleteProfile, IsSortedBy;
    ok := PassesProfileChecks(chunks[..]);
    if ok {
      var sorted := Sort(chunks[..], (c: IccChunk) => c.sequence as int);
      forall k | 0 <= k < |sorted|
        ensures |sorted| == chunks.Length && sorted[k].sequence as int == k + 1
      {
        SortedProfileIsInOrder(chunks[..], sorted, k);
      }
      PermutationKeepsAll(sorted, chunks[..]);
      forall k | 0 <= k < chunks.Length {
        chunks[k] := sorted[k];
      }
      assert chunks[..] == sorted;
    }
  }
}
