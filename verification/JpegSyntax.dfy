/** The outer syntax of a JPEG codestream (ITU-T T.81, sections B.1.1.2 and B.1.1.5): markers with fill
    bytes, marker segments, and entropy-coded data with stuffed bytes and restart markers. */
module JpegSyntax {
  import opened Bytes

  const FF: byte := 0xFF
  const SOI: byte := 0xD8
  const EOI: byte := 0xD9
  const SOS: byte := 0xDA
  const TEM: byte := 0x01

  predicate IsRestart(code: byte) { 0xD0 <= code <= 0xD7 }

  /** After a prefix inside entropy-coded data: a stuffed zero or a restart. */
  predicate IsInside(code: byte) { code == 0 || IsRestart(code) }

  /** A code that a segment of the codestream can carry. */
  predicate IsSegmentCode(code: byte) {
    code != 0 && code != FF && code != TEM && code != SOI && code != EOI && !IsRestart(code)
  }

  /** The first index from here on that holds no 0xFF. */
  function FillEnd(bytes: seq<byte>, i: nat): (r: nat)
    requires i <= |bytes|
    ensures i <= r <= |bytes|
    ensures r < |bytes| ==> bytes[r] != FF
    decreases |bytes| - i
  {
    if i < |bytes| && bytes[i] == FF then FillEnd(bytes, i + 1) else i
  }

  lemma {:induction false} FillIsFill(bytes: seq<byte>, i: nat)
    requires i <= |bytes|
    ensures forall k | i <= k < FillEnd(bytes, i) :: bytes[k] == FF
    decreases |bytes| - i
  {
    if i < |bytes| && bytes[i] == FF {
      FillIsFill(bytes, i + 1);
    }
  }

  lemma {:induction false} FillEndIs(bytes: seq<byte>, i: nat, r: nat)
    requires i <= r < |bytes| && bytes[r] != FF && forall k | i <= k < r :: bytes[k] == FF
    ensures FillEnd(bytes, i) == r
    decreases r - i
  {
    if i < r {
      FillEndIs(bytes, i + 1, r);
    }
  }

  /** Where the entropy-coded data from here on ends: at the first byte of the fill before a marker, or
      past the last byte when no marker follows. */
  function EntropyEnd(bytes: seq<byte>, i: nat): (r: nat)
    requires i <= |bytes|
    ensures i <= r <= |bytes|
    decreases |bytes| - i
  {
    if i == |bytes| then i
    else if bytes[i] != FF then EntropyEnd(bytes, i + 1)
    else
      var j := FillEnd(bytes, i);
      if j == |bytes| then j else if IsInside(bytes[j]) then EntropyEnd(bytes, j + 1) else i
  }

  /** These bytes are entropy-coded data: every 0xFF in them belongs to a stuffed byte or a restart. */
  predicate IsEntropyRange(bytes: seq<byte>, i: nat, e: nat)
    requires i <= e <= |bytes|
    decreases e - i
  {
    if i == e then true
    else if bytes[i] != FF then IsEntropyRange(bytes, i + 1, e)
    else
      var j := FillEnd(bytes, i);
      j < e && IsInside(bytes[j]) && IsEntropyRange(bytes, j + 1, e)
  }

  predicate IsEntropy(data: seq<byte>) { IsEntropyRange(data, 0, |data|) }

  /** The restart markers in entropy-coded data, with their offsets shifted. */
  function Restarts(bytes: seq<byte>, i: nat, e: nat, shift: int): (r: seq<(int, byte)>)
    requires i <= e <= |bytes| && IsEntropyRange(bytes, i, e)
    ensures forall n | 0 <= n < |r| :: i + shift <= r[n].0 && r[n].0 + 2 <= e + shift
    decreases e - i
  {
    if i == e then []
    else if bytes[i] != FF then Restarts(bytes, i + 1, e, shift)
    else
      var j := FillEnd(bytes, i);
      var rest := Restarts(bytes, j + 1, e, shift);
      if IsRestart(bytes[j]) then [(j - 1 + shift, bytes[j])] + rest else rest
  }

  lemma {:induction false} RestartsAreRestarts(bytes: seq<byte>, i: nat, e: nat, shift: int)
    requires i <= e <= |bytes| && IsEntropyRange(bytes, i, e)
    ensures forall n | 0 <= n < |Restarts(bytes, i, e, shift)| :: IsRestart(Restarts(bytes, i, e, shift)[n].1)
    decreases e - i
  {
    if i < e {
      RestartsAreRestarts(bytes, if bytes[i] != FF then i + 1 else FillEnd(bytes, i) + 1, e, shift);
    }
  }

  lemma {:induction false} EntropyEndsInRange(bytes: seq<byte>, i: nat)
    requires i <= |bytes| && EntropyEnd(bytes, i) < |bytes|
    ensures IsEntropyRange(bytes, i, EntropyEnd(bytes, i))
    decreases |bytes| - i
  {
    if bytes[i] != FF {
      EntropyEndsInRange(bytes, i + 1);
    } else if IsInside(bytes[FillEnd(bytes, i)]) {
      EntropyEndsInRange(bytes, FillEnd(bytes, i) + 1);
    }
  }

  lemma {:induction false} EntropyEndsAtMarker(bytes: seq<byte>, i: nat)
    requires i <= |bytes| && EntropyEnd(bytes, i) < |bytes|
    ensures var e := EntropyEnd(bytes, i);
            bytes[e] == FF && FillEnd(bytes, e) < |bytes| && !IsInside(bytes[FillEnd(bytes, e)])
    decreases |bytes| - i
  {
    if bytes[i] != FF {
      EntropyEndsAtMarker(bytes, i + 1);
    } else if IsInside(bytes[FillEnd(bytes, i)]) {
      EntropyEndsAtMarker(bytes, FillEnd(bytes, i) + 1);
    }
  }

  /** Entropy-coded data ends exactly where a fill and a marker begin. */
  lemma {:induction false} EntropyRangeEnds(bytes: seq<byte>, i: nat, e: nat)
    requires i <= e < |bytes| && IsEntropyRange(bytes, i, e)
    requires bytes[e] == FF && FillEnd(bytes, e) < |bytes| && !IsInside(bytes[FillEnd(bytes, e)])
    ensures EntropyEnd(bytes, i) == e
    decreases e - i
  {
    if i < e {
      EntropyRangeEnds(bytes, if bytes[i] != FF then i + 1 else FillEnd(bytes, i) + 1, e);
    }
  }

  lemma FillIsLocal(a: seq<byte>, i: nat, e: nat, b: seq<byte>, k: nat)
    requires i < e <= |a| && k + (e - i) <= |b| && a[i..e] == b[k..k + (e - i)]
    requires FillEnd(a, i) < e
    ensures FillEnd(b, k) - k == FillEnd(a, i) - i && FillEnd(b, k) < |b| && b[FillEnd(b, k)] == a[FillEnd(a, i)]
  {
    var n := FillEnd(a, i) - i;
    FillIsFill(a, i);
    assert forall m | 0 <= m < e - i :: a[i + m] == a[i..e][m] == b[k..k + (e - i)][m] == b[k + m];
    assert b[k + n] == a[i + n];
    assert forall m | k <= m < k + n :: b[m] == a[i + (m - k)];
    FillEndIs(b, k, k + n);
  }

  /** Entropy-coded data and its restarts do not depend on what surrounds them. */
  lemma {:induction false} EntropyIsLocal(a: seq<byte>, i: nat, e: nat, b: seq<byte>, k: nat, shift: int)
    requires i <= e <= |a| && k + (e - i) <= |b| && a[i..e] == b[k..k + (e - i)]
    requires IsEntropyRange(a, i, e)
    ensures IsEntropyRange(b, k, k + (e - i))
    ensures Restarts(b, k, k + (e - i), shift + i - k) == Restarts(a, i, e, shift)
    decreases e - i
  {
    hide FillEnd;
    if i < e {
      assert a[i] == a[i..e][0] == b[k..k + (e - i)][0] == b[k];
      if a[i] != FF {
        NextByteIsLocal(a, i, e, b, k, 1);
        EntropyIsLocal(a, i + 1, e, b, k + 1, shift);
      } else {
        var n := FillEnd(a, i) - i;
        FillIsLocal(a, i, e, b, k);
        NextByteIsLocal(a, i, e, b, k, n + 1);
        EntropyIsLocal(a, i + n + 1, e, b, k + n + 1, shift);
      }
    }
  }

  lemma NextByteIsLocal(a: seq<byte>, i: nat, e: nat, b: seq<byte>, k: nat, n: nat)
    requires i <= e <= |a| && k + (e - i) <= |b| && a[i..e] == b[k..k + (e - i)] && n <= e - i
    ensures a[i + n..e] == b[k + n..k + (e - i)]
  {
    assert a[i + n..e] == a[i..e][n..];
    assert b[k + n..k + (e - i)] == b[k..k + (e - i)][n..];
  }

  /** One marker with the fill before it, its payload when it is a segment, and the entropy-coded data
      after it when it is a scan header. */
  datatype Part = Part(fill: nat, code: byte, payload: seq<byte>, entropy: seq<byte>)

  predicate IsWellFormed(p: Part) {
    && (p.code == TEM || IsSegmentCode(p.code))
    && (p.code == TEM ==> p.payload == [])
    && |p.payload| + 2 < U16_LIMIT
    && IsEntropy(p.entropy)
    && (p.code != SOS ==> p.entropy == [])
  }

  function Fill(n: nat): (r: seq<byte>)
    ensures |r| == n && forall k | 0 <= k < n :: r[k] == FF
  {
    seq(n, _ => FF)
  }

  /** The marker of a part with its payload, without fill and without entropy-coded data. */
  function PrintMarker(p: Part): (r: seq<byte>)
    ensures |r| == MarkerLength(p)
  {
    [FF, p.code] + (if p.code == TEM then [] else ToBytes(|p.payload| + 2, 2) + p.payload)
  }

  function MarkerLength(p: Part): nat {
    if p.code == TEM then 2 else 4 + |p.payload|
  }

  function Print(p: Part): (r: seq<byte>)
    ensures |r| == p.fill + MarkerLength(p) + |p.entropy|
  {
    Fill(p.fill) + PrintMarker(p) + p.entropy
  }

  function PrintAll(parts: seq<Part>): seq<byte> {
    if parts == [] then [] else PrintAll(parts[..|parts| - 1]) + Print(parts[|parts| - 1])
  }

  predicate AreWellFormed(parts: seq<Part>) {
    forall i | 0 <= i < |parts| :: IsWellFormed(parts[i])
  }

  /** A whole source: the parts between start and end of image, and bytes after the end. */
  datatype Codestream = Codestream(parts: seq<Part>, endFill: nat, trailing: seq<byte>)

  function Ending(c: Codestream): seq<byte> {
    Fill(c.endFill) + [FF, EOI] + c.trailing
  }

  function Encoded(c: Codestream): seq<byte> {
    [FF, SOI] + PrintAll(c.parts) + Ending(c)
  }

  /** The offset of the n-th part, from its first fill byte. */
  function OffsetOf(parts: seq<Part>, n: nat): nat
    requires n <= |parts|
  {
    2 + |PrintAll(parts[..n])|
  }

  lemma {:induction false} PrintInParts(a: seq<Part>, b: seq<Part>)
    ensures PrintAll(a + b) == PrintAll(a) + PrintAll(b)
  {
    hide Print;
    if b == [] {
      assert a + b == a;
    } else {
      var front, last := b[..|b| - 1], b[|b| - 1];
      assert (a + b)[..|a + b| - 1] == a + front;
      PrintInParts(a, front);
      JoinIsAssociative(PrintAll(a), PrintAll(front), Print(last));
    }
  }
}
