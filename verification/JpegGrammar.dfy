/** The scanner against the grammar: it reaches the end of the image exactly on printed codestreams, and
    then its walk is the fold over their parts. */
module JpegGrammar {
  import opened Options
  import opened Bytes
  import opened JpegSyntax
  import opened JpegScanner

  /** The walk after one more part, printed at this offset. */
  function AdvancePart(limits: Limits, w: Walk, p: Part, at: nat): Try<Walk>
    requires IsWellFormed(p)
  {
    match Advance(limits, w, p.code, p.payload, at + p.fill)
    case Failed(error) => Failed(error)
    case Got(v) =>
      if p.code == SOS then
        var data := at + p.fill + MarkerLength(p);
        Got(WithEntropy(v, Range(data, |p.entropy|), Restarts(p.entropy, 0, |p.entropy|, data)))
      else Got(v)
  }

  function WalkAll(limits: Limits, parts: seq<Part>): Try<Walk>
    requires AreWellFormed(parts)
  {
    if parts == [] then Got(BEGINNING)
    else
      match WalkAll(limits, parts[..|parts| - 1])
      case Failed(error) => Failed(error)
      case Got(w) => AdvancePart(limits, w, parts[|parts| - 1], OffsetOf(parts, |parts| - 1))
  }

  /** A fill and a marker with this code stand here. */
  predicate MarkerStandsAt(bytes: seq<byte>, at: nat, fill: nat, code: byte) {
    at + fill + 2 <= |bytes| && bytes[at..at + fill + 2] == Fill(fill) + [FF, code]
  }

  lemma MarkerIsFound(bytes: seq<byte>, at: nat, fill: nat, code: byte)
    requires MarkerStandsAt(bytes, at, fill, code) && code != FF
    ensures bytes[at] == FF && FillEnd(bytes, at) == at + fill + 1 && bytes[at + fill + 1] == code
  {
    var window := bytes[at..at + fill + 2];
    assert forall k | at <= k < at + fill + 2 :: bytes[k] == window[k - at];
    FillEndIs(bytes, at, at + fill + 1);
  }

  lemma FoundIsMarker(bytes: seq<byte>, at: nat)
    requires at < |bytes| && bytes[at] == FF && FillEnd(bytes, at) < |bytes|
    ensures FillEnd(bytes, at) > at
    ensures MarkerStandsAt(bytes, at, FillEnd(bytes, at) - 1 - at, bytes[FillEnd(bytes, at)])
  {
    FillIsFill(bytes, at);
    var j := FillEnd(bytes, at);
    assert bytes[at..j + 1] == Fill(j - 1 - at) + [FF, bytes[j]];
  }

  lemma SegmentIsFound(bytes: seq<byte>, j: nat, payload: seq<byte>)
    requires j < |bytes| && bytes[j] != TEM && |payload| + 2 < U16_LIMIT
    requires j + 3 + |payload| <= |bytes|
    requires bytes[j + 1..j + 3] == ToBytes(|payload| + 2, 2) && bytes[j + 3..j + 3 + |payload|] == payload
    ensures SegmentAt(bytes, j) == Some(payload)
  {
    hide ToBytes, NumberAt;
    var length := |payload| + 2;
    assert j + 1 + length == j + 3 + |payload|;
    ShortNumberAt(bytes, j + 1, length);
  }

  lemma FoundIsSegment(bytes: seq<byte>, j: nat)
    requires j < |bytes| && bytes[j] != TEM && SegmentAt(bytes, j).Some?
    ensures var payload := SegmentAt(bytes, j).value;
            && |payload| + 2 < U16_LIMIT && j + 3 + |payload| <= |bytes|
            && bytes[j + 1..j + 3] == ToBytes(|payload| + 2, 2) && bytes[j + 3..j + 3 + |payload|] == payload
  {
    Powers();
    NumberOfBytes(bytes[j + 1..j + 3]);
  }

  /** What a printed part leaves at its place: the marker, the length field and payload, the data. */
  lemma PrintedPart(bytes: seq<byte>, at: nat, p: Part)
    requires at + |Print(p)| <= |bytes| && bytes[at..at + |Print(p)|] == Print(p)
    ensures var j := at + p.fill + 1;
            && MarkerStandsAt(bytes, at, p.fill, p.code)
            && (p.code != TEM ==>
                  && bytes[j + 1..j + 3] == ToBytes(|p.payload| + 2, 2)
                  && bytes[j + 3..j + 3 + |p.payload|] == p.payload)
            && bytes[at + p.fill + MarkerLength(p)..at + |Print(p)|] == p.entropy
  {
    var marker := at + p.fill;
    SplitWindow(bytes, at, Fill(p.fill) + PrintMarker(p), p.entropy);
    var length := if p.code == TEM then [] else ToBytes(|p.payload| + 2, 2) + p.payload;
    hide ToBytes;
    assert Fill(p.fill) + PrintMarker(p) == (Fill(p.fill) + [FF, p.code]) + length;
    SplitWindow(bytes, at, Fill(p.fill) + [FF, p.code], length);
    if p.code != TEM {
      SplitWindow(bytes, marker + 2, ToBytes(|p.payload| + 2, 2), p.payload);
    }
  }

  /** After a part stands the fill of another marker that cannot belong to entropy-coded data. */
  predicate MarkerFollows(bytes: seq<byte>, at: nat) {
    at < |bytes| && bytes[at] == FF && FillEnd(bytes, at) < |bytes| && !IsInside(bytes[FillEnd(bytes, at)])
  }

  lemma EntropyIsScanned(limits: Limits, bytes: seq<byte>, data: nat, entropy: seq<byte>, w: Walk)
    requires data + |entropy| <= |bytes| && bytes[data..data + |entropy|] == entropy
    requires IsEntropy(entropy) && MarkerFollows(bytes, data + |entropy|)
    ensures ScanInside(limits, bytes, data, data, w)
         == ScanFrom(limits, bytes, data + |entropy|,
                     WithEntropy(w, Range(data, |entropy|), Restarts(entropy, 0, |entropy|, data)))
  {
    hide ScanFrom, FillEnd, IsEntropyRange, Restarts, EntropyEnd;
    assert entropy[0..|entropy|] == bytes[data..data + |entropy|];
    EntropyIsLocal(entropy, 0, |entropy|, bytes, data, data);
    EntropyRangeEnds(bytes, data, data + |entropy|);
  }

  lemma MarkerIsScanned(bytes: seq<byte>, p: Part, at: nat)
    requires IsWellFormed(p)
    requires at + |Print(p)| <= |bytes| && bytes[at..at + |Print(p)|] == Print(p)
    ensures var j := at + p.fill + 1;
            && j < |bytes| && bytes[at] == FF && FillEnd(bytes, at) == j && bytes[j] == p.code
            && SegmentAt(bytes, j) == Some(p.payload)
    ensures bytes[at + p.fill + MarkerLength(p)..at + |Print(p)|] == p.entropy
  {
    hide FillEnd, ToBytes, Print, PrintMarker;
    PrintedPart(bytes, at, p);
    MarkerIsFound(bytes, at, p.fill, p.code);
    if p.code != TEM {
      SegmentIsFound(bytes, at + p.fill + 1, p.payload);
    }
  }

  lemma {:induction false} PartIsScanned(limits: Limits, bytes: seq<byte>, p: Part, at: nat, w: Walk)
    requires IsWellFormed(p)
    requires at + |Print(p)| <= |bytes| && bytes[at..at + |Print(p)|] == Print(p)
    requires MarkerFollows(bytes, at + |Print(p)|)
    ensures ScanFrom(limits, bytes, at, w)
         == match AdvancePart(limits, w, p, at)
            case Failed(error) => Refused(error)
            case Got(v) => ScanFrom(limits, bytes, at + |Print(p)|, v)
  {
    hide ScanFrom, Advance, FillEnd, Print, PrintMarker, SegmentAt, ToBytes, IsEntropy, ScanInside, MarkerStandsAt,
      WithEntropy, Restarts;
    var j := at + p.fill + 1;
    MarkerIsScanned(bytes, p, at);
    ScanStep(limits, bytes, at, w);
    var advanced := Advance(limits, w, p.code, p.payload, j - 1);
    if p.code == SOS && advanced.Got? {
      EntropyIsScanned(limits, bytes, j - 1 + MarkerLength(p), p.entropy, advanced.value);
    }
  }

  lemma EndIsScanned(limits: Limits, bytes: seq<byte>, at: nat, fill: nat, w: Walk)
    requires MarkerStandsAt(bytes, at, fill, EOI)
    ensures ScanFrom(limits, bytes, at, w) == Reached(w, at + fill)
    ensures MarkerFollows(bytes, at)
  {
    MarkerIsFound(bytes, at, fill, EOI);
    hide FillEnd, ScanFrom, SegmentAt, ScanInside, Advance;
    ScanStep(limits, bytes, at, w);
  }

  lemma PrefixesJoin(parts: seq<Part>, n: nat)
    requires n < |parts|
    ensures PrintAll(parts[..n + 1]) == PrintAll(parts[..n]) + Print(parts[n])
    ensures OffsetOf(parts, n + 1) == OffsetOf(parts, n) + |Print(parts[n])|
  {
    assert parts[..n + 1][..n] == parts[..n];
  }

  lemma PartStands(c: Codestream, n: nat)
    requires n < |c.parts|
    ensures OffsetOf(c.parts, n + 1) <= |Encoded(c)|
    ensures OffsetOf(c.parts, n + 1) == OffsetOf(c.parts, n) + |Print(c.parts[n])|
    ensures Encoded(c)[OffsetOf(c.parts, n)..OffsetOf(c.parts, n + 1)] == Print(c.parts[n])
  {
    hide PrintAll, Print, Ending;
    var before, part, after := PrintAll(c.parts[..n]), Print(c.parts[n]), PrintAll(c.parts[n + 1..]);
    PrefixesJoin(c.parts, n);
    assert c.parts == c.parts[..n + 1] + c.parts[n + 1..];
    PrintInParts(c.parts[..n + 1], c.parts[n + 1..]);
    WindowOf([FF, SOI], before, part, after, Ending(c));
  }

  lemma WindowOf<T>(a: seq<T>, b: seq<T>, x: seq<T>, c: seq<T>, d: seq<T>)
    ensures (a + (b + x + c) + d)[|a| + |b|..|a| + |b| + |x|] == x
  {
  }

  lemma EndStands(c: Codestream)
    ensures MarkerStandsAt(Encoded(c), OffsetOf(c.parts, |c.parts|), c.endFill, EOI)
  {
    hide PrintAll;
    assert c.parts[..|c.parts|] == c.parts;
    var at := OffsetOf(c.parts, |c.parts|);
    assert Encoded(c)[at..at + c.endFill + 2] == Ending(c)[..c.endFill + 2];
  }

  lemma NextMarkerStands(limits: Limits, c: Codestream, n: nat)
    requires AreWellFormed(c.parts) && n <= |c.parts|
    ensures MarkerFollows(Encoded(c), OffsetOf(c.parts, n))
  {
    hide Encoded, FillEnd, Print, ScanFrom;
    if n < |c.parts| {
      PartStands(c, n);
      assert IsWellFormed(c.parts[n]);
      MarkerIsScanned(Encoded(c), c.parts[n], OffsetOf(c.parts, n));
    } else {
      EndStands(c);
      EndIsScanned(limits, Encoded(c), OffsetOf(c.parts, n), c.endFill, BEGINNING);
    }
  }

  /** On a printed codestream the scanner goes part by part. */
  lemma {:induction false} PartsAreScanned(limits: Limits, c: Codestream, n: nat)
    requires AreWellFormed(c.parts) && n <= |c.parts|
    ensures ScanFrom(limits, Encoded(c), 2, BEGINNING)
         == match WalkAll(limits, c.parts[..n])
            case Failed(error) => Refused(error)
            case Got(v) => ScanFrom(limits, Encoded(c), OffsetOf(c.parts, n), v)
  {
    hide ScanFrom, Encoded, Print, AdvancePart, MarkerFollows;
    if n > 0 {
      PartsAreScanned(limits, c, n - 1);
      assert c.parts[..n][..n - 1] == c.parts[..n - 1];
      assert OffsetOf(c.parts[..n], n - 1) == OffsetOf(c.parts, n - 1);
      PartStands(c, n - 1);
      NextMarkerStands(limits, c, n);
      var walked := WalkAll(limits, c.parts[..n - 1]);
      if walked.Got? {
        assert IsWellFormed(c.parts[n - 1]);
        PartIsScanned(limits, Encoded(c), c.parts[n - 1], OffsetOf(c.parts, n - 1), walked.value);
      }
    }
  }

  function OutcomeOf(limits: Limits, c: Codestream): Outcome
    requires AreWellFormed(c.parts)
  {
    match WalkAll(limits, c.parts)
    case Failed(error) => Refused(error)
    case Got(w) => Reached(w, OffsetOf(c.parts, |c.parts|) + c.endFill)
  }

  /** Completeness: on every printed codestream the walk ends as the fold over its parts does, with the
      same error, or at its end of image. */
  lemma CodestreamIsScanned(limits: Limits, c: Codestream)
    requires AreWellFormed(c.parts)
    ensures ScanFrom(limits, Encoded(c), 2, BEGINNING) == OutcomeOf(limits, c)
  {
    hide ScanFrom, Encoded, WalkAll;
    PartsAreScanned(limits, c, |c.parts|);
    assert c.parts[..|c.parts|] == c.parts;
    EndStands(c);
    var walked := WalkAll(limits, c.parts);
    if walked.Got? {
      EndIsScanned(limits, Encoded(c), OffsetOf(c.parts, |c.parts|), c.endFill, walked.value);
    }
  }

  /** The part that stands here. */
  lemma PartIsRead(limits: Limits, bytes: seq<byte>, at: nat, w: Walk) returns (p: Part, next: nat, v: Walk)
    requires at < |bytes| && bytes[at] == FF && FillEnd(bytes, at) < |bytes| && bytes[FillEnd(bytes, at)] != EOI
    requires ScanFrom(limits, bytes, at, w).Reached?
    ensures IsWellFormed(p) && at < next <= |bytes| && bytes[at..next] == Print(p)
    ensures AdvancePart(limits, w, p, at) == Got(v)
    ensures ScanFrom(limits, bytes, at, w) == ScanFrom(limits, bytes, next, v)
  {
    hide ScanFrom, ScanInside, FillEnd, Advance, SegmentAt, EntropyEnd, MarkerStandsAt, Print, Restarts, WithEntropy;
    var j := FillEnd(bytes, at);
    var code := bytes[j];
    ScanStep(limits, bytes, at, w);
    FoundIsMarker(bytes, at);
    var payload := SegmentAt(bytes, j).value;
    next := j + 1 + (if code == TEM then 0 else 2 + |payload|);
    p := Part(j - 1 - at, code, payload, []);
    v := Advance(limits, w, code, payload, j - 1).value;
    if code == SOS {
      var e := EntropyEnd(bytes, next);
      EntropyIsRead(limits, bytes, next, v);
      p, v := p.(entropy := bytes[next..e]),
        WithEntropy(v, Range(next, e - next), Restarts(bytes[next..e], 0, e - next, next));
      next := e;
    }
    SegmentIsRead(bytes, at, p, next);
  }

  lemma EntropyIsRead(limits: Limits, bytes: seq<byte>, data: nat, w: Walk)
    requires data <= |bytes| && ScanInside(limits, bytes, data, data, w).Reached?
    ensures var e := EntropyEnd(bytes, data); var entropy := bytes[data..e];
            && e < |bytes| && IsEntropy(entropy)
            && ScanInside(limits, bytes, data, data, w)
               == ScanFrom(limits, bytes, e,
                           WithEntropy(w, Range(data, e - data), Restarts(entropy, 0, e - data, data)))
  {
    hide ScanFrom, FillEnd, IsEntropyRange, EntropyEnd, Restarts;
    var e := EntropyEnd(bytes, data);
    assert e < |bytes|;
    EntropyEndsInRange(bytes, data);
    assert bytes[data..e][0..e - data] == bytes[data..e];
    EntropyIsLocal(bytes, data, e, bytes[data..e], 0, 0);
  }

  lemma SegmentIsRead(bytes: seq<byte>, at: nat, p: Part, next: nat)
    requires at <= next <= |bytes| && next == at + |Print(p)|
    requires MarkerStandsAt(bytes, at, p.fill, p.code)
    requires SegmentAt(bytes, at + p.fill + 1) == Some(p.payload)
    requires bytes[at + p.fill + MarkerLength(p)..next] == p.entropy
    ensures bytes[at..next] == Print(p)
    ensures |p.payload| + 2 < U16_LIMIT
  {
    hide ToBytes, SegmentAt;
    var j, e := at + p.fill + 1, at + p.fill + MarkerLength(p);
    assert bytes[at..j + 1][p.fill + 1] == p.code;
    if p.code != TEM {
      FoundIsSegment(bytes, j);
      WindowSplits(bytes, j + 1, j + 3, e);
    }
    assert bytes[at..j + 1] + bytes[j + 1..e] == Fill(p.fill) + PrintMarker(p);
    WindowSplits(bytes, at, j + 1, e);
    WindowSplits(bytes, at, e, next);
  }

  ghost predicate IsCodestream(bytes: seq<byte>, c: Codestream) {
    AreWellFormed(c.parts) && Encoded(c) == bytes
  }

  lemma {:induction false} WalkIsRead(limits: Limits, bytes: seq<byte>, parts: seq<Part>, w: Walk)
    returns (c: Codestream)
    requires AreWellFormed(parts) && WalkAll(limits, parts) == Got(w)
    requires OffsetOf(parts, |parts|) <= |bytes|
    requires bytes[..OffsetOf(parts, |parts|)] == [FF, SOI] + PrintAll(parts)
    requires ScanFrom(limits, bytes, OffsetOf(parts, |parts|), w).Reached?
    ensures IsCodestream(bytes, c)
    ensures ScanFrom(limits, bytes, OffsetOf(parts, |parts|), w) == OutcomeOf(limits, c)
    decreases |bytes| - OffsetOf(parts, |parts|)
  {
    hide ScanFrom, FillEnd, Print, AdvancePart, MarkerStandsAt;
    var at := OffsetOf(parts, |parts|);
    assert parts[..|parts|] == parts;
    ReachedNeedsMarker(limits, bytes, at, w);
    var j := FillEnd(bytes, at);
    if bytes[j] == EOI {
      c := EndIsRead(limits, bytes, parts, at, w);
    } else {
      var p, next, v := PartIsRead(limits, bytes, at, w);
      assert (parts + [p])[..|parts|] == parts && (parts + [p])[..|parts| + 1] == parts + [p];
      assert bytes[..next] == bytes[..at] + bytes[at..next];
      assert bytes[..next] == [FF, SOI] + (PrintAll(parts) + Print(p));
      c := WalkIsRead(limits, bytes, parts + [p], v);
    }
  }

  lemma ReachedNeedsMarker(limits: Limits, bytes: seq<byte>, at: nat, w: Walk)
    requires ScanFrom(limits, bytes, at, w).Reached?
    ensures at < |bytes| && bytes[at] == FF && FillEnd(bytes, at) < |bytes|
  {
  }

  lemma EndIsRead(limits: Limits, bytes: seq<byte>, parts: seq<Part>, at: nat, w: Walk) returns (c: Codestream)
    requires AreWellFormed(parts) && WalkAll(limits, parts) == Got(w)
    requires at == OffsetOf(parts, |parts|) < |bytes| && bytes[..at] == [FF, SOI] + PrintAll(parts)
    requires bytes[at] == FF && FillEnd(bytes, at) < |bytes| && bytes[FillEnd(bytes, at)] == EOI
    ensures IsCodestream(bytes, c)
    ensures ScanFrom(limits, bytes, at, w) == OutcomeOf(limits, c)
  {
    hide ScanFrom, FillEnd, WalkAll, PrintAll;
    var j := FillEnd(bytes, at);
    FoundIsMarker(bytes, at);
    c := Codestream(parts, j - 1 - at, bytes[j + 1..]);
    assert bytes == bytes[..at] + bytes[at..j + 1] + bytes[j + 1..];
    assert bytes == Encoded(c) by {
      assert [FF, SOI] + PrintAll(parts) + Ending(c) == [FF, SOI] + PrintAll(parts) + bytes[at..j + 1] + bytes[j + 1..];
    }
    EndIsScanned(limits, bytes, at, c.endFill, w);
  }

  /** Soundness: when the walk reaches an end of image, the source is a printed codestream, and the walk
      is the fold over its parts. */
  lemma ScanIsRead(limits: Limits, bytes: seq<byte>) returns (c: Codestream)
    requires |bytes| >= 2 && bytes[0] == FF && bytes[1] == SOI && ScanFrom(limits, bytes, 2, BEGINNING).Reached?
    ensures IsCodestream(bytes, c)
    ensures ScanFrom(limits, bytes, 2, BEGINNING) == OutcomeOf(limits, c)
  {
    var none: seq<Part> := [];
    assert none[..0] == [] && PrintAll(none) == [];
    assert bytes[..2] == [FF, SOI] + PrintAll(none);
    c := WalkIsRead(limits, bytes, none, BEGINNING);
  }
}
