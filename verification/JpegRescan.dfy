/** The spliced bytes rescan: what the scanner finds in them is the codec's frame, scans and data with
    exactly the supplied segments. */
module JpegRescan {
  import opened Options
  import opened Bytes
  import opened JpegSyntax
  import opened XmpOrder
  import opened Jumbf
  import opened JpegScanner
  import opened JpegGrammar
  import opened JpegTiling
  import opened JpegSplice

  /** Restart markers of entropy-coded data, as markers without payload. */
  function RestartMarkers(entropy: seq<byte>): seq<Marker>
    requires IsEntropy(entropy)
  {
    var restarts := Restarts(entropy, 0, |entropy|, 0);
    seq(|restarts|, i requires 0 <= i < |restarts| => Marker(restarts[i].1, []))
  }

  function SeenIn(p: Part): seq<Marker>
    requires IsWellFormed(p)
  {
    [Marker(p.code, p.payload)] + (if p.code == SOS then RestartMarkers(p.entropy) else [])
  }

  /** The markers of the parts with their payloads, without their places. */
  function Seen(parts: seq<Part>): seq<Marker>
    requires AreWellFormed(parts)
  {
    if parts == [] then [] else Seen(parts[..|parts| - 1]) + SeenIn(parts[|parts| - 1])
  }

  /** The entropy-coded data of the scans, in order. */
  function Data(parts: seq<Part>): seq<seq<byte>> {
    if parts == [] then []
    else Data(parts[..|parts| - 1])
         + (if parts[|parts| - 1].code == SOS then [parts[|parts| - 1].entropy] else [])
  }

  function BytesOf(bytes: seq<byte>, ranges: seq<Range>): seq<seq<byte>> {
    seq(|ranges|, i requires 0 <= i < |ranges| => PayloadOf(bytes, ranges[i]))
  }

  /** The bytes of the metadata markers, joined. */
  function MetadataBytes(bytes: seq<byte>, markers: seq<MarkerReference>): seq<byte> {
    if markers == [] then []
    else MetadataBytes(bytes, markers[..|markers| - 1])
         + (if IsMetadata(markers[|markers| - 1].code) then PayloadOf(bytes, markers[|markers| - 1].encoded) else [])
  }

  function MetadataOf(parts: seq<Part>): seq<byte> {
    if parts == [] then []
    else MetadataOf(parts[..|parts| - 1])
         + (if IsMetadata(parts[|parts| - 1].code) then PrintMarker(parts[|parts| - 1]) else [])
  }

  lemma PayloadsJoin(bytes: seq<byte>, a: seq<MarkerReference>, b: seq<MarkerReference>)
    ensures Payloads(bytes, a + b) == Payloads(bytes, a) + Payloads(bytes, b)
  {
  }

  lemma {:induction false} MetadataBytesJoin(bytes: seq<byte>, a: seq<MarkerReference>, b: seq<MarkerReference>)
    requires forall i | 0 <= i < |b| :: !IsMetadata(b[i].code)
    ensures MetadataBytes(bytes, a + b) == MetadataBytes(bytes, a)
  {
    if b == [] {
      assert a + b == a;
    } else {
      assert (a + b)[..|a + b| - 1] == a + b[..|b| - 1];
      MetadataBytesJoin(bytes, a, b[..|b| - 1]);
    }
  }

  /** What the walk over some parts has noted, read back from the bytes. */
  ghost predicate ReadsBack(bytes: seq<byte>, w: Walk, parts: seq<Part>)
    requires AreWellFormed(parts)
  {
    && Payloads(bytes, w.markers) == [Marker(SOI, [])] + Seen(parts)
    && BytesOf(bytes, w.entropy) == Data(parts)
    && MetadataBytes(bytes, w.markers) == MetadataOf(parts)
  }

  lemma RestartsAreSeen(bytes: seq<byte>, entropy: seq<byte>, data: nat)
    requires IsEntropy(entropy)
    ensures Payloads(bytes, RestartsIn(entropy, data)) == RestartMarkers(entropy)
  {
    RestartsShift(entropy, 0, |entropy|, data);
    var restarts, seen := RestartsIn(entropy, data), RestartMarkers(entropy);
    forall i | 0 <= i < |restarts|
      ensures Payloads(bytes, restarts)[i] == seen[i]
    {
      assert PayloadOf(bytes, restarts[i].payload) == [];
    }
  }

  lemma PayloadIsSeen(bytes: seq<byte>, p: Part, at: nat, m: MarkerReference)
    requires IsWellFormed(p) && at + |Print(p)| <= |bytes| && bytes[at..at + |Print(p)|] == Print(p)
    requires m.code == p.code && m.payload == Range(at + p.fill + (if p.code == TEM then 2 else 4), |p.payload|)
    ensures Payloads(bytes, [m]) == [Marker(p.code, p.payload)]
  {
    hide ToBytes, PrintMarker, MarkerStandsAt, IsEntropy, IsSegmentCode;
    PrintedPart(bytes, at, p);
    assert PayloadOf(bytes, m.payload) == p.payload;
  }

  lemma MarkerIsSeen(bytes: seq<byte>, p: Part, at: nat)
    requires at + |Print(p)| <= |bytes| && bytes[at..at + |Print(p)|] == Print(p)
    ensures PayloadOf(bytes, Range(at + p.fill, MarkerLength(p))) == PrintMarker(p)
    ensures PayloadOf(bytes, Range(at + p.fill + MarkerLength(p), |p.entropy|)) == p.entropy
  {
    hide PrintMarker, MarkerLength, Fill;
    SplitInThree(bytes, at, Fill(p.fill), PrintMarker(p), p.entropy);
  }

  lemma PartsGrow(parts: seq<Part>, p: Part)
    requires AreWellFormed(parts) && IsWellFormed(p)
    ensures AreWellFormed(parts + [p])
    ensures Seen(parts + [p]) == Seen(parts) + SeenIn(p)
    ensures Data(parts + [p]) == Data(parts) + (if p.code == SOS then [p.entropy] else [])
    ensures MetadataOf(parts + [p]) == MetadataOf(parts) + (if IsMetadata(p.code) then PrintMarker(p) else [])
  {
    hide IsWellFormed, SeenIn, PrintMarker;
    assert (parts + [p])[..|parts|] == parts;
  }

  lemma PartReadsBack(limits: Limits, bytes: seq<byte>, w: Walk, parts: seq<Part>, p: Part, at: nat, v: Walk)
    requires AreWellFormed(parts) && IsWellFormed(p) && AreWellFormed(parts + [p]) && ReadsBack(bytes, w, parts)
    requires AdvancePart(limits, w, p, at) == Got(v)
    requires at + |Print(p)| <= |bytes| && bytes[at..at + |Print(p)|] == Print(p)
    ensures ReadsBack(bytes, v, parts + [p])
  {
    hide Print, PrintMarker, AdvancePart, Payloads, PayloadOf, RestartsIn, RestartMarkers, IsEntropy, SeenIn, Seen,
      Data, MetadataOf, MetadataBytes, BytesOf, AreWellFormed;
    PartsGrow(parts, p);
    var m, restarts := PartAddsMarkers(limits, w, p, at);
    PayloadIsSeen(bytes, p, at, m);
    MarkerIsSeen(bytes, p, at);
    var data := at + p.fill + MarkerLength(p);
    if p.code == SOS {
      RestartsAreSeen(bytes, p.entropy, data);
    }
    MarkersReadBack(bytes, w.markers, m, restarts, p);
    AdvanceAddsMarker(limits, w, p, at);
    EntropyReadsBack(bytes, w.entropy, v.entropy, p, data);
  }

  lemma EntropyReadsBack(bytes: seq<byte>, before: seq<Range>, after: seq<Range>, p: Part, data: nat)
    requires after == before + (if p.code == SOS then [Range(data, |p.entropy|)] else [])
    requires PayloadOf(bytes, Range(data, |p.entropy|)) == p.entropy
    ensures BytesOf(bytes, after) == BytesOf(bytes, before) + (if p.code == SOS then [p.entropy] else [])
  {
  }

  lemma MarkersReadBack(bytes: seq<byte>, before: seq<MarkerReference>, m: MarkerReference,
                        restarts: seq<MarkerReference>, p: Part)
    requires IsWellFormed(p) && m.code == p.code && Payloads(bytes, [m]) == [Marker(p.code, p.payload)]
    requires PayloadOf(bytes, m.encoded) == PrintMarker(p)
    requires forall i | 0 <= i < |restarts| :: IsRestart(restarts[i].code)
    requires p.code != SOS ==> restarts == []
    requires p.code == SOS ==> Payloads(bytes, restarts) == RestartMarkers(p.entropy)
    ensures Payloads(bytes, (before + [m]) + restarts) == Payloads(bytes, before) + SeenIn(p)
    ensures MetadataBytes(bytes, (before + [m]) + restarts)
         == MetadataBytes(bytes, before) + (if IsMetadata(p.code) then PrintMarker(p) else [])
  {
    hide PrintMarker, RestartMarkers;
    PayloadsJoin(bytes, before, [m]);
    PayloadsJoin(bytes, before + [m], restarts);
    MetadataBytesJoin(bytes, before + [m], restarts);
    assert (before + [m])[..|before|] == before;
    var rest := if p.code == SOS then RestartMarkers(p.entropy) else [];
    assert Payloads(bytes, restarts) == rest;
    hide Payloads;
    JoinIsAssociative(Payloads(bytes, before), [Marker(p.code, p.payload)], rest);
  }

  lemma BeginningReadsBack(c: Codestream)
    ensures ReadsBack(Encoded(c), BEGINNING, [])
  {
    var start := MarkerReference(SOI, Range(0, 2), Range(2, 0));
    assert [start][..0] == [];
    hide Ending, PrintAll, Encoded;
    NothingIsThere(Encoded(c), 2);
    assert Payloads(Encoded(c), [start]) == [Marker(SOI, [])] + Seen([]);
    assert BytesOf(Encoded(c), []) == Data([]);
    assert MetadataBytes(Encoded(c), [start]) == MetadataOf([]);
  }

  lemma NothingIsThere(bytes: seq<byte>, at: nat)
    ensures PayloadOf(bytes, Range(at, 0)) == []
  {
  }

  lemma {:induction false} PartsReadBack(limits: Limits, c: Codestream, n: nat)
    requires AreWellFormed(c.parts) && n <= |c.parts| && WalkAll(limits, c.parts).Got?
    ensures WalkAll(limits, c.parts[..n]).Got?
    ensures ReadsBack(Encoded(c), WalkAll(limits, c.parts[..n]).value, c.parts[..n])
  {
    hide ReadsBack, Encoded, Print, AdvancePart, IsWellFormed, PrintAll;
    PrefixIsWalked(limits, c.parts, n);
    if n == 0 {
      assert c.parts[..0] == [];
      BeginningReadsBack(c);
    } else {
      PartsReadBack(limits, c, n - 1);
      hide WalkAll;
      var front, p := c.parts[..n - 1], c.parts[n - 1];
      assert c.parts[..n] == front + [p] && IsWellFormed(p);
      PartStands(c, n - 1);
      PartReadsBack(limits, Encoded(c), WalkAll(limits, front).value, front, p, OffsetOf(c.parts, n - 1),
                    WalkAll(limits, c.parts[..n]).value);
    }
  }

  /** The same header fields, at any place. */
  predicate IsSameFrame(a: Option<Frame>, b: Option<Frame>) {
    if a.None? then b.None?
    else b.Some? && b.value == a.value.(encoded := b.value.encoded)
  }

  predicate IsSimilar(a: Walk, b: Walk) {
    IsSameFrame(a.frame, b.frame) && a.scanCount == b.scanCount
  }

  predicate HasSameMetadata(a: Walk, b: Walk) {
    a.metadataLength == b.metadataLength && a.icc == b.icc && a.extended == b.extended
  }

  lemma HeaderIgnoresPlace(limits: Limits, a: Walk, b: Walk, code: byte, payload: seq<byte>, i: nat, k: nat)
    requires IsSimilar(a, b) && NoteHeader(limits, a, code, payload, i).Got?
    ensures NoteHeader(limits, b, code, payload, k).Got?
    ensures IsSimilar(NoteHeader(limits, a, code, payload, i).value, NoteHeader(limits, b, code, payload, k).value)
    ensures HasSameMetadata(NoteHeader(limits, b, code, payload, k).value, b)
  {
    hide ComponentsAreValid, ComponentAt, NumberAt, IsValidScanHeader;
  }

  /** A marker that is no metadata has the same effect on similar walks, wherever it stands. */
  lemma OtherPartIgnoresPlace(limits: Limits, a: Walk, b: Walk, p: Part, fill: nat, i: nat, k: nat)
    requires IsWellFormed(p) && !IsMetadata(p.code) && IsSimilar(a, b) && AdvancePart(limits, a, p, i).Got?
    ensures AdvancePart(limits, b, p.(fill := fill), k).Got?
    ensures IsSimilar(AdvancePart(limits, a, p, i).value, AdvancePart(limits, b, p.(fill := fill), k).value)
    ensures HasSameMetadata(AdvancePart(limits, b, p.(fill := fill), k).value, b)
  {
    hide NoteHeader, Restarts, RestartReferences, IsEntropyRange, Matches, Guid, NumberAt;
    if p.code != TEM {
      var noted, noted' := NoteMetadata(limits, a, p.code, p.payload, i + p.fill),
                           NoteMetadata(limits, b, p.code, p.payload, k + fill);
      assert noted.Got? && noted'.Got? && HasSameMetadata(noted'.value, b);
      HeaderIgnoresPlace(limits, noted.value, noted'.value, p.code, p.payload, i + p.fill, k + fill);
    }
  }

  lemma MetadataKeepsHeaders(limits: Limits, a: Walk, p: Part, i: nat)
    requires IsWellFormed(p) && IsMetadata(p.code) && AdvancePart(limits, a, p, i).Got?
    ensures IsSimilar(AdvancePart(limits, a, p, i).value, a)
  {
    hide ParseFrameHeader, Matches, Guid, NumberAt;
  }

  predicate AreMetadata(parts: seq<Part>) {
    AreWellFormed(parts) && forall i | 0 <= i < |parts| :: IsMetadata(parts[i].code) && parts[i].fill == 0
  }

  lemma {:induction false} SegmentsKeepHeaders(limits: Limits, segments: seq<Part>)
    requires AreMetadata(segments) && WalkAll(limits, segments).Got?
    ensures IsSimilar(WalkAll(limits, segments).value, BEGINNING)
  {
    hide AdvancePart;
    if segments != [] {
      SegmentsKeepHeaders(limits, segments[..|segments| - 1]);
      MetadataKeepsHeaders(limits, WalkAll(limits, segments[..|segments| - 1]).value, segments[|segments| - 1],
                           OffsetOf(segments, |segments| - 1));
    }
  }

  lemma {:induction false} CutIsWellFormed(parts: seq<Part>)
    requires AreWellFormed(parts)
    ensures AreWellFormed(Cut(parts).parts)
    ensures forall i | 0 <= i < |Cut(parts).parts| :: !IsMetadata(Cut(parts).parts[i].code)
  {
    if parts != [] {
      CutIsWellFormed(parts[..|parts| - 1]);
    }
  }

  lemma OneMorePartIsWalked(limits: Limits, a: Walk, p: Part, i: nat, before: seq<Part>, fill: nat)
    requires AreWellFormed(before) && WalkAll(limits, before).Got? && IsSimilar(a, WalkAll(limits, before).value)
    requires IsWellFormed(p) && !IsMetadata(p.code) && AdvancePart(limits, a, p, i).Got?
    ensures AreWellFormed(before + [p.(fill := fill)])
    ensures var b, all := WalkAll(limits, before).value, before + [p.(fill := fill)];
            && WalkAll(limits, all).Got?
            && IsSimilar(AdvancePart(limits, a, p, i).value, WalkAll(limits, all).value)
            && HasSameMetadata(WalkAll(limits, all).value, b)
  {
    hide AdvancePart, IsSimilar, HasSameMetadata, IsMetadata;
    var all := before + [p.(fill := fill)];
    assert all[..|before|] == before;
    OtherPartIgnoresPlace(limits, a, WalkAll(limits, before).value, p, fill, i, OffsetOf(all, |before|));
  }

  lemma StepIsWalked(limits: Limits, parts: seq<Part>)
    requires AreWellFormed(parts) && parts != [] && WalkAll(limits, parts).Got?
    ensures WalkAll(limits, parts[..|parts| - 1]).Got?
    ensures AdvancePart(limits, WalkAll(limits, parts[..|parts| - 1]).value, parts[|parts| - 1],
                        OffsetOf(parts, |parts| - 1))
         == WalkAll(limits, parts)
  {
  }

  /** The walk over the segments and the parts that stay goes through, with the frame and scans of the
      codec and the metadata of the segments. */
  lemma {:induction false} SplicedPartsAreWalked(limits: Limits, parts: seq<Part>, segments: seq<Part>)
    requires AreWellFormed(parts) && WalkAll(limits, parts).Got?
    requires AreMetadata(segments) && WalkAll(limits, segments).Got?
    ensures AreWellFormed(segments + Cut(parts).parts)
    ensures WalkAll(limits, segments + Cut(parts).parts).Got?
    ensures IsSimilar(WalkAll(limits, parts).value, WalkAll(limits, segments + Cut(parts).parts).value)
    ensures HasSameMetadata(WalkAll(limits, segments + Cut(parts).parts).value, WalkAll(limits, segments).value)
  {
    hide AdvancePart, IsWellFormed, PrintAll, WalkAll, IsMetadata;
    if parts == [] {
      BeginningIsWalked(limits);
      SegmentsKeepHeaders(limits, segments);
      assert segments + [] == segments;
    } else {
      var front, p, at := parts[..|parts| - 1], parts[|parts| - 1], OffsetOf(parts, |parts| - 1);
      var kept := Cut(front).parts;
      StepIsWalked(limits, parts);
      SplicedPartsAreWalked(limits, front, segments);
      var w := WalkAll(limits, front).value;
      assert IsWellFormed(p);
      if IsMetadata(p.code) {
        MetadataKeepsHeaders(limits, w, p, at);
        assert Cut(parts).parts == kept;
      } else {
        OneMorePartIsWalked(limits, w, p, at, segments + kept, Cut(front).fill + p.fill);
        assert segments + Cut(parts).parts == (segments + kept) + [p.(fill := Cut(front).fill + p.fill)];
      }
    }
  }

  lemma BeginningIsWalked(limits: Limits)
    ensures WalkAll(limits, []) == Got(BEGINNING)
  {
  }

  /** The markers that are no metadata. */
  function Others(markers: seq<Marker>): seq<Marker> {
    if markers == [] then []
    else Others(markers[..|markers| - 1])
         + (if IsMetadata(markers[|markers| - 1].code) then [] else [markers[|markers| - 1]])
  }

  /** The metadata markers. */
  function OnlyMetadata(markers: seq<Marker>): seq<Marker> {
    if markers == [] then []
    else OnlyMetadata(markers[..|markers| - 1])
         + (if IsMetadata(markers[|markers| - 1].code) then [markers[|markers| - 1]] else [])
  }

  lemma {:induction false} OnlyMetadataInParts(a: seq<Marker>, b: seq<Marker>)
    ensures OnlyMetadata(a + b) == OnlyMetadata(a) + OnlyMetadata(b)
  {
    if b == [] {
      assert a + b == a;
    } else {
      assert (a + b)[..|a + b| - 1] == a + b[..|b| - 1];
      OnlyMetadataInParts(a, b[..|b| - 1]);
      JoinIsAssociative(OnlyMetadata(a), OnlyMetadata(b[..|b| - 1]),
                        if IsMetadata(b[|b| - 1].code) then [b[|b| - 1]] else []);
    }
  }

  lemma {:induction false} NoMetadata(markers: seq<Marker>)
    requires forall i | 0 <= i < |markers| :: !IsMetadata(markers[i].code)
    ensures OnlyMetadata(markers) == []
  {
    if markers != [] {
      NoMetadata(markers[..|markers| - 1]);
    }
  }

  lemma {:induction false} AllMetadata(segments: seq<Part>)
    requires AreMetadata(segments)
    ensures OnlyMetadata(Seen(segments)) == Seen(segments)
    ensures |Seen(segments)| == |segments|
    ensures forall i | 0 <= i < |segments| :: Seen(segments)[i] == Marker(segments[i].code, segments[i].payload)
  {
    hide IsWellFormed, IsMetadata, SeenIn, PrintMarker, OnlyMetadata;
    if segments != [] {
      var front, p := segments[..|segments| - 1], segments[|segments| - 1];
      assert segments == front + [p] && IsWellFormed(p);
      AllMetadata(front);
      PartsGrow(front, p);
      MetadataIsSeenAlone(p);
      hide Seen;
      OnlyMetadataInParts(Seen(front), SeenIn(p));
    } else {
      NoMetadata([]);
    }
  }

  lemma MetadataIsSeenAlone(p: Part)
    requires IsWellFormed(p) && IsMetadata(p.code)
    ensures SeenIn(p) == [Marker(p.code, p.payload)] && OnlyMetadata(SeenIn(p)) == SeenIn(p)
  {
    MetadataHasNoData(p);
    assert [Marker(p.code, p.payload)][..0] == [];
  }

  lemma {:induction false} OthersInParts(a: seq<Marker>, b: seq<Marker>)
    ensures Others(a + b) == Others(a) + Others(b)
  {
    if b == [] {
      assert a + b == a;
    } else {
      assert (a + b)[..|a + b| - 1] == a + b[..|b| - 1];
      OthersInParts(a, b[..|b| - 1]);
      JoinIsAssociative(Others(a), Others(b[..|b| - 1]),
                        if IsMetadata(b[|b| - 1].code) then [] else [b[|b| - 1]]);
    }
  }

  lemma {:induction false} AllOthers(markers: seq<Marker>)
    requires forall i | 0 <= i < |markers| :: !IsMetadata(markers[i].code)
    ensures Others(markers) == markers
  {
    if markers != [] {
      AllOthers(markers[..|markers| - 1]);
    }
  }

  lemma {:induction false} NoOthers(markers: seq<Marker>)
    requires forall i | 0 <= i < |markers| :: IsMetadata(markers[i].code)
    ensures Others(markers) == []
  {
    if markers != [] {
      NoOthers(markers[..|markers| - 1]);
    }
  }

  lemma {:induction false} SeenInParts(a: seq<Part>, b: seq<Part>)
    requires AreWellFormed(a) && AreWellFormed(b)
    ensures AreWellFormed(a + b) && Seen(a + b) == Seen(a) + Seen(b)
    ensures Data(a + b) == Data(a) + Data(b)
    ensures MetadataOf(a + b) == MetadataOf(a) + MetadataOf(b)
  {
    hide IsWellFormed, PrintMarker, SeenIn;
    if b == [] {
      assert a + b == a;
    } else {
      var front, p := b[..|b| - 1], b[|b| - 1];
      assert (a + b)[..|a + b| - 1] == a + front && (a + b)[|a + b| - 1] == p;
      SeenInParts(a, front);
      assert IsWellFormed(p);
      JoinIsAssociative(Seen(a), Seen(front), SeenIn(p));
      JoinIsAssociative(Data(a), Data(front), if p.code == SOS then [p.entropy] else []);
      JoinIsAssociative(MetadataOf(a), MetadataOf(front), if IsMetadata(p.code) then PrintMarker(p) else []);
    }
  }

  lemma RestartMarkersAreOthers(entropy: seq<byte>)
    requires IsEntropy(entropy)
    ensures forall i | 0 <= i < |RestartMarkers(entropy)| :: !IsMetadata(RestartMarkers(entropy)[i].code)
  {
    RestartsAreRestarts(entropy, 0, |entropy|, 0);
  }

  lemma OneSeen(p: Part)
    requires IsWellFormed(p)
    ensures Others(SeenIn(p)) == if IsMetadata(p.code) then [] else SeenIn(p)
    ensures !IsMetadata(p.code) ==> forall i | 0 <= i < |SeenIn(p)| :: !IsMetadata(SeenIn(p)[i].code)
  {
    if IsMetadata(p.code) {
      NoOthers(SeenIn(p));
    } else {
      if p.code == SOS {
        RestartMarkersAreOthers(p.entropy);
      }
      AllOthers(SeenIn(p));
    }
  }

  /** What is seen of the parts that stay is what is seen of all parts but the metadata. */
  lemma {:induction false} CutKeepsOthers(parts: seq<Part>)
    requires AreWellFormed(parts)
    ensures AreWellFormed(Cut(parts).parts)
    ensures Seen(Cut(parts).parts) == Others(Seen(parts))
    ensures Data(Cut(parts).parts) == Data(parts)
    ensures MetadataOf(Cut(parts).parts) == []
    ensures forall i | 0 <= i < |Seen(Cut(parts).parts)| :: !IsMetadata(Seen(Cut(parts).parts)[i].code)
  {
    hide PrintMarker, SeenIn, IsMetadata;
    CutIsWellFormed(parts);
    if parts != [] {
      var front, p := parts[..|parts| - 1], parts[|parts| - 1];
      assert IsWellFormed(p);
      CutKeepsOthers(front);
      OthersInParts(Seen(front), SeenIn(p));
      OneSeen(p);
      var kept, q := Cut(front).parts, p.(fill := Cut(front).fill + p.fill);
      if !IsMetadata(p.code) {
        assert (kept + [q])[..|kept|] == kept;
        FillIsNotSeen(p, q.fill);
      } else {
        MetadataHasNoData(p);
      }
    }
  }

  lemma FillIsNotSeen(p: Part, fill: nat)
    requires IsWellFormed(p)
    ensures IsWellFormed(p.(fill := fill)) && SeenIn(p.(fill := fill)) == SeenIn(p)
  {
  }

  lemma MetadataHasNoData(p: Part)
    requires IsWellFormed(p) && IsMetadata(p.code)
    ensures p.code != SOS
  {
  }

  lemma SegmentPrintsItsMarker(p: Part)
    requires IsWellFormed(p) && IsMetadata(p.code) && p.fill == 0
    ensures Print(p) == PrintMarker(p) && p.code != SOS
  {
  }

  /** Segments without fill print their markers and nothing else. */
  lemma {:induction false} SegmentsPrintMetadata(segments: seq<Part>)
    requires AreMetadata(segments)
    ensures PrintAll(segments) == MetadataOf(segments)
    ensures |PrintAll(segments)| == MetadataTotal(segments)
    ensures Data(segments) == [] && Others(Seen(segments)) == []
  {
    hide PrintMarker, Print, IsMetadata, IsWellFormed, SeenIn;
    if segments != [] {
      var front, p := segments[..|segments| - 1], segments[|segments| - 1];
      SegmentsPrintMetadata(front);
      assert IsWellFormed(p);
      SegmentPrintsItsMarker(p);
      OneSeen(p);
      OthersInParts(Seen(front), SeenIn(p));
    }
  }

  lemma {:induction false} OpaqueMarkersAreSkipped(s: Progress, markers: seq<Marker>)
    requires s.Scanning? && s.active.None? && forall i | 0 <= i < |markers| :: !IsMetadata(markers[i].code)
    ensures ConsumeAll(s, markers) == s
  {
    if markers != [] {
      OpaqueMarkersAreSkipped(s, markers[..|markers| - 1]);
    }
  }

  /** Segments that the scanner accepts by themselves. */
  ghost predicate AreValidSegments(limits: Limits, segments: seq<Part>) {
    && AreMetadata(segments)
    && WalkAll(limits, segments).Got?
    && IccPasses(WalkAll(limits, segments).value.icc)
    && XmpMustPass(WalkAll(limits, segments).value.extended)
    && Concluded(ConsumeAll(START, Seen(segments))).Absent?
  }

  /** The rescan finds exactly the supplied segments, and otherwise what the codec wrote. */
  ghost predicate RoundTrips(codec: seq<byte>, before: Inventory, segments: seq<Part>, spliced: seq<byte>,
                             after: Inventory)
    requires AreWellFormed(segments)
  {
    && |spliced| == |codec| - MetadataLength(before.markers) + |PrintAll(segments)|
    && IsSameFrame(Some(before.frame), Some(after.frame))
    && after.scanCount == before.scanCount
    && after.metadataLength == |PrintAll(segments)|
    && MetadataBytes(spliced, after.markers) == PrintAll(segments)
    && OnlyMetadata(Payloads(spliced, after.markers)) == Seen(segments)
    && Others(Payloads(spliced, after.markers)) == Others(Payloads(codec, before.markers))
    && BytesOf(spliced, after.entropy) == BytesOf(codec, before.entropy)
  }

  lemma {:induction false} KeptLength(bytes: seq<byte>, markers: seq<MarkerReference>)
    requires AreInOrder(bytes, markers)
    ensures 2 <= CursorAfter(markers) <= |bytes|
    ensures |Kept(bytes, markers)| + MetadataLength(markers) == CursorAfter(markers) - 2
  {
    CursorInBounds(bytes, markers);
    if markers != [] {
      KeptLength(bytes, markers[..|markers| - 1]);
    }
  }

  /** What the end of a scan of a printed codestream says about its parts. */
  lemma InventoryReadsBack(limits: Limits, c: Codestream, r: ScanResult)
    requires AreWellFormed(c.parts) && IsScanOf(limits, Encoded(c), r) && r.Scanned?
    ensures WalkAll(limits, c.parts).Got?
    ensures var w, v := WalkAll(limits, c.parts).value, r.inventory;
            && v.markers == AllMarkers(w, v.endOffset) && w.frame == Some(v.frame)
            && w.scanCount == v.scanCount > 0 && w.metadataLength == v.metadataLength
            && Payloads(Encoded(c), v.markers) == [Marker(SOI, [])] + Seen(c.parts) + [Marker(EOI, [])]
            && BytesOf(Encoded(c), v.entropy) == Data(c.parts)
            && MetadataBytes(Encoded(c), v.markers) == MetadataOf(c.parts)
  {
    InventoryIsOfWalk(limits, Encoded(c), r);
    CodestreamIsScanned(limits, c);
    hide IsScanOf, ScanFrom, Encoded, WalkAll, PrintAll;
    PartsReadBack(limits, c, |c.parts|);
    assert c.parts[..|c.parts|] == c.parts;
    EndReadsBack(Encoded(c), WalkAll(limits, c.parts).value, r.inventory.endOffset);
  }

  lemma EndReadsBack(bytes: seq<byte>, w: Walk, endOffset: nat)
    ensures Payloads(bytes, AllMarkers(w, endOffset)) == Payloads(bytes, w.markers) + [Marker(EOI, [])]
    ensures MetadataBytes(bytes, AllMarkers(w, endOffset)) == MetadataBytes(bytes, w.markers)
  {
    var end := MarkerReference(EOI, Range(endOffset, 2), Range(endOffset + 2, 0));
    PayloadsJoin(bytes, w.markers, [end]);
    NothingIsThere(bytes, endOffset + 2);
    MetadataBytesJoin(bytes, w.markers, [end]);
  }

  lemma JumbfStaysAbsent(segments: seq<Marker>, others: seq<Marker>)
    requires Concluded(ConsumeAll(START, segments)).Absent?
    requires forall i | 0 <= i < |others| :: !IsMetadata(others[i].code)
    ensures Concluded(ConsumeAll(START, [Marker(SOI, [])] + (segments + others) + [Marker(EOI, [])])).Absent?
  {
    hide Consume;
    var start, end := [Marker(SOI, [])], [Marker(EOI, [])];
    var s := ConsumeAll(START, segments);
    OpaqueMarkersAreSkipped(START, start);
    OpaqueMarkersAreSkipped(s, others);
    OpaqueMarkersAreSkipped(s, end);
    ConsumeInParts(START, segments, others);
    ConsumeInParts(START, start, segments + others);
    ConsumeInParts(START, start + (segments + others), end);
  }

  lemma VerdictIsSuccess(bytes: seq<byte>, w: Walk, endOffset: nat, r: ScanResult)
    requires IsVerdict(bytes, w, endOffset, r) && w.frame.Some? && w.scanCount > 0
    requires IccPasses(w.icc) && XmpMustPass(w.extended)
    requires Concluded(ConsumeAll(START, Payloads(bytes, AllMarkers(w, endOffset)))).Absent?
    ensures r.Scanned?
  {
    hide IccPasses, XmpMayPass, EmptyChunksLieOutside, ConsumeAll, Concluded, Payloads;
  }

  lemma SplicedScanSucceeds(limits: Limits, c: Codestream, segments: seq<Part>, rescanned: ScanResult)
    requires AreWellFormed(c.parts) && WalkAll(limits, c.parts).Got?
    requires WalkAll(limits, c.parts).value.frame.Some? && WalkAll(limits, c.parts).value.scanCount > 0
    requires AreValidSegments(limits, segments)
    requires AreWellFormed(Spliced(c, segments).parts) && |Encoded(Spliced(c, segments))| <= limits.fileLength
    requires IsScanOf(limits, Encoded(Spliced(c, segments)), rescanned)
    ensures rescanned.Scanned?
  {
    var c2 := Spliced(c, segments);
    var kept := Cut(c.parts).parts;
    hide WalkAll, Cut, Encoded, IsVerdict, PrintAll, IccPasses, XmpMustPass, ConsumeAll, Concluded, IsWellFormed;
    SplicedPartsAreWalked(limits, c.parts, segments);
    CodestreamIsScanned(limits, c2);
    EncodedStarts(c2);
    var w2, endOffset := WalkAll(limits, c2.parts).value, OffsetOf(c2.parts, |c2.parts|) + c2.endFill;
    PartsReadBack(limits, c2, |c2.parts|);
    assert c2.parts[..|c2.parts|] == c2.parts;
    EndReadsBack(Encoded(c2), w2, endOffset);
    CutKeepsOthers(c.parts);
    SeenInParts(segments, kept);
    hide Seen, Data, MetadataOf, Payloads;
    JumbfStaysAbsent(Seen(segments), Seen(kept));
    VerdictIsSuccess(Encoded(c2), w2, endOffset, rescanned);
  }

  lemma EncodedStarts(c: Codestream)
    ensures |Encoded(c)| >= 2 && Encoded(c)[0] == FF && Encoded(c)[1] == SOI
  {
  }

  /** What all printed parts show, when these segments and the parts that stay are printed. */
  lemma SplicedPartsShow(c: Codestream, segments: seq<Part>)
    requires AreWellFormed(c.parts) && AreMetadata(segments)
    ensures AreWellFormed(Spliced(c, segments).parts)
    ensures var all := Spliced(c, segments).parts;
            && Data(all) == Data(c.parts)
            && MetadataOf(all) == PrintAll(segments)
            && OnlyMetadata([Marker(SOI, [])] + Seen(all) + [Marker(EOI, [])]) == Seen(segments)
            && Others([Marker(SOI, [])] + Seen(all) + [Marker(EOI, [])])
               == Others([Marker(SOI, [])] + Seen(c.parts) + [Marker(EOI, [])])
  {
    hide Cut, IsWellFormed, PrintAll, Seen, Others, Data, MetadataOf, IsMetadata;
    var kept := Cut(c.parts).parts;
    CutKeepsOthers(c.parts);
    SeenInParts(segments, kept);
    SegmentsPrintMetadata(segments);
    OthersInParts(Seen(segments), Seen(kept));
    AllOthers(Seen(kept));
    assert Others(Seen(segments + kept)) == Others(Seen(c.parts));
    OthersBetween([Marker(SOI, [])], Seen(segments + kept), [Marker(EOI, [])]);
    OthersBetween([Marker(SOI, [])], Seen(c.parts), [Marker(EOI, [])]);
    MetadataBetween(Seen(segments), Seen(kept));
    AllMetadata(segments);
  }

  lemma MetadataBetween(segments: seq<Marker>, kept: seq<Marker>)
    requires forall i | 0 <= i < |kept| :: !IsMetadata(kept[i].code)
    ensures OnlyMetadata([Marker(SOI, [])] + (segments + kept) + [Marker(EOI, [])]) == OnlyMetadata(segments)
  {
    var start, end := [Marker(SOI, [])], [Marker(EOI, [])];
    NoMetadata(start);
    NoMetadata(kept);
    NoMetadata(end);
    OnlyMetadataInParts(segments, kept);
    OnlyMetadataInParts(start, segments + kept);
    OnlyMetadataInParts(start + (segments + kept), end);
  }

  lemma OthersBetween(start: seq<Marker>, middle: seq<Marker>, end: seq<Marker>)
    ensures Others(start + middle + end) == Others(start) + Others(middle) + Others(end)
  {
    OthersInParts(start, middle);
    OthersInParts(start + middle, end);
  }

  /** Splice round trip: for a codec output that scans and segments that are valid by themselves, the
      spliced bytes scan, their APPn and COM markers are exactly the segments, and their frame, scan count,
      other markers and entropy-coded data are the codec's. */
  lemma SpliceRoundTrips(limits: Limits, codec: seq<byte>, scanned: ScanResult, segments: seq<Part>,
                         spliced: seq<byte>, rescanned: ScanResult)
    requires IsScanOf(limits, codec, scanned) && scanned.Scanned?
    requires AreValidSegments(limits, segments)
    requires IsSplice(codec, scanned.inventory.markers, PrintAll(segments), spliced)
    requires |spliced| <= limits.fileLength && IsScanOf(limits, spliced, rescanned)
    ensures rescanned.Scanned?
    ensures RoundTrips(codec, scanned.inventory, segments, spliced, rescanned.inventory)
  {
    InventoryIsOfWalk(limits, codec, scanned);
    hide IsScanOf, WalkAll, Cut, Encoded, PrintAll, Kept, AreInOrder, CursorAfter, MetadataLength, IsWellFormed,
      ScanFrom, IccPasses, XmpMustPass, ConsumeAll, Concluded;
    var c := ScanIsRead(limits, codec);
    InventoryReadsBack(limits, c, scanned);
    var w := WalkAll(limits, c.parts).value;
    SpliceIsPrinted(limits, c, w, scanned.inventory.endOffset, segments);
    var c2 := Spliced(c, segments);
    assert spliced == Encoded(c2);
    SplicedPartsShow(c, segments);
    SplicedScanSucceeds(limits, c, segments, rescanned);
    InventoryReadsBack(limits, c2, rescanned);
    SplicedPartsAreWalked(limits, c.parts, segments);
    WalkAgrees(limits, segments);
    SegmentsPrintMetadata(segments);
    KeptLength(codec, scanned.inventory.markers);
  }

  datatype Completion = CodecOutputInvalid(error: ScanError) | OutputTooLarge | Completed(bytes: seq<byte>)

  /** The codec's output and the splice of these segments into it, by some scan of the codec's output; when
      the segments are valid by themselves, every scan of the splice succeeds and finds them. */
  ghost predicate IsCompletion(limits: Limits, codec: seq<byte>, parts: seq<Part>, spliced: seq<byte>,
                               scanned: ScanResult) {
    && IsScanOf(limits, codec, scanned) && scanned.Scanned?
    && IsSplice(codec, scanned.inventory.markers, PrintAll(parts), spliced)
    && (AreValidSegments(limits, parts) ==>
          forall rescanned | IsScanOf(limits, spliced, rescanned) ::
            rescanned.Scanned? && RoundTrips(codec, scanned.inventory, parts, spliced, rescanned.inventory))
  }

  /** The length of the codec's output without its metadata and with the segments. */
  function SplicedTotal(codec: seq<byte>, v: Inventory, segments: seq<byte>): int {
    |codec| - MetadataLength(v.markers) + |segments|
  }

  /** The codec's output is scanned and spliced. The segments are given also as the parts that they print. */
  method CompleteOutput(limits: Limits, codec: seq<byte>, segments: seq<byte>, ghost parts: seq<Part>)
    returns (r: Completion)
    requires segments == PrintAll(parts)
    ensures match r
            case CodecOutputInvalid(error) => IsScanOf(limits, codec, Rejected(error))
            case OutputTooLarge =>
              exists scanned :: IsScanOf(limits, codec, scanned) && scanned.Scanned?
                                && SplicedTotal(codec, scanned.inventory, segments) > limits.fileLength
            case Completed(bytes) =>
              |bytes| <= limits.fileLength && exists scanned :: IsCompletion(limits, codec, parts, bytes, scanned)
  {
    hide IsScanOf, AreValidSegments, RoundTrips, Kept, AreInOrder, CursorAfter, MetadataLength;
    var scan := Scan(limits, codec);
    if scan.Rejected? {
      return CodecOutputInvalid(scan.error);
    }
    MarkersAreInOrder(limits, codec, scan);
    var spliced := Splice(limits.fileLength, codec, scan.inventory.markers, segments);
    if spliced.None? {
      assert SplicedTotal(codec, scan.inventory, segments) > limits.fileLength;
      return OutputTooLarge;
    }
    SplicedLength(codec, scan.inventory.markers, segments, spliced.value);
    r := Completed(spliced.value);
    if AreValidSegments(limits, parts) {
      ValidAreWellFormed(limits, parts);
      forall rescanned | IsScanOf(limits, r.bytes, rescanned)
        ensures rescanned.Scanned? && RoundTrips(codec, scan.inventory, parts, r.bytes, rescanned.inventory)
      {
        SpliceRoundTrips(limits, codec, scan, parts, r.bytes, rescanned);
      }
    }
    assert IsCompletion(limits, codec, parts, r.bytes, scan);
  }

  lemma ValidAreWellFormed(limits: Limits, segments: seq<Part>)
    requires AreValidSegments(limits, segments)
    ensures AreMetadata(segments)
  {
  }

  lemma MarkersAreInOrder(limits: Limits, codec: seq<byte>, scanned: ScanResult)
    requires IsScanOf(limits, codec, scanned) && scanned.Scanned?
    ensures AreInOrder(codec, scanned.inventory.markers)
    ensures MetadataLength(scanned.inventory.markers) <= |codec|
  {
    InventoryIsOfWalk(limits, codec, scanned);
    hide IsScanOf, ScanFrom, Encoded, WalkAll, AreInOrder, Kept, CursorAfter, MetadataLength;
    var c := ScanIsRead(limits, codec);
    SpliceIsPrinted(limits, c, WalkAll(limits, c.parts).value, scanned.inventory.endOffset, []);
  }

  lemma SplicedLength(codec: seq<byte>, markers: seq<MarkerReference>, segments: seq<byte>, spliced: seq<byte>)
    requires IsSplice(codec, markers, segments, spliced)
    ensures |spliced| == |codec| - MetadataLength(markers) + |segments|
  {
    KeptLength(codec, markers);
  }
}
