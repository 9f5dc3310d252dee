/** Which sources the scanner accepts, said without its walk, and what its inventory then shows. */
module JpegAcceptance {
  import opened Bytes
  import opened JpegSyntax
  import opened ChunkOrder
  import opened XmpOrder
  import opened Jumbf
  import opened JpegScanner
  import opened JpegGrammar
  import opened JpegTiling
  import opened JpegSplice
  import opened JpegRescan
  import opened OutputPipeline

  function ComponentBytes(components: seq<Component>): seq<byte>
    requires ComponentsAreValid(components)
  {
    if components == [] then []
    else
      var c := components[|components| - 1];
      ComponentBytes(components[..|components| - 1]) + [c.identifier, c.horizontal * 16 + c.vertical, c.table]
  }

  /** A frame that the scanner supports, of at most this many pixels. */
  predicate IsValidFrame(limits: Limits, f: Frame) {
    && IsSupportedCoding(f.coding)
    && (f.precision == 8 || (f.precision == 12 && f.coding != 0xC0))
    && 0 < f.width < U16_LIMIT && 0 < f.height < U16_LIMIT && f.width * f.height <= limits.pixelCount
    && |f.components| in [1, 3, 4] && ComponentsAreValid(f.components)
  }

  /** The frame header of T.81, section B.2.2, without marker and length. */
  function FramePayload(f: Frame): seq<byte>
    requires ComponentsAreValid(f.components) && |f.components| < 256
  {
    [f.precision] + ToBytes(f.height, 2) + ToBytes(f.width, 2) + [|f.components|] + ComponentBytes(f.components)
  }

  lemma {:induction false} ComponentsArePrinted(components: seq<Component>, i: nat)
    requires ComponentsAreValid(components) && i < |components|
    ensures |ComponentBytes(components)| == 3 * |components|
    ensures var c, b := components[i], ComponentBytes(components);
            b[3 * i] == c.identifier && b[3 * i + 1] == c.horizontal * 16 + c.vertical && b[3 * i + 2] == c.table
  {
    var front := components[..|components| - 1];
    if |components| > 1 {
      ComponentsArePrinted(front, if i < |front| then i else 0);
    }
  }

  lemma {:induction false} ComponentsAreRead(bytes: seq<byte>, components: seq<Component>)
    requires ComponentsAreValid(components) && |bytes| == 3 * |components|
    requires forall i | 0 <= i < |components| ::
               && bytes[3 * i] == components[i].identifier
               && bytes[3 * i + 1] == components[i].horizontal * 16 + components[i].vertical
               && bytes[3 * i + 2] == components[i].table
    ensures ComponentBytes(components) == bytes
  {
    if components != [] {
      var n := |components| - 1;
      ComponentsAreRead(bytes[..3 * n], components[..n]);
      assert bytes == bytes[..3 * n] + [bytes[3 * n], bytes[3 * n + 1], bytes[3 * n + 2]];
    }
  }

  lemma FrameFields(f: Frame)
    requires ComponentsAreValid(f.components) && |f.components| < 256
    ensures var p := FramePayload(f);
            && |p| == 6 + |ComponentBytes(f.components)| && p[0] == f.precision && p[5] == |f.components|
            && p[1..3] == ToBytes(f.height, 2) && p[3..5] == ToBytes(f.width, 2)
            && p[6..] == ComponentBytes(f.components)
  {
    hide ToBytes, ComponentBytes;
  }

  /** Every supported frame is read back from its header. */
  lemma FrameHeaderRoundTrips(limits: Limits, f: Frame)
    requires IsValidFrame(limits, f)
    ensures ParseFrameHeader(limits, f.coding, FramePayload(f), f.encoded) == Got(f)
  {
    var p, n := FramePayload(f), |f.components|;
    FrameFields(f);
    ShortNumber(f.height);
    ShortNumber(f.width);
    ComponentsArePrinted(f.components, 0);
    assert NumberAt(p, 1, 2) == f.height && NumberAt(p, 3, 2) == f.width;
    hide ToBytes, BigEndian, FramePayload, ComponentBytes;
    forall i | 0 <= i < n
      ensures ComponentAt(p, i) == f.components[i]
    {
      ComponentsArePrinted(f.components, i);
      assert p[6..][3 * i] == p[6 + 3 * i] && p[6..][3 * i + 1] == p[6 + 3 * i + 1]
             && p[6..][3 * i + 2] == p[6 + 3 * i + 2];
    }
    assert seq(n, i requires 0 <= i < n => ComponentAt(p, i)) == f.components;
  }

  /** And every header that is read is the header of the frame. */
  lemma FrameHeaderIsRead(limits: Limits, code: byte, payload: seq<byte>, encoded: Range)
    requires IsSupportedCoding(code) && ParseFrameHeader(limits, code, payload, encoded).Got?
    ensures var f := ParseFrameHeader(limits, code, payload, encoded).value;
            && IsValidFrame(limits, f) && f.coding == code && f.encoded == encoded
            && payload == FramePayload(f)
  {
    var f := ParseFrameHeader(limits, code, payload, encoded).value;
    Powers();
    NumberOfBytes(payload[1..3]);
    NumberOfBytes(payload[3..5]);
    hide ToBytes, BigEndian, Power;
    forall i | 0 <= i < |f.components|
      ensures payload[6..][3 * i] == f.components[i].identifier
      ensures payload[6..][3 * i + 1] == f.components[i].horizontal * 16 + f.components[i].vertical
      ensures payload[6..][3 * i + 2] == f.components[i].table
    {
      assert f.components[i] == ComponentAt(payload, i);
    }
    ComponentsAreRead(payload[6..], f.components);
    hide ComponentBytes;
    assert payload == [payload[0]] + payload[1..3] + payload[3..5] + [payload[5]] + payload[6..];
  }

  /** How many scans there are. */
  function Scans(parts: seq<Part>): nat {
    if parts == [] then 0 else Scans(parts[..|parts| - 1]) + (if parts[|parts| - 1].code == SOS then 1 else 0)
  }

  ghost predicate HasFrame(parts: seq<Part>) {
    exists i :: 0 <= i < |parts| && IsSupportedCoding(parts[i].code)
  }

  /** One part on its own and in its place: acceptable as metadata, no unsupported coding process, a valid
      header, and no scan before the frame. */
  ghost predicate IsInPlace(limits: Limits, parts: seq<Part>, i: nat)
    requires i < |parts|
  {
    var p := parts[i];
    && (p.code != TEM ==> IsAcceptable(Marker(p.code, p.payload)))
    && !IsUnsupportedCoding(p.code)
    && (IsSupportedCoding(p.code) ==> ParseFrameHeader(limits, p.code, p.payload, Range(0, 0)).Got?)
    && (p.code == SOS ==> IsValidScanHeader(p.payload) && HasFrame(parts[..i]))
  }

  ghost predicate HasOneFrameAtMost(parts: seq<Part>) {
    forall i, j | 0 <= i < j < |parts| :: !(IsSupportedCoding(parts[i].code) && IsSupportedCoding(parts[j].code))
  }

  ghost predicate HasProgressiveFrame(parts: seq<Part>) {
    exists i :: 0 <= i < |parts| && IsSupportedCoding(parts[i].code) && IsProgressive(parts[i].code)
  }

  /** What the scanner supports, as a property of the parts. */
  ghost predicate IsSupported(limits: Limits, parts: seq<Part>) {
    && (forall i | 0 <= i < |parts| :: IsInPlace(limits, parts, i))
    && HasOneFrameAtMost(parts)
    && Scans(parts) < U32_LIMIT
    && (HasProgressiveFrame(parts) ==> Scans(parts) <= limits.progressiveScanCount)
    && MetadataTotal(parts) <= limits.metadataLength
  }

  /** What the walk knows of the parts so far. */
  ghost predicate Knows(w: Walk, parts: seq<Part>) {
    && (w.frame.Some? <==> HasFrame(parts))
    && (w.frame.Some? ==> (IsProgressive(w.frame.value.coding) <==> HasProgressiveFrame(parts)))
    && w.scanCount == Scans(parts)
    && w.metadataLength == MetadataTotal(parts)
  }

  /** What one more part needs. */
  predicate Fits(limits: Limits, w: Walk, p: Part) {
    && (p.code != TEM ==> IsAcceptable(Marker(p.code, p.payload)))
    && (IsMetadata(p.code) ==> w.metadataLength + MarkerLength(p) <= limits.metadataLength)
    && !IsUnsupportedCoding(p.code)
    && (IsSupportedCoding(p.code) ==>
          w.frame.None? && ParseFrameHeader(limits, p.code, p.payload, Range(0, 0)).Got?)
    && (p.code == SOS ==>
          && w.frame.Some? && IsValidScanHeader(p.payload) && w.scanCount < U32_LIMIT - 1
          && (IsProgressive(w.frame.value.coding) ==> w.scanCount < limits.progressiveScanCount))
  }

  lemma HeaderIgnoresRange(limits: Limits, code: byte, payload: seq<byte>, a: Range, b: Range)
    ensures ParseFrameHeader(limits, code, payload, a).Got? <==> ParseFrameHeader(limits, code, payload, b).Got?
    ensures ParseFrameHeader(limits, code, payload, a).Got? ==>
              ParseFrameHeader(limits, code, payload, a).value.coding == code
  {
  }

  lemma MetadataIsNotedIff(limits: Limits, w: Walk, m: Marker, marker: nat)
    requires w.metadataLength <= limits.metadataLength
    ensures NoteMetadata(limits, w, m.code, m.payload, marker).Got?
            <==> IsAcceptable(m)
                 && (IsMetadata(m.code) ==> w.metadataLength + 4 + |m.payload| <= limits.metadataLength)
    ensures NoteMetadata(limits, w, m.code, m.payload, marker).Got? ==>
              var v := NoteMetadata(limits, w, m.code, m.payload, marker).value;
              && v.frame == w.frame && v.scanCount == w.scanCount
              && v.metadataLength == w.metadataLength + (if IsMetadata(m.code) then 4 + |m.payload| else 0)
  {
    hide Matches, Guid, NumberAt;
  }

  lemma HeaderIsNotedIff(limits: Limits, w: Walk, code: byte, payload: seq<byte>, marker: nat)
    ensures NoteHeader(limits, w, code, payload, marker).Got?
            <==> && !IsUnsupportedCoding(code)
                 && (IsSupportedCoding(code) ==>
                       w.frame.None? && ParseFrameHeader(limits, code, payload, Range(0, 0)).Got?)
                 && (code == SOS ==>
                       && w.frame.Some? && IsValidScanHeader(payload) && w.scanCount < U32_LIMIT - 1
                       && (IsProgressive(w.frame.value.coding) ==> w.scanCount < limits.progressiveScanCount))
    ensures NoteHeader(limits, w, code, payload, marker).Got? ==>
              var v := NoteHeader(limits, w, code, payload, marker).value;
              && (v.frame.Some? <==> w.frame.Some? || IsSupportedCoding(code))
              && (IsSupportedCoding(code) ==> v.frame.value.coding == code)
              && (!IsSupportedCoding(code) ==> v.frame == w.frame)
              && v.scanCount == w.scanCount + (if code == SOS then 1 else 0)
              && v.metadataLength == w.metadataLength
  {
    HeaderIgnoresRange(limits, code, payload, Range(marker, 4 + |payload|), Range(0, 0));
    hide ParseFrameHeader, IsValidScanHeader;
  }

  lemma PartIsWalkedIff(limits: Limits, w: Walk, p: Part, at: nat)
    requires IsWellFormed(p) && w.metadataLength <= limits.metadataLength
    ensures AdvancePart(limits, w, p, at).Got? <==> Fits(limits, w, p)
    ensures AdvancePart(limits, w, p, at).Got? ==>
              var v := AdvancePart(limits, w, p, at).value;
              && (v.frame.Some? <==> w.frame.Some? || IsSupportedCoding(p.code))
              && (IsSupportedCoding(p.code) ==> v.frame.value.coding == p.code)
              && (!IsSupportedCoding(p.code) ==> v.frame == w.frame)
              && v.scanCount == w.scanCount + (if p.code == SOS then 1 else 0)
              && v.metadataLength == w.metadataLength + (if IsMetadata(p.code) then MarkerLength(p) else 0)
  {
    hide NoteMetadata, NoteHeader, IsAcceptable, ParseFrameHeader, IsValidScanHeader, Restarts, IsEntropyRange;
    if p.code != TEM {
      MetadataIsNotedIff(limits, w, Marker(p.code, p.payload), at + p.fill);
      var noted := NoteMetadata(limits, w, p.code, p.payload, at + p.fill);
      if noted.Got? {
        HeaderIsNotedIff(limits, noted.value, p.code, p.payload, at + p.fill);
      }
    }
  }

  lemma PropertiesGrow(front: seq<Part>, p: Part)
    ensures (front + [p])[..|front|] == front
    ensures HasFrame(front + [p]) <==> HasFrame(front) || IsSupportedCoding(p.code)
    ensures HasProgressiveFrame(front + [p])
            <==> HasProgressiveFrame(front) || (IsSupportedCoding(p.code) && IsProgressive(p.code))
    ensures Scans(front + [p]) == Scans(front) + (if p.code == SOS then 1 else 0)
    ensures MetadataTotal(front + [p]) == MetadataTotal(front) + (if IsMetadata(p.code) then MarkerLength(p) else 0)
    ensures HasOneFrameAtMost(front + [p])
            <==> HasOneFrameAtMost(front) && (IsSupportedCoding(p.code) ==> !HasFrame(front))
  {
    FramesGrow(front, p);
    ProgressiveFramesGrow(front, p);
    OneFrameGrows(front, p);
    hide IsSupportedCoding, IsProgressive, IsMetadata, MarkerLength, HasFrame, HasProgressiveFrame, HasOneFrameAtMost;
    assert (front + [p])[..|front|] == front;
  }

  lemma FramesGrow(front: seq<Part>, p: Part)
    ensures HasFrame(front + [p]) <==> HasFrame(front) || IsSupportedCoding(p.code)
  {
    hide IsSupportedCoding;
    var parts := front + [p];
    assert parts[|front|] == p;
    if i :| 0 <= i < |front| && IsSupportedCoding(front[i].code) {
      assert parts[i] == front[i];
    }
  }

  lemma ProgressiveFramesGrow(front: seq<Part>, p: Part)
    ensures HasProgressiveFrame(front + [p])
            <==> HasProgressiveFrame(front) || (IsSupportedCoding(p.code) && IsProgressive(p.code))
  {
    hide IsSupportedCoding, IsProgressive;
    var parts := front + [p];
    assert parts[|front|] == p;
    if i :| 0 <= i < |front| && IsSupportedCoding(front[i].code) && IsProgressive(front[i].code) {
      assert parts[i] == front[i];
    }
  }

  lemma OneFrameGrows(front: seq<Part>, p: Part)
    ensures HasOneFrameAtMost(front + [p])
            <==> HasOneFrameAtMost(front) && (IsSupportedCoding(p.code) ==> !HasFrame(front))
  {
    hide IsSupportedCoding;
    var parts := front + [p];
    assert parts[|front|] == p && forall i | 0 <= i < |front| :: parts[i] == front[i];
    assert HasOneFrameAtMost(parts) ==>
        forall i | 0 <= i < |front| :: !(IsSupportedCoding(parts[i].code) && IsSupportedCoding(parts[|front|].code));
  }

  lemma PlacesGrow(limits: Limits, front: seq<Part>, p: Part)
    ensures (forall i | 0 <= i < |front + [p]| :: IsInPlace(limits, front + [p], i))
            <==> (forall i | 0 <= i < |front| :: IsInPlace(limits, front, i))
                 && IsInPlace(limits, front + [p], |front|)
  {
    var parts := front + [p];
    forall i | 0 <= i < |front|
      ensures IsInPlace(limits, parts, i) <==> IsInPlace(limits, front, i)
    {
      assert parts[..i] == front[..i];
    }
    hide IsInPlace;
  }

  lemma {:induction false} NoFrameNoScans(limits: Limits, parts: seq<Part>)
    requires forall i | 0 <= i < |parts| :: IsInPlace(limits, parts, i)
    requires !HasFrame(parts)
    ensures Scans(parts) == 0
  {
    if parts != [] {
      var front, p := parts[..|parts| - 1], parts[|parts| - 1];
      assert parts == front + [p];
      PlacesGrow(limits, front, p);
      PropertiesGrow(front, p);
      NoFrameNoScans(limits, front);
      assert IsInPlace(limits, parts, |front|);
    }
  }

  lemma SupportGrows(limits: Limits, w: Walk, front: seq<Part>, p: Part)
    requires Knows(w, front) && IsSupported(limits, front)
    ensures IsSupported(limits, front + [p]) <==> Fits(limits, w, p)
  {
    PropertiesGrow(front, p);
    PlacesGrow(limits, front, p);
    if !HasFrame(front) {
      NoFrameNoScans(limits, front);
    }
    hide IsAcceptable, ParseFrameHeader, IsValidScanHeader, IsUnsupportedCoding, HasFrame, HasProgressiveFrame,
      HasOneFrameAtMost, Scans, MetadataTotal, IsMetadata, MarkerLength;
    assert (front + [p])[|front|] == p;
    CodesDiffer(p.code);
    assert !HasFrame(front) ==> !HasProgressiveFrame(front) by {
      NoFrameNoProgressive(front);
    }
  }

  lemma NoFrameNoProgressive(parts: seq<Part>)
    ensures HasProgressiveFrame(parts) ==> HasFrame(parts)
  {
  }

  lemma CodesDiffer(code: byte)
    ensures IsSupportedCoding(code) ==> code != SOS && !IsMetadata(code) && code != TEM
    ensures code == SOS ==> !IsMetadata(code)
  {
  }

  lemma SupportOfPrefix(limits: Limits, front: seq<Part>, p: Part)
    requires IsSupported(limits, front + [p])
    ensures IsSupported(limits, front)
  {
    PropertiesGrow(front, p);
    PlacesGrow(limits, front, p);
    hide IsInPlace, HasFrame, HasProgressiveFrame, HasOneFrameAtMost, Scans, MetadataTotal, IsMetadata, MarkerLength;
  }

  /** The walk goes through exactly on the supported parts, and then knows their frame and scans. */
  lemma {:induction false} WalkSucceedsIff(limits: Limits, parts: seq<Part>)
    requires AreWellFormed(parts)
    ensures WalkAll(limits, parts).Got? <==> IsSupported(limits, parts)
    ensures WalkAll(limits, parts).Got? ==>
              Knows(WalkAll(limits, parts).value, parts)
              && WalkAll(limits, parts).value.metadataLength <= limits.metadataLength
  {
    hide IsSupported, Knows, Fits, AdvancePart, IsWellFormed;
    if parts == [] {
      NothingIsSupported(limits);
    } else {
      var front, p := parts[..|parts| - 1], parts[|parts| - 1];
      assert parts == front + [p] && IsWellFormed(p);
      WalkSucceedsIff(limits, front);
      if IsSupported(limits, parts) {
        SupportOfPrefix(limits, front, p);
      }
      if WalkAll(limits, front).Got? {
        var w, at := WalkAll(limits, front).value, OffsetOf(parts, |front|);
        PartIsWalkedIff(limits, w, p, at);
        SupportGrows(limits, w, front, p);
        if AdvancePart(limits, w, p, at).Got? {
          KnowledgeGrows(limits, w, front, p, AdvancePart(limits, w, p, at).value);
        }
      }
    }
  }

  lemma NothingIsSupported(limits: Limits)
    ensures IsSupported(limits, []) && Knows(BEGINNING, [])
  {
  }

  lemma KnowledgeGrows(limits: Limits, w: Walk, front: seq<Part>, p: Part, v: Walk)
    requires Knows(w, front) && Fits(limits, w, p) && w.metadataLength <= limits.metadataLength
    requires v.frame.Some? <==> w.frame.Some? || IsSupportedCoding(p.code)
    requires IsSupportedCoding(p.code) ==> v.frame.value.coding == p.code
    requires !IsSupportedCoding(p.code) ==> v.frame == w.frame
    requires v.scanCount == w.scanCount + (if p.code == SOS then 1 else 0)
    requires v.metadataLength == w.metadataLength + (if IsMetadata(p.code) then MarkerLength(p) else 0)
    ensures Knows(v, front + [p]) && v.metadataLength <= limits.metadataLength
  {
    PropertiesGrow(front, p);
    NoFrameNoProgressive(front);
    hide IsAcceptable, ParseFrameHeader, IsValidScanHeader, HasFrame, HasProgressiveFrame, Scans, MetadataTotal;
  }

  /** The final checks, on the metadata that the parts carry. */
  ghost predicate PassesFinalChecks(parts: seq<Part>)
    requires AreWellFormed(parts)
  {
    && IccPasses(IccOf(OnlyMetadata(Seen(parts))))
    && XmpMayPass(ExtendedOf(OnlyMetadata(Seen(parts))))
    && Concluded(ConsumeAll(START, [Marker(SOI, [])] + Seen(parts) + [Marker(EOI, [])])).Absent?
  }

  /** What the scanner accepts of a printed codestream. */
  ghost predicate IsAccepted(limits: Limits, c: Codestream)
    requires AreWellFormed(c.parts)
  {
    && |Encoded(c)| <= limits.fileLength
    && IsSupported(limits, c.parts) && HasFrame(c.parts) && Scans(c.parts) > 0
    && PassesFinalChecks(c.parts)
  }

  lemma WalkShows(limits: Limits, c: Codestream)
    requires AreWellFormed(c.parts) && WalkAll(limits, c.parts).Got?
    ensures var w, endOffset := WalkAll(limits, c.parts).value, OffsetOf(c.parts, |c.parts|) + c.endFill;
            && (IccPasses(w.icc) <==> IccPasses(IccOf(OnlyMetadata(Seen(c.parts)))))
            && (XmpMayPass(w.extended) <==> XmpMayPass(ExtendedOf(OnlyMetadata(Seen(c.parts)))))
            && (XmpMustPass(w.extended) <==> XmpMustPass(ExtendedOf(OnlyMetadata(Seen(c.parts)))))
            && Payloads(Encoded(c), AllMarkers(w, endOffset))
               == [Marker(SOI, [])] + Seen(c.parts) + [Marker(EOI, [])]
  {
    hide Encoded, WalkAll, PrintAll, Payloads, IccPasses, XmpMayPass, XmpMustPass, Seen, OnlyMetadata, IsWellFormed,
      IccOf, ExtendedOf, StripIcc, StripXmp, AreAcceptable, Data, MetadataOf, MetadataBytes, BytesOf;
    var w := WalkAll(limits, c.parts).value;
    WalkIsCarried(limits, c.parts);
    IccIgnoresPlace(w.icc);
    XmpIgnoresPlace(w.extended);
    PartsReadBack(limits, c, |c.parts|);
    assert c.parts[..|c.parts|] == c.parts;
    EndReadsBack(Encoded(c), w, OffsetOf(c.parts, |c.parts|) + c.endFill);
  }

  lemma VerdictNeedsChecks(bytes: seq<byte>, w: Walk, endOffset: nat, r: ScanResult)
    requires IsVerdict(bytes, w, endOffset, r) && r.Scanned?
    ensures w.frame.Some? && w.scanCount > 0 && IccPasses(w.icc) && XmpMayPass(w.extended)
    ensures Concluded(ConsumeAll(START, Payloads(bytes, AllMarkers(w, endOffset)))).Absent?
  {
    hide IccPasses, XmpMayPass, EmptyChunksLieOutside, ConsumeAll, Concluded, Payloads;
  }

  /** Acceptance, exactly: a printed codestream scans only if it is accepted, and if it is accepted it
      scans, unless the order of empty Extended XMP chunks decides. */
  lemma CodestreamScansIff(limits: Limits, c: Codestream, r: ScanResult)
    requires AreWellFormed(c.parts) && IsScanOf(limits, Encoded(c), r)
    ensures r.Scanned? ==> IsAccepted(limits, c)
    ensures IsAccepted(limits, c) && EmptyChunksLieOutside(ExtendedOf(OnlyMetadata(Seen(c.parts)))) ==> r.Scanned?
  {
    hide Encoded, WalkAll, PrintAll, Payloads, IccPasses, XmpMayPass, EmptyChunksLieOutside, Seen, OnlyMetadata,
      IsWellFormed, AreWellFormed, ScanFrom, IsSupported, IsVerdict, ConsumeAll, Concluded, Scans, HasFrame, IccOf,
      ExtendedOf, MetadataTotal, AllMarkers;
    EncodedStarts(c);
    CodestreamIsScanned(limits, c);
    WalkSucceedsIff(limits, c.parts);
    var walked, endOffset := WalkAll(limits, c.parts), OffsetOf(c.parts, |c.parts|) + c.endFill;
    if walked.Got? {
      WalkShows(limits, c);
      if r.Scanned? && |Encoded(c)| <= limits.fileLength {
        VerdictNeedsChecks(Encoded(c), walked.value, endOffset, r);
      }
      if IsAccepted(limits, c) && EmptyChunksLieOutside(ExtendedOf(OnlyMetadata(Seen(c.parts)))) {
        VerdictIsSuccess(Encoded(c), walked.value, endOffset, r);
      }
    }
  }

  /** Acceptance of any bytes: a source scans only if it prints an accepted codestream. */
  lemma SourceScansOnlyIf(limits: Limits, bytes: seq<byte>, r: ScanResult) returns (c: Codestream)
    requires IsScanOf(limits, bytes, r) && r.Scanned?
    ensures IsCodestream(bytes, c) && IsAccepted(limits, c)
  {
    InventoryIsOfWalk(limits, bytes, r);
    hide Encoded, ScanFrom, IsScanOf, IsAccepted, AreWellFormed;
    c := ScanIsRead(limits, bytes);
    CodestreamScansIff(limits, c, r);
  }

  /** The items that each marker carries, in order. */
  function Collected<T>(carried: Marker -> seq<T>, markers: seq<Marker>): seq<T> {
    if markers == [] then []
    else Collected(carried, markers[..|markers| - 1]) + carried(markers[|markers| - 1])
  }

  function ExifData(m: Marker): seq<seq<byte>> {
    if m.code == APP1 && Matches(m.payload, 0, EXIF) then [m.payload[|EXIF|..]] else []
  }

  function XmpData(m: Marker): seq<seq<byte>> {
    if m.code == APP1 && Matches(m.payload, 0, STANDARD_XMP) then [m.payload[|STANDARD_XMP|..]] else []
  }

  /** An ICC fragment: its number, the count, and its part of the profile. */
  function IccData(m: Marker): seq<(byte, byte, seq<byte>)> {
    if m.code == APP2 && Matches(m.payload, 0, ICC_PROFILE) && |m.payload| >= 14
    then [(m.payload[12], m.payload[13], m.payload[14..])] else []
  }

  /** An Extended XMP fragment: identifier, packet length, offset, and its part of the packet. */
  function ExtendedData(m: Marker): seq<(seq<char>, nat, nat, seq<byte>)> {
    if m.code == APP1 && Matches(m.payload, 0, EXTENDED_XMP) && |m.payload| >= EXTENDED_HEADER
    then [(Guid(m.payload), NumberAt(m.payload, 67, 4), NumberAt(m.payload, 71, 4), m.payload[EXTENDED_HEADER..])]
    else []
  }

  function IccRead(bytes: seq<byte>, chunks: seq<IccChunk>): seq<(byte, byte, seq<byte>)> {
    seq(|chunks|, i requires 0 <= i < |chunks| =>
      (chunks[i].sequence, chunks[i].count, PayloadOf(bytes, chunks[i].data)))
  }

  function ExtendedRead(bytes: seq<byte>, chunks: seq<XmpChunk>): seq<(seq<char>, nat, nat, seq<byte>)> {
    seq(|chunks|, i requires 0 <= i < |chunks| =>
      (chunks[i].guid, chunks[i].total, chunks[i].offset, PayloadOf(bytes, chunks[i].data)))
  }

  /** The ranges that the walk has noted hold what these markers carry. */
  ghost predicate HoldsCarried(bytes: seq<byte>, w: Walk, markers: seq<Marker>) {
    && BytesOf(bytes, w.exif) == Collected(ExifData, markers)
    && BytesOf(bytes, w.xmp) == Collected(XmpData, markers)
    && IccRead(bytes, w.icc) == Collected(IccData, markers)
    && ExtendedRead(bytes, w.extended) == Collected(ExtendedData, markers)
  }

  lemma RestOfPayload(bytes: seq<byte>, at: nat, payload: seq<byte>, k: nat)
    requires k <= |payload| && at + |payload| <= |bytes| && bytes[at..at + |payload|] == payload
    ensures PayloadOf(bytes, Range(at + k, |payload| - k)) == payload[k..]
  {
    assert bytes[at + k..at + |payload|] == bytes[at..at + |payload|][k..];
  }

  lemma ReadsJoin(bytes: seq<byte>, a: seq<Range>, b: seq<Range>)
    ensures BytesOf(bytes, a + b) == BytesOf(bytes, a) + BytesOf(bytes, b)
  {
  }

  lemma IccReadsJoin(bytes: seq<byte>, a: seq<IccChunk>, b: seq<IccChunk>)
    ensures IccRead(bytes, a + b) == IccRead(bytes, a) + IccRead(bytes, b)
  {
  }

  lemma ExtendedReadsJoin(bytes: seq<byte>, a: seq<XmpChunk>, b: seq<XmpChunk>)
    ensures ExtendedRead(bytes, a + b) == ExtendedRead(bytes, a) + ExtendedRead(bytes, b)
  {
  }

  /** What one segment adds to the lists, by place. */
  function ExifRanges(m: Marker, at: nat): seq<Range> {
    if m.code == APP1 && Matches(m.payload, 0, EXIF) then [Range(at + |EXIF|, |m.payload| - |EXIF|)] else []
  }

  function XmpRanges(m: Marker, at: nat): seq<Range> {
    if m.code == APP1 && Matches(m.payload, 0, STANDARD_XMP)
    then [Range(at + |STANDARD_XMP|, |m.payload| - |STANDARD_XMP|)] else []
  }

  function IccChunks(m: Marker, at: nat): seq<IccChunk> {
    if m.code == APP2 && Matches(m.payload, 0, ICC_PROFILE) && |m.payload| >= 14
    then [IccChunk(m.payload[12], m.payload[13], Range(at + 14, |m.payload| - 14))] else []
  }

  function ExtendedChunks(m: Marker, at: nat): seq<XmpChunk> {
    if m.code == APP1 && Matches(m.payload, 0, EXTENDED_XMP) && |m.payload| >= EXTENDED_HEADER
    then [XmpChunk(Guid(m.payload), NumberAt(m.payload, 67, 4), NumberAt(m.payload, 71, 4),
                   Range(at + EXTENDED_HEADER, |m.payload| - EXTENDED_HEADER))]
    else []
  }

  lemma NotedByPlace(limits: Limits, w: Walk, m: Marker, marker: nat)
    requires NoteMetadata(limits, w, m.code, m.payload, marker).Got?
    ensures var v := NoteMetadata(limits, w, m.code, m.payload, marker).value;
            && v.exif == w.exif + ExifRanges(m, marker + 4)
            && v.xmp == w.xmp + XmpRanges(m, marker + 4)
            && v.icc == w.icc + IccChunks(m, marker + 4)
            && v.extended == w.extended + ExtendedChunks(m, marker + 4)
  {
    hide Matches, Guid, NumberAt;
  }

  lemma PlacesHold(bytes: seq<byte>, m: Marker, at: nat)
    requires at + |m.payload| <= |bytes| && bytes[at..at + |m.payload|] == m.payload
    ensures BytesOf(bytes, ExifRanges(m, at)) == ExifData(m)
    ensures BytesOf(bytes, XmpRanges(m, at)) == XmpData(m)
    ensures IccRead(bytes, IccChunks(m, at)) == IccData(m)
    ensures ExtendedRead(bytes, ExtendedChunks(m, at)) == ExtendedData(m)
  {
    ExifPlaceHolds(bytes, m, at);
    XmpPlaceHolds(bytes, m, at);
    IccPlaceHolds(bytes, m, at);
    ExtendedPlaceHolds(bytes, m, at);
  }

  lemma ExifPlaceHolds(bytes: seq<byte>, m: Marker, at: nat)
    requires at + |m.payload| <= |bytes| && bytes[at..at + |m.payload|] == m.payload
    ensures BytesOf(bytes, ExifRanges(m, at)) == ExifData(m)
  {
    if |m.payload| >= |EXIF| {
      RestOfPayload(bytes, at, m.payload, |EXIF|);
    }
  }

  lemma XmpPlaceHolds(bytes: seq<byte>, m: Marker, at: nat)
    requires at + |m.payload| <= |bytes| && bytes[at..at + |m.payload|] == m.payload
    ensures BytesOf(bytes, XmpRanges(m, at)) == XmpData(m)
  {
    if |m.payload| >= |STANDARD_XMP| {
      RestOfPayload(bytes, at, m.payload, |STANDARD_XMP|);
    }
  }

  lemma IccPlaceHolds(bytes: seq<byte>, m: Marker, at: nat)
    requires at + |m.payload| <= |bytes| && bytes[at..at + |m.payload|] == m.payload
    ensures IccRead(bytes, IccChunks(m, at)) == IccData(m)
  {
    if |m.payload| >= 14 {
      RestOfPayload(bytes, at, m.payload, 14);
    }
  }

  lemma ExtendedPlaceHolds(bytes: seq<byte>, m: Marker, at: nat)
    requires at + |m.payload| <= |bytes| && bytes[at..at + |m.payload|] == m.payload
    ensures ExtendedRead(bytes, ExtendedChunks(m, at)) == ExtendedData(m)
  {
    hide PayloadOf, Guid, NumberAt;
    if |m.payload| >= EXTENDED_HEADER {
      RestOfPayload(bytes, at, m.payload, EXTENDED_HEADER);
    }
  }

  lemma NotedHolds(limits: Limits, bytes: seq<byte>, w: Walk, m: Marker, marker: nat)
    requires NoteMetadata(limits, w, m.code, m.payload, marker).Got?
    requires marker + 4 + |m.payload| <= |bytes| && bytes[marker + 4..marker + 4 + |m.payload|] == m.payload
    ensures var v := NoteMetadata(limits, w, m.code, m.payload, marker).value;
            && BytesOf(bytes, v.exif) == BytesOf(bytes, w.exif) + ExifData(m)
            && BytesOf(bytes, v.xmp) == BytesOf(bytes, w.xmp) + XmpData(m)
            && IccRead(bytes, v.icc) == IccRead(bytes, w.icc) + IccData(m)
            && ExtendedRead(bytes, v.extended) == ExtendedRead(bytes, w.extended) + ExtendedData(m)
  {
    hide NoteMetadata, BytesOf, IccRead, ExtendedRead, ExifRanges, XmpRanges, IccChunks, ExtendedChunks;
    var at := marker + 4;
    NotedByPlace(limits, w, m, marker);
    PlacesHold(bytes, m, at);
    ReadsJoin(bytes, w.exif, ExifRanges(m, at));
    ReadsJoin(bytes, w.xmp, XmpRanges(m, at));
    IccReadsJoin(bytes, w.icc, IccChunks(m, at));
    ExtendedReadsJoin(bytes, w.extended, ExtendedChunks(m, at));
  }

  lemma HeaderKeepsLists(limits: Limits, w: Walk, code: byte, payload: seq<byte>, marker: nat)
    requires NoteHeader(limits, w, code, payload, marker).Got?
    ensures var v := NoteHeader(limits, w, code, payload, marker).value;
            v.exif == w.exif && v.xmp == w.xmp && v.icc == w.icc && v.extended == w.extended
  {
    hide ParseFrameHeader, IsValidScanHeader;
  }

  lemma CollectedOne<T>(carried: Marker -> seq<T>, front: seq<Marker>, m: Marker)
    ensures Collected(carried, front + [m]) == Collected(carried, front) + carried(m)
  {
    assert (front + [m])[..|front|] == front;
  }

  /** What a part that is no metadata carries. */
  lemma OthersCarryNoData(m: Marker)
    requires !IsMetadata(m.code)
    ensures ExifData(m) == [] && XmpData(m) == [] && IccData(m) == [] && ExtendedData(m) == []
  {
  }

  ghost predicate ListsGrow(bytes: seq<byte>, w: Walk, v: Walk, m: Marker) {
    && BytesOf(bytes, v.exif) == BytesOf(bytes, w.exif) + ExifData(m)
    && BytesOf(bytes, v.xmp) == BytesOf(bytes, w.xmp) + XmpData(m)
    && IccRead(bytes, v.icc) == IccRead(bytes, w.icc) + IccData(m)
    && ExtendedRead(bytes, v.extended) == ExtendedRead(bytes, w.extended) + ExtendedData(m)
  }

  lemma PartHolds(limits: Limits, bytes: seq<byte>, w: Walk, p: Part, at: nat)
    requires IsWellFormed(p) && AdvancePart(limits, w, p, at).Got?
    requires at + |Print(p)| <= |bytes| && bytes[at..at + |Print(p)|] == Print(p)
    ensures ListsGrow(bytes, w, AdvancePart(limits, w, p, at).value, Marker(p.code, p.payload))
  {
    hide NoteMetadata, NoteHeader, BytesOf, IccRead, ExtendedRead, ExifData, XmpData, IccData, ExtendedData, Restarts,
      IsEntropyRange, PrintMarker, Fill, IsMetadata;
    var m := Marker(p.code, p.payload);
    PrintedPart(bytes, at, p);
    if p.code != TEM {
      NotedHolds(limits, bytes, w, m, at + p.fill);
      HeaderKeepsLists(limits, NoteMetadata(limits, w, p.code, p.payload, at + p.fill).value, p.code, p.payload,
                       at + p.fill);
    } else {
      TemIsNoMetadata(p);
      OthersCarryNoData(m);
    }
  }

  lemma TemIsNoMetadata(p: Part)
    requires p.code == TEM
    ensures !IsMetadata(p.code)
  {
  }

  lemma CarriedGrows(bytes: seq<byte>, w: Walk, v: Walk, front: seq<Marker>, m: Marker)
    requires HoldsCarried(bytes, w, front) && ListsGrow(bytes, w, v, m)
    ensures HoldsCarried(bytes, v, if IsMetadata(m.code) then front + [m] else front)
  {
    hide BytesOf, IccRead, ExtendedRead, ExifData, XmpData, IccData, ExtendedData, IsMetadata;
    if IsMetadata(m.code) {
      CollectedOne(ExifData, front, m);
      CollectedOne(XmpData, front, m);
      CollectedOne(IccData, front, m);
      CollectedOne(ExtendedData, front, m);
    } else {
      OthersCarryNoData(m);
    }
  }

  /** The ranges of the inventory exclude exactly the headers: read back from the source, they are the Exif
      and XMP payloads and the numbered ICC and Extended XMP fragments of its segments, in order. */
  lemma {:induction false} RangesHoldData(limits: Limits, c: Codestream, n: nat)
    requires AreWellFormed(c.parts) && n <= |c.parts| && WalkAll(limits, c.parts).Got?
    ensures WalkAll(limits, c.parts[..n]).Got?
    ensures HoldsCarried(Encoded(c), WalkAll(limits, c.parts[..n]).value, OnlyMetadata(Seen(c.parts[..n])))
  {
    hide HoldsCarried, Encoded, Print, AdvancePart, IsWellFormed, PrintAll, SeenIn, ListsGrow, PrintMarker, IsMetadata;
    PrefixIsWalked(limits, c.parts, n);
    if n == 0 {
      assert c.parts[..0] == [];
      NothingHeld(Encoded(c));
    } else {
      RangesHoldData(limits, c, n - 1);
      hide WalkAll, Seen;
      var front, p := c.parts[..n - 1], c.parts[n - 1];
      assert c.parts[..n] == front + [p] && IsWellFormed(p);
      var w, at := WalkAll(limits, front).value, OffsetOf(c.parts, n - 1);
      PartStands(c, n - 1);
      PartHolds(limits, Encoded(c), w, p, at);
      CarriedGrows(Encoded(c), w, WalkAll(limits, c.parts[..n]).value, OnlyMetadata(Seen(front)),
                   Marker(p.code, p.payload));
      PartsGrow(front, p);
      MetadataSeenIn(p);
      OnlyMetadataInParts(Seen(front), SeenIn(p));
      assert OnlyMetadata(Seen(front)) + [] == OnlyMetadata(Seen(front));
    }
  }

  lemma NothingHeld(bytes: seq<byte>)
    ensures HoldsCarried(bytes, BEGINNING, OnlyMetadata([]))
  {
  }
}
