/** The bounded marker walk over a JPEG source. */
module JpegScanner {
  import opened Options
  import opened Bytes
  import opened JpegSyntax
  import opened ChunkOrder
  import opened XmpOrder
  import opened Jumbf

  datatype Limits = Limits(
    fileLength: nat, metadataLength: nat, pixelCount: nat, progressiveScanCount: nat)

  datatype ScanError =
    | EncodedFileTooLarge
    | MalformedJpegStructure
    | MalformedImageMetadata
    | MetadataLengthLimitExceeded
    | MultiPictureJpegNotSupported
    | ContentCredentialsWouldBeInvalidated
    | UnsupportedJumbfMetadata
    | UnsupportedJpegCodingProcess
    | UnsupportedJpegDeferredHeight
    | UnsupportedJpegSamplePrecision
    | UnsupportedJpegComponentOrganization
    | PixelCountLimitExceeded
    | ProgressiveScanCountLimitExceeded

  datatype Try<+T> = Failed(error: ScanError) | Got(value: T)

  datatype Component = Component(identifier: byte, horizontal: nat, vertical: nat, table: byte)

  datatype Frame = Frame(
    coding: byte, precision: byte, width: nat, height: nat, components: seq<Component>, encoded: Range)

  datatype MarkerReference = MarkerReference(code: byte, encoded: Range, payload: Range)

  datatype Walk = Walk(
    frame: Option<Frame>,
    scanCount: nat,
    metadataLength: nat,
    markers: seq<MarkerReference>,
    entropy: seq<Range>,
    exif: seq<Range>,
    xmp: seq<Range>,
    icc: seq<IccChunk>,
    extended: seq<XmpChunk>)

  const BEGINNING := Walk(None, 0, 0, [MarkerReference(SOI, Range(0, 2), Range(2, 0))], [], [], [], [], [])

  const APP1: byte := 0xE1
  const APP2: byte := 0xE2
  const EXIF: seq<byte> := [0x45, 0x78, 0x69, 0x66, 0, 0]
  const MPF: seq<byte> := [0x4D, 0x50, 0x46, 0]
  const ICC_PROFILE: seq<byte> := [0x49, 0x43, 0x43, 0x5F, 0x50, 0x52, 0x4F, 0x46, 0x49, 0x4C, 0x45, 0]
  /** "http://ns.adobe.com/xap/1.0/" with its terminator. */
  const STANDARD_XMP: seq<byte> :=
    [0x68, 0x74, 0x74, 0x70, 0x3A, 0x2F, 0x2F, 0x6E, 0x73, 0x2E, 0x61, 0x64, 0x6F, 0x62, 0x65, 0x2E, 0x63, 0x6F, 0x6D,
     0x2F, 0x78, 0x61, 0x70, 0x2F, 0x31, 0x2E, 0x30, 0x2F, 0]
  /** "http://ns.adobe.com/xmp/extension/" with its terminator. */
  const EXTENDED_XMP: seq<byte> :=
    [0x68, 0x74, 0x74, 0x70, 0x3A, 0x2F, 0x2F, 0x6E, 0x73, 0x2E, 0x61, 0x64, 0x6F, 0x62, 0x65, 0x2E, 0x63, 0x6F, 0x6D,
     0x2F, 0x78, 0x6D, 0x70, 0x2F, 0x65, 0x78, 0x74, 0x65, 0x6E, 0x73, 0x69, 0x6F, 0x6E, 0x2F, 0]
  const EXTENDED_HEADER: nat := 75

  predicate IsMetadata(code: byte) { 0xE0 <= code <= 0xEF || code == 0xFE }

  predicate IsSupportedCoding(code: byte) { code in [0xC0, 0xC1, 0xC2, 0xC9, 0xCA] }

  predicate IsUnsupportedCoding(code: byte) {
    code in [0xC3, 0xC5, 0xC6, 0xC7, 0xCB, 0xCD, 0xCE, 0xCF, 0xF7, 0xC8, 0xDE, 0xDF]
  }

  predicate IsProgressive(coding: byte) { coding == 0xC2 || coding == 0xCA }

  function ComponentAt(payload: seq<byte>, i: nat): Component
    requires 6 + 3 * i + 3 <= |payload|
  {
    var o := 6 + 3 * i;
    Component(payload[o], payload[o + 1] / 16, payload[o + 1] % 16, payload[o + 2])
  }

  predicate ComponentsAreValid(components: seq<Component>) {
    && (forall i | 0 <= i < |components| ::
          && 1 <= components[i].horizontal <= 4 && 1 <= components[i].vertical <= 4 && components[i].table <= 3)
    && (forall i, j | 0 <= i < j < |components| :: components[i].identifier != components[j].identifier)
  }

  function ParseFrameHeader(limits: Limits, code: byte, payload: seq<byte>, encoded: Range): Try<Frame> {
    if |payload| < 6 || payload[5] == 0 || |payload| != 6 + 3 * (payload[5] as int) then Failed(MalformedJpegStructure)
    else
      var height, width, precision := NumberAt(payload, 1, 2), NumberAt(payload, 3, 2), payload[0];
      if width == 0 then Failed(MalformedJpegStructure)
      else if height == 0 then Failed(UnsupportedJpegDeferredHeight)
      else if precision != 8 && (code == 0xC0 || precision != 12) then Failed(UnsupportedJpegSamplePrecision)
      else if payload[5] !in [1, 3, 4] then Failed(UnsupportedJpegComponentOrganization)
      else if width * height > limits.pixelCount then Failed(PixelCountLimitExceeded)
      else
        var components := seq(payload[5], i requires 0 <= i < payload[5] => ComponentAt(payload, i));
        if !ComponentsAreValid(components) then Failed(MalformedJpegStructure)
        else Got(Frame(code, precision, width, height, components, encoded))
  }

  predicate IsValidScanHeader(payload: seq<byte>) {
    |payload| >= 4 && payload[0] != 0 && |payload| == 4 + 2 * (payload[0] as int)
  }

  function Guid(payload: seq<byte>): (r: seq<char>)
    requires |payload| >= EXTENDED_HEADER
  {
    seq(32, i requires 0 <= i < 32 => payload[|EXTENDED_XMP| + i] as char)
  }

  /** What an APPn or COM segment adds, or why it is refused. */
  function NoteMetadata(limits: Limits, w: Walk, code: byte, payload: seq<byte>, marker: nat): Try<Walk> {
    var length, at := 4 + |payload|, marker + 4;
    if IsMetadata(code)
       && (w.metadataLength > limits.metadataLength || length > limits.metadataLength - w.metadataLength)
    then Failed(MetadataLengthLimitExceeded)
    else
      var isExtended := code == APP1 && Matches(payload, 0, EXTENDED_XMP);
      var isIcc := code == APP2 && Matches(payload, 0, ICC_PROFILE);
      if isExtended && |payload| < EXTENDED_HEADER then Failed(MalformedImageMetadata)
      else if code == APP2 && Matches(payload, 0, MPF) then Failed(MultiPictureJpegNotSupported)
      else if isIcc && |payload| < 14 then Failed(MalformedImageMetadata)
      else
        Got(w.(
          metadataLength := w.metadataLength + (if IsMetadata(code) then length else 0),
          markers := w.markers + [MarkerReference(code, Range(marker, length), Range(at, |payload|))],
          exif := w.exif + (if code == APP1 && Matches(payload, 0, EXIF)
                            then [Range(at + |EXIF|, |payload| - |EXIF|)] else []),
          xmp := w.xmp + (if code == APP1 && Matches(payload, 0, STANDARD_XMP)
                          then [Range(at + |STANDARD_XMP|, |payload| - |STANDARD_XMP|)] else []),
          icc := w.icc + (if isIcc then [IccChunk(payload[12], payload[13], Range(at + 14, |payload| - 14))] else []),
          extended := w.extended
                      + (if isExtended
                         then [XmpChunk(Guid(payload), NumberAt(payload, 67, 4), NumberAt(payload, 71, 4),
                                        Range(at + EXTENDED_HEADER, |payload| - EXTENDED_HEADER))]
                         else [])))
  }

  /** What a frame or scan header adds, or why it is refused. */
  function NoteHeader(limits: Limits, w: Walk, code: byte, payload: seq<byte>, marker: nat): Try<Walk> {
    if IsSupportedCoding(code) then
      if w.frame.Some? then Failed(MalformedJpegStructure)
      else
        match ParseFrameHeader(limits, code, payload, Range(marker, 4 + |payload|))
        case Failed(error) => Failed(error)
        case Got(frame) => Got(w.(frame := Some(frame)))
    else if IsUnsupportedCoding(code) then Failed(UnsupportedJpegCodingProcess)
    else if code == SOS then
      if w.frame.None? || !IsValidScanHeader(payload) || w.scanCount >= Bytes.U32_LIMIT - 1
      then Failed(MalformedJpegStructure)
      else if IsProgressive(w.frame.value.coding) && w.scanCount >= limits.progressiveScanCount
      then Failed(ProgressiveScanCountLimitExceeded)
      else Got(w.(scanCount := w.scanCount + 1))
    else Got(w)
  }

  /** The walk after one more marker. */
  function Advance(limits: Limits, w: Walk, code: byte, payload: seq<byte>, marker: nat): Try<Walk> {
    if code == TEM then Got(w.(markers := w.markers + [MarkerReference(code, Range(marker, 2), Range(marker + 2, 0))]))
    else
      match NoteMetadata(limits, w, code, payload, marker)
      case Failed(error) => Failed(error)
      case Got(v) => NoteHeader(limits, v, code, payload, marker)
  }

  function RestartReferences(restarts: seq<(int, byte)>): seq<MarkerReference>
    requires forall i | 0 <= i < |restarts| :: restarts[i].0 >= 0
  {
    seq(|restarts|, i requires 0 <= i < |restarts| =>
      MarkerReference(restarts[i].1, Range(restarts[i].0, 2), Range(restarts[i].0 + 2, 0)))
  }

  /** The walk after the entropy-coded data of a scan. */
  function WithEntropy(w: Walk, range: Range, restarts: seq<(int, byte)>): Walk
    requires forall i | 0 <= i < |restarts| :: restarts[i].0 >= 0
  {
    w.(entropy := w.entropy + [range], markers := w.markers + RestartReferences(restarts))
  }

  datatype Outcome = Refused(error: ScanError) | Reached(walk: Walk, endOffset: nat)

  /** The walk from an offset at which a marker is expected, up to the end of the image. */
  function ScanFrom(limits: Limits, bytes: seq<byte>, at: nat, w: Walk): Outcome
    decreases |bytes| - at, 0
  {
    if at >= |bytes| || bytes[at] != FF then Refused(MalformedJpegStructure)
    else
      var j := FillEnd(bytes, at);
      if j == |bytes| then Refused(MalformedJpegStructure) else ScanMarker(limits, bytes, j, w)
  }

  /** The walk from the code of a marker. */
  function ScanMarker(limits: Limits, bytes: seq<byte>, j: nat, w: Walk): Outcome
    requires 0 < j < |bytes|
    decreases |bytes| - j, 0
  {
    var code := bytes[j];
    if code == 0 || code == SOI || IsRestart(code) then Refused(MalformedJpegStructure)
    else if code == EOI then Reached(w, j - 1)
    else
      match SegmentAt(bytes, j)
      case None => Refused(MalformedJpegStructure)
      case Some(payload) =>
        var next := j + 1 + (if code == TEM then 0 else 2 + |payload|);
        match Advance(limits, w, code, payload, j - 1)
        case Failed(error) => Refused(error)
        case Got(v) =>
          if code == SOS then ScanInside(limits, bytes, next, next, v) else ScanFrom(limits, bytes, next, v)
  }

  /** The payload of the marker with this code offset; none when its length field does not fit. */
  function SegmentAt(bytes: seq<byte>, j: nat): (r: Option<seq<byte>>)
    requires j < |bytes|
    ensures r.Some? && bytes[j] != TEM ==> j + 3 + |r.value| <= |bytes|
    ensures bytes[j] == TEM ==> r == Some([])
  {
    if bytes[j] == TEM then Some([])
    else if j + 3 > |bytes| then None
    else
      var length := NumberAt(bytes, j + 1, 2);
      if length < 2 || length > |bytes| - (j + 1) then None else Some(bytes[j + 3..j + 1 + length])
  }

  /** The restart markers from here to the end of the entropy-coded data. */
  function RestartsAhead(bytes: seq<byte>, at: nat): seq<MarkerReference>
    requires at <= |bytes|
  {
    var e := EntropyEnd(bytes, at);
    if e == |bytes| then []
    else
      EntropyEndsInRange(bytes, at);
      RestartReferences(Restarts(bytes, at, e, 0))
  }

  function Resume(limits: Limits, bytes: seq<byte>, start: nat, e: nat, ahead: seq<MarkerReference>, w: Walk): Outcome
    requires start <= e <= |bytes|
    decreases |bytes| - e, 1
  {
    if e == |bytes| then Refused(MalformedJpegStructure)
    else ScanFrom(limits, bytes, e, w.(entropy := w.entropy + [Range(start, e - start)], markers := w.markers + ahead))
  }

  /** What the rest of the walk yields from inside entropy-coded data that started at `start`. */
  function ScanInside(limits: Limits, bytes: seq<byte>, start: nat, at: nat, w: Walk): Outcome
    requires start <= at <= |bytes|
    decreases |bytes| - at, 2
  {
    Resume(limits, bytes, start, EntropyEnd(bytes, at), RestartsAhead(bytes, at), w)
  }

  datatype Inventory = Inventory(
    sourceLength: nat, frame: Frame, scanCount: nat, metadataLength: nat, endOffset: nat,
    markers: seq<MarkerReference>, entropy: seq<Range>, exif: seq<Range>, xmp: seq<Range>,
    icc: seq<IccChunk>, extended: seq<XmpChunk>)

  datatype ScanResult = Rejected(error: ScanError) | Scanned(inventory: Inventory)

  /** The markers as the JUMBF walk sees them. */
  function Payloads(bytes: seq<byte>, markers: seq<MarkerReference>): seq<Marker> {
    seq(|markers|, i requires 0 <= i < |markers| =>
      Marker(markers[i].code, PayloadOf(bytes, markers[i].payload)))
  }

  function PayloadOf(bytes: seq<byte>, range: Range): seq<byte> {
    if range.offset + range.length <= |bytes| then bytes[range.offset..range.offset + range.length] else []
  }

  ghost predicate IccPasses(chunks: seq<IccChunk>) { chunks == [] || IsCompleteProfile(chunks) }

  ghost predicate XmpMayPass(chunks: seq<XmpChunk>) {
    chunks == [] || (HeadersAgree(chunks) && CoverOnce(chunks, chunks[0].total))
  }

  ghost predicate XmpMustPass(chunks: seq<XmpChunk>) { XmpMayPass(chunks) && EmptyChunksLieOutside(chunks) }

  function JumbfError(c: Classification): ScanError
    requires !c.Absent?
  {
    match c
    case Malformed => MalformedImageMetadata
    case C2paManifestStore => ContentCredentialsWouldBeInvalidated
    case UnsupportedJumbf => UnsupportedJumbfMetadata
  }

  /** All markers, with the one that ends the image. */
  function AllMarkers(w: Walk, endOffset: nat): seq<MarkerReference> {
    w.markers + [MarkerReference(EOI, Range(endOffset, 2), Range(endOffset + 2, 0))]
  }

  /** The checks at the end of the image. The result is fixed, unless the order of Extended XMP chunks
      with equal offsets decides. */
  ghost predicate IsVerdict(bytes: seq<byte>, w: Walk, endOffset: nat, r: ScanResult) {
    var jumbf := Concluded(ConsumeAll(START, Payloads(bytes, AllMarkers(w, endOffset))));
    if w.frame.None? || w.scanCount == 0 then r == Rejected(MalformedJpegStructure)
    else if !IccPasses(w.icc) || !XmpMayPass(w.extended) then r == Rejected(MalformedImageMetadata)
    else
      || (!XmpMustPass(w.extended) && r == Rejected(MalformedImageMetadata))
      || (!jumbf.Absent? && r == Rejected(JumbfError(jumbf)))
      || (&& jumbf.Absent? && r.Scanned?
          && r.inventory == Inventory(|bytes|, w.frame.value, w.scanCount, w.metadataLength, endOffset,
                                      AllMarkers(w, endOffset), w.entropy, w.exif, w.xmp, r.inventory.icc,
                                      r.inventory.extended)
          && multiset(r.inventory.icc) == multiset(w.icc)
          && (forall i | 0 <= i < |r.inventory.icc| :: r.inventory.icc[i].sequence as int == i + 1)
          && multiset(r.inventory.extended) == multiset(w.extended)
          && IsContiguous(r.inventory.extended))
  }

  /** What the scanner may answer to these bytes. */
  ghost predicate IsScanOf(limits: Limits, bytes: seq<byte>, r: ScanResult) {
    if |bytes| > limits.fileLength then r == Rejected(EncodedFileTooLarge)
    else if |bytes| < 2 || bytes[0] != FF || bytes[1] != SOI then r == Rejected(MalformedJpegStructure)
    else
      match ScanFrom(limits, bytes, 2, BEGINNING)
      case Refused(error) => r == Rejected(error)
      case Reached(w, endOffset) => IsVerdict(bytes, w, endOffset, r)
  }

  method OrderIcc(chunks: seq<IccChunk>) returns (ok: bool, ordered: seq<IccChunk>)
    ensures ok == IccPasses(chunks) && multiset(ordered) == multiset(chunks)
    ensures ok ==> forall i | 0 <= i < |ordered| :: ordered[i].sequence as int == i + 1
  {
    hide IsCompleteProfile;
    var a := new IccChunk[|chunks|](i requires 0 <= i < |chunks| => chunks[i]);
    assert a[..] == chunks;
    ok := ValidateAndOrderIccProfileChunks(a);
    ordered := a[..];
  }

  method OrderExtendedXmp(chunks: seq<XmpChunk>) returns (ok: bool, ordered: seq<XmpChunk>)
    ensures ok ==> XmpMayPass(chunks)
    ensures XmpMustPass(chunks) ==> ok
    ensures multiset(ordered) == multiset(chunks) && (ok ==> IsContiguous(ordered))
  {
    hide HeadersAgree, CoverOnce, EmptyChunksLieOutside, IsSortedBy;
    var a := new XmpChunk[|chunks|](i requires 0 <= i < |chunks| => chunks[i]);
    assert a[..] == chunks;
    ok := ValidateAndOrderExtendedXmpChunks(a);
    ordered := a[..];
  }

  method Finish(bytes: seq<byte>, w: Walk, endOffset: nat) returns (r: ScanResult)
    ensures IsVerdict(bytes, w, endOffset, r)
  {
    hide IccPasses, XmpMayPass, EmptyChunksLieOutside, ConsumeAll, Concluded, IsContiguous, Payloads;
    if w.frame.None? || w.scanCount == 0 {
      return Rejected(MalformedJpegStructure);
    }
    var ok, icc := OrderIcc(w.icc);
    if !ok {
      return Rejected(MalformedImageMetadata);
    }
    var extended;
    ok, extended := OrderExtendedXmp(w.extended);
    if !ok {
      return Rejected(MalformedImageMetadata);
    }
    var jumbf := ClassifyJumbfEnvelope(Payloads(bytes, AllMarkers(w, endOffset)));
    if !jumbf.Absent? {
      return Rejected(JumbfError(jumbf));
    }
    r := Scanned(Inventory(|bytes|, w.frame.value, w.scanCount, w.metadataLength, endOffset, AllMarkers(w, endOffset),
                           w.entropy, w.exif, w.xmp, icc, extended));
  }

  lemma InsideByte(limits: Limits, bytes: seq<byte>, start: nat, at: nat, w: Walk)
    requires start <= at < |bytes| && bytes[at] != FF
    ensures ScanInside(limits, bytes, start, at, w) == ScanInside(limits, bytes, start, at + 1, w)
  {
    hide ScanFrom, Resume;
  }

  lemma InsideStuffed(limits: Limits, bytes: seq<byte>, start: nat, at: nat, w: Walk)
    requires start <= at < |bytes| && bytes[at] == FF && FillEnd(bytes, at) < |bytes| && bytes[FillEnd(bytes, at)] == 0
    ensures ScanInside(limits, bytes, start, at, w) == ScanInside(limits, bytes, start, FillEnd(bytes, at) + 1, w)
  {
    hide ScanFrom, Resume;
  }

  lemma AheadShrinks(bytes: seq<byte>, at: nat)
    requires at < |bytes| && bytes[at] == FF && FillEnd(bytes, at) < |bytes| && IsRestart(bytes[FillEnd(bytes, at)])
    ensures EntropyEnd(bytes, FillEnd(bytes, at) + 1) == EntropyEnd(bytes, at)
    ensures EntropyEnd(bytes, at) < |bytes|
            ==> RestartsAhead(bytes, at) == [RestartAt(bytes, at)] + RestartsAhead(bytes, FillEnd(bytes, at) + 1)
  {
    var j, e := FillEnd(bytes, at), EntropyEnd(bytes, at);
    EntropyGoesOn(bytes, at);
    if e < |bytes| {
      EntropyEndsInRange(bytes, at);
      EntropyEndsInRange(bytes, j + 1);
      RestartIsFirst(bytes, at, e);
      hide EntropyEnd, IsEntropyRange, FillEnd, Restarts, RestartReferences;
      ReferencesInParts(j - 1, bytes[j], Restarts(bytes, j + 1, e, 0));
    }
  }

  lemma EntropyGoesOn(bytes: seq<byte>, at: nat)
    requires at < |bytes| && bytes[at] == FF && FillEnd(bytes, at) < |bytes| && IsInside(bytes[FillEnd(bytes, at)])
    ensures EntropyEnd(bytes, at) == EntropyEnd(bytes, FillEnd(bytes, at) + 1)
  {
    hide FillEnd;
  }

  lemma RestartIsFirst(bytes: seq<byte>, at: nat, e: nat)
    requires at < e <= |bytes| && IsEntropyRange(bytes, at, e) && bytes[at] == FF
    requires FillEnd(bytes, at) < |bytes| && IsRestart(bytes[FillEnd(bytes, at)])
    ensures FillEnd(bytes, at) < e && IsEntropyRange(bytes, FillEnd(bytes, at) + 1, e)
    ensures Restarts(bytes, at, e, 0)
         == [(FillEnd(bytes, at) - 1, bytes[FillEnd(bytes, at)])] + Restarts(bytes, FillEnd(bytes, at) + 1, e, 0)
  {
    hide FillEnd;
  }

  lemma ReferencesInParts(offset: nat, code: byte, rest: seq<(int, byte)>)
    requires forall i | 0 <= i < |rest| :: rest[i].0 >= 0
    ensures RestartReferences([(offset, code)] + rest)
         == [MarkerReference(code, Range(offset, 2), Range(offset + 2, 0))] + RestartReferences(rest)
  {
  }

  function RestartAt(bytes: seq<byte>, at: nat): MarkerReference
    requires at < |bytes| && bytes[at] == FF && FillEnd(bytes, at) < |bytes|
  {
    var j := FillEnd(bytes, at);
    MarkerReference(bytes[j], Range(j - 1, 2), Range(j + 1, 0))
  }

  lemma ResumeMoves(limits: Limits, bytes: seq<byte>, start: nat, e: nat, m: MarkerReference,
                    ahead: seq<MarkerReference>, w: Walk)
    requires start <= e <= |bytes|
    ensures Resume(limits, bytes, start, e, [m] + ahead, w)
         == Resume(limits, bytes, start, e, ahead, w.(markers := w.markers + [m]))
  {
    hide ScanFrom;
    assert w.markers + ([m] + ahead) == (w.markers + [m]) + ahead;
  }

  lemma ResumeNowhere(limits: Limits, bytes: seq<byte>, start: nat, ahead: seq<MarkerReference>, w: Walk)
    requires start <= |bytes|
    ensures Resume(limits, bytes, start, |bytes|, ahead, w) == Refused(MalformedJpegStructure)
  {
  }

  lemma InsideRestart(limits: Limits, bytes: seq<byte>, start: nat, at: nat, w: Walk)
    requires start <= at < |bytes| && bytes[at] == FF && FillEnd(bytes, at) < |bytes|
    requires IsRestart(bytes[FillEnd(bytes, at)])
    ensures ScanInside(limits, bytes, start, at, w)
            == ScanInside(limits, bytes, start, FillEnd(bytes, at) + 1,
                          w.(markers := w.markers + [RestartAt(bytes, at)]))
  {
    hide ScanFrom, EntropyEnd, RestartsAhead, RestartAt, FillEnd, Resume, IsRestart;
    AheadShrinks(bytes, at);
    var j, e := FillEnd(bytes, at), EntropyEnd(bytes, at);
    if e < |bytes| {
      ResumeMoves(limits, bytes, start, e, RestartAt(bytes, at), RestartsAhead(bytes, j + 1), w);
    } else {
      ResumeNowhere(limits, bytes, start, RestartsAhead(bytes, at), w);
      ResumeNowhere(limits, bytes, start, RestartsAhead(bytes, j + 1),
                    w.(markers := w.markers + [RestartAt(bytes, at)]));
    }
  }

  lemma NothingAhead(bytes: seq<byte>, at: nat)
    requires at < |bytes| && bytes[at] == FF && FillEnd(bytes, at) < |bytes| && !IsInside(bytes[FillEnd(bytes, at)])
    ensures EntropyEnd(bytes, at) == at && RestartsAhead(bytes, at) == []
  {
  }

  lemma InsideEnds(limits: Limits, bytes: seq<byte>, start: nat, at: nat, w: Walk)
    requires start <= at < |bytes| && bytes[at] == FF && FillEnd(bytes, at) < |bytes|
    requires !IsInside(bytes[FillEnd(bytes, at)])
    ensures ScanInside(limits, bytes, start, at, w)
         == ScanFrom(limits, bytes, FillEnd(bytes, at) - 1, w.(entropy := w.entropy + [Range(start, at - start)]))
  {
    var v := w.(entropy := w.entropy + [Range(start, at - start)]);
    NothingAhead(bytes, at);
    MarkerInFill(limits, bytes, at, v);
    hide ScanFrom, EntropyEnd, RestartsAhead, FillEnd;
    assert v.markers + [] == v.markers;
    assert v == v.(markers := v.markers + []);
  }

  lemma InsideNeedsMarker(limits: Limits, bytes: seq<byte>, start: nat, at: nat, w: Walk)
    requires start <= at <= |bytes| && (at == |bytes| || (bytes[at] == FF && FillEnd(bytes, at) == |bytes|))
    ensures ScanInside(limits, bytes, start, at, w) == Refused(MalformedJpegStructure)
  {
    hide ScanFrom;
  }

  lemma ScanStep(limits: Limits, bytes: seq<byte>, at: nat, w: Walk)
    requires at < |bytes| && bytes[at] == FF && FillEnd(bytes, at) < |bytes|
    ensures FillEnd(bytes, at) > at
    ensures ScanFrom(limits, bytes, at, w) == ScanMarker(limits, bytes, FillEnd(bytes, at), w)
  {
    hide ScanMarker;
  }

  lemma ScanNeedsPrefix(limits: Limits, bytes: seq<byte>, at: nat, w: Walk)
    requires at >= |bytes| || bytes[at] != FF || FillEnd(bytes, at) == |bytes|
    ensures ScanFrom(limits, bytes, at, w) == Refused(MalformedJpegStructure)
  {
  }

  lemma MarkerInFill(limits: Limits, bytes: seq<byte>, at: nat, w: Walk)
    requires at < |bytes| && bytes[at] == FF && FillEnd(bytes, at) < |bytes|
    ensures ScanFrom(limits, bytes, at, w) == ScanFrom(limits, bytes, FillEnd(bytes, at) - 1, w)
  {
    FillIsFill(bytes, at);
    assert FillEnd(bytes, at) > at;
    FillEndIs(bytes, FillEnd(bytes, at) - 1, FillEnd(bytes, at));
    hide ScanFrom, FillEnd, ScanMarker;
    ScanStep(limits, bytes, at, w);
    ScanStep(limits, bytes, FillEnd(bytes, at) - 1, w);
  }

  /** The loop: one cursor, which walks through entropy-coded data byte by byte. */
  method FollowMarkers(limits: Limits, bytes: seq<byte>) returns (r: Outcome)
    requires |bytes| >= 2
    ensures r == ScanFrom(limits, bytes, 2, BEGINNING)
  {
    hide ScanFrom, ScanInside, Advance, SegmentAt, FillEnd;
    var walk, cursor, inEntropy, start := BEGINNING, 2, false, 2;
    while cursor < |bytes|
      invariant 2 <= start <= |bytes| && 2 <= cursor <= |bytes|
      invariant !inEntropy ==> ScanFrom(limits, bytes, cursor, walk) == ScanFrom(limits, bytes, 2, BEGINNING)
      invariant inEntropy ==>
                  start <= cursor
                  && ScanInside(limits, bytes, start, cursor, walk) == ScanFrom(limits, bytes, 2, BEGINNING)
      decreases |bytes| - cursor, inEntropy
    {
      if inEntropy && bytes[cursor] != FF {
        InsideByte(limits, bytes, start, cursor, walk);
        cursor := cursor + 1;
        continue;
      }
      if bytes[cursor] != FF {
        ScanNeedsPrefix(limits, bytes, cursor, walk);
        return Refused(MalformedJpegStructure);
      }
      var code := SkipFill(bytes, cursor);
      if code == |bytes| {
        if inEntropy {
          InsideNeedsMarker(limits, bytes, start, cursor, walk);
        } else {
          ScanNeedsPrefix(limits, bytes, cursor, walk);
        }
        return Refused(MalformedJpegStructure);
      }
      if inEntropy {
        if bytes[code] == 0 {
          InsideStuffed(limits, bytes, start, cursor, walk);
          cursor := code + 1;
        } else if IsRestart(bytes[code]) {
          InsideRestart(limits, bytes, start, cursor, walk);
          var restart := MarkerReference(bytes[code], Range(code - 1, 2), Range(code + 1, 0));
          walk := walk.(markers := walk.markers + [restart]);
          cursor := code + 1;
        } else {
          InsideEnds(limits, bytes, start, cursor, walk);
          walk := walk.(entropy := walk.entropy + [Range(start, cursor - start)]);
          inEntropy, cursor := false, code - 1;
        }
        continue;
      }
      ScanStep(limits, bytes, cursor, walk);
      if bytes[code] == 0 || bytes[code] == SOI || IsRestart(bytes[code]) {
        return Refused(MalformedJpegStructure);
      }
      if bytes[code] == EOI {
        return Reached(walk, code - 1);
      }
      var segment := SegmentAt(bytes, code);
      if segment.None? {
        return Refused(MalformedJpegStructure);
      }
      var advanced := Advance(limits, walk, bytes[code], segment.value, code - 1);
      if advanced.Failed? {
        return Refused(advanced.error);
      }
      walk := advanced.value;
      cursor := code + 1 + (if bytes[code] == TEM then 0 else 2 + |segment.value|);
      if bytes[code] == SOS {
        inEntropy, start := true, cursor;
      }
    }
    if inEntropy {
      InsideNeedsMarker(limits, bytes, start, cursor, walk);
    } else {
      ScanNeedsPrefix(limits, bytes, cursor, walk);
    }
    r := Refused(MalformedJpegStructure);
  }

  /** The scanner. */
  method Scan(limits: Limits, bytes: seq<byte>) returns (r: ScanResult)
    ensures IsScanOf(limits, bytes, r)
  {
    if |bytes| > limits.fileLength {
      return Rejected(EncodedFileTooLarge);
    }
    if |bytes| < 2 || bytes[0] != FF || bytes[1] != SOI {
      return Rejected(MalformedJpegStructure);
    }
    hide ScanFrom, IsVerdict;
    var outcome := FollowMarkers(limits, bytes);
    match outcome
    case Refused(error) => r := Rejected(error);
    case Reached(walk, endOffset) => r := Finish(bytes, walk, endOffset);
  }

  method SkipFill(bytes: seq<byte>, cursor: nat) returns (code: nat)
    requires cursor < |bytes| && bytes[cursor] == FF
    ensures code == FillEnd(bytes, cursor)
  {
    code := cursor + 1;
    while code < |bytes| && bytes[code] == FF
      invariant cursor < code <= |bytes| && FillEnd(bytes, cursor) == FillEnd(bytes, code)
    {
      code := code + 1;
    }
  }
}
