/** From source to output: whatever the writer makes of a scannable source is valid by itself, so the spliced
    output rescans and passes the validator. */
module OutputPipeline {
  import opened Bytes
  import opened JpegSyntax
  import opened ChunkOrder
  import opened XmpOrder
  import opened Jumbf
  import JumbfTransport
  import JumbfRecognition
  import opened JpegScanner
  import opened JpegGrammar
  import opened JpegTiling
  import opened JpegSplice
  import opened JpegRescan
  import opened MetadataReconciler
  import opened MetadataValidator

  /** The ICC chunk that a segment carries, without its place. */
  function IccIn(m: Marker): seq<IccChunk> {
    if Is(m, APP2, ICC_PROFILE) && |m.payload| >= 14
    then [IccChunk(m.payload[12], m.payload[13], Range(0, |m.payload| - 14))] else []
  }

  /** The Extended XMP chunk that a segment carries, without its place. */
  function ExtendedIn(m: Marker): seq<XmpChunk> {
    if Is(m, APP1, EXTENDED_XMP) && |m.payload| >= EXTENDED_HEADER
    then [XmpChunk(Guid(m.payload), NumberAt(m.payload, 67, 4), NumberAt(m.payload, 71, 4),
                   Range(0, |m.payload| - EXTENDED_HEADER))]
    else []
  }

  /** Neither refused as a multi-picture segment nor too short for its chunk header. */
  predicate IsAcceptable(m: Marker) {
    && !Is(m, APP2, MPF)
    && (Is(m, APP2, ICC_PROFILE) ==> |m.payload| >= 14)
    && (Is(m, APP1, EXTENDED_XMP) ==> |m.payload| >= EXTENDED_HEADER)
  }

  function IccOf(markers: seq<Marker>): seq<IccChunk> {
    if markers == [] then [] else IccOf(markers[..|markers| - 1]) + IccIn(markers[|markers| - 1])
  }

  function ExtendedOf(markers: seq<Marker>): seq<XmpChunk> {
    if markers == [] then [] else ExtendedOf(markers[..|markers| - 1]) + ExtendedIn(markers[|markers| - 1])
  }

  predicate AreAcceptable(markers: seq<Marker>) {
    forall i | 0 <= i < |markers| :: IsAcceptable(markers[i])
  }

  function StripIcc(chunks: seq<IccChunk>): seq<IccChunk> {
    seq(|chunks|, i requires 0 <= i < |chunks| => chunks[i].(data := Range(0, chunks[i].data.length)))
  }

  function StripXmp(chunks: seq<XmpChunk>): seq<XmpChunk> {
    seq(|chunks|, i requires 0 <= i < |chunks| => chunks[i].(data := Range(0, chunks[i].data.length)))
  }

  lemma {:induction false} TotalIgnoresPlace(chunks: seq<IccChunk>)
    ensures TotalLength(StripIcc(chunks)) == TotalLength(chunks)
  {
    if chunks != [] {
      assert StripIcc(chunks)[..|chunks| - 1] == StripIcc(chunks[..|chunks| - 1]);
      TotalIgnoresPlace(chunks[..|chunks| - 1]);
    }
  }

  lemma OccursIgnoresPlace(chunks: seq<IccChunk>, k: int)
    ensures Occurs(StripIcc(chunks), k) <==> Occurs(chunks, k)
  {
    if Occurs(chunks, k) {
      var i :| 0 <= i < |chunks| && chunks[i].sequence as int == k;
      assert StripIcc(chunks)[i].sequence as int == k;
    }
    if Occurs(StripIcc(chunks), k) {
      var i :| 0 <= i < |chunks| && StripIcc(chunks)[i].sequence as int == k;
      assert chunks[i].sequence as int == k;
    }
  }

  lemma IccIgnoresPlace(chunks: seq<IccChunk>)
    ensures IccPasses(StripIcc(chunks)) <==> IccPasses(chunks)
  {
    hide Occurs;
    var stripped := StripIcc(chunks);
    TotalIgnoresPlace(chunks);
    forall k
      ensures Occurs(stripped, k) <==> Occurs(chunks, k)
    {
      OccursIgnoresPlace(chunks, k);
    }
    assert forall i | 0 <= i < |chunks| :: stripped[i].count == chunks[i].count;
  }

  lemma {:induction false} CoveringIgnoresPlace(chunks: seq<XmpChunk>, o: int)
    ensures Covering(StripXmp(chunks), o) == Covering(chunks, o)
  {
    if chunks != [] {
      assert StripXmp(chunks)[..|chunks| - 1] == StripXmp(chunks[..|chunks| - 1]);
      CoveringIgnoresPlace(chunks[..|chunks| - 1], o);
    }
  }

  lemma HeadersIgnorePlace(chunks: seq<XmpChunk>)
    ensures HeadersAgree(StripXmp(chunks)) <==> HeadersAgree(chunks)
    ensures EmptyChunksLieOutside(StripXmp(chunks)) <==> EmptyChunksLieOutside(chunks)
  {
    hide IsValidGuid;
    var stripped := StripXmp(chunks);
    assert forall i | 0 <= i < |chunks| ::
             stripped[i].guid == chunks[i].guid && stripped[i].total == chunks[i].total
             && stripped[i].offset == chunks[i].offset && stripped[i].data.length == chunks[i].data.length;
    if EmptyChunksLieOutside(stripped) {
      forall i, j | 0 <= i < |chunks| && 0 <= j < |chunks| && chunks[i].data.length == 0
        ensures Covers(chunks[j], chunks[i].offset) == 0
      {
        assert Covers(stripped[j], stripped[i].offset) == 0;
      }
    }
    if EmptyChunksLieOutside(chunks) {
      forall i, j | 0 <= i < |chunks| && 0 <= j < |chunks| && stripped[i].data.length == 0
        ensures Covers(stripped[j], stripped[i].offset) == 0
      {
        assert Covers(chunks[j], chunks[i].offset) == 0;
      }
    }
  }

  lemma XmpIgnoresPlace(chunks: seq<XmpChunk>)
    ensures XmpMayPass(StripXmp(chunks)) <==> XmpMayPass(chunks)
    ensures XmpMustPass(StripXmp(chunks)) <==> XmpMustPass(chunks)
  {
    hide HeadersAgree, EmptyChunksLieOutside;
    HeadersIgnorePlace(chunks);
    if chunks != [] {
      forall o
        ensures Covering(StripXmp(chunks), o) == Covering(chunks, o)
      {
        CoveringIgnoresPlace(chunks, o);
      }
    }
  }

  lemma {:induction false} InfosInParts(a: seq<Marker>, b: seq<Marker>)
    ensures IccOf(a + b) == IccOf(a) + IccOf(b)
    ensures ExtendedOf(a + b) == ExtendedOf(a) + ExtendedOf(b)
  {
    hide IccIn, ExtendedIn;
    if b == [] {
      assert a + b == a;
    } else {
      var front, last := b[..|b| - 1], b[|b| - 1];
      assert (a + b)[..|a + b| - 1] == a + front;
      InfosInParts(a, front);
      JoinIsAssociative(IccOf(a), IccOf(front), IccIn(last));
      JoinIsAssociative(ExtendedOf(a), ExtendedOf(front), ExtendedIn(last));
    }
  }

  lemma InfosOfOne(m: Marker)
    ensures IccOf([m]) == IccIn(m) && ExtendedOf([m]) == ExtendedIn(m)
  {
    assert [m][..0] == [];
  }

  /** What the scanner notes of a segment is what the segment carries. */
  lemma NotedIsCarried(limits: Limits, w: Walk, m: Marker, marker: nat)
    requires NoteMetadata(limits, w, m.code, m.payload, marker).Got?
    ensures var v := NoteMetadata(limits, w, m.code, m.payload, marker).value;
            && IsAcceptable(m)
            && StripIcc(v.icc) == StripIcc(w.icc) + IccIn(m)
            && StripXmp(v.extended) == StripXmp(w.extended) + ExtendedIn(m)
  {
    hide Matches, Guid, NumberAt;
  }

  lemma AcceptableIsNoted(limits: Limits, w: Walk, m: Marker, marker: nat)
    requires IsAcceptable(m) && w.metadataLength + 4 + |m.payload| <= limits.metadataLength
    ensures NoteMetadata(limits, w, m.code, m.payload, marker).Got?
  {
    hide Matches, Guid, NumberAt;
  }

  lemma HeadersCarryNothing(limits: Limits, w: Walk, code: byte, payload: seq<byte>, marker: nat)
    requires NoteHeader(limits, w, code, payload, marker).Got?
    ensures var v := NoteHeader(limits, w, code, payload, marker).value;
            v.icc == w.icc && v.extended == w.extended && v.metadataLength == w.metadataLength
  {
    hide ParseFrameHeader, IsValidScanHeader;
  }

  lemma PartIsCarried(limits: Limits, w: Walk, p: Part, at: nat)
    requires IsWellFormed(p) && AdvancePart(limits, w, p, at).Got?
    ensures var v, m := AdvancePart(limits, w, p, at).value, Marker(p.code, p.payload);
            && (p.code != TEM ==> IsAcceptable(m))
            && StripIcc(v.icc) == StripIcc(w.icc) + (if IsMetadata(p.code) then IccIn(m) else [])
            && StripXmp(v.extended) == StripXmp(w.extended) + (if IsMetadata(p.code) then ExtendedIn(m) else [])
  {
    var m := Marker(p.code, p.payload);
    if p.code != TEM {
      NotedIsCarried(limits, w, m, at + p.fill);
      var u := NoteMetadata(limits, w, p.code, p.payload, at + p.fill).value;
      HeadersCarryNothing(limits, u, p.code, p.payload, at + p.fill);
    }
    hide NoteMetadata, NoteHeader, IsAcceptable, StripIcc, StripXmp, Restarts, IsEntropyRange;
    if !IsMetadata(p.code) {
      assert IccIn(m) == [] && ExtendedIn(m) == [];
      assert StripIcc(w.icc) + [] == StripIcc(w.icc) && StripXmp(w.extended) + [] == StripXmp(w.extended);
    }
  }

  /** What the walk over some parts has noted is what their metadata carries. */
  ghost predicate IsCarried(w: Walk, markers: seq<Marker>) {
    && AreAcceptable(markers)
    && StripIcc(w.icc) == IccOf(markers)
    && StripXmp(w.extended) == ExtendedOf(markers)
  }

  lemma OneMoreIsCarried(w: Walk, v: Walk, before: seq<Marker>, m: Marker)
    requires IsCarried(w, before) && IsAcceptable(m)
    requires StripIcc(v.icc) == StripIcc(w.icc) + IccIn(m)
    requires StripXmp(v.extended) == StripXmp(w.extended) + ExtendedIn(m)
    ensures IsCarried(v, before + [m])
  {
    hide IsAcceptable, IccIn, ExtendedIn, StripIcc, StripXmp;
    assert (before + [m])[..|before|] == before;
  }

  lemma {:induction false} WalkIsCarried(limits: Limits, parts: seq<Part>)
    requires AreWellFormed(parts) && WalkAll(limits, parts).Got?
    ensures IsCarried(WalkAll(limits, parts).value, OnlyMetadata(Seen(parts)))
  {
    hide IsWellFormed, AdvancePart, IsAcceptable, IccIn, ExtendedIn, SeenIn, IsMetadata, IsCarried, PrintMarker,
      OnlyMetadata;
    if parts == [] {
      NothingIsCarried();
    } else {
      var front, p := parts[..|parts| - 1], parts[|parts| - 1];
      assert parts == front + [p] && IsWellFormed(p);
      WalkIsCarried(limits, front);
      StepIsWalked(limits, parts);
      PartsGrow(front, p);
      hide WalkAll, Seen;
      PartIsCarriedOn(limits, WalkAll(limits, front).value, p, OffsetOf(parts, |front|), OnlyMetadata(Seen(front)));
      OnlyMetadataInParts(Seen(front), SeenIn(p));
    }
  }

  lemma PartIsCarriedOn(limits: Limits, w: Walk, p: Part, at: nat, before: seq<Marker>)
    requires IsWellFormed(p) && AdvancePart(limits, w, p, at).Got? && IsCarried(w, before)
    ensures IsCarried(AdvancePart(limits, w, p, at).value, before + OnlyMetadata(SeenIn(p)))
  {
    hide AdvancePart, StripIcc, StripXmp, AreAcceptable, IccOf, ExtendedOf, IsAcceptable, IccIn, ExtendedIn;
    var v, m := AdvancePart(limits, w, p, at).value, Marker(p.code, p.payload);
    PartIsCarried(limits, w, p, at);
    MetadataSeenIn(p);
    if IsMetadata(p.code) {
      OneMoreIsCarried(w, v, before, m);
    } else {
      assert before + [] == before;
      assert StripIcc(w.icc) + [] == StripIcc(w.icc) && StripXmp(w.extended) + [] == StripXmp(w.extended);
    }
  }

  lemma NothingIsCarried()
    ensures IsCarried(BEGINNING, OnlyMetadata([]))
  {
  }

  lemma MetadataSeenIn(p: Part)
    requires IsWellFormed(p)
    ensures OnlyMetadata(SeenIn(p)) == if IsMetadata(p.code) then [Marker(p.code, p.payload)] else []
    ensures IsMetadata(p.code) ==> p.code != TEM
  {
    if IsMetadata(p.code) {
      MetadataIsSeenAlone(p);
    } else {
      OneSeen(p);
      NoMetadata(SeenIn(p));
    }
  }

  lemma SegmentIsWalked(limits: Limits, w: Walk, p: Part, at: nat)
    requires IsWellFormed(p) && IsMetadata(p.code) && IsAcceptable(Marker(p.code, p.payload))
    requires w.metadataLength + MarkerLength(p) <= limits.metadataLength
    ensures AdvancePart(limits, w, p, at).Got?
    ensures AdvancePart(limits, w, p, at).value.metadataLength == w.metadataLength + MarkerLength(p)
  {
    AcceptableIsNoted(limits, w, Marker(p.code, p.payload), at + p.fill);
    hide Matches, Guid, NumberAt;
  }

  /** Acceptable segments within the limit are walked. */
  lemma {:induction false} SegmentsAreWalked(limits: Limits, segments: seq<Part>)
    requires AreMetadata(segments) && AreAcceptable(Seen(segments)) && MetadataTotal(segments) <= limits.metadataLength
    ensures WalkAll(limits, segments).Got?
    ensures WalkAll(limits, segments).value.metadataLength == MetadataTotal(segments)
  {
    hide IsWellFormed, AdvancePart, IsAcceptable, SeenIn, IsMetadata, MarkerLength;
    if segments != [] {
      var front, p := segments[..|segments| - 1], segments[|segments| - 1];
      assert IsWellFormed(p);
      AllMetadata(segments);
      assert IsAcceptable(Seen(segments)[|front|]);
      assert forall i | 0 <= i < |Seen(front)| :: Seen(front)[i] == Seen(segments)[i];
      SegmentsAreWalked(limits, front);
      SegmentIsWalked(limits, WalkAll(limits, front).value, p, OffsetOf(segments, |front|));
    }
  }

  lemma IdentifierStarts(m: Marker, identifier: seq<byte>, i: nat)
    requires Matches(m.payload, 0, identifier) && i < |identifier|
    ensures |m.payload| > i && m.payload[i] == identifier[i]
  {
    assert m.payload[0..|identifier|][i] == m.payload[i];
  }

  /** Segments that the writer rewrites or drops carry neither chunks nor fragments, before and after. */
  predicate CarriesNothing(m: Marker) {
    IccIn(m) == [] && ExtendedIn(m) == [] && IsAcceptable(m) && !IsJumbFragment(m)
  }

  lemma RewritableCarriesNothing(m: Marker)
    requires IsExif(m) || IsXmp(m) || IsJfif(m) || IsJfxx(m) || IsPhotoshop(m)
    ensures CarriesNothing(m)
  {
    if Is(m, APP1, EXTENDED_XMP) {
      IdentifierStarts(m, EXTENDED_XMP, 0);
      IdentifierStarts(m, EXTENDED_XMP, 21);
      if IsExif(m) {
        IdentifierStarts(m, EXIF, 0);
      }
      if IsXmp(m) {
        IdentifierStarts(m, STANDARD_XMP, 21);
      }
    }
  }

  /** An edited segment carries what it carried, stays acceptable, and is a fragment only if it was. */
  lemma EditCarriesSame(codecs: Codecs, plan: Plan, m: Marker)
    requires !EditOf(codecs, plan, m).Refuse? && IsAcceptable(m) && !IsJumbFragment(m)
    ensures var edit := EditOf(codecs, plan, m);
            && (edit.Drop? ==> CarriesNothing(m))
            && (edit.Replace? ==> CarriesNothing(m) && CarriesNothing(Marker(m.code, edit.payload)))
  {
    var edit := EditOf(codecs, plan, m);
    hide CarriesNothing, IsAcceptable, IsJumbFragment, IsValidJfxx, PhotoshopOf, RecordLength;
    if edit.Drop? {
      RewritableCarriesNothing(m);
    } else if edit.Replace? {
      RewritableCarriesNothing(m);
      ReplacementKeepsIdentifier(codecs, plan, m);
      RewritableCarriesNothing(Marker(m.code, edit.payload));
    }
  }

  lemma ReplacementKeepsIdentifier(codecs: Codecs, plan: Plan, m: Marker)
    requires EditOf(codecs, plan, m).Replace?
    ensures var out := Marker(m.code, EditOf(codecs, plan, m).payload);
            IsExif(out) || IsXmp(out) || IsJfif(out) || IsPhotoshop(out)
  {
    var edit := EditOf(codecs, plan, m);
    hide IsValidJfxx;
    if IsExif(m) {
      assert edit.payload[0..|EXIF|] == m.payload[0..|EXIF|];
    } else if IsXmp(m) {
      assert edit.payload[0..|STANDARD_XMP|] == m.payload[0..|STANDARD_XMP|];
    } else if IsJfif(m) {
      assert edit.payload[0..|JFIF|] == m.payload[0..|JFIF|];
    } else {
      assert edit.payload[0..|PHOTOSHOP|] == m.payload[0..|PHOTOSHOP|];
    }
  }

  predicate AreOpaque(markers: seq<Marker>) {
    forall i | 0 <= i < |markers| :: !IsJumbFragment(markers[i])
  }

  /** The edition carries the chunks of the source, and no fragment. */
  lemma {:induction false} EditionCarriesSame(codecs: Codecs, plan: Plan, source: seq<Marker>)
    requires AreAcceptable(source) && AreOpaque(source) && Edited(codecs, plan, source).Some?
    ensures var segments := Edited(codecs, plan, source).value.segments;
            && IccOf(segments) == IccOf(source) && ExtendedOf(segments) == ExtendedOf(source)
            && AreAcceptable(segments) && AreOpaque(segments)
  {
    hide EditOf, IsAcceptable, IsJumbFragment, IccIn, ExtendedIn, CarriesNothing;
    if source != [] {
      var m, edit, rest := source[0], EditOf(codecs, plan, source[0]), source[1..];
      assert source == [m] + rest;
      EditionCarriesSame(codecs, plan, rest);
      EditCarriesSame(codecs, plan, m);
      InfosInParts([m], rest);
      InfosOfOne(m);
      var e := Edited(codecs, plan, rest).value;
      if edit.Drop? {
        NothingCarried(m);
        assert [] + IccOf(rest) == IccOf(rest) && [] + ExtendedOf(rest) == ExtendedOf(rest);
      } else {
        var out := if edit.Keep? then m else Marker(m.code, edit.payload);
        if edit.Replace? {
          NothingCarried(m);
          NothingCarried(out);
        }
        InfosInParts([out], e.segments);
        InfosOfOne(out);
      }
    }
  }

  lemma NothingCarried(m: Marker)
    requires CarriesNothing(m)
    ensures IccIn(m) == [] && ExtendedIn(m) == [] && IsAcceptable(m) && !IsJumbFragment(m)
  {
  }

  lemma {:induction false} NoBoxesAllOpaque(items: seq<JumbfTransport.Item>)
    requires JumbfTransport.AreWellFormed(items) && JumbfTransport.Boxes(items) == []
    ensures AreOpaque(JumbfTransport.Flattened(items))
  {
    if items != [] {
      NoBoxesAllOpaque(items[..|items| - 1]);
    }
  }

  /** No JUMBF at all, as the scanner classifies it, means no fragment at all. */
  lemma AbsentMeansOpaque(markers: seq<Marker>)
    requires Concluded(ConsumeAll(START, markers)).Absent?
    ensures AreOpaque(markers)
  {
    JumbfRecognition.ClassificationIsExact(markers);
    var items :| JumbfRecognition.IsTransport(markers, items);
    NoBoxesAllOpaque(items);
  }

  lemma {:induction false} OpaqueMeansAbsent(markers: seq<Marker>)
    requires AreOpaque(markers)
    ensures ConsumeAll(START, markers) == START
  {
    if markers != [] {
      OpaqueMeansAbsent(markers[..|markers| - 1]);
    }
  }

  lemma {:induction false} MetadataAreMarkers(markers: seq<Marker>)
    ensures forall m :: m in OnlyMetadata(markers) ==> m in markers && IsMetadata(m.code)
  {
    if markers != [] {
      MetadataAreMarkers(markers[..|markers| - 1]);
    }
  }

  /** The metadata segments of a scanned source. */
  function SourceSegments(source: seq<byte>, v: Inventory): seq<Marker> {
    OnlyMetadata(Payloads(source, v.markers))
  }

  lemma ScanChecks(limits: Limits, bytes: seq<byte>, r: ScanResult)
    requires IsScanOf(limits, bytes, r) && r.Scanned?
    ensures ScanFrom(limits, bytes, 2, BEGINNING).Reached?
    ensures var w := ScanFrom(limits, bytes, 2, BEGINNING).walk;
            && IccPasses(w.icc) && XmpMayPass(w.extended) && multiset(r.inventory.extended) == multiset(w.extended)
            && Concluded(ConsumeAll(START, Payloads(bytes, r.inventory.markers))).Absent?
  {
    hide ScanFrom, IccPasses, XmpMayPass, EmptyChunksLieOutside, Payloads, ConsumeAll, Concluded, IsContiguous;
  }

  lemma XmpMustPassOfOrder(chunks: seq<XmpChunk>, ordered: seq<XmpChunk>)
    requires XmpMayPass(chunks) && multiset(ordered) == multiset(chunks) && EmptyChunksLieOutside(ordered)
    ensures XmpMustPass(chunks)
  {
    hide HeadersAgree, CoverOnce, EmptyChunksLieOutside;
    PermutationKeepsAll(chunks, ordered);
    if chunks == [] {
      NothingLiesOutside(chunks);
    } else {
      HeadersOfPermutation(chunks, ordered);
      HeadersOfPermutation(ordered, chunks);
    }
  }

  lemma NothingLiesOutside(chunks: seq<XmpChunk>)
    requires chunks == []
    ensures EmptyChunksLieOutside(chunks)
  {
  }

  /** What a successful scan says about the metadata segments of the source. */
  lemma SourceIsCarried(limits: Limits, source: seq<byte>, scanned: ScanResult)
    requires IsScanOf(limits, source, scanned) && scanned.Scanned?
    ensures var segments := SourceSegments(source, scanned.inventory);
            && AreAcceptable(segments) && AreOpaque(segments)
            && (forall i | 0 <= i < |segments| :: IsMetadata(segments[i].code))
            && IccPasses(IccOf(segments))
            && (EmptyChunksLieOutside(scanned.inventory.extended) ==> XmpMustPass(ExtendedOf(segments)))
  {
    hide IsScanOf, ScanFrom, IccPasses, XmpMayPass, XmpMustPass, EmptyChunksLieOutside, ConsumeAll, Concluded, Encoded,
      WalkAll, Payloads, IsAcceptable, IsJumbFragment, IsMetadata, Seen;
    InventoryIsOfWalk(limits, source, scanned);
    ScanChecks(limits, source, scanned);
    var c := ScanIsRead(limits, source);
    InventoryReadsBack(limits, c, scanned);
    var w, markers := WalkAll(limits, c.parts).value, Payloads(source, scanned.inventory.markers);
    SeenMetadata(Seen(c.parts));
    WalkIsCarried(limits, c.parts);
    IccIgnoresPlace(w.icc);
    XmpIgnoresPlace(w.extended);
    if EmptyChunksLieOutside(scanned.inventory.extended) {
      XmpMustPassOfOrder(w.extended, scanned.inventory.extended);
    }
    AbsentMeansOpaque(markers);
    MetadataAreMarkers(markers);
    SomeAreOpaque(markers, OnlyMetadata(markers));
  }

  lemma SeenMetadata(seen: seq<Marker>)
    ensures OnlyMetadata([Marker(SOI, [])] + seen + [Marker(EOI, [])]) == OnlyMetadata(seen)
  {
    MetadataBetween(seen, []);
    assert seen + [] == seen;
  }

  lemma SomeAreOpaque(markers: seq<Marker>, some: seq<Marker>)
    requires AreOpaque(markers) && forall m :: m in some ==> m in markers && IsMetadata(m.code)
    ensures AreOpaque(some) && forall i | 0 <= i < |some| :: IsMetadata(some[i].code)
  {
    hide IsJumbFragment;
    forall i | 0 <= i < |some|
      ensures !IsJumbFragment(some[i]) && IsMetadata(some[i].code)
    {
      assert some[i] in some;
    }
  }

  lemma {:induction false} EditionKeepsCodes(codecs: Codecs, plan: Plan, source: seq<Marker>)
    requires Edited(codecs, plan, source).Some? && forall i | 0 <= i < |source| :: IsMetadata(source[i].code)
    ensures forall i | 0 <= i < |Edited(codecs, plan, source).value.segments| ::
              IsMetadata(Edited(codecs, plan, source).value.segments[i].code)
  {
    hide EditOf, IsMetadata;
    if source != [] {
      EditionKeepsCodes(codecs, plan, source[1..]);
    }
  }

  /** Framed segments, as parts. */
  lemma {:induction false} FramedIsPrinted(segments: seq<Marker>)
    requires forall i | 0 <= i < |segments| :: IsFramed(segments[i])
    ensures AreMetadata(PartsOf(segments)) && PrintAll(PartsOf(segments)) == Framed(segments)
    ensures Seen(PartsOf(segments)) == segments
  {
    hide IsMetadata, PrintMarker, SeenIn;
    if segments != [] {
      var front, m := segments[..|segments| - 1], segments[|segments| - 1];
      FramedIsPrinted(front);
      FramedIsWellFormed(m);
      var parts := PartsOf(segments);
      assert parts[..|parts| - 1] == PartsOf(front);
      assert parts == PartsOf(front) + [PartOf(m)];
      SegmentPrintsItsMarker(PartOf(m));
      MetadataIsSeenAlone(PartOf(m));
    }
  }

  lemma FramedIsWellFormed(m: Marker)
    requires IsFramed(m)
    ensures IsWellFormed(PartOf(m)) && IsMetadata(m.code)
  {
  }

  /** The writer's output is valid by itself: for every source that scans, whatever the writer can write is
      accepted by the scanner, wherever it is spliced in. */
  lemma EditionIsValid(limits: Limits, source: seq<byte>, scanned: ScanResult, codecs: Codecs, plan: Plan)
    requires IsScanOf(limits, source, scanned) && scanned.Scanned?
    requires EmptyChunksLieOutside(scanned.inventory.extended)
    requires Edited(codecs, plan, SourceSegments(source, scanned.inventory)).Some?
    requires IsWritable(limits.metadataLength,
                        Edited(codecs, plan, SourceSegments(source, scanned.inventory)).value.segments)
    ensures var segments := Edited(codecs, plan, SourceSegments(source, scanned.inventory)).value.segments;
            && AreValidSegments(limits, PartsOf(segments))
            && PrintAll(PartsOf(segments)) == Framed(segments)
            && Seen(PartsOf(segments)) == segments
  {
    hide IsScanOf, Payloads, IsAcceptable, IsJumbFragment, IccPasses, XmpMustPass, EmptyChunksLieOutside, Edited,
      IsMetadata, Framed, PrintAll, ConsumeAll, Concluded, WalkAll, IsWellFormed, Seen, OnlyMetadata;
    var segments := SourceSegments(source, scanned.inventory);
    var out := Edited(codecs, plan, segments).value.segments;
    var parts := PartsOf(out);
    SourceIsCarried(limits, source, scanned);
    EditionCarriesSame(codecs, plan, segments);
    EditionKeepsCodes(codecs, plan, segments);
    FramedIsPrinted(out);
    SegmentsPrintMetadata(parts);
    SegmentsAreWalked(limits, parts);
    WalkIsCarried(limits, parts);
    AllMetadata(parts);
    IccIgnoresPlace(WalkAll(limits, parts).value.icc);
    XmpIgnoresPlace(WalkAll(limits, parts).value.extended);
    OpaqueMeansAbsent(out);
    NothingIsAbsent();
  }

  lemma NothingIsAbsent()
    ensures Concluded(START).Absent?
  {
  }

  datatype Stage = SourceScan | Orientation | Reconciliation | CodecOutput | OutputLength | OutputScan | OutputMetadata

  datatype Creation = NotCreated(stage: Stage) | Created(bytes: seq<byte>, removedThumbnail: bool, evidence: Evidence)

  lemma {:induction false} SeenAreShort(parts: seq<Part>)
    requires AreWellFormed(parts)
    ensures forall m :: m in OnlyMetadata(Seen(parts)) ==> IsFramed(m)
  {
    hide IsMetadata, SeenIn;
    if parts != [] {
      var front, p := parts[..|parts| - 1], parts[|parts| - 1];
      SeenAreShort(front);
      assert IsWellFormed(p);
      MetadataSeenIn(p);
      OnlyMetadataInParts(Seen(front), SeenIn(p));
    }
  }

  lemma SegmentsAreFramed(limits: Limits, source: seq<byte>, scanned: ScanResult)
    requires IsScanOf(limits, source, scanned) && scanned.Scanned?
    ensures AreFramed(SourceSegments(source, scanned.inventory))
  {
    hide IsScanOf, ScanFrom, Encoded, WalkAll, Payloads, IsFramed, Seen, OnlyMetadata;
    InventoryIsOfWalk(limits, source, scanned);
    var c := ScanIsRead(limits, source);
    InventoryReadsBack(limits, c, scanned);
    SeenMetadata(Seen(c.parts));
    SeenAreShort(c.parts);
    var segments := SourceSegments(source, scanned.inventory);
    assert forall i | 0 <= i < |segments| :: segments[i] in segments;
  }

  /** Once the writer and the codec are done and the length fits, the output rescans, its metadata segments
      are the writer's edition, and the validator passes them with the writer's flag. */
  lemma OutputPasses(limits: Limits, codecs: Codecs, plan: Plan, source: seq<byte>, scanned: ScanResult,
                     codec: seq<byte>, codecScan: ScanResult, spliced: seq<byte>, rescanned: ScanResult)
    requires AreFaithful(codecs)
    requires IsScanOf(limits, source, scanned) && scanned.Scanned?
    requires EmptyChunksLieOutside(scanned.inventory.extended)
    requires var segments := SourceSegments(source, scanned.inventory);
             && HasOrientation(codecs, segments) && Edited(codecs, plan, segments).Some?
             && IsWritable(limits.metadataLength, Edited(codecs, plan, segments).value.segments)
    requires IsScanOf(limits, codec, codecScan) && codecScan.Scanned?
    requires var edition := Edited(codecs, plan, SourceSegments(source, scanned.inventory)).value;
             IsSplice(codec, codecScan.inventory.markers, Framed(edition.segments), spliced)
    requires |spliced| <= limits.fileLength && IsScanOf(limits, spliced, rescanned)
    ensures rescanned.Scanned?
    ensures var segments := SourceSegments(source, scanned.inventory);
            var edition := Edited(codecs, plan, segments).value;
            && SourceSegments(spliced, rescanned.inventory) == edition.segments
            && Walked(codecs, plan, segments, edition.segments) == Passes(edition.removed)
            && HasOrientation(codecs, edition.segments)
  {
    hide IsScanOf, Payloads, AreFaithful, HasOrientation, Edited, IsWritable, EmptyChunksLieOutside, Framed, Walked,
      IsSplice, AreValidSegments, PrintAll, Seen, OnlyMetadata, IsWellFormed;
    var segments := SourceSegments(source, scanned.inventory);
    var edition := Edited(codecs, plan, segments).value;
    EditionIsValid(limits, source, scanned, codecs, plan);
    ValidAreWellFormed(limits, PartsOf(edition.segments));
    SpliceRoundTrips(limits, codec, codecScan, PartsOf(edition.segments), spliced, rescanned);
    WriterSatisfiesValidator(codecs, plan, limits.metadataLength, segments);
  }

  /** The sort of equal offsets does not decide about this source. */
  ghost predicate IsUnambiguous(limits: Limits, source: seq<byte>) {
    forall scanned | IsScanOf(limits, source, scanned) && scanned.Scanned? ::
      EmptyChunksLieOutside(scanned.inventory.extended)
  }

  /** An output of the pipeline: the codec's output with the edition of the source's metadata, scanned again and
      passed by the validator. */
  ghost predicate IsCreation(
    limits: Limits, codecs: Codecs, plan: Plan, source: seq<byte>, codec: seq<byte>, created: Creation,
    scanned: ScanResult, codecScan: ScanResult, rescanned: ScanResult)
    requires created.Created?
  {
    && IsScanOf(limits, source, scanned) && scanned.Scanned?
    && IsScanOf(limits, codec, codecScan) && codecScan.Scanned?
    && IsScanOf(limits, created.bytes, rescanned) && rescanned.Scanned?
    && var segments := SourceSegments(source, scanned.inventory);
       var output := SourceSegments(created.bytes, rescanned.inventory);
       var edition := Edited(codecs, plan, segments);
       && edition.Some?
       && IsSplice(codec, codecScan.inventory.markers, Framed(edition.value.segments), created.bytes)
       && Walked(codecs, plan, segments, output) == Passes(created.removedThumbnail)
       && created.evidence == OrientationEvidence(codecs, output)
       && (IsUnambiguous(limits, source) ==>
             output == edition.value.segments && created.removedThumbnail == edition.value.removed)
  }

  /** The writer refused the metadata of the source. */
  ghost predicate IsUnwritable(limits: Limits, codecs: Codecs, plan: Plan, source: seq<byte>, scanned: ScanResult) {
    && IsScanOf(limits, source, scanned) && scanned.Scanned?
    && WriterFault(codecs, plan, limits.metadataLength, SourceSegments(source, scanned.inventory)).Some?
  }

  /** The orientation of the source cannot be read. */
  ghost predicate IsUnreadable(limits: Limits, codecs: Codecs, source: seq<byte>, scanned: ScanResult) {
    && IsScanOf(limits, source, scanned) && scanned.Scanned?
    && !HasOrientation(codecs, SourceSegments(source, scanned.inventory))
  }

  /** The edition and the codec's output are too long together. */
  ghost predicate IsTooLong(limits: Limits, codecs: Codecs, plan: Plan, source: seq<byte>, codec: seq<byte>,
                            scanned: ScanResult, codecScan: ScanResult)
  {
    && IsScanOf(limits, source, scanned) && scanned.Scanned?
    && IsScanOf(limits, codec, codecScan) && codecScan.Scanned?
    && var edition := Edited(codecs, plan, SourceSegments(source, scanned.inventory));
       && edition.Some?
       && SplicedTotal(codec, codecScan.inventory, Framed(edition.value.segments)) > limits.fileLength
  }

  /** The creation of an output from a source and the codec's transform of it. Once the writer and the codec
      are done and the length fits, the two checks of the output cannot fail, unless the order of empty
      Extended XMP chunks of the source decides. An output is the codec's output with the edition of the
      source's metadata, and reports just what the writer removed. */
  method CreateValidatedOutput(limits: Limits, codecs: Codecs, plan: Plan, source: seq<byte>, codec: seq<byte>)
    returns (r: Creation)
    requires AreFaithful(codecs)
    ensures IsUnambiguous(limits, source) ==> r != NotCreated(OutputScan) && r != NotCreated(OutputMetadata)
    ensures r == NotCreated(SourceScan) ==> exists error :: IsScanOf(limits, source, Rejected(error))
    ensures r == NotCreated(Orientation) ==> exists scanned :: IsUnreadable(limits, codecs, source, scanned)
    ensures r == NotCreated(Reconciliation) ==> exists scanned :: IsUnwritable(limits, codecs, plan, source, scanned)
    ensures r == NotCreated(OutputLength) ==>
              exists scanned, codecScan :: IsTooLong(limits, codecs, plan, source, codec, scanned, codecScan)
    ensures r == NotCreated(CodecOutput) ==> exists error :: IsScanOf(limits, codec, Rejected(error))
    ensures r.Created? ==>
              && |r.bytes| <= limits.fileLength
              && exists scanned, codecScan, rescanned ::
                   IsCreation(limits, codecs, plan, source, codec, r, scanned, codecScan, rescanned)
  {
    hide IsScanOf, AreFaithful, HasOrientation, Edited, IsWritable, EmptyChunksLieOutside, Framed, Walked,
      SourceSegments, IsSplice, OrientationEvidence, WriterFault;
    var scan := Scan(limits, source);
    if scan.Rejected? {
      assert IsScanOf(limits, source, Rejected(scan.error));
      return NotCreated(SourceScan);
    }
    var segments := SourceSegments(source, scan.inventory);
    if !HasOrientation(codecs, segments) {
      assert IsUnreadable(limits, codecs, source, scan);
      return NotCreated(Orientation);
    }
    SegmentsAreFramed(limits, source, scan);
    var written := ReconcileMarkerSegments(codecs, plan, limits.metadataLength, segments);
    if written.NotWritten? {
      assert IsUnwritable(limits, codecs, plan, source, scan);
      return NotCreated(Reconciliation);
    }
    var codecScan := Scan(limits, codec);
    if codecScan.Rejected? {
      assert IsScanOf(limits, codec, Rejected(codecScan.error));
      return NotCreated(CodecOutput);
    }
    MarkersAreInOrder(limits, codec, codecScan);
    var spliced := Splice(limits.fileLength, codec, codecScan.inventory.markers, written.bytes);
    if spliced.None? {
      assert IsTooLong(limits, codecs, plan, source, codec, scan, codecScan);
      return NotCreated(OutputLength);
    }
    SplicedLength(codec, codecScan.inventory.markers, written.bytes, spliced.value);
    var rescan := Scan(limits, spliced.value);
    if IsUnambiguous(limits, source) {
      OutputPasses(limits, codecs, plan, source, scan, codec, codecScan, spliced.value, rescan);
    }
    if rescan.Rejected? {
      return NotCreated(OutputScan);
    }
    var check, evidence :=
      ValidateReconciledMetadata(codecs, plan, segments, SourceSegments(spliced.value, rescan.inventory));
    if check.Violates? {
      return NotCreated(OutputMetadata);
    }
    r := Created(spliced.value, check.removed, evidence);
    assert IsCreation(limits, codecs, plan, source, codec, r, scan, codecScan, rescan);
  }
}
