/** The validator of reconciled metadata, which never calls the writer, and the proof that it accepts what
    the writer writes. */
module MetadataValidator {
  import opened Options
  import opened Bytes
  import opened Jumbf
  import opened JpegScanner
  import opened MetadataReconciler

  datatype Rule =
    | PreservedMarkerSequence
    | MetadataPreservation
    | RemovedEmbeddedThumbnails
    | IccProfilePreservation
    | ExtendedXmpPreservation

  datatype Check = Violates(rule: Rule) | Passes(removed: bool)

  /** The records of a Photoshop payload, found by the validator's own loop. */
  method ReadResources(codecs: Codecs, payload: seq<byte>) returns (r: Option<seq<seq<byte>>>)
    requires |payload| >= 14
    ensures r == Records(codecs, payload[14..])
  {
    hide RecordLength, RecordId;
    var resources: seq<seq<byte>>, remaining := [], payload[14..];
    NothingBehind(Records(codecs, remaining));
    while remaining != []
      invariant Records(codecs, payload[14..]) == Behind(resources, Records(codecs, remaining))
      decreases |remaining|
    {
      var length := RecordLength(codecs, remaining);
      if length.None? {
        return None;
      }
      RecordIsPassed(codecs, resources, remaining);
      resources := resources + [remaining[..length.value]];
      remaining := remaining[length.value..];
    }
    assert resources + [] == resources;
    r := Some(resources);
  }

  function PhotoshopCheck(codecs: Codecs, source: seq<byte>, output: seq<byte>): Check
    requires |source| >= 14
  {
    if !Matches(output, 0, PHOTOSHOP) then Violates(MetadataPreservation)
    else
      var original, observed := Records(codecs, source[14..]), Records(codecs, output[14..]);
      if original.None? || observed.None? then Violates(MetadataPreservation)
      else if HasPreview(observed.value) then Violates(RemovedEmbeddedThumbnails)
      else if observed.value != WithoutPreviews(original.value) then Violates(MetadataPreservation)
      else Passes(HasPreview(original.value))
  }

  lemma {:induction false} KeptPrefix(records: seq<seq<byte>>, n: nat)
    requires n <= |records|
    ensures |WithoutPreviews(records[..n])| <= |WithoutPreviews(records)|
    ensures WithoutPreviews(records[..n]) == WithoutPreviews(records)[..|WithoutPreviews(records[..n])|]
  {
    if n < |records| {
      KeptPrefix(records[..|records| - 1], n);
      assert records[..|records| - 1][..n] == records[..n];
    } else {
      assert records[..n] == records;
    }
  }

  method HasAnyPreview(records: seq<seq<byte>>) returns (found: bool)
    ensures found == HasPreview(records)
  {
    for i := 0 to |records|
      invariant forall k | 0 <= k < i :: !IsPreview(records[k])
    {
      if IsPreview(records[i]) {
        return true;
      }
    }
    found := false;
  }

  lemma KeptMismatch(records: seq<seq<byte>>, i: nat, observed: seq<seq<byte>>)
    requires i < |records| && !IsPreview(records[i])
    requires |WithoutPreviews(records[..i])| <= |observed|
    requires |WithoutPreviews(records[..i])| == |observed| || records[i] != observed[|WithoutPreviews(records[..i])|]
    ensures observed != WithoutPreviews(records)
  {
    var k := |WithoutPreviews(records[..i])|;
    assert records[..i + 1] == records[..i] + [records[i]];
    PreviewsInParts(records[..i], records[i]);
    KeptPrefix(records, i + 1);
    assert WithoutPreviews(records)[k] == WithoutPreviews(records[..i + 1])[k] == records[i];
  }

  /** The loop with one index into each record sequence. */
  method MatchesKept(records: seq<seq<byte>>, observed: seq<seq<byte>>) returns (same: bool, removed: bool)
    ensures same <==> observed == WithoutPreviews(records)
    ensures same ==> removed == HasPreview(records)
  {
    hide IsPreview, WithoutPreviews, HasPreview;
    NoRecordsKept();
    var index := 0;
    removed := false;
    for i := 0 to |records|
      invariant index <= |observed| && observed[..index] == WithoutPreviews(records[..i])
      invariant removed == HasPreview(records[..i])
    {
      assert records[..i + 1] == records[..i] + [records[i]];
      PreviewsInParts(records[..i], records[i]);
      if IsPreview(records[i]) {
        removed := true;
      } else {
        if index == |observed| || records[i] != observed[index] {
          KeptMismatch(records, i, observed);
          return false, removed;
        }
        assert observed[..index + 1] == observed[..index] + [observed[index]];
        index := index + 1;
      }
    }
    assert records[..|records|] == records && observed[..|observed|] == observed;
    same := index == |observed|;
  }

  method ComparePhotoshopResources(codecs: Codecs, source: seq<byte>, output: seq<byte>) returns (r: Check)
    requires |source| >= 14
    ensures r == PhotoshopCheck(codecs, source, output)
  {
    if !Matches(output, 0, PHOTOSHOP) {
      return Violates(MetadataPreservation);
    }
    var original := ReadResources(codecs, source);
    var observed := ReadResources(codecs, output);
    if original.None? || observed.None? {
      return Violates(MetadataPreservation);
    }
    var preview := HasAnyPreview(observed.value);
    if preview {
      return Violates(RemovedEmbeddedThumbnails);
    }
    var same, removed := MatchesKept(original.value, observed.value);
    r := if same then Passes(removed) else Violates(MetadataPreservation);
  }

  function CodecCheck(compared: Option<bool>): Check {
    match compared
    case None => Violates(MetadataPreservation)
    case Some(removed) => Passes(removed)
  }

  function JfifCheck(source: seq<byte>, output: seq<byte>): Check {
    if |source| < 14 || |output| != 14 || output[12] != 0 || output[13] != 0 then Violates(RemovedEmbeddedThumbnails)
    else if source[..12] != output[..12] then Violates(PreservedMarkerSequence)
    else Passes(source[12] != 0 && source[13] != 0)
  }

  /** One source segment against the output segment at its place. */
  function SegmentCheck(codecs: Codecs, plan: Plan, source: Marker, output: Marker): Check {
    if output.code != source.code then Violates(PreservedMarkerSequence)
    else if IsExif(source) then
      if !IsExif(output) then Violates(PreservedMarkerSequence)
      else CodecCheck(codecs.compareExif(source.payload[|EXIF|..], output.payload[|EXIF|..], plan))
    else if IsXmp(source) then
      if !IsXmp(output) then Violates(PreservedMarkerSequence)
      else CodecCheck(codecs.compareXmp(source.payload[|STANDARD_XMP|..], output.payload[|STANDARD_XMP|..], plan))
    else if plan.transformed && IsJfif(source) then JfifCheck(source.payload, output.payload)
    else if plan.transformed && IsPhotoshop(source) then PhotoshopCheck(codecs, source.payload, output.payload)
    else if source == output then Passes(false)
    else if Is(source, APP2, ICC_PROFILE) then Violates(IccProfilePreservation)
    else if Is(source, APP1, EXTENDED_XMP) then Violates(ExtendedXmpPreservation)
    else Violates(PreservedMarkerSequence)
  }

  /** Orientation can be read back: at most one Exif and one XMP payload, and each is readable. */
  function ExifCount(segments: seq<Marker>): nat {
    if segments == [] then 0 else (if IsExif(segments[0]) then 1 else 0) + ExifCount(segments[1..])
  }

  function XmpCount(segments: seq<Marker>): nat {
    if segments == [] then 0 else (if IsXmp(segments[0]) then 1 else 0) + XmpCount(segments[1..])
  }

  predicate AreReadable(codecs: Codecs, segments: seq<Marker>) {
    segments == []
    || (&& (IsExif(segments[0]) ==> codecs.ReadsExif(segments[0].payload[|EXIF|..]))
        && (IsXmp(segments[0]) ==> codecs.ReadsXmp(segments[0].payload[|STANDARD_XMP|..]))
        && AreReadable(codecs, segments[1..]))
  }

  /** What `analyzeOrientation` asks of a source. */
  predicate HasOrientation(codecs: Codecs, segments: seq<Marker>) {
    ExifCount(segments) <= 1 && XmpCount(segments) <= 1 && AreReadable(codecs, segments)
  }

  function Also(removed: bool, check: Check): Check {
    if check.Passes? then Passes(removed || check.removed) else check
  }

  predicate IsOmitted(plan: Plan, m: Marker) { plan.transformed && IsJfxx(m) }

  /** The walk over both segment sequences. */
  function Walked(codecs: Codecs, plan: Plan, source: seq<Marker>, output: seq<Marker>): Check {
    if source == [] then (if output == [] then Passes(false) else Violates(PreservedMarkerSequence))
    else if IsOmitted(plan, source[0]) then Also(true, Walked(codecs, plan, source[1..], output))
    else if output == [] then Violates(PreservedMarkerSequence)
    else
      var check := SegmentCheck(codecs, plan, source[0], output[0]);
      if check.Violates? then check else Also(check.removed, Walked(codecs, plan, source[1..], output[1..]))
  }

  /** Whether orientations are stored in the output, as the validator reports it. */
  datatype Evidence = Evidence(exif: bool, xmp: bool)

  function OrientationEvidence(codecs: Codecs, segments: seq<Marker>): Evidence {
    Evidence(
      exists i :: 0 <= i < |segments| && IsExif(segments[i])
                  && codecs.exifOrientation(segments[i].payload[|EXIF|..]) == Some(true),
      exists i :: 0 <= i < |segments| && IsXmp(segments[i])
                  && codecs.xmpOrientation(segments[i].payload[|STANDARD_XMP|..]) == Some(true))
  }

  method ValidateReconciledMetadata(codecs: Codecs, plan: Plan, source: seq<Marker>, output: seq<Marker>)
    returns (r: Check, evidence: Evidence)
    ensures Walked(codecs, plan, source, output).Violates? ==> r == Walked(codecs, plan, source, output)
    ensures Walked(codecs, plan, source, output).Passes? ==>
              r == if HasOrientation(codecs, output) then Walked(codecs, plan, source, output)
                   else Violates(MetadataPreservation)
    ensures r.Passes? ==> evidence == OrientationEvidence(codecs, output)
  {
    hide HasOrientation, Walked, SegmentCheck, IsOmitted, OrientationEvidence;
    evidence := Evidence(false, false);
    var index, removed := 0, false;
    assert source[0..] == source && output[0..] == output;
    for i := 0 to |source|
      invariant index <= |output|
      invariant Walked(codecs, plan, source, output) ==
                  Also(removed, Walked(codecs, plan, source[i..], output[index..]))
    {
      WalkGoesOn(codecs, plan, source, output, i, index);
      if IsOmitted(plan, source[i]) {
        removed := true;
        continue;
      }
      if index == |output| {
        return Violates(PreservedMarkerSequence), evidence;
      }
      var check := CheckSegment(codecs, plan, source[i], output[index]);
      if check.Violates? {
        return check, evidence;
      }
      removed := removed || check.removed;
      index := index + 1;
    }
    WalkEnds(codecs, plan, source, output, index);
    if index != |output| {
      return Violates(PreservedMarkerSequence), evidence;
    }
    evidence := OrientationEvidence(codecs, output);
    r := if HasOrientation(codecs, output) then Passes(removed) else Violates(MetadataPreservation);
  }

  lemma WalkEnds(codecs: Codecs, plan: Plan, source: seq<Marker>, output: seq<Marker>, k: nat)
    requires k <= |output|
    ensures Walked(codecs, plan, source[|source|..], output[k..])
         == if k == |output| then Passes(false) else Violates(PreservedMarkerSequence)
  {
  }

  lemma WalkGoesOn(codecs: Codecs, plan: Plan, source: seq<Marker>, output: seq<Marker>, i: nat, k: nat)
    requires i < |source| && k <= |output|
    ensures Walked(codecs, plan, source[i..], output[k..])
         == if IsOmitted(plan, source[i]) then Also(true, Walked(codecs, plan, source[i + 1..], output[k..]))
            else if k == |output| then Violates(PreservedMarkerSequence)
            else
              var check := SegmentCheck(codecs, plan, source[i], output[k]);
              if check.Violates? then check
              else Also(check.removed, Walked(codecs, plan, source[i + 1..], output[k + 1..]))
  {
    hide SegmentCheck, IsOmitted;
    assert source[i..][0] == source[i] && source[i..][1..] == source[i + 1..];
    if k < |output| {
      assert output[k..][0] == output[k] && output[k..][1..] == output[k + 1..];
    }
  }

  method CheckSegment(codecs: Codecs, plan: Plan, source: Marker, output: Marker) returns (r: Check)
    ensures r == SegmentCheck(codecs, plan, source, output)
  {
    if plan.transformed && source.code == output.code && IsPhotoshop(source) {
      r := ComparePhotoshopResources(codecs, source.payload, output.payload);
    } else {
      r := SegmentCheck(codecs, plan, source, output);
    }
  }

  /** What is assumed of the codecs: a comparison accepts what the serializer made of a readable payload,
      with the same removal, the result is readable, and a located record does not depend on what
      follows it. */
  ghost predicate AreFaithful(codecs: Codecs) {
    && (forall p, plan | codecs.ReadsExif(p) && codecs.rewriteExif(p, plan).Some? ::
          var r := codecs.rewriteExif(p, plan).value;
          codecs.compareExif(p, r.bytes, plan) == Some(r.removed) && codecs.ReadsExif(r.bytes))
    && (forall p, plan | codecs.ReadsXmp(p) && codecs.rewriteXmp(p, plan).Some? ::
          var r := codecs.rewriteXmp(p, plan).value;
          codecs.compareXmp(p, r.bytes, plan) == Some(r.removed) && codecs.ReadsXmp(r.bytes))
    && (forall record: seq<byte>, a: seq<byte>, b: seq<byte> |
          RecordLength(codecs, record + a) == Some(|record|) :: RecordLength(codecs, record + b) == Some(|record|))
  }

  lemma {:induction false} KeptFromFront(record: seq<byte>, rest: seq<seq<byte>>)
    ensures WithoutPreviews([record] + rest) == (if IsPreview(record) then [] else [record]) + WithoutPreviews(rest)
    ensures HasPreview([record] + rest) <==> IsPreview(record) || HasPreview(rest)
  {
    hide IsPreview;
    if rest == [] {
      assert [record] + rest == [] + [record];
      PreviewsInParts([], record);
      NoRecordsKept();
    } else {
      var front, last := rest[..|rest| - 1], rest[|rest| - 1];
      assert [record] + rest == ([record] + front) + [last] && rest == front + [last];
      KeptFromFront(record, front);
      PreviewsInParts([record] + front, last);
      PreviewsInParts(front, last);
      hide WithoutPreviews, HasPreview;
      JoinIsAssociative(if IsPreview(record) then [] else [record], WithoutPreviews(front),
                        if IsPreview(last) then [] else [last]);
    }
  }

  lemma RecordIsFoundFirst(codecs: Codecs, record: seq<byte>, after: seq<byte>, rest: seq<byte>)
    requires AreFaithful(codecs) && RecordLength(codecs, record + after) == Some(|record|)
    requires Records(codecs, rest).Some?
    ensures Records(codecs, record + rest) == Some([record] + Records(codecs, rest).value)
  {
    assert RecordLength(codecs, record + rest) == Some(|record|);
    hide RecordLength;
    assert (record + rest)[..|record|] == record && (record + rest)[|record|..] == rest;
  }

  lemma NoRecords(codecs: Codecs)
    ensures Records(codecs, []) == Some([])
  {
  }

  /** Records kept from a payload are found again in their concatenation, exactly. */
  lemma {:induction false} KeptRecordsAreFound(codecs: Codecs, bytes: seq<byte>)
    requires AreFaithful(codecs) && Records(codecs, bytes).Some?
    ensures var records := Records(codecs, bytes).value;
            && Records(codecs, Concat(WithoutPreviews(records))) == Some(WithoutPreviews(records))
            && Concat(records) == bytes
            && !HasPreview(WithoutPreviews(records))
    decreases |bytes|
  {
    hide RecordId, AreFaithful, WithoutPreviews, HasPreview, Concat, RecordLength;
    NoRecordsKept();
    NoRecords(codecs);
    if bytes != [] {
      var n := RecordLength(codecs, bytes).value;
      var record, rest := bytes[..n], Records(codecs, bytes[n..]).value;
      assert bytes == record + bytes[n..];
      KeptRecordsAreFound(codecs, bytes[n..]);
      KeptFromFront(record, rest);
      ConcatFromFront(record, rest);
      var kept := WithoutPreviews(rest);
      if IsPreview(record) {
        assert [] + kept == kept;
      } else {
        KeptFromFront(record, kept);
        ConcatFromFront(record, kept);
        RecordIsFoundFirst(codecs, record, bytes[n..], Concat(kept));
      }
    }
  }

  lemma ConcatFromFront(record: seq<byte>, rest: seq<seq<byte>>)
    ensures Concat([record] + rest) == record + Concat(rest)
  {
    ConcatOfParts([record], rest);
    assert [record][..0] == [];
  }

  /** The validator accepts what the writer made of a Photoshop payload. */
  lemma PhotoshopIsAccepted(codecs: Codecs, p: seq<byte>)
    requires AreFaithful(codecs) && Matches(p, 0, PHOTOSHOP) && PhotoshopOf(codecs, p, true).Some?
    ensures var r := PhotoshopOf(codecs, p, true).value;
            PhotoshopCheck(codecs, p, r.bytes) == Passes(r.removed)
    ensures PhotoshopOf(codecs, p, false) == Some(Rewritten(p, false))
  {
    hide Records, WithoutPreviews, HasPreview, Concat, AreFaithful;
    KeptRecordsAreFound(codecs, p[14..]);
    var r := PhotoshopOf(codecs, p, true).value;
    assert r.bytes[..14] == p[..14];
    assert r.bytes[14..] == Concat(WithoutPreviews(Records(codecs, p[14..]).value));
    assert p[..14] + p[14..] == p;
  }

  lemma KindsDiffer(m: Marker)
    ensures !IsExif(m) || !IsXmp(m)
  {
    assert IsExif(m) ==> m.payload[0..|EXIF|][0] == m.payload[0];
    assert IsXmp(m) ==> m.payload[0..|STANDARD_XMP|][0] == m.payload[0];
  }

  /** One segment: the writer's replacement passes the validator with the writer's flag, keeps the code and
      the kind of the segment, and stays readable. */
  lemma SegmentIsAccepted(codecs: Codecs, plan: Plan, m: Marker, payload: seq<byte>, removed: bool)
    requires AreFaithful(codecs) && !IsOmitted(plan, m)
    requires IsExif(m) ==> codecs.ReadsExif(m.payload[|EXIF|..])
    requires IsXmp(m) ==> codecs.ReadsXmp(m.payload[|STANDARD_XMP|..])
    requires EditOf(codecs, plan, m) == Replace(payload, removed)
             || (EditOf(codecs, plan, m) == Keep && payload == m.payload && !removed)
    ensures var out := Marker(m.code, payload);
            && SegmentCheck(codecs, plan, m, out) == Passes(removed)
            && IsExif(out) == IsExif(m) && IsXmp(out) == IsXmp(m)
            && (IsExif(out) ==> codecs.ReadsExif(payload[|EXIF|..]))
            && (IsXmp(out) ==> codecs.ReadsXmp(payload[|STANDARD_XMP|..]))
  {
    var p := m.payload;
    hide PhotoshopOf, PhotoshopCheck, IsValidJfxx, RecordLength;
    KindsDiffer(m);
    KindsDiffer(Marker(m.code, payload));
    if IsExif(m) {
      var r := codecs.rewriteExif(p[|EXIF|..], plan).value;
      assert payload[..|EXIF|] == EXIF && payload[|EXIF|..] == r.bytes;
    } else if IsXmp(m) {
      var r := codecs.rewriteXmp(p[|STANDARD_XMP|..], plan).value;
      assert payload[..|STANDARD_XMP|] == STANDARD_XMP && payload[|STANDARD_XMP|..] == r.bytes;
    } else if IsPhotoshop(m) {
      PhotoshopOfBoth(codecs, p, plan.transformed);
      PhotoshopIsAccepted(codecs, p);
    } else if IsJfif(m) && plan.transformed {
      assert payload[..12] == p[..12];
    }
  }

  lemma PhotoshopOfBoth(codecs: Codecs, p: seq<byte>, transformed: bool)
    requires |p| >= 14
    ensures PhotoshopOf(codecs, p, transformed).Some? <==> PhotoshopOf(codecs, p, true).Some?
  {
  }

  /** The writer's edition of a readable source passes the validator's walk with the same flag. */
  lemma {:induction false} EditionIsAccepted(codecs: Codecs, plan: Plan, source: seq<Marker>)
    requires AreFaithful(codecs) && AreReadable(codecs, source) && Edited(codecs, plan, source).Some?
    ensures var e := Edited(codecs, plan, source).value;
            && Walked(codecs, plan, source, e.segments) == Passes(e.removed)
            && ExifCount(e.segments) == ExifCount(source) && XmpCount(e.segments) == XmpCount(source)
            && AreReadable(codecs, e.segments)
  {
    if source != [] {
      var m, edit := source[0], EditOf(codecs, plan, source[0]);
      var rest := Edited(codecs, plan, source[1..]).value;
      EditionIsAccepted(codecs, plan, source[1..]);
      OmittedIffDropped(codecs, plan, m);
      hide EditOf, SegmentCheck, AreFaithful, IsExif, IsXmp, IsOmitted;
      if !edit.Drop? {
        var payload := if edit.Keep? then m.payload else edit.payload;
        SegmentIsAccepted(codecs, plan, m, payload, edit.Replace? && edit.removed);
        var all := Edited(codecs, plan, source).value.segments;
        assert all == [Marker(m.code, payload)] + rest.segments && all[1..] == rest.segments;
      }
    }
  }

  lemma OmittedIffDropped(codecs: Codecs, plan: Plan, m: Marker)
    requires !EditOf(codecs, plan, m).Refuse?
    ensures EditOf(codecs, plan, m).Drop? <==> IsOmitted(plan, m)
    ensures IsOmitted(plan, m) ==> !IsExif(m) && !IsXmp(m)
  {
  }

  /** Agreement: for every source whose orientation could be read and every plan, whatever the writer
      writes passes the validator, with the same removed-thumbnail flag, and within the limit. */
  lemma WriterSatisfiesValidator(codecs: Codecs, plan: Plan, limit: nat, source: seq<Marker>)
    requires AreFaithful(codecs) && HasOrientation(codecs, source)
    requires Edited(codecs, plan, source).Some? && IsWritable(limit, Edited(codecs, plan, source).value.segments)
    ensures var e := Edited(codecs, plan, source).value;
            && Walked(codecs, plan, source, e.segments) == Passes(e.removed)
            && HasOrientation(codecs, e.segments)
            && |Framed(e.segments)| <= limit
  {
    hide Edited, Walked;
    EditionIsAccepted(codecs, plan, source);
  }
}
