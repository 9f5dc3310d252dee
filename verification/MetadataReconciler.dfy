/** The writer of reconciled metadata segments and the independent validator of its output. The Exif, XMP
    and Photoshop record codecs are parameters. */
module MetadataReconciler {
  import opened Options
  import opened Bytes
  import opened JpegSyntax
  import opened Jumbf
  import opened JpegScanner

  datatype Plan = Plan(transformed: bool, width: nat, height: nat)

  datatype Rewritten = Rewritten(bytes: seq<byte>, removed: bool)

  /** What the codecs answer. `rewriteExif` and `rewriteXmp` serialize a payload for the plan;
      `compareExif` and `compareXmp` compare a source payload with an output payload and tell whether a
      thumbnail is gone; `exifOrientation` and `xmpOrientation` tell whether an orientation is stored, or
      nothing when that cannot be read; `keepsExtended`
      tells whether the Extended XMP of some segments agrees with their standard XMP and may stay as it is
      under the plan; `locate` gives the length of the Photoshop record at the start of some bytes;
      `isThumbnail` accepts a JPEG-coded thumbnail. */
  datatype Codecs = Codecs(
    rewriteExif: (seq<byte>, Plan) -> Option<Rewritten>,
    rewriteXmp: (seq<byte>, Plan) -> Option<Rewritten>,
    compareExif: (seq<byte>, seq<byte>, Plan) -> Option<bool>,
    compareXmp: (seq<byte>, seq<byte>, Plan) -> Option<bool>,
    exifOrientation: seq<byte> -> Option<bool>,
    xmpOrientation: seq<byte> -> Option<bool>,
    keepsExtended: (seq<Marker>, Plan) -> bool,
    locate: seq<byte> -> Option<nat>,
    isThumbnail: seq<byte> -> bool)
  {
    predicate ReadsExif(payload: seq<byte>) { exifOrientation(payload).Some? }

    predicate ReadsXmp(payload: seq<byte>) { xmpOrientation(payload).Some? }
  }

  const APP0: byte := 0xE0
  const APP13: byte := 0xED
  const JFIF: seq<byte> := [0x4A, 0x46, 0x49, 0x46, 0]
  const JFXX: seq<byte> := [0x4A, 0x46, 0x58, 0x58, 0]
  /** "Photoshop 3.0" with its terminator. */
  const PHOTOSHOP: seq<byte> := [0x50, 0x68, 0x6F, 0x74, 0x6F, 0x73, 0x68, 0x6F, 0x70, 0x20, 0x33, 0x2E, 0x30, 0]

  predicate Is(m: Marker, code: byte, identifier: seq<byte>) {
    m.code == code && Matches(m.payload, 0, identifier)
  }

  predicate IsExif(m: Marker) { Is(m, APP1, EXIF) }
  predicate IsXmp(m: Marker) { Is(m, APP1, STANDARD_XMP) }
  predicate IsJfif(m: Marker) { Is(m, APP0, JFIF) }
  predicate IsJfxx(m: Marker) { Is(m, APP0, JFXX) }
  predicate IsPhotoshop(m: Marker) { Is(m, APP13, PHOTOSHOP) }

  /** The record at the start of the bytes; none when they hold no record that can be told apart. */
  function RecordLength(codecs: Codecs, bytes: seq<byte>): (r: Option<nat>)
    ensures r.Some? ==> 12 <= r.value <= |bytes|
  {
    if |bytes| < 12 || bytes[6] >= 254 then None
    else
      match codecs.locate(bytes)
      case None => None
      case Some(length) => if 12 <= length <= |bytes| then Some(length) else None
  }

  function RecordId(record: seq<byte>): nat {
    if |record| >= 6 then NumberAt(record, 4, 2) else 0
  }

  predicate IsPreview(record: seq<byte>) { RecordId(record) == 1033 || RecordId(record) == 1036 }

  /** The records that the bytes consist of. */
  function Records(codecs: Codecs, bytes: seq<byte>): Option<seq<seq<byte>>>
    decreases |bytes|
  {
    if bytes == [] then Some([])
    else
      match RecordLength(codecs, bytes)
      case None => None
      case Some(n) =>
        match Records(codecs, bytes[n..])
        case None => None
        case Some(rest) => Some([bytes[..n]] + rest)
  }

  function WithoutPreviews(records: seq<seq<byte>>): seq<seq<byte>> {
    if records == [] then []
    else WithoutPreviews(records[..|records| - 1])
         + (if IsPreview(records[|records| - 1]) then [] else [records[|records| - 1]])
  }

  predicate HasPreview(records: seq<seq<byte>>) {
    exists i :: 0 <= i < |records| && IsPreview(records[i])
  }

  /** The records already behind a position, before those still ahead. */
  function Behind(done: seq<seq<byte>>, ahead: Option<seq<seq<byte>>>): Option<seq<seq<byte>>> {
    if ahead.None? then None else Some(done + ahead.value)
  }

  lemma NothingBehind(ahead: Option<seq<seq<byte>>>)
    ensures Behind([], ahead) == ahead
  {
    if ahead.Some? {
      assert [] + ahead.value == ahead.value;
    }
  }

  lemma RecordIsPassed(codecs: Codecs, done: seq<seq<byte>>, remaining: seq<byte>)
    requires remaining != [] && RecordLength(codecs, remaining).Some?
    ensures var n := RecordLength(codecs, remaining).value;
            && Behind(done, Records(codecs, remaining)) ==
                 Behind(done + [remaining[..n]], Records(codecs, remaining[n..]))
            && RecordId(remaining[..n]) == RecordId(remaining)
  {
    var n := RecordLength(codecs, remaining).value;
    var rest := Records(codecs, remaining[n..]);
    if rest.Some? {
      JoinIsAssociative(done, [remaining[..n]], rest.value);
    }
    assert remaining[..n][4..6] == remaining[4..6];
  }

  /** The loop that copies the records and leaves out the previews of a transformed image. */
  method ReconcilePhotoshopResources(codecs: Codecs, payload: seq<byte>, transformed: bool)
    returns (r: Option<Rewritten>)
    requires |payload| >= 14
    ensures r == PhotoshopOf(codecs, payload, transformed)
  {
    hide RecordLength, RecordId, Concat, WithoutPreviews, HasPreview;
    var output, removed, remaining := payload[..14], false, payload[14..];
    ghost var done: seq<seq<byte>> := [];
    NothingBehind(Records(codecs, remaining));
    NoRecordsKept();
    assert output == payload[..14] + [];
    while remaining != []
      invariant Records(codecs, payload[14..]) == Behind(done, Records(codecs, remaining))
      invariant output == payload[..14] + Concat(if transformed then WithoutPreviews(done) else done)
      invariant removed == (transformed && HasPreview(done))
      decreases |remaining|
    {
      var length := RecordLength(codecs, remaining);
      if length.None? {
        return None;
      }
      var record := remaining[..length.value];
      RecordIsPassed(codecs, done, remaining);
      PreviewsInParts(done, record);
      JoinIsAssociative(payload[..14], Concat(if transformed then WithoutPreviews(done) else done), record);
      if !transformed || !IsPreview(remaining) {
        output := output + record;
      } else {
        removed := true;
      }
      done := done + [record];
      remaining := remaining[length.value..];
    }
    assert done + [] == done;
    r := Some(Rewritten(output, removed));
  }

  lemma NoRecordsKept()
    ensures WithoutPreviews([]) == [] && Concat<byte>([]) == [] && !HasPreview([])
  {
  }

  lemma ConcatOne<T>(parts: seq<seq<T>>, part: seq<T>)
    ensures Concat(parts + [part]) == Concat(parts) + part
  {
    assert (parts + [part])[..|parts|] == parts;
  }

  lemma PreviewsInParts(records: seq<seq<byte>>, record: seq<byte>)
    ensures HasPreview(records + [record]) <==> HasPreview(records) || IsPreview(record)
    ensures WithoutPreviews(records + [record])
         == WithoutPreviews(records) + (if IsPreview(record) then [] else [record])
    ensures Concat(records + [record]) == Concat(records) + record
    ensures Concat(WithoutPreviews(records + [record]))
         == Concat(WithoutPreviews(records)) + (if IsPreview(record) then [] else record)
  {
    assert (records + [record])[..|records|] == records;
    if HasPreview(records) {
      var i :| 0 <= i < |records| && IsPreview(records[i]);
      assert IsPreview((records + [record])[i]);
    }
    assert IsPreview(record) ==> IsPreview((records + [record])[|records|]);
    var kept := WithoutPreviews(records);
    ConcatOne(records, record);
    ConcatOne(kept, record);
    if IsPreview(record) {
      assert kept + [] == kept && Concat(kept) + [] == Concat(kept);
    }
  }

  function PhotoshopOf(codecs: Codecs, payload: seq<byte>, transformed: bool): Option<Rewritten>
    requires |payload| >= 14
  {
    match Records(codecs, payload[14..])
    case None => None
    case Some(records) =>
      if transformed then Some(Rewritten(payload[..14] + Concat(WithoutPreviews(records)), HasPreview(records)))
      else Some(Rewritten(payload[..14] + Concat(records), false))
  }

  datatype WriterError =
    | UnsupportedEmbeddedPreviewMetadata
    | MetadataLengthLimitExceeded
    | MetadataPreservationFailed
    | CodecRefused

  /** What the writer does with one segment. */
  datatype Edit = Refuse(error: WriterError) | Drop | Keep | Replace(payload: seq<byte>, removed: bool)

  predicate IsValidJfif(p: seq<byte>) {
    |p| >= 14 && |p| == 14 + 3 * (p[12] as int) * (p[13] as int)
  }

  predicate IsValidJfxx(codecs: Codecs, p: seq<byte>) {
    && |p| >= 6
    && if p[5] == 0x10 then codecs.isThumbnail(p[6..])
       else
         && (p[5] == 0x11 || p[5] == 0x13) && |p| >= 8
         && var pixels := (p[6] as int) * (p[7] as int);
            pixels != 0 && |p| == (if p[5] == 0x11 then 8 + 768 + pixels else 8 + 3 * pixels)
  }

  function EditOf(codecs: Codecs, plan: Plan, m: Marker): Edit {
    var p := m.payload;
    if IsExif(m) then
      match codecs.rewriteExif(p[|EXIF|..], plan)
      case None => Refuse(CodecRefused)
      case Some(r) => Replace(p[..|EXIF|] + r.bytes, r.removed)
    else if IsXmp(m) then
      match codecs.rewriteXmp(p[|STANDARD_XMP|..], plan)
      case None => Refuse(CodecRefused)
      case Some(r) => Replace(p[..|STANDARD_XMP|] + r.bytes, r.removed)
    else if IsJfif(m) then
      if !IsValidJfif(p) then Refuse(UnsupportedEmbeddedPreviewMetadata)
      else if plan.transformed then Replace(p[..12] + [0, 0], p[12] != 0 && p[13] != 0)
      else Keep
    else if IsJfxx(m) then
      if !IsValidJfxx(codecs, p) then Refuse(UnsupportedEmbeddedPreviewMetadata)
      else if plan.transformed then Drop
      else Keep
    else if IsPhotoshop(m) then
      match PhotoshopOf(codecs, p, plan.transformed)
      case None => Refuse(UnsupportedEmbeddedPreviewMetadata)
      case Some(r) => Replace(r.bytes, r.removed)
    else Keep
  }

  datatype Edition = Edition(segments: seq<Marker>, removed: bool)

  /** The segments that come out, if none is refused, and whether a preview is gone. */
  function Edited(codecs: Codecs, plan: Plan, source: seq<Marker>): Option<Edition> {
    if source == [] then Some(Edition([], false))
    else
      var edit := EditOf(codecs, plan, source[0]);
      if edit.Refuse? then None
      else
        match Edited(codecs, plan, source[1..])
        case None => None
        case Some(rest) => Some(After(edit, source[0], rest))
  }

  function After(edit: Edit, m: Marker, rest: Edition): Edition
    requires !edit.Refuse?
  {
    match edit
    case Drop => Edition(rest.segments, true)
    case Keep => Edition([m] + rest.segments, rest.removed)
    case Replace(payload, removed) => Edition([Marker(m.code, payload)] + rest.segments, removed || rest.removed)
  }

  function PartOf(m: Marker): Part { Part(0, m.code, m.payload, []) }

  function PartsOf(markers: seq<Marker>): (r: seq<Part>)
    ensures |r| == |markers|
  {
    seq(|markers|, i requires 0 <= i < |markers| => PartOf(markers[i]))
  }

  /** The framed segments, one after the other. */
  function Framed(markers: seq<Marker>): seq<byte> {
    if markers == [] then [] else Framed(markers[..|markers| - 1]) + PrintMarker(PartOf(markers[|markers| - 1]))
  }

  predicate IsFramed(m: Marker) {
    IsMetadata(m.code) && |m.payload| + 2 < U16_LIMIT
  }

  predicate AreFramed(markers: seq<Marker>) {
    forall i | 0 <= i < |markers| :: IsFramed(markers[i])
  }

  datatype WriterResult = NotWritten(error: WriterError) | Written(bytes: seq<byte>, removed: bool)

  function Joined(done: Edition, ahead: Option<Edition>): Option<Edition> {
    match ahead
    case None => None
    case Some(rest) => Some(Edition(done.segments + rest.segments, done.removed || rest.removed))
  }

  /** One more source segment is edited. */
  function Extended(done: Edition, edit: Edit, m: Marker): Edition
    requires !edit.Refuse?
  {
    match edit
    case Drop => Edition(done.segments, true)
    case Keep => Edition(done.segments + [m], done.removed)
    case Replace(payload, removed) => Edition(done.segments + [Marker(m.code, payload)], done.removed || removed)
  }

  lemma EditionGoesOn(codecs: Codecs, plan: Plan, source: seq<Marker>, i: nat, done: Edition)
    requires i < |source| && !EditOf(codecs, plan, source[i]).Refuse?
    ensures Joined(done, Edited(codecs, plan, source[i..]))
         == Joined(Extended(done, EditOf(codecs, plan, source[i]), source[i]), Edited(codecs, plan, source[i + 1..]))
  {
    hide EditOf;
    assert source[i..][0] == source[i] && source[i..][1..] == source[i + 1..];
    var ahead := Edited(codecs, plan, source[i + 1..]);
    if ahead.Some? {
      JoinIsAssociative(done.segments, [source[i]], ahead.value.segments);
      var edit := EditOf(codecs, plan, source[i]);
      if edit.Replace? {
        JoinIsAssociative(done.segments, [Marker(source[i].code, edit.payload)], ahead.value.segments);
      }
    }
  }

  lemma EditionEnds(codecs: Codecs, plan: Plan, source: seq<Marker>, done: Edition)
    ensures Joined(done, Edited(codecs, plan, source[|source|..])) == Some(done)
    ensures Joined(Edition([], false), Edited(codecs, plan, source[0..])) == Edited(codecs, plan, source)
  {
    assert source[|source|..] == [] && source[0..] == source && done.segments + [] == done.segments;
    var ahead := Edited(codecs, plan, source);
    if ahead.Some? {
      assert [] + ahead.value.segments == ahead.value.segments;
    }
  }

  lemma {:induction false} FramedPrefix(a: seq<Marker>, b: seq<Marker>)
    ensures |Framed(a)| <= |Framed(a + b)|
  {
    if b == [] {
      assert a + b == a;
    } else {
      assert (a + b)[..|a + b| - 1] == a + b[..|b| - 1];
      FramedPrefix(a, b[..|b| - 1]);
    }
  }

  /** Every segment fits its length field, and all of them fit the limit. */
  predicate IsWritable(limit: nat, segments: seq<Marker>) {
    && (forall i | 0 <= i < |segments| :: |segments[i].payload| + 2 < U16_LIMIT)
    && |Framed(segments)| <= limit
  }

  /** The first fault in source order; within one segment a refusal comes before the aggregate limit, and
      the limit before the length field. */
  function FirstFault(codecs: Codecs, plan: Plan, limit: nat, source: seq<Marker>, written: nat): Option<WriterError> {
    if source == [] then None
    else
      match EditOf(codecs, plan, source[0])
      case Refuse(error) => Some(error)
      case Drop => FirstFault(codecs, plan, limit, source[1..], written)
      case Keep =>
        var length := written + 4 + |source[0].payload|;
        if length > limit then Some(WriterError.MetadataLengthLimitExceeded)
        else FirstFault(codecs, plan, limit, source[1..], length)
      case Replace(payload, _) =>
        var length := written + 4 + |payload|;
        if length > limit then Some(WriterError.MetadataLengthLimitExceeded)
        else if |payload| + 2 >= U16_LIMIT then Some(MetadataPreservationFailed)
        else FirstFault(codecs, plan, limit, source[1..], length)
  }

  lemma FaultGoesOn(codecs: Codecs, plan: Plan, limit: nat, source: seq<Marker>, i: nat, written: nat)
    requires i < |source|
    ensures var edit := EditOf(codecs, plan, source[i]);
            FirstFault(codecs, plan, limit, source[i..], written)
            == if edit.Refuse? then Some(edit.error)
               else if edit.Drop? then FirstFault(codecs, plan, limit, source[i + 1..], written)
               else
                 var payload := if edit.Keep? then source[i].payload else edit.payload;
                 if written + 4 + |payload| > limit then Some(WriterError.MetadataLengthLimitExceeded)
                 else if edit.Replace? && |payload| + 2 >= U16_LIMIT then Some(MetadataPreservationFailed)
                 else FirstFault(codecs, plan, limit, source[i + 1..], written + 4 + |payload|)
  {
    hide EditOf;
    assert source[i..][0] == source[i] && source[i..][1..] == source[i + 1..];
  }

  lemma NothingToWrite(limit: nat)
    ensures IsWritable(limit, []) && Framed([]) == []
  {
  }

  lemma OneMoreIsWritable(limit: nat, segments: seq<Marker>, m: Marker)
    requires IsWritable(limit, segments) && IsMetadata(m.code)
    ensures Framed(segments + [m]) == Framed(segments) + PrintMarker(PartOf(m))
    ensures |PrintMarker(PartOf(m))| == 4 + |m.payload|
    ensures IsWritable(limit, segments + [m])
            <==> |m.payload| + 2 < U16_LIMIT && |Framed(segments)| + 4 + |m.payload| <= limit
  {
    var all := segments + [m];
    assert all[..|segments|] == segments;
    if IsWritable(limit, all) {
      assert |all[|segments|].payload| + 2 < U16_LIMIT;
    }
  }

  lemma UnwritableForGood(limit: nat, done: Edition, ahead: Option<Edition>)
    requires !IsWritable(limit, done.segments)
    ensures Joined(done, ahead).Some? ==> !IsWritable(limit, Joined(done, ahead).value.segments)
  {
    if ahead.Some? {
      FramedPrefix(done.segments, ahead.value.segments);
      if i :| 0 <= i < |done.segments| && |done.segments[i].payload| + 2 >= U16_LIMIT {
        assert (done.segments + ahead.value.segments)[i] == done.segments[i];
      }
    }
  }

  lemma RefusedForGood(codecs: Codecs, plan: Plan, source: seq<Marker>, i: nat, done: Edition)
    requires i < |source| && EditOf(codecs, plan, source[i]).Refuse?
    ensures Joined(done, Edited(codecs, plan, source[i..])).None?
  {
    assert source[i..][0] == source[i];
  }

  /** The loop over the metadata segments of the source. */
  method WriteSegments(codecs: Codecs, plan: Plan, limit: nat, source: seq<Marker>) returns (r: WriterResult)
    requires AreFramed(source)
    ensures r.Written? <==>
              && Edited(codecs, plan, source).Some?
              && IsWritable(limit, Edited(codecs, plan, source).value.segments)
    ensures r.Written? ==>
              && r.bytes == Framed(Edited(codecs, plan, source).value.segments)
              && r.removed == Edited(codecs, plan, source).value.removed
    ensures FirstFault(codecs, plan, limit, source, 0) == if r.Written? then None else Some(r.error)
  {
    hide FirstFault, EditOf, Edited, IsWritable, PrintMarker, Framed, IsMetadata;
    var output: seq<byte>, removed := [], false;
    ghost var done := Edition([], false);
    EditionEnds(codecs, plan, source, done);
    NothingToWrite(limit);
    assert source[0..] == source;
    for i := 0 to |source|
      invariant Edited(codecs, plan, source) == Joined(done, Edited(codecs, plan, source[i..]))
      invariant output == Framed(done.segments) && removed == done.removed
      invariant IsWritable(limit, done.segments)
      invariant FirstFault(codecs, plan, limit, source, 0) == FirstFault(codecs, plan, limit, source[i..], |output|)
    {
      FaultGoesOn(codecs, plan, limit, source, i, |output|);
      var m, edit := source[i], EditOf(codecs, plan, source[i]);
      if edit.Refuse? {
        RefusedForGood(codecs, plan, source, i, done);
        return NotWritten(edit.error);
      }
      ghost var before := done.segments;
      EditionGoesOn(codecs, plan, source, i, done);
      done := Extended(done, edit, m);
      if edit.Drop? {
        removed := true;
      } else {
        assert IsFramed(m);
        var payload := if edit.Keep? then m.payload else edit.payload;
        OneMoreIsWritable(limit, before, Marker(m.code, payload));
        assert done.segments == before + [Marker(m.code, payload)];
        removed := removed || (edit.Replace? && edit.removed);
        if |output| + 4 + |payload| > limit {
          UnwritableForGood(limit, done, Edited(codecs, plan, source[i + 1..]));
          return NotWritten(WriterError.MetadataLengthLimitExceeded);
        }
        if edit.Replace? && |payload| + 2 > 65535 {
          UnwritableForGood(limit, done, Edited(codecs, plan, source[i + 1..]));
          return NotWritten(MetadataPreservationFailed);
        }
        output := output + PrintMarker(PartOf(Marker(m.code, payload)));
      }
    }
    EditionEnds(codecs, plan, source, done);
    NoFaultAhead(codecs, plan, limit, source, |output|);
    r := Written(output, removed);
  }

  lemma NoFaultAhead(codecs: Codecs, plan: Plan, limit: nat, source: seq<Marker>, written: nat)
    ensures FirstFault(codecs, plan, limit, source[|source|..], written) == None
  {
  }

  /** The fault that the writer reports: Extended XMP is judged before any segment is looked at. */
  function WriterFault(codecs: Codecs, plan: Plan, limit: nat, source: seq<Marker>): Option<WriterError> {
    if !codecs.keepsExtended(source, plan) then Some(CodecRefused) else FirstFault(codecs, plan, limit, source, 0)
  }

  /** The writer. It succeeds exactly when Extended XMP may stay, no segment is refused and the edition can
      be written, and then writes just that edition; otherwise it names the first fault. */
  method ReconcileMarkerSegments(codecs: Codecs, plan: Plan, limit: nat, source: seq<Marker>) returns (r: WriterResult)
    requires AreFramed(source)
    ensures r.Written? <==>
              && codecs.keepsExtended(source, plan)
              && Edited(codecs, plan, source).Some?
              && IsWritable(limit, Edited(codecs, plan, source).value.segments)
    ensures r.Written? ==>
              && r.bytes == Framed(Edited(codecs, plan, source).value.segments)
              && r.removed == Edited(codecs, plan, source).value.removed
    ensures WriterFault(codecs, plan, limit, source) == if r.Written? then None else Some(r.error)
  {
    if !codecs.keepsExtended(source, plan) {
      return NotWritten(CodecRefused);
    }
    r := WriteSegments(codecs, plan, limit, source);
  }
}
