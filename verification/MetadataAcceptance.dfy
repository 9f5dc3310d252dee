/** What the validator's acceptance guarantees, whoever wrote the output: everything that is not rewritten is
    there unchanged and in order, and no preview of a transformed image is left. */
module MetadataAcceptance {
  import opened Options
  import opened Bytes
  import opened Jumbf
  import opened JpegScanner
  import opened MetadataReconciler
  import opened MetadataValidator

  /** Segments whose content may change under the plan: Exif and XMP always, previews of a transformed image. */
  predicate IsRewritable(plan: Plan, m: Marker) {
    IsExif(m) || IsXmp(m) || (plan.transformed && (IsJfif(m) || IsJfxx(m) || IsPhotoshop(m)))
  }

  /** The other segments, in order. */
  function Untouched(plan: Plan, segments: seq<Marker>): seq<Marker> {
    if segments == [] then []
    else (if IsRewritable(plan, segments[0]) then [] else [segments[0]]) + Untouched(plan, segments[1..])
  }

  function WithoutItsPreviews(records: Option<seq<seq<byte>>>): Option<seq<seq<byte>>> {
    if records.None? then None else Some(WithoutPreviews(records.value))
  }

  /** The records of each Photoshop segment, in order, all of them or without the previews; none for a segment
      that does not consist of records. */
  function Resources(codecs: Codecs, segments: seq<Marker>, previews: bool): seq<Option<seq<seq<byte>>>> {
    if segments == [] then []
    else
      var rest := Resources(codecs, segments[1..], previews);
      if !IsPhotoshop(segments[0]) then rest
      else
        var records := Records(codecs, segments[0].payload[14..]);
        [if previews then records else WithoutItsPreviews(records)] + rest
  }

  predicate HoldsThumbnail(p: seq<byte>) { |p| >= 14 && p[12] != 0 && p[13] != 0 }

  /** A preview that shows the image as it was before the transform. */
  predicate HoldsPreview(codecs: Codecs, m: Marker) {
    || IsJfxx(m)
    || (IsJfif(m) && HoldsThumbnail(m.payload))
    || (IsPhotoshop(m) && var records := Records(codecs, m.payload[14..]); records.Some? && HasPreview(records.value))
  }

  /** One accepted pair. */
  lemma AcceptedPair(codecs: Codecs, plan: Plan, source: Marker, output: Marker)
    requires SegmentCheck(codecs, plan, source, output).Passes? && !IsOmitted(plan, source)
    ensures IsRewritable(plan, source) == IsRewritable(plan, output)
    ensures !IsRewritable(plan, source) ==> output == source
    ensures plan.transformed ==> !HoldsPreview(codecs, output)
    ensures IsPhotoshop(source) == IsPhotoshop(output)
    ensures !plan.transformed && IsPhotoshop(source) ==> output == source
    ensures plan.transformed && IsPhotoshop(source) ==>
              var records := Records(codecs, source.payload[14..]);
              records.Some? && Records(codecs, output.payload[14..]) == Some(WithoutPreviews(records.value))
    ensures plan.transformed && HoldsPreview(codecs, source) ==> SegmentCheck(codecs, plan, source, output).removed
    ensures SegmentCheck(codecs, plan, source, output).removed ==>
              IsExif(source) || IsXmp(source) || (plan.transformed && HoldsPreview(codecs, source))
  {
    hide Records, HasPreview, WithoutPreviews;
    KindsDiffer(source);
    KindsDiffer(output);
    if plan.transformed && IsJfif(source) {
      assert output.payload[..12][..5] == source.payload[..12][..5];
      assert output.payload[0..5] == output.payload[..12][..5];
    }
  }

  /** Acceptance means: the segments that the plan does not rewrite are the source's, in order. */
  lemma {:induction false} AcceptedKeepsTheRest(codecs: Codecs, plan: Plan, source: seq<Marker>, output: seq<Marker>)
    requires Walked(codecs, plan, source, output).Passes?
    ensures Untouched(plan, output) == Untouched(plan, source)
  {
    hide SegmentCheck, IsRewritable;
    if source != [] {
      if IsOmitted(plan, source[0]) {
        OmittedIsRewritable(plan, source[0]);
        AcceptedKeepsTheRest(codecs, plan, source[1..], output);
      } else {
        AcceptedPair(codecs, plan, source[0], output[0]);
        AcceptedKeepsTheRest(codecs, plan, source[1..], output[1..]);
      }
    }
  }

  lemma OmittedIsRewritable(plan: Plan, m: Marker)
    requires IsOmitted(plan, m)
    ensures IsRewritable(plan, m) && !IsPhotoshop(m)
  {
  }

  /** Acceptance of a transformed image means: no segment of the output holds a preview of the image as it was. */
  lemma {:induction false} AcceptedHoldsNoPreview(codecs: Codecs, plan: Plan, source: seq<Marker>, output: seq<Marker>)
    requires Walked(codecs, plan, source, output).Passes? && plan.transformed
    ensures forall i | 0 <= i < |output| :: !HoldsPreview(codecs, output[i])
  {
    hide SegmentCheck, HoldsPreview;
    if source != [] {
      if IsOmitted(plan, source[0]) {
        AcceptedHoldsNoPreview(codecs, plan, source[1..], output);
      } else {
        AcceptedPair(codecs, plan, source[0], output[0]);
        AcceptedHoldsNoPreview(codecs, plan, source[1..], output[1..]);
        assert forall i | 1 <= i < |output| :: output[i] == output[1..][i - 1];
      }
    }
  }

  /** Acceptance means: the Photoshop records of the output are the source's, without its previews if the
      image is transformed. */
  lemma {:induction false} AcceptedKeepsResources(codecs: Codecs, plan: Plan, source: seq<Marker>, output: seq<Marker>)
    requires Walked(codecs, plan, source, output).Passes?
    ensures Resources(codecs, output, true) == Resources(codecs, source, !plan.transformed)
  {
    hide SegmentCheck, HoldsPreview, Records, WithoutPreviews, IsPhotoshop;
    if source != [] {
      if IsOmitted(plan, source[0]) {
        OmittedIsRewritable(plan, source[0]);
        AcceptedKeepsResources(codecs, plan, source[1..], output);
      } else {
        AcceptedPair(codecs, plan, source[0], output[0]);
        AcceptedKeepsResources(codecs, plan, source[1..], output[1..]);
      }
    }
  }

  /** The reported removal: every preview that a transformed source held is reported, and nothing is reported
      without one, unless an Exif or XMP comparison found it. */
  lemma {:induction false} AcceptedReportsRemovals(codecs: Codecs, plan: Plan, source: seq<Marker>, output: seq<Marker>)
    requires Walked(codecs, plan, source, output).Passes?
    ensures plan.transformed && (exists i :: 0 <= i < |source| && HoldsPreview(codecs, source[i])) ==>
              Walked(codecs, plan, source, output).removed
    ensures Walked(codecs, plan, source, output).removed ==>
              exists i :: 0 <= i < |source| && (IsExif(source[i]) || IsXmp(source[i])
                                               || (plan.transformed && HoldsPreview(codecs, source[i])))
  {
    hide SegmentCheck;
    if source != [] {
      assert forall i | 0 <= i < |source| :: i == 0 || source[i] == source[1..][i - 1];
      if IsOmitted(plan, source[0]) {
        assert HoldsPreview(codecs, source[0]);
        AcceptedReportsRemovals(codecs, plan, source[1..], output);
      } else {
        AcceptedPair(codecs, plan, source[0], output[0]);
        AcceptedReportsRemovals(codecs, plan, source[1..], output[1..]);
      }
    }
  }

  /** The payloads behind an identifier, in order. */
  function Payloads(code: byte, identifier: seq<byte>, segments: seq<Marker>): seq<seq<byte>> {
    if segments == [] then []
    else (if Is(segments[0], code, identifier) then [segments[0].payload[|identifier|..]] else [])
         + Payloads(code, identifier, segments[1..])
  }

  predicate AreCompared(compare: (seq<byte>, seq<byte>, Plan) -> Option<bool>, plan: Plan,
                        source: seq<seq<byte>>, output: seq<seq<byte>>)
  {
    |source| == |output| && forall i | 0 <= i < |source| :: compare(source[i], output[i], plan).Some?
  }

  lemma OneMoreCompared(compare: (seq<byte>, seq<byte>, Plan) -> Option<bool>, plan: Plan,
                        p: seq<byte>, q: seq<byte>, source: seq<seq<byte>>, output: seq<seq<byte>>)
    requires compare(p, q, plan).Some? && AreCompared(compare, plan, source, output)
    ensures AreCompared(compare, plan, [p] + source, [q] + output)
  {
  }

  /** Acceptance means: every Exif and XMP payload of the source stands in the output, in order, as one that
      its codec compared and accepted. */
  lemma {:induction false} AcceptedIsCompared(codecs: Codecs, plan: Plan, source: seq<Marker>, output: seq<Marker>)
    requires Walked(codecs, plan, source, output).Passes?
    ensures AreCompared(codecs.compareExif, plan, Payloads(APP1, EXIF, source), Payloads(APP1, EXIF, output))
    ensures AreCompared(codecs.compareXmp, plan,
                        Payloads(APP1, STANDARD_XMP, source), Payloads(APP1, STANDARD_XMP, output))
  {
    if source != [] {
      var m := source[0];
      KindsDiffer(m);
      if IsOmitted(plan, m) {
        AcceptedIsCompared(codecs, plan, source[1..], output);
      } else {
        var out := output[0];
        ComparedPair(codecs, plan, m, out);
        AcceptedIsCompared(codecs, plan, source[1..], output[1..]);
        hide SegmentCheck, AreCompared, Is;
        if IsExif(m) {
          OneMoreCompared(codecs.compareExif, plan, m.payload[|EXIF|..], out.payload[|EXIF|..],
                          Payloads(APP1, EXIF, source[1..]), Payloads(APP1, EXIF, output[1..]));
        } else if IsXmp(m) {
          OneMoreCompared(codecs.compareXmp, plan, m.payload[|STANDARD_XMP|..], out.payload[|STANDARD_XMP|..],
                          Payloads(APP1, STANDARD_XMP, source[1..]), Payloads(APP1, STANDARD_XMP, output[1..]));
        }
      }
    }
  }

  lemma ComparedPair(codecs: Codecs, plan: Plan, source: Marker, output: Marker)
    requires SegmentCheck(codecs, plan, source, output).Passes? && !IsOmitted(plan, source)
    ensures IsExif(output) == IsExif(source) && IsXmp(output) == IsXmp(source)
    ensures IsExif(source) ==>
              codecs.compareExif(source.payload[|EXIF|..], output.payload[|EXIF|..], plan).Some?
    ensures IsXmp(source) ==>
              codecs.compareXmp(source.payload[|STANDARD_XMP|..], output.payload[|STANDARD_XMP|..], plan).Some?
  {
    hide PhotoshopCheck, JfifCheck;
    KindsDiffer(source);
    KindsDiffer(output);
  }
}
