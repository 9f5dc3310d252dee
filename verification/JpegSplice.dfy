/** The splice: the codec's own metadata is cut out of its output and the reconciled segments go in. */
module JpegSplice {
  import opened Options
  import opened Bytes
  import opened JpegSyntax
  import opened JpegScanner
  import opened JpegGrammar

  /** The parts that stay, and the fill bytes left over from the cut markers since the last of them. A cut
      marker leaves its fill behind, where it becomes fill of the next marker. */
  datatype Remains = Remains(parts: seq<Part>, fill: nat)

  function Cut(parts: seq<Part>): Remains {
    if parts == [] then Remains([], 0)
    else
      var front, p := Cut(parts[..|parts| - 1]), parts[|parts| - 1];
      if IsMetadata(p.code) then front.(fill := front.fill + p.fill)
      else Remains(front.parts + [p.(fill := front.fill + p.fill)], 0)
  }

  /** The codestream with these segments in place of its metadata. */
  function Spliced(c: Codestream, segments: seq<Part>): Codestream {
    var remains := Cut(c.parts);
    Codestream(segments + remains.parts, remains.fill + c.endFill, c.trailing)
  }

  /** The total length of the metadata markers. */
  function MetadataLength(markers: seq<MarkerReference>): nat {
    if markers == [] then 0
    else MetadataLength(markers[..|markers| - 1])
         + (if IsMetadata(markers[|markers| - 1].code) then markers[|markers| - 1].encoded.length else 0)
  }

  /** Where the last metadata marker ends. */
  function CursorAfter(markers: seq<MarkerReference>): nat {
    if markers == [] then 2
    else
      var last := markers[|markers| - 1];
      if IsMetadata(last.code) then last.encoded.offset + last.encoded.length
      else CursorAfter(markers[..|markers| - 1])
  }

  predicate AreInOrder(bytes: seq<byte>, markers: seq<MarkerReference>) {
    if markers == [] then 2 <= |bytes|
    else
      && AreInOrder(bytes, markers[..|markers| - 1])
      && (IsMetadata(markers[|markers| - 1].code) ==>
            && CursorAfter(markers[..|markers| - 1]) <= markers[|markers| - 1].encoded.offset
            && CursorAfter(markers) <= |bytes|)
  }

  lemma {:induction false} CursorInBounds(bytes: seq<byte>, markers: seq<MarkerReference>)
    requires AreInOrder(bytes, markers)
    ensures 2 <= CursorAfter(markers) <= |bytes|
  {
    if markers != [] {
      CursorInBounds(bytes, markers[..|markers| - 1]);
    }
  }

  /** What the loop has copied: everything before its cursor but the metadata. */
  function Kept(bytes: seq<byte>, markers: seq<MarkerReference>): seq<byte>
    requires AreInOrder(bytes, markers)
  {
    if markers == [] then []
    else
      var front, last := markers[..|markers| - 1], markers[|markers| - 1];
      CursorInBounds(bytes, front);
      if IsMetadata(last.code) then Kept(bytes, front) + bytes[CursorAfter(front)..last.encoded.offset]
      else Kept(bytes, front)
  }

  lemma {:induction false} PrefixInOrder(bytes: seq<byte>, markers: seq<MarkerReference>, n: nat)
    requires n <= |markers| && AreInOrder(bytes, markers)
    ensures AreInOrder(bytes, markers[..n])
  {
    if n < |markers| {
      PrefixInOrder(bytes, markers[..|markers| - 1], n);
      assert markers[..|markers| - 1][..n] == markers[..n];
    } else {
      assert markers[..n] == markers;
    }
  }

  /** The codec's start of image, the segments, and the rest of the codec's output without its metadata. */
  predicate IsSplice(codec: seq<byte>, markers: seq<MarkerReference>, segments: seq<byte>, spliced: seq<byte>) {
    && AreInOrder(codec, markers)
    && 2 <= CursorAfter(markers) <= |codec|
    && spliced == codec[..2] + segments + Kept(codec, markers) + codec[CursorAfter(markers)..]
  }

  /** What the cut markers take up, which the estimate subtracts. */
  method Discarded(markers: seq<MarkerReference>) returns (discarded: nat)
    ensures discarded == MetadataLength(markers)
  {
    discarded := 0;
    for i := 0 to |markers|
      invariant discarded == MetadataLength(markers[..i])
    {
      assert markers[..i + 1][..i] == markers[..i];
      if IsMetadata(markers[i].code) {
        discarded := discarded + markers[i].encoded.length;
      }
    }
    assert markers[..|markers|] == markers;
  }

  /** The splice loop over the markers of the codec's output; none when the result would be too long. */
  method Splice(limit: nat, codec: seq<byte>, markers: seq<MarkerReference>, segments: seq<byte>)
    returns (r: Option<seq<byte>>)
    requires AreInOrder(codec, markers) && MetadataLength(markers) <= |codec|
    ensures r.None? <==> |segments| + (|codec| - MetadataLength(markers)) > limit
    ensures r.Some? ==> IsSplice(codec, markers, segments, r.value)
  {
    var discarded := Discarded(markers);
    if |segments| > limit || |codec| - discarded > limit - |segments| {
      return None;
    }
    CursorInBounds(codec, markers);
    assert markers[..|markers|] == markers;
    var completed := codec[..2] + segments;
    var cursor := 2;
    for i := 0 to |markers|
      invariant AreInOrder(codec, markers[..i])
      invariant cursor == CursorAfter(markers[..i]) && 2 <= cursor <= |codec|
      invariant completed == codec[..2] + segments + Kept(codec, markers[..i])
    {
      assert markers[..i + 1][..i] == markers[..i];
      PrefixInOrder(codec, markers, i + 1);
      CursorInBounds(codec, markers[..i + 1]);
      if IsMetadata(markers[i].code) {
        var offset := markers[i].encoded.offset;
        completed := completed + codec[cursor..offset];
        cursor := offset + markers[i].encoded.length;
      }
    }
    r := Some(completed + codec[cursor..]);
  }

  lemma {:induction false} OthersAreIgnored(bytes: seq<byte>, markers: seq<MarkerReference>,
                                            others: seq<MarkerReference>)
    requires AreInOrder(bytes, markers) && forall i | 0 <= i < |others| :: !IsMetadata(others[i].code)
    ensures AreInOrder(bytes, markers + others)
    ensures CursorAfter(markers + others) == CursorAfter(markers)
    ensures Kept(bytes, markers + others) == Kept(bytes, markers)
    ensures MetadataLength(markers + others) == MetadataLength(markers)
  {
    if others == [] {
      assert markers + others == markers;
    } else {
      var front := others[..|others| - 1];
      assert (markers + others)[..|markers + others| - 1] == markers + front;
      OthersAreIgnored(bytes, markers, front);
      CursorInBounds(bytes, markers + front);
    }
  }

  /** A part adds its marker and its restarts to the list. */
  lemma PartAddsMarkers(limits: Limits, w: Walk, p: Part, at: nat)
    returns (m: MarkerReference, restarts: seq<MarkerReference>)
    requires IsWellFormed(p) && AdvancePart(limits, w, p, at).Got?
    ensures AdvancePart(limits, w, p, at).value.markers == (w.markers + [m]) + restarts
    ensures m.code == p.code && m.encoded == Range(at + p.fill, MarkerLength(p))
    ensures m.payload == Range(at + p.fill + (if p.code == TEM then 2 else 4), |p.payload|)
    ensures restarts == (if p.code == SOS then RestartsIn(p.entropy, at + p.fill + MarkerLength(p)) else [])
    ensures forall i | 0 <= i < |restarts| :: IsRestart(restarts[i].code)
  {
    hide ParseFrameHeader, Matches, Guid, IsValidScanHeader, IsEntropyRange, Restarts;
    var u := Advance(limits, w, p.code, p.payload, at + p.fill).value;
    m := MarkerReference(p.code, Range(at + p.fill, MarkerLength(p)),
                         Range(at + p.fill + (if p.code == TEM then 2 else 4), |p.payload|));
    assert u.markers == w.markers + [m];
    restarts := [];
    if p.code == SOS {
      var data := at + p.fill + MarkerLength(p);
      RestartsAreRestarts(p.entropy, 0, |p.entropy|, data);
      restarts := RestartsIn(p.entropy, data);
    }
  }

  function RestartsIn(entropy: seq<byte>, data: nat): seq<MarkerReference>
    requires IsEntropy(entropy)
  {
    RestartReferences(Restarts(entropy, 0, |entropy|, data))
  }

  lemma {:induction false} RestartsShift(bytes: seq<byte>, i: nat, e: nat, shift: int)
    requires i <= e <= |bytes| && IsEntropyRange(bytes, i, e)
    ensures |Restarts(bytes, i, e, shift)| == |Restarts(bytes, i, e, 0)|
    ensures forall n | 0 <= n < |Restarts(bytes, i, e, 0)| ::
              Restarts(bytes, i, e, shift)[n].1 == Restarts(bytes, i, e, 0)[n].1
    decreases e - i
  {
    if i < e {
      RestartsShift(bytes, if bytes[i] != FF then i + 1 else FillEnd(bytes, i) + 1, e, shift);
    }
  }

  lemma FillsJoin(a: nat, b: nat)
    ensures Fill(a) + Fill(b) == Fill(a + b)
  {
  }

  /** The bytes kept so far, with those since the cursor, print the parts that stay. */
  ghost predicate KeepsParts(bytes: seq<byte>, markers: seq<MarkerReference>, at: nat, remains: Remains) {
    && AreInOrder(bytes, markers)
    && CursorAfter(markers) <= at <= |bytes|
    && MetadataLength(markers) <= at
    && Kept(bytes, markers) + bytes[CursorAfter(markers)..at] == PrintAll(remains.parts) + Fill(remains.fill)
  }

  lemma OthersKeepParts(bytes: seq<byte>, markers: seq<MarkerReference>, others: seq<MarkerReference>, at: nat,
                        remains: Remains)
    requires KeepsParts(bytes, markers, at, remains) && forall i | 0 <= i < |others| :: !IsMetadata(others[i].code)
    ensures KeepsParts(bytes, markers + others, at, remains)
  {
    OthersAreIgnored(bytes, markers, others);
  }

  lemma MetadataIsCut(bytes: seq<byte>, markers: seq<MarkerReference>, at: nat, remains: Remains, p: Part,
                      m: MarkerReference)
    requires KeepsParts(bytes, markers, at, remains) && IsWellFormed(p) && IsMetadata(p.code)
    requires m.code == p.code && m.encoded == Range(at + p.fill, MarkerLength(p))
    requires at + |Print(p)| <= |bytes| && bytes[at..at + |Print(p)|] == Print(p)
    ensures KeepsParts(bytes, markers + [m], at + |Print(p)|, remains.(fill := remains.fill + p.fill))
  {
    hide PrintAll;
    CursorInBounds(bytes, markers);
    assert (markers + [m])[..|markers|] == markers;
    var cursor := CursorAfter(markers);
    assert Fill(p.fill) + (PrintMarker(p) + p.entropy) == Print(p);
    SplitWindow(bytes, at, Fill(p.fill), PrintMarker(p) + p.entropy);
    FillsJoin(remains.fill, p.fill);
    calc {
      Kept(bytes, markers + [m]);
      Kept(bytes, markers) + bytes[cursor..at + p.fill];
      { WindowSplits(bytes, cursor, at, at + p.fill); }
      Kept(bytes, markers) + (bytes[cursor..at] + Fill(p.fill));
      { JoinIsAssociative(Kept(bytes, markers), bytes[cursor..at], Fill(p.fill)); }
      (Kept(bytes, markers) + bytes[cursor..at]) + Fill(p.fill);
      (PrintAll(remains.parts) + Fill(remains.fill)) + Fill(p.fill);
      { JoinIsAssociative(PrintAll(remains.parts), Fill(remains.fill), Fill(p.fill)); }
      PrintAll(remains.parts) + Fill(remains.fill + p.fill);
    }
  }

  lemma PartIsKept(bytes: seq<byte>, markers: seq<MarkerReference>, at: nat, remains: Remains, p: Part)
    requires KeepsParts(bytes, markers, at, remains)
    requires at + |Print(p)| <= |bytes| && bytes[at..at + |Print(p)|] == Print(p)
    ensures KeepsParts(bytes, markers, at + |Print(p)|, Remains(remains.parts + [p.(fill := remains.fill + p.fill)], 0))
  {
    CursorInBounds(bytes, markers);
    var cursor, q := CursorAfter(markers), p.(fill := remains.fill + p.fill);
    assert (remains.parts + [q])[..|remains.parts|] == remains.parts;
    var rest := PrintMarker(p) + p.entropy;
    FillsJoin(remains.fill, p.fill);
    hide PrintAll, PrintMarker;
    assert Print(q) == Fill(remains.fill) + Print(p) by {
      assert Print(p) == Fill(p.fill) + rest;
      assert Print(q) == Fill(remains.fill + p.fill) + rest;
      JoinIsAssociative(Fill(remains.fill), Fill(p.fill), rest);
    }
    calc {
      Kept(bytes, markers) + bytes[cursor..at + |Print(p)|];
      { WindowSplits(bytes, cursor, at, at + |Print(p)|); }
      Kept(bytes, markers) + (bytes[cursor..at] + Print(p));
      { JoinIsAssociative(Kept(bytes, markers), bytes[cursor..at], Print(p)); }
      (PrintAll(remains.parts) + Fill(remains.fill)) + Print(p);
      { JoinIsAssociative(PrintAll(remains.parts), Fill(remains.fill), Print(p)); }
      PrintAll(remains.parts) + Print(q);
    }
  }

  lemma MoreMarkersKeepParts(limits: Limits, bytes: seq<byte>, w: Walk, at: nat, remains: Remains, p: Part, v: Walk)
    requires KeepsParts(bytes, w.markers, at, remains) && IsWellFormed(p) && AdvancePart(limits, w, p, at) == Got(v)
    requires at + |Print(p)| <= |bytes| && bytes[at..at + |Print(p)|] == Print(p)
    ensures KeepsParts(bytes, v.markers, at + |Print(p)|,
                       if IsMetadata(p.code) then remains.(fill := remains.fill + p.fill)
                       else Remains(remains.parts + [p.(fill := remains.fill + p.fill)], 0))
  {
    hide KeepsParts, AdvancePart, Print;
    var m, restarts := PartAddsMarkers(limits, w, p, at);
    if IsMetadata(p.code) {
      MetadataIsCut(bytes, w.markers, at, remains, p, m);
    } else {
      PartIsKept(bytes, w.markers, at, remains, p);
      OthersKeepParts(bytes, w.markers, [m], at + |Print(p)|,
                      Remains(remains.parts + [p.(fill := remains.fill + p.fill)], 0));
    }
    OthersKeepParts(bytes, w.markers + [m], restarts, at + |Print(p)|,
                    if IsMetadata(p.code) then remains.(fill := remains.fill + p.fill)
                    else Remains(remains.parts + [p.(fill := remains.fill + p.fill)], 0));
  }

  lemma BeginningKeepsNothing(c: Codestream)
    ensures KeepsParts(Encoded(c), BEGINNING.markers, 2, Cut([]))
  {
    hide Ending;
    assert Kept(Encoded(c), []) + Encoded(c)[2..2] == [] == PrintAll([]) + Fill(0);
    assert KeepsParts(Encoded(c), [], 2, Cut([]));
    OthersKeepParts(Encoded(c), [], BEGINNING.markers, 2, Cut([]));
    assert [] + BEGINNING.markers == BEGINNING.markers;
  }

  lemma NothingPrinted()
    ensures PrintAll([]) == []
  {
  }

  lemma CutOfPrefix(parts: seq<Part>, n: nat)
    requires n < |parts|
    ensures var before, p := Cut(parts[..n]), parts[n];
            Cut(parts[..n + 1]) == if IsMetadata(p.code) then before.(fill := before.fill + p.fill)
                                   else Remains(before.parts + [p.(fill := before.fill + p.fill)], 0)
  {
    assert parts[..n + 1][..n] == parts[..n];
  }

  lemma {:induction false} PartsAreKept(limits: Limits, c: Codestream, n: nat)
    requires AreWellFormed(c.parts) && n <= |c.parts| && WalkAll(limits, c.parts).Got?
    ensures WalkAll(limits, c.parts[..n]).Got?
    ensures KeepsParts(Encoded(c), WalkAll(limits, c.parts[..n]).value.markers, OffsetOf(c.parts, n), Cut(c.parts[..n]))
  {
    hide KeepsParts, Encoded, Print, AdvancePart, IsWellFormed, PrintAll, Cut;
    PrefixIsWalked(limits, c.parts, n);
    if n == 0 {
      assert c.parts[..0] == [];
      NothingPrinted();
      BeginningKeepsNothing(c);
    } else {
      hide WalkAll;
      PartsAreKept(limits, c, n - 1);
      var front, p := c.parts[..n - 1], c.parts[n - 1];
      assert IsWellFormed(p);
      PartStands(c, n - 1);
      CutOfPrefix(c.parts, n - 1);
      MoreMarkersKeepParts(limits, Encoded(c), WalkAll(limits, front).value, OffsetOf(c.parts, n - 1), Cut(front), p,
                           WalkAll(limits, c.parts[..n]).value);
    }
  }

  lemma {:induction false} PrefixIsWalked(limits: Limits, parts: seq<Part>, n: nat)
    requires AreWellFormed(parts) && n <= |parts| && WalkAll(limits, parts).Got?
    ensures WalkAll(limits, parts[..n]).Got?
    ensures n > 0 ==>
              && WalkAll(limits, parts[..n - 1]).Got?
              && AdvancePart(limits, WalkAll(limits, parts[..n - 1]).value, parts[n - 1], OffsetOf(parts, n - 1))
                 == WalkAll(limits, parts[..n])
  {
    hide AdvancePart, IsWellFormed;
    if n < |parts| {
      PrefixIsWalked(limits, parts[..|parts| - 1], n);
      assert parts[..|parts| - 1][..n] == parts[..n];
      assert n > 0 ==> parts[..|parts| - 1][..n - 1] == parts[..n - 1];
    } else {
      assert parts[..n] == parts;
    }
  }

  /** The spliced bytes print the spliced codestream, whatever segments go in. */
  lemma SpliceIsPrinted(limits: Limits, c: Codestream, w: Walk, endOffset: nat, segments: seq<Part>)
    requires AreWellFormed(c.parts) && WalkAll(limits, c.parts) == Got(w)
    ensures var bytes, markers := Encoded(c), AllMarkers(w, endOffset);
            && AreInOrder(bytes, markers) && MetadataLength(markers) <= |bytes|
            && 2 <= CursorAfter(markers) <= |bytes|
            && bytes[..2] + PrintAll(segments) + Kept(bytes, markers) + bytes[CursorAfter(markers)..]
               == Encoded(Spliced(c, segments))
  {
    hide WalkAll, PrintAll, Cut;
    var bytes, markers, at, remains := Encoded(c), AllMarkers(w, endOffset), OffsetOf(c.parts, |c.parts|), Cut(c.parts);
    PartsAreKept(limits, c, |c.parts|);
    assert c.parts[..|c.parts|] == c.parts;
    OthersKeepParts(bytes, w.markers, [markers[|w.markers|]], at, remains);
    CursorInBounds(bytes, markers);
    var kept, cursor := Kept(bytes, markers), CursorAfter(markers);
    PrintInParts(segments, remains.parts);
    FillsJoin(remains.fill, c.endFill);
    var tail := [FF, EOI] + c.trailing;
    assert bytes[..2] == [FF, SOI];
    assert Ending(c) == Fill(c.endFill) + tail;
    assert bytes[at..] == Ending(c);
    RestIsPrinted(bytes, cursor, at, kept, PrintAll(remains.parts), Fill(remains.fill), Fill(c.endFill), tail);
    var rest := (Fill(remains.fill) + Fill(c.endFill)) + tail;
    Reassociate([FF, SOI], PrintAll(segments), kept, bytes[cursor..], PrintAll(remains.parts), rest);
    assert Ending(Spliced(c, segments)) == rest;
  }

  lemma Reassociate<T>(a: seq<T>, s: seq<T>, kept: seq<T>, r: seq<T>, parts: seq<T>, rest: seq<T>)
    requires kept + r == parts + rest
    ensures a + s + kept + r == a + (s + parts) + rest
  {
    JoinIsAssociative(a + s, kept, r);
    JoinIsAssociative(a + s, parts, rest);
    JoinIsAssociative(a, s, parts);
  }

  lemma RestIsPrinted(bytes: seq<byte>, cursor: nat, at: nat, kept: seq<byte>, parts: seq<byte>, fill: seq<byte>,
                      endFill: seq<byte>, tail: seq<byte>)
    requires cursor <= at <= |bytes| && kept + bytes[cursor..at] == parts + fill && bytes[at..] == endFill + tail
    ensures kept + bytes[cursor..] == parts + ((fill + endFill) + tail)
  {
    assert bytes[cursor..] == bytes[cursor..at] + bytes[at..];
    JoinIsAssociative(kept, bytes[cursor..at], bytes[at..]);
    JoinIsAssociative(parts, fill, endFill + tail);
    JoinIsAssociative(fill, endFill, tail);
  }
}
