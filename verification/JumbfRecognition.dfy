/** The converse of the transport: whatever the JUMBF walk does not refuse is a sequence of opaque
    markers and whole boxes. */
module JumbfRecognition {
  import opened Bytes
  import opened Jumbf
  import opened JumbfTransport

  /** Between boxes, or inside one whose first pieces have been seen. */
  datatype Open = Closed | Midst(instance: nat, pieces: seq<seq<byte>>)

  ghost predicate IsPartial(pieces: seq<seq<byte>>) {
    && 0 < |pieces| < U32_LIMIT - 1
    && HasHeader(pieces[0])
    && (forall k | 0 < k < |pieces| :: |pieces[k]| > 0)
    && HasHeader(Concat(pieces))
    && |Concat(pieces)| < DeclaredLength(Concat(pieces))
  }

  ghost predicate Explains(items: seq<Item>, open: Open, markers: seq<Marker>) {
    && AreWellFormed(items)
    && match open
       case Closed => markers == Flattened(items)
       case Midst(instance, pieces) =>
         && instance < U16_LIMIT && instance !in Instances(items) && IsPartial(pieces)
         && markers == Flattened(items) + Fragments(instance, Header(Concat(pieces)), pieces)
  }

  function StateOf(items: seq<Item>, open: Open): Progress
    requires open.Midst? ==> HasHeader(Concat(open.pieces))
  {
    match open
    case Closed => StateAfter(items)
    case Midst(instance, pieces) => Midway(StateAfter(items), instance, Concat(pieces), |pieces|)
  }

  lemma ItemIsAdded(items: seq<Item>, item: Item, markers: seq<Marker>)
    requires AreWellFormed(items) && IsWellFormed(item)
    requires item.Boxed? ==> item.instance !in Instances(items)
    requires markers == Flattened(items) + Markers(item)
    ensures Explains(items + [item], Closed, markers)
  {
    assert (items + [item])[..|items|] == items;
  }

  lemma OpaqueIsExplained(items: seq<Item>, open: Open, markers: seq<Marker>, m: Marker)
    returns (items': seq<Item>, open': Open)
    requires Explains(items, open, markers) && !IsJumbFragment(m)
    requires !Consume(StateOf(items, open), m).Broken?
    ensures Explains(items', open', markers + [m])
    ensures open'.Midst? ==> HasHeader(Concat(open'.pieces))
    ensures Consume(StateOf(items, open), m) == StateOf(items', open')
  {
    items', open' := items + [Opaque(m)], Closed;
    ItemIsAdded(items, Opaque(m), markers + [m]);
    OpaqueIsConsumed(StateAfter(items), m);
    ItemIsConsumed(items, Opaque(m));
  }

  lemma FragmentsGrow(instance: nat, header: seq<byte>, pieces: seq<seq<byte>>, piece: seq<byte>)
    ensures Fragments(instance, header, pieces + [piece])
         == Fragments(instance, header, pieces) + [Fragment(instance, |pieces|, header, piece)]
    ensures Concat(pieces + [piece]) == Concat(pieces) + piece
  {
    assert (pieces + [piece])[..|pieces|] == pieces;
  }

  /** One more piece: the box is complete, or still open. */
  lemma PieceIsExplained(items: seq<Item>, instance: nat, pieces: seq<seq<byte>>, markers: seq<Marker>)
    returns (items': seq<Item>, open': Open)
    requires AreWellFormed(items) && instance < U16_LIMIT && instance !in Instances(items)
    requires 0 < |pieces| < U32_LIMIT && HasHeader(pieces[0]) && forall k | 0 < k < |pieces| :: |pieces[k]| > 0
    requires HasHeader(Concat(pieces))
    requires !Reached(StateAfter(items), instance, Concat(pieces), |pieces|).Broken?
    requires markers == Flattened(items) + Fragments(instance, Header(Concat(pieces)), pieces)
    ensures Explains(items', open', markers)
    ensures open'.Midst? ==> HasHeader(Concat(open'.pieces))
    ensures Reached(StateAfter(items), instance, Concat(pieces), |pieces|) == StateOf(items', open')
  {
    var bytes := Concat(pieces);
    if |bytes| == DeclaredLength(bytes) {
      var item := Boxed(instance, bytes, pieces);
      items', open' := items + [item], Closed;
      ItemIsAdded(items, item, markers);
      BoxIsConsumed(StateAfter(items), item);
      hide AreWellFormed, IsWellFormed, HasStoreIdentity;
      ItemIsConsumed(items, item);
    } else {
      items', open' := items, Midst(instance, pieces);
    }
  }

  lemma StartNeedsClosed(items: seq<Item>, open: Open, m: Marker)
    requires open.Midst? ==> HasHeader(Concat(open.pieces))
    requires IsJumbFragment(m) && NumberAt(m.payload, 4, 4) == 1
    requires !Consume(StateOf(items, open), m).Broken?
    ensures open.Closed? && NumberAt(m.payload, 2, 2) !in Instances(items)
  {
    hide Append, HasStore, HasStoreIdentity;
  }

  lemma StartIsExplained(items: seq<Item>, open: Open, markers: seq<Marker>, m: Marker)
    returns (items': seq<Item>, open': Open)
    requires Explains(items, open, markers) && IsJumbFragment(m) && NumberAt(m.payload, 4, 4) == 1
    requires !Consume(StateOf(items, open), m).Broken?
    ensures Explains(items', open', markers + [m])
    ensures open'.Midst? ==> HasHeader(Concat(open'.pieces))
    ensures Consume(StateOf(items, open), m) == StateOf(items', open')
  {
    var instance, piece := NumberAt(m.payload, 2, 2), m.payload[8..];
    StartNeedsClosed(items, open, m);
    hide AreWellFormed, Consume, Reached, IsJumbFragment, Fragment, Fragments, Instances, Boxes;
    StartReaches(StateAfter(items), m);
    StartIsFragment(m, Header(piece));
    FragmentsGrow(instance, Header(piece), [], piece);
    assert [] + [piece] == [piece];
    NoFragments(instance, Header(piece));
    items', open' := PieceIsExplained(items, instance, [piece], markers + [m]);
  }

  lemma NoFragments(instance: nat, header: seq<byte>)
    ensures Fragments(instance, header, []) == [] && Concat<byte>([]) == []
  {
  }

  lemma StartIsFragment(m: Marker, header: seq<byte>)
    requires IsJumbFragment(m) && NumberAt(m.payload, 4, 4) == 1
    ensures NumberAt(m.payload, 2, 2) < U16_LIMIT
    ensures m == Fragment(NumberAt(m.payload, 2, 2), 0, header, m.payload[8..])
  {
    FragmentIsRead(m);
    hide NumberAt, ToBytes, Matches;
    assert [] + m.payload[8..] == m.payload[8..];
  }

  lemma RepeatedHeaderIsSame(before: seq<byte>, p: seq<byte>)
    requires HasHeader(before) && |p| >= 16 && |p| > 8 + HeaderLength(NumberAt(p, 8, 4)) && p[8..16] == before[..8]
    requires NumberAt(p, 8, 4) == 1 ==> NumberAt(p, 16, 8) == DeclaredLength(before)
    ensures NumberAt(p, 8, 4) == NumberAt(before, 0, 4)
    ensures p[8..8 + HeaderLength(NumberAt(before, 0, 4))] == Header(before)
  {
    assert p[8..12] == p[8..16][..4] && before[0..4] == before[..8][..4];
    if NumberAt(p, 8, 4) == 1 {
      SameNumberSameBytes(p[16..24], before[8..16]);
      assert p[8..24] == p[8..16] + p[16..24];
      assert before[..16] == before[..8] + before[8..16];
    }
  }

  lemma ContinuationMatches(s: Progress, instance: nat, before: seq<byte>, n: nat, m: Marker)
    requires s.Scanning? && HasHeader(before) && IsJumbFragment(m) && NumberAt(m.payload, 4, 4) != 1
    requires !Consume(Midway(s, instance, before, n), m).Broken?
    ensures NumberAt(m.payload, 2, 2) == instance && NumberAt(m.payload, 4, 4) == n + 1
    ensures |m.payload| > 8 + |Header(before)| && m.payload[8..8 + |Header(before)|] == Header(before)
  {
    hide Append;
    RepeatedHeaderIsSame(before, m.payload);
  }

  lemma ContinuationIsFragment(instance: nat, before: seq<byte>, n: nat, m: Marker)
    requires HasHeader(before) && IsJumbFragment(m) && n > 0
    requires NumberAt(m.payload, 2, 2) == instance && NumberAt(m.payload, 4, 4) == n + 1
    requires |m.payload| > 8 + |Header(before)| && m.payload[8..8 + |Header(before)|] == Header(before)
    ensures m == Fragment(instance, n, Header(before), m.payload[8 + |Header(before)|..])
    ensures n + 1 < U32_LIMIT
  {
    FragmentIsRead(m);
    hide IsJumbFragment, NumberAt, ToBytes, Header, HasHeader, Matches;
    DropSplits(m.payload, 8, 8 + |Header(before)|);
  }

  lemma ContinuationGrows(s: Progress, instance: nat, pieces: seq<seq<byte>>, m: Marker) returns (piece: seq<byte>)
    requires s.Scanning? && IsPartial(pieces) && IsJumbFragment(m) && NumberAt(m.payload, 4, 4) != 1
    requires !Consume(Midway(s, instance, Concat(pieces), |pieces|), m).Broken?
    ensures |piece| > 0 && HasHeader(Concat(pieces) + piece) && |pieces| + 1 < U32_LIMIT
    ensures Header(Concat(pieces) + piece) == Header(Concat(pieces))
    ensures m == Fragment(instance, |pieces|, Header(Concat(pieces)), piece)
    ensures Consume(Midway(s, instance, Concat(pieces), |pieces|), m)
         == Reached(s, instance, Concat(pieces) + piece, |pieces| + 1)
  {
    hide Consume, Reached, HasStoreIdentity, IsJumbFragment, Fragment, Concat;
    var before := Concat(pieces);
    ContinuationMatches(s, instance, before, |pieces|, m);
    piece := m.payload[8 + |Header(before)|..];
    ContinuationIsFragment(instance, before, |pieces|, m);
    ContinueReaches(s, instance, before, |pieces|, m);
    SharedHeader(before, before + piece);
  }

  lemma ContinuationIsExplained(items: seq<Item>, open: Open, markers: seq<Marker>, m: Marker)
    returns (items': seq<Item>, open': Open)
    requires Explains(items, open, markers) && IsJumbFragment(m) && NumberAt(m.payload, 4, 4) != 1
    requires !Consume(StateOf(items, open), m).Broken?
    ensures Explains(items', open', markers + [m])
    ensures open'.Midst? ==> HasHeader(Concat(open'.pieces))
    ensures Consume(StateOf(items, open), m) == StateOf(items', open')
  {
    hide AreWellFormed, Reached, HasStoreIdentity, IsJumbFragment, Fragment, Append, HasHeader, Concat, Fragments;
    assert open.Midst?;
    hide Consume, StateAfter;
    var piece := ContinuationGrows(StateAfter(items), open.instance, open.pieces, m);
    FragmentsGrow(open.instance, Header(Concat(open.pieces)), open.pieces, piece);
    items', open' := PieceIsExplained(items, open.instance, open.pieces + [piece], markers + [m]);
  }

  lemma {:induction false} EveryWalkIsExplained(markers: seq<Marker>) returns (items: seq<Item>, open: Open)
    requires !ConsumeAll(START, markers).Broken?
    ensures Explains(items, open, markers)
    ensures open.Midst? ==> HasHeader(Concat(open.pieces))
    ensures ConsumeAll(START, markers) == StateOf(items, open)
  {
    if markers == [] {
      items, open := [], Closed;
      assert Boxes(items) == [];
    } else {
      var front, m := markers[..|markers| - 1], markers[|markers| - 1];
      assert markers == front + [m];
      items, open := EveryWalkIsExplained(front);
      hide Explains, IsJumbFragment, StateOf;
      if !IsJumbFragment(m) {
        items, open := OpaqueIsExplained(items, open, front, m);
      } else if JumbSequence(m) == 1 {
        items, open := StartIsExplained(items, open, front, m);
      } else {
        items, open := ContinuationIsExplained(items, open, front, m);
      }
    }
  }

  function JumbSequence(m: Marker): nat
    requires IsJumbFragment(m)
  {
    NumberAt(m.payload, 4, 4)
  }

  ghost predicate IsTransport(markers: seq<Marker>, items: seq<Item>) {
    AreWellFormed(items) && Flattened(items) == markers
  }

  /** The walk refuses a marker sequence exactly when it is not a sequence of opaque markers and whole
      boxes, contiguous and in order; otherwise its verdict is the one on the whole boxes. */
  lemma ClassificationIsExact(markers: seq<Marker>)
    ensures Concluded(ConsumeAll(START, markers)) != Malformed <==> exists items :: IsTransport(markers, items)
    ensures forall items ::
              IsTransport(markers, items) ==> Concluded(ConsumeAll(START, markers)) == Verdict(Boxes(items))
  {
    if Concluded(ConsumeAll(START, markers)) != Malformed {
      var items, open := EveryWalkIsExplained(markers);
      assert IsTransport(markers, items);
    }
    forall items | IsTransport(markers, items)
      ensures Concluded(ConsumeAll(START, markers)) == Verdict(Boxes(items))
    {
      FragmentationDoesNotMatter(items);
    }
  }
}
