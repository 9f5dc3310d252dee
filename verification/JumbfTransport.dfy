/** What the JUMBF walk recognises: sequences of opaque markers and of boxes in contiguous fragments.
    Its verdict depends on the boxes, not on how they are split. */
module JumbfTransport {
  import opened Options
  import opened Bytes
  import opened Jumbf

  /** An opaque marker, or a whole box with the pieces that its fragments carry. */
  datatype Item = Opaque(marker: Marker) | Boxed(instance: nat, bytes: seq<byte>, pieces: seq<seq<byte>>)

  /** A box of type `jumb` whose own length field, short or large, is its length. */
  predicate IsBox(bytes: seq<byte>) {
    HasHeader(bytes) && DeclaredLength(bytes) == |bytes|
  }

  predicate HasHeader(bytes: seq<byte>) {
    |bytes| >= 8 && Matches(bytes, 4, JUMB) && |bytes| >= HeaderLength(NumberAt(bytes, 0, 4))
  }

  function DeclaredLength(bytes: seq<byte>): nat
    requires HasHeader(bytes)
  {
    if NumberAt(bytes, 0, 4) == 1 then NumberAt(bytes, 8, 8) else NumberAt(bytes, 0, 4)
  }

  function Header(bytes: seq<byte>): seq<byte>
    requires HasHeader(bytes)
  {
    bytes[..HeaderLength(NumberAt(bytes, 0, 4))]
  }

  /** The header lies in the first piece, and every later piece carries data. */
  ghost predicate IsSplit(bytes: seq<byte>, pieces: seq<seq<byte>>) {
    && 0 < |pieces| < U32_LIMIT
    && Concat(pieces) == bytes
    && HasHeader(pieces[0])
    && forall k | 0 < k < |pieces| :: |pieces[k]| > 0
  }

  /** The k-th fragment, numbered from 1; every fragment after the first repeats the header. */
  function Fragment(instance: nat, k: nat, header: seq<byte>, piece: seq<byte>): Marker {
    Marker(APP11, JP + ToBytes(instance, 2) + ToBytes(k + 1, 4) + ((if k == 0 then [] else header) + piece))
  }

  function Fragments(instance: nat, header: seq<byte>, pieces: seq<seq<byte>>): seq<Marker> {
    if pieces == [] then []
    else Fragments(instance, header, pieces[..|pieces| - 1])
         + [Fragment(instance, |pieces| - 1, header, pieces[|pieces| - 1])]
  }

  ghost predicate IsWellFormed(item: Item) {
    match item
    case Opaque(marker) => !IsJumbFragment(marker)
    case Boxed(instance, bytes, pieces) => instance < U16_LIMIT && IsBox(bytes) && IsSplit(bytes, pieces)
  }

  function Markers(item: Item): seq<Marker>
    requires item.Boxed? ==> HasHeader(item.bytes)
  {
    match item
    case Opaque(marker) => [marker]
    case Boxed(instance, bytes, pieces) => Fragments(instance, Header(bytes), pieces)
  }

  function Instances(items: seq<Item>): seq<nat> {
    if items == [] then []
    else Instances(items[..|items| - 1])
         + (if items[|items| - 1].Boxed? then [items[|items| - 1].instance] else [])
  }

  /** Well-formed items, no two boxes with one instance number. */
  ghost predicate AreWellFormed(items: seq<Item>) {
    items == []
    || (&& AreWellFormed(items[..|items| - 1])
        && IsWellFormed(items[|items| - 1])
        && (items[|items| - 1].Boxed? ==> items[|items| - 1].instance !in Instances(items[..|items| - 1])))
  }

  function Flattened(items: seq<Item>): seq<Marker>
    requires AreWellFormed(items)
  {
    if items == [] then [] else Flattened(items[..|items| - 1]) + Markers(items[|items| - 1])
  }

  /** The boxes, whole. */
  function Boxes(items: seq<Item>): seq<seq<byte>> {
    if items == [] then []
    else Boxes(items[..|items| - 1]) + (if items[|items| - 1].Boxed? then [items[|items| - 1].bytes] else [])
  }

  predicate HasStore(boxes: seq<seq<byte>>) {
    exists i :: 0 <= i < |boxes| && HasStoreIdentity(boxes[i], |boxes[i]|)
  }

  /** The verdict on whole boxes. */
  function Verdict(boxes: seq<seq<byte>>): Classification {
    if HasStore(boxes) then C2paManifestStore else if boxes != [] then UnsupportedJumbf else Absent
  }

  lemma {:induction false} FragmentLayout(instance: nat, k: nat, header: seq<byte>, piece: seq<byte>)
    requires instance < U16_LIMIT && k + 1 < U32_LIMIT
    ensures var p := Fragment(instance, k, header, piece).payload;
            && |p| >= 8 && p[8..] == (if k == 0 then [] else header) + piece
            && Matches(p, 0, JP) && NumberAt(p, 2, 2) == instance && NumberAt(p, 4, 4) == k + 1
  {
    var p := Fragment(instance, k, header, piece).payload;
    Powers();
    BytesOfNumber(instance, 2);
    BytesOfNumber(k + 1, 4);
    assert p[0..2] == JP && p[2..4] == ToBytes(instance, 2) && p[4..8] == ToBytes(k + 1, 4);
  }

  lemma {:induction false} FragmentIsRead(m: Marker)
    requires IsJumbFragment(m)
    ensures var p := m.payload; var instance, sequence := NumberAt(p, 2, 2), NumberAt(p, 4, 4);
            && instance < U16_LIMIT && sequence < U32_LIMIT
            && m == Marker(APP11, JP + ToBytes(instance, 2) + ToBytes(sequence, 4) + p[8..])
  {
    var p := m.payload;
    Powers();
    NumberOfBytes(p[2..4]);
    NumberOfBytes(p[4..8]);
    assert p == p[0..2] + p[2..4] + p[4..8] + p[8..];
  }

  /** Numbers inside a header that two byte strings share. */
  lemma SharedHeader(a: seq<byte>, b: seq<byte>)
    requires HasHeader(a) && HeaderLength(NumberAt(a, 0, 4)) <= |b|
    requires a[..HeaderLength(NumberAt(a, 0, 4))] == b[..HeaderLength(NumberAt(a, 0, 4))]
    ensures HasHeader(b) && NumberAt(b, 0, 4) == NumberAt(a, 0, 4) && DeclaredLength(b) == DeclaredLength(a)
    ensures Header(b) == Header(a) && b[..8] == a[..8]
  {
    var h := HeaderLength(NumberAt(a, 0, 4));
    assert a[..h][0..4] == a[0..4] && b[..h][0..4] == b[0..4];
    assert a[..h][4..8] == a[4..8] && b[..h][4..8] == b[4..8];
    assert a[..h][..8] == a[..8] && b[..h][..8] == b[..8];
    if h == 16 {
      assert a[..h][8..16] == a[8..16] && b[..h][8..16] == b[8..16];
    }
  }

  lemma {:induction false} FirstPieceIsPrefix(pieces: seq<seq<byte>>)
    requires |pieces| > 0
    ensures |pieces[0]| <= |Concat(pieces)| && Concat(pieces)[..|pieces[0]|] == pieces[0]
  {
    if |pieces| > 1 {
      FirstPieceIsPrefix(pieces[..|pieces| - 1]);
      assert pieces[..|pieces| - 1][0] == pieces[0];
    } else {
      assert Concat(pieces[..0]) == [];
    }
  }

  /** The state in the middle of a box: its bytes so far, in so many pieces. */
  function Midway(s: Progress, instance: nat, bytes: seq<byte>, n: nat): Progress
    requires s.Scanning? && HasHeader(bytes)
  {
    Scanning(Some(ActiveBox(instance, n + 1, DeclaredLength(bytes), |bytes|, bytes[..8], Capped(bytes))),
             s.observed + [instance], s.foundJumbf, s.foundStore)
  }

  function Done(s: Progress, instance: nat, bytes: seq<byte>): Progress
    requires s.Scanning?
  {
    Scanning(None, s.observed + [instance], true, s.foundStore || HasStoreIdentity(bytes, |bytes|))
  }

  /** The state after all pieces so far. */
  function Reached(s: Progress, instance: nat, bytes: seq<byte>, n: nat): Progress
    requires s.Scanning? && HasHeader(bytes)
  {
    if |bytes| > DeclaredLength(bytes) then Broken
    else if |bytes| == DeclaredLength(bytes) then Done(s, instance, bytes)
    else if n >= U32_LIMIT - 1 then Broken
    else Midway(s, instance, bytes, n)
  }

  lemma AppendReaches(s: Progress, instance: nat, before: seq<byte>, data: seq<byte>, declared: nat, header: seq<byte>,
                      n: nat)
    requires s.Scanning? && HasHeader(before + data) && DeclaredLength(before + data) == declared
    requires (before + data)[..8] == header && n > 0 && |before| <= declared
    ensures Append(s.observed + [instance], s.foundJumbf, s.foundStore,
                   ActiveBox(instance, if before == [] then 2 else n, declared, |before|, header, Capped(before)),
                   data, n)
         == Reached(s, instance, before + data, n)
  {
    var bytes := before + data;
    var prefix := Capped(before) + data[..Min(|data|, PREFIX_LIMIT - |Capped(before)|)];
    assert prefix == Capped(bytes);
    PrefixIsEnough(bytes, declared);
  }

  lemma StartReaches(s: Progress, m: Marker)
    requires s.Scanning? && s.active.None? && IsJumbFragment(m) && NumberAt(m.payload, 4, 4) == 1
    requires NumberAt(m.payload, 2, 2) !in s.observed
    ensures HasHeader(m.payload[8..]) ==>
              var bytes := m.payload[8..];
              Consume(s, m) == if DeclaredLength(bytes) < HeaderLength(NumberAt(bytes, 0, 4)) then Broken
                               else Reached(s, NumberAt(m.payload, 2, 2), bytes, 1)
    ensures !HasHeader(m.payload[8..]) ==> Consume(s, m).Broken?
  {
    var p := m.payload;
    var piece := p[8..];
    SliceOfDrop(p, 8, 0, 4);
    SliceOfDrop(p, 8, 4, 8);
    SliceOfDrop(p, 8, 0, 8);
    if HasHeader(piece) {
      if NumberAt(piece, 0, 4) == 1 {
        SliceOfDrop(p, 8, 8, 16);
      }
      assert [] + piece == piece;
      AppendReaches(s, NumberAt(p, 2, 2), [], piece, DeclaredLength(piece), p[8..16], 1);
    }
  }

  lemma ContinueReaches(s: Progress, instance: nat, before: seq<byte>, n: nat, m: Marker)
    requires s.Scanning? && HasHeader(before) && |before| <= DeclaredLength(before) && n > 0
    requires IsJumbFragment(m) && NumberAt(m.payload, 4, 4) == n + 1 && NumberAt(m.payload, 2, 2) == instance
    requires var h := HeaderLength(NumberAt(before, 0, 4));
             |m.payload| > 8 + h && m.payload[8..8 + h] == before[..h]
    ensures var piece := m.payload[8 + HeaderLength(NumberAt(before, 0, 4))..];
            && HasHeader(before + piece)
            && Consume(Midway(s, instance, before, n), m) == Reached(s, instance, before + piece, n + 1)
  {
    hide HasStoreIdentity, Append, Reached;
    var p := m.payload;
    var h := HeaderLength(NumberAt(before, 0, 4));
    var piece := p[8 + h..];
    DropSplits(p, 8, 8 + h);
    SharedHeader(before, p[8..]);
    SliceOfDrop(p, 8, 0, 4);
    SliceOfDrop(p, 8, 0, 8);
    if h == 16 {
      SliceOfDrop(p, 8, 8, 16);
    }
    SharedHeader(before, before + piece);
    AppendReaches(s, instance, before, piece, DeclaredLength(before), before[..8], n + 1);
  }

  lemma SoFarHasHeader(bytes: seq<byte>, pieces: seq<seq<byte>>, n: nat)
    requires IsBox(bytes) && IsSplit(bytes, pieces) && 0 < n <= |pieces|
    ensures HasHeader(Concat(pieces[..n])) && DeclaredLength(Concat(pieces[..n])) == |bytes|
    ensures |Concat(pieces[..n])| <= |bytes|
    ensures |Concat(pieces[..n])| < |bytes| <==> n < |pieces|
    ensures Header(Concat(pieces[..n])) == Header(bytes)
  {
    SoFarIsPrefix(pieces, n);
    FirstPieceIsPrefix(pieces[..n]);
    FirstPieceIsPrefix(pieces);
    HeaderOfPrefix(pieces[0], Concat(pieces[..n]));
    HeaderOfPrefix(pieces[0], bytes);
  }

  lemma NextFragmentReaches(s: Progress, instance: nat, before: seq<byte>, piece: seq<byte>, n: nat)
    requires s.Scanning? && s.active.None? && HasHeader(before) && |before| < DeclaredLength(before)
    requires 0 < n && n + 1 < U32_LIMIT && instance < U16_LIMIT && |piece| > 0
    ensures HasHeader(before + piece)
    ensures Consume(Reached(s, instance, before, n), Fragment(instance, n, Header(before), piece))
         == Reached(s, instance, before + piece, n + 1)
  {
    var m := Fragment(instance, n, Header(before), piece);
    FragmentLayout(instance, n, Header(before), piece);
    assert m.payload[8..8 + |Header(before)|] == Header(before);
    assert m.payload[8 + |Header(before)|..] == piece;
    SharedHeader(before, Header(before) + piece);
    FragmentIsJumb(m, Header(before) + piece);
    hide Consume, Append, Fragment, Capped;
    ContinueReaches(s, instance, before, n, m);
  }

  lemma FirstFragmentReaches(s: Progress, instance: nat, header: seq<byte>, piece: seq<byte>)
    requires s.Scanning? && s.active.None? && instance !in s.observed && instance < U16_LIMIT
    requires HasHeader(piece) && |piece| <= DeclaredLength(piece)
    ensures Consume(s, Fragment(instance, 0, header, piece)) == Reached(s, instance, piece, 1)
  {
    var m := Fragment(instance, 0, header, piece);
    FragmentLayout(instance, 0, header, piece);
    assert m.payload[8..] == piece;
    FragmentIsJumb(m, piece);
    StartReaches(s, m);
  }

  /** Forwards: the fragments of a box, up to any piece, bring the walk exactly where the bytes so far say. */
  lemma {:induction false} FragmentsReach(s: Progress, instance: nat, bytes: seq<byte>, pieces: seq<seq<byte>>, n: nat)
    requires s.Scanning? && s.active.None? && instance !in s.observed
    requires instance < U16_LIMIT && IsBox(bytes) && IsSplit(bytes, pieces) && 0 < n <= |pieces|
    ensures HasHeader(Concat(pieces[..n]))
    ensures ConsumeAll(s, Fragments(instance, Header(bytes), pieces[..n]))
         == Reached(s, instance, Concat(pieces[..n]), n)
  {
    hide Consume, Reached, Fragment, HasHeader, DeclaredLength, Header;
    var header, sofar, piece := Header(bytes), Concat(pieces[..n]), pieces[n - 1];
    assert pieces[..n][..n - 1] == pieces[..n - 1];
    SoFarHasHeader(bytes, pieces, n);
    var before := Fragments(instance, header, pieces[..n - 1]);
    assert Fragments(instance, header, pieces[..n]) == before + [Fragment(instance, n - 1, header, piece)];
    assert (before + [Fragment(instance, n - 1, header, piece)])[..|before|] == before;
    if n == 1 {
      assert sofar == piece;
      FirstFragmentReaches(s, instance, header, piece);
    } else {
      FragmentsReach(s, instance, bytes, pieces, n - 1);
      SoFarHasHeader(bytes, pieces, n - 1);
      NextFragmentReaches(s, instance, Concat(pieces[..n - 1]), piece, n - 1);
    }
  }

  lemma FragmentIsJumb(m: Marker, data: seq<byte>)
    requires m.code == APP11 && |m.payload| >= 8 && m.payload[8..] == data && Matches(m.payload, 0, JP)
    requires |data| >= 8 && Matches(data, 4, JUMB)
    ensures IsJumbFragment(m)
  {
    assert m.payload[12..16] == data[4..8];
  }

  lemma HeaderOfPrefix(piece: seq<byte>, bytes: seq<byte>)
    requires HasHeader(piece) && |piece| <= |bytes| && bytes[..|piece|] == piece
    ensures HasHeader(bytes) && DeclaredLength(bytes) == DeclaredLength(piece) && Header(bytes) == Header(piece)
  {
    var h := HeaderLength(NumberAt(piece, 0, 4));
    assert bytes[..h] == bytes[..|piece|][..h];
    SharedHeader(piece, bytes);
  }

  lemma {:induction false} SoFarIsPrefix(pieces: seq<seq<byte>>, n: nat)
    requires 0 < n <= |pieces| && forall k | 0 < k < |pieces| :: |pieces[k]| > 0
    ensures |Concat(pieces[..n])| <= |Concat(pieces)|
    ensures |Concat(pieces[..n])| < |Concat(pieces)| <==> n < |pieces|
    ensures Concat(pieces)[..|Concat(pieces[..n])|] == Concat(pieces[..n])
    decreases |pieces|
  {
    if n < |pieces| {
      var front := pieces[..|pieces| - 1];
      SoFarIsPrefix(front, n);
      assert front[..n] == pieces[..n];
    } else {
      assert pieces[..n] == pieces;
    }
  }

  lemma BoxIsConsumed(s: Progress, item: Item)
    requires s.Scanning? && s.active.None? && item.Boxed? && IsWellFormed(item) && item.instance !in s.observed
    ensures ConsumeAll(s, Markers(item)) == Done(s, item.instance, item.bytes)
  {
    FragmentsReach(s, item.instance, item.bytes, item.pieces, |item.pieces|);
    assert item.pieces[..|item.pieces|] == item.pieces;
  }

  /** The state of the walk after whole items. */
  function StateAfter(items: seq<Item>): Progress {
    Scanning(None, Instances(items), Boxes(items) != [], HasStore(Boxes(items)))
  }

  lemma StoreInParts(boxes: seq<seq<byte>>, box: seq<byte>)
    ensures HasStore(boxes + [box]) <==> HasStore(boxes) || HasStoreIdentity(box, |box|)
  {
    if HasStore(boxes) {
      var i :| 0 <= i < |boxes| && HasStoreIdentity(boxes[i], |boxes[i]|);
      assert (boxes + [box])[i] == boxes[i];
    }
    if HasStoreIdentity(box, |box|) {
      assert (boxes + [box])[|boxes|] == box;
    }
  }

  lemma OpaqueIsConsumed(s: Progress, m: Marker)
    requires s.Scanning? && s.active.None? && !IsJumbFragment(m)
    ensures ConsumeAll(s, [m]) == s
  {
    assert [m][..0] == [];
  }

  lemma ItemIsConsumed(front: seq<Item>, item: Item)
    requires IsWellFormed(item) && (item.Boxed? ==> item.instance !in Instances(front))
    ensures (front + [item])[..|front|] == front
    ensures ConsumeAll(StateAfter(front), Markers(item)) == StateAfter(front + [item])
  {
    hide HasStore, HasStoreIdentity, ConsumeAll, IsSplit, IsBox, HasHeader, Fragments, IsJumbFragment;
    assert (front + [item])[..|front|] == front;
    if item.Boxed? {
      assert Boxes(front + [item]) == Boxes(front) + [item.bytes];
      BoxIsConsumed(StateAfter(front), item);
      StoreInParts(Boxes(front), item.bytes);
    } else {
      assert Boxes(front + [item]) == Boxes(front) && Instances(front + [item]) == Instances(front);
      OpaqueIsConsumed(StateAfter(front), item.marker);
    }
  }

  lemma {:induction false} ItemsReach(items: seq<Item>)
    requires AreWellFormed(items)
    ensures ConsumeAll(START, Flattened(items)) == StateAfter(items)
  {
    if items != [] {
      var front, item := items[..|items| - 1], items[|items| - 1];
      assert items == front + [item];
      ItemsReach(front);
      ItemIsConsumed(front, item);
      hide Consume, IsWellFormed, StateAfter, ConsumeAll, Fragments;
      ConsumeInParts(START, Flattened(front), Markers(item));
    } else {
      assert Boxes(items) == [];
    }
  }

  /** Whatever the pieces and whatever opaque markers stand between the boxes, the verdict is the one on
      the whole boxes; in particular a source with a box is never classified as absent or malformed. */
  lemma FragmentationDoesNotMatter(items: seq<Item>)
    requires AreWellFormed(items)
    ensures Concluded(ConsumeAll(START, Flattened(items))) == Verdict(Boxes(items))
  {
    ItemsReach(items);
  }
}
