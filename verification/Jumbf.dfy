/** Recognition of JUMBF boxes that are transported in fragments by APP11 segments. */
module Jumbf {
  import opened Options
  import opened Bytes

  /** A marker of the source with its payload, empty when it stands alone. */
  datatype Marker = Marker(code: byte, payload: seq<byte>)

  const APP11: byte := 0xEB
  const JP: seq<byte> := [0x4A, 0x50]
  const JUMB: seq<byte> := [0x6A, 0x75, 0x6D, 0x62]
  const JUMD: seq<byte> := [0x6A, 0x75, 0x6D, 0x64]
  const STORE_UUID: seq<byte> :=
    [0x63, 0x32, 0x70, 0x61, 0x00, 0x11, 0x00, 0x10, 0x80, 0x00, 0x00, 0xAA, 0x00, 0x38, 0x9B, 0x71]
  const STORE_LABEL: seq<byte> := [0x63, 0x32, 0x70, 0x61, 0x00]
  const PREFIX_LIMIT: nat := 64

  /** The manifest store identity, as far as the prefix of a box of the declared length shows it. */
  predicate HasStoreIdentity(prefix: seq<byte>, declared: nat) {
    && |prefix| >= 4
    && Matches(prefix, 4, JUMB)
    && var outer := NumberAt(prefix, 0, 4);
       (if outer == 1 then |prefix| >= 16 && NumberAt(prefix, 8, 8) == declared && HasDescription(prefix, 16, declared)
        else outer == declared && HasDescription(prefix, 8, declared))
  }

  predicate HasDescription(prefix: seq<byte>, at: nat, declared: nat) {
    && |prefix| >= at + 4
    && Matches(prefix, at + 4, JUMD)
    && var short := NumberAt(prefix, at, 4);
       (if short == 1 then |prefix| >= at + 16 && HasStoreLabel(prefix, at, 16, NumberAt(prefix, at + 8, 8), declared)
        else HasStoreLabel(prefix, at, 8, short, declared))
  }

  predicate HasStoreLabel(prefix: seq<byte>, at: nat, header: nat, length: nat, declared: nat) {
    var payload := at + header;
    && header + |STORE_UUID| + 1 + |STORE_LABEL| <= length
    && length + at <= declared
    && Matches(prefix, payload, STORE_UUID)
    && payload + |STORE_UUID| < |prefix|
    && prefix[payload + |STORE_UUID|] % 4 == 3
    && Matches(prefix, payload + |STORE_UUID| + 1, STORE_LABEL)
  }

  function Capped(bytes: seq<byte>): seq<byte> {
    if |bytes| <= PREFIX_LIMIT then bytes else bytes[..PREFIX_LIMIT]
  }

  lemma MatchesInPrefix(bytes: seq<byte>, offset: nat, expected: seq<byte>)
    requires offset + |expected| <= PREFIX_LIMIT
    ensures Matches(Capped(bytes), offset, expected) == Matches(bytes, offset, expected)
  {
    if offset + |expected| <= |bytes| {
      assert Capped(bytes)[offset..offset + |expected|] == bytes[offset..offset + |expected|];
    }
  }

  lemma NumberInPrefix(bytes: seq<byte>, offset: nat, width: nat)
    requires offset + width <= PREFIX_LIMIT && offset + width <= |bytes|
    ensures NumberAt(Capped(bytes), offset, width) == NumberAt(bytes, offset, width)
  {
    assert Capped(bytes)[offset..offset + width] == bytes[offset..offset + width];
  }

  lemma LabelInPrefix(bytes: seq<byte>, at: nat, header: nat, length: nat, declared: nat)
    requires at + header <= 32
    ensures HasStoreLabel(Capped(bytes), at, header, length, declared)
        <==> HasStoreLabel(bytes, at, header, length, declared)
  {
    MatchesInPrefix(bytes, at + header, STORE_UUID);
    MatchesInPrefix(bytes, at + header + |STORE_UUID| + 1, STORE_LABEL);
  }

  lemma DescriptionInPrefix(bytes: seq<byte>, at: nat, declared: nat)
    requires at <= 16
    ensures HasDescription(Capped(bytes), at, declared) <==> HasDescription(bytes, at, declared)
  {
    hide HasStoreLabel;
    MatchesInPrefix(bytes, at + 4, JUMD);
    if |bytes| >= at + 4 {
      NumberInPrefix(bytes, at, 4);
      LabelInPrefix(bytes, at, 8, NumberAt(bytes, at, 4), declared);
    }
    if |bytes| >= at + 16 {
      NumberInPrefix(bytes, at + 8, 8);
      LabelInPrefix(bytes, at, 16, NumberAt(bytes, at + 8, 8), declared);
    }
  }

  /** The cap on the retained prefix loses nothing: the identity shows in 64 bytes or not at all. */
  lemma PrefixIsEnough(bytes: seq<byte>, declared: nat)
    ensures HasStoreIdentity(Capped(bytes), declared) <==> HasStoreIdentity(bytes, declared)
  {
    hide HasDescription;
    MatchesInPrefix(bytes, 4, JUMB);
    DescriptionInPrefix(bytes, 8, declared);
    DescriptionInPrefix(bytes, 16, declared);
    if |bytes| >= 4 {
      NumberInPrefix(bytes, 0, 4);
    }
    if |bytes| >= 16 {
      NumberInPrefix(bytes, 8, 8);
    }
  }

  datatype ActiveBox = ActiveBox(
    instance: nat, nextSequence: nat, declared: nat, length: nat, header: seq<byte>, prefix: seq<byte>)

  datatype Progress =
    | Broken
    | Scanning(active: Option<ActiveBox>, observed: seq<nat>, foundJumbf: bool, foundStore: bool)

  datatype Classification = Absent | UnsupportedJumbf | C2paManifestStore | Malformed

  /** A fragment of a box of type `jumb`; other fragments are opaque. */
  predicate IsJumbFragment(m: Marker) {
    m.code == APP11 && Matches(m.payload, 0, JP) && |m.payload| >= 16 && Matches(m.payload, 12, JUMB)
  }

  function Min(a: int, b: int): int { if a < b then a else b }

  /** Adds the data of the fragment with this sequence number to the box. */
  function Append(observed: seq<nat>, foundJumbf: bool, foundStore: bool, box: ActiveBox, data: seq<byte>,
                  sequence: nat): Progress
  {
    if box.length > box.declared || |data| > box.declared - box.length || |box.prefix| > PREFIX_LIMIT then Broken
    else
      var prefix := box.prefix + data[..Min(|data|, PREFIX_LIMIT - |box.prefix|)];
      var length := box.length + |data|;
      if length == box.declared then
        Scanning(None, observed, true, foundStore || HasStoreIdentity(prefix, box.declared))
      else if sequence >= U32_LIMIT - 1 then Broken
      else
        Scanning(Some(box.(nextSequence := sequence + 1, length := length, prefix := prefix)),
                 observed, foundJumbf, foundStore)
  }

  function StartBox(s: Progress, p: seq<byte>): Progress
    requires s.Scanning? && |p| >= 16
  {
    var instance, short := NumberAt(p, 2, 2), NumberAt(p, 8, 4);
    if s.active.Some? || instance in s.observed || (short == 1 && |p| < 24) then Broken
    else
      var declared := if short == 1 then NumberAt(p, 16, 8) else short;
      if declared < HeaderLength(short) then Broken
      else
        Append(s.observed + [instance], s.foundJumbf, s.foundStore,
               ActiveBox(instance, 2, declared, 0, p[8..16], []), p[8..], 1)
  }

  function HeaderLength(short: nat): nat { if short == 1 then 16 else 8 }

  function ContinueBox(s: Progress, p: seq<byte>): Progress
    requires s.Scanning? && |p| >= 16
  {
    var short, sequence := NumberAt(p, 8, 4), NumberAt(p, 4, 4);
    if s.active.None? || NumberAt(p, 2, 2) != s.active.value.instance || sequence != s.active.value.nextSequence
       || p[8..16] != s.active.value.header || |p| <= 8 + HeaderLength(short) then Broken
    else if short == 1 && NumberAt(p, 16, 8) != s.active.value.declared then Broken
    else Append(s.observed, s.foundJumbf, s.foundStore, s.active.value, p[8 + HeaderLength(short)..], sequence)
  }

  function Consume(s: Progress, m: Marker): Progress {
    if s.Broken? then s
    else if !IsJumbFragment(m) then (if s.active.Some? then Broken else s)
    else if NumberAt(m.payload, 4, 4) == 1 then StartBox(s, m.payload)
    else ContinueBox(s, m.payload)
  }

  const START := Scanning(None, [], false, false)

  function ConsumeAll(s: Progress, markers: seq<Marker>): Progress {
    if markers == [] then s else Consume(ConsumeAll(s, markers[..|markers| - 1]), markers[|markers| - 1])
  }

  function Concluded(s: Progress): Classification {
    if s.Broken? || s.active.Some? then Malformed
    else if s.foundStore then C2paManifestStore
    else if s.foundJumbf then UnsupportedJumbf
    else Absent
  }

  /** The walk over the markers. */
  method ClassifyJumbfEnvelope(markers: seq<Marker>) returns (r: Classification)
    ensures r == Concluded(ConsumeAll(START, markers))
  {
    var state := START;
    for i := 0 to |markers|
      invariant state == ConsumeAll(START, markers[..i]) && state.Scanning?
    {
      assert markers[..i + 1][..i] == markers[..i];
      state := Consume(state, markers[i]);
      if state.Broken? {
        BrokenForGood(START, markers, i + 1);
        return Malformed;
      }
    }
    assert markers[..|markers|] == markers;
    r := Concluded(state);
  }

  lemma {:induction false} ConsumeInParts(s: Progress, a: seq<Marker>, b: seq<Marker>)
    ensures ConsumeAll(s, a + b) == ConsumeAll(ConsumeAll(s, a), b)
  {
    if b == [] {
      assert a + b == a;
    } else {
      assert (a + b)[..|a + b| - 1] == a + b[..|b| - 1];
      ConsumeInParts(s, a, b[..|b| - 1]);
    }
  }

  lemma {:induction false} BrokenForGood(s: Progress, markers: seq<Marker>, i: nat)
    requires i <= |markers| && ConsumeAll(s, markers[..i]).Broken?
    ensures ConsumeAll(s, markers).Broken?
  {
    if i < |markers| {
      assert markers[..|markers| - 1][..i] == markers[..i];
      BrokenForGood(s, markers[..|markers| - 1], i);
    } else {
      assert markers[..i] == markers;
    }
  }
}
