/** What a successful scan says about the source: its markers and entropy-coded ranges tile it. */
module JpegTiling {
  import opened Options
  import opened Bytes
  import opened JpegSyntax
  import opened Jumbf
  import opened XmpOrder
  import opened JpegScanner
  import opened JpegGrammar

  /** A range of the source: a marker other than a restart, or the data of one scan. */
  datatype Tile = MarkerTile(range: Range) | DataTile(range: Range)

  /** The tiles cover the first `to` bytes in order, without overlap, up to fill bytes. */
  ghost predicate IsTiling(bytes: seq<byte>, tiles: seq<Tile>, to: nat) {
    if tiles == [] then to == 0
    else
      var last := tiles[|tiles| - 1].range;
      && last.offset + last.length <= to <= |bytes|
      && (forall k | last.offset + last.length <= k < to :: bytes[k] == FF)
      && IsTiling(bytes, tiles[..|tiles| - 1], last.offset)
  }

  function MarkerTiles(tiles: seq<Tile>): seq<Range> {
    if tiles == [] then []
    else MarkerTiles(tiles[..|tiles| - 1])
         + (if tiles[|tiles| - 1].MarkerTile? then [tiles[|tiles| - 1].range] else [])
  }

  function DataTiles(tiles: seq<Tile>): seq<Range> {
    if tiles == [] then []
    else DataTiles(tiles[..|tiles| - 1])
         + (if tiles[|tiles| - 1].DataTile? then [tiles[|tiles| - 1].range] else [])
  }

  /** The ranges of the markers that are not restarts. */
  function Separators(markers: seq<MarkerReference>): seq<Range> {
    if markers == [] then []
    else Separators(markers[..|markers| - 1])
         + (if IsRestart(markers[|markers| - 1].code) then [] else [markers[|markers| - 1].encoded])
  }

  lemma {:induction false} SeparatorsInParts(a: seq<MarkerReference>, b: seq<MarkerReference>)
    ensures Separators(a + b) == Separators(a) + Separators(b)
  {
    if b == [] {
      assert a + b == a;
    } else {
      assert (a + b)[..|a + b| - 1] == a + b[..|b| - 1];
      SeparatorsInParts(a, b[..|b| - 1]);
    }
  }

  lemma {:induction false} OnlyRestarts(markers: seq<MarkerReference>)
    requires forall n | 0 <= n < |markers| :: IsRestart(markers[n].code)
    ensures Separators(markers) == []
  {
    if markers != [] {
      OnlyRestarts(markers[..|markers| - 1]);
    }
  }

  /** The tiles of a part at an offset. */
  function TilesOf(p: Part, at: nat): seq<Tile> {
    [MarkerTile(Range(at + p.fill, MarkerLength(p)))]
    + (if p.code == SOS then [DataTile(Range(at + p.fill + MarkerLength(p), |p.entropy|))] else [])
  }

  function TilesOfAll(parts: seq<Part>): seq<Tile> {
    if parts == [] then [MarkerTile(Range(0, 2))]
    else TilesOfAll(parts[..|parts| - 1]) + TilesOf(parts[|parts| - 1], OffsetOf(parts, |parts| - 1))
  }

  function MetadataTotal(parts: seq<Part>): nat {
    if parts == [] then 0
    else MetadataTotal(parts[..|parts| - 1])
         + (if IsMetadata(parts[|parts| - 1].code) then MarkerLength(parts[|parts| - 1]) else 0)
  }

  lemma TilesJoin(tiles: seq<Tile>, more: Tile)
    ensures MarkerTiles(tiles + [more]) == MarkerTiles(tiles) + (if more.MarkerTile? then [more.range] else [])
    ensures DataTiles(tiles + [more]) == DataTiles(tiles) + (if more.DataTile? then [more.range] else [])
  {
    assert (tiles + [more])[..|tiles|] == tiles;
  }

  lemma TilesOfPartJoin(tiles: seq<Tile>, p: Part, at: nat)
    ensures MarkerTiles(tiles + TilesOf(p, at)) == MarkerTiles(tiles) + [Range(at + p.fill, MarkerLength(p))]
    ensures DataTiles(tiles + TilesOf(p, at))
         == DataTiles(tiles) + (if p.code == SOS then [Range(at + p.fill + MarkerLength(p), |p.entropy|)] else [])
  {
    var marker := MarkerTile(Range(at + p.fill, MarkerLength(p)));
    TilesJoin(tiles, marker);
    if p.code == SOS {
      var data := DataTile(Range(at + p.fill + MarkerLength(p), |p.entropy|));
      TilesJoin(tiles + [marker], data);
      assert tiles + TilesOf(p, at) == tiles + [marker] + [data];
    }
  }

  lemma AdvanceAppends(limits: Limits, w: Walk, p: Part, marker: nat)
    requires IsWellFormed(p) && Advance(limits, w, p.code, p.payload, marker).Got?
    ensures var v := Advance(limits, w, p.code, p.payload, marker).value;
            && Separators(v.markers) == Separators(w.markers) + [Range(marker, MarkerLength(p))]
            && v.entropy == w.entropy
            && v.metadataLength == w.metadataLength + (if IsMetadata(p.code) then MarkerLength(p) else 0)
            && v.scanCount == w.scanCount + (if p.code == SOS then 1 else 0)
            && (v.metadataLength <= limits.metadataLength || v.metadataLength == w.metadataLength)
  {
    hide ParseFrameHeader, Matches, Guid, IsValidScanHeader, IsEntropy;
    var v := Advance(limits, w, p.code, p.payload, marker).value;
    assert v.markers[..|w.markers|] == w.markers;
  }

  /** What one more part adds to the tiles and totals. */
  ghost predicate Adds(limits: Limits, w: Walk, p: Part, at: nat, v: Walk) {
    && Separators(v.markers) == Separators(w.markers) + [Range(at + p.fill, MarkerLength(p))]
    && v.entropy == w.entropy + (if p.code == SOS then [Range(at + p.fill + MarkerLength(p), |p.entropy|)] else [])
    && v.metadataLength == w.metadataLength + (if IsMetadata(p.code) then MarkerLength(p) else 0)
    && v.scanCount == w.scanCount + (if p.code == SOS then 1 else 0)
    && (v.metadataLength <= limits.metadataLength || v.metadataLength == w.metadataLength)
  }

  lemma AdvanceAddsMarker(limits: Limits, w: Walk, p: Part, at: nat)
    requires IsWellFormed(p) && AdvancePart(limits, w, p, at).Got?
    ensures Adds(limits, w, p, at, AdvancePart(limits, w, p, at).value)
  {
    hide Advance, Separators, WithEntropy, Restarts, IsMetadata, MarkerLength, IsSegmentCode;
    var u := Advance(limits, w, p.code, p.payload, at + p.fill).value;
    AdvanceAppends(limits, w, p, at + p.fill);
    if p.code == SOS {
      EntropySeparatesNothing(u, p.entropy, at + p.fill + MarkerLength(p));
    } else {
      assert w.entropy + [] == w.entropy;
    }
  }

  lemma EntropySeparatesNothing(w: Walk, entropy: seq<byte>, data: nat)
    requires IsEntropy(entropy)
    ensures var v := WithEntropy(w, Range(data, |entropy|), Restarts(entropy, 0, |entropy|, data));
            && Separators(v.markers) == Separators(w.markers)
            && v.entropy == w.entropy + [Range(data, |entropy|)]
            && v.metadataLength == w.metadataLength && v.scanCount == w.scanCount
  {
    var restarts := RestartReferences(Restarts(entropy, 0, |entropy|, data));
    RestartsAreRestarts(entropy, 0, |entropy|, data);
    OnlyRestarts(restarts);
    SeparatorsInParts(w.markers, restarts);
  }

  lemma FillBetween(bytes: seq<byte>, at: nat, p: Part)
    requires at + p.fill <= |bytes| && bytes[at..at + p.fill] == Fill(p.fill)
    ensures forall k | at <= k < at + p.fill :: bytes[k] == FF
  {
    assert forall k | at <= k < at + p.fill :: bytes[k] == bytes[at..at + p.fill][k - at];
  }

  lemma {:induction false} TilesGrow(bytes: seq<byte>, tiles: seq<Tile>, to: nat, fill: nat, tile: Tile)
    requires tiles != [] && IsTiling(bytes, tiles, to) && tile.range.offset == to + fill
    requires tile.range.offset + tile.range.length <= |bytes|
    requires forall k | to <= k < to + fill :: bytes[k] == FF
    ensures IsTiling(bytes, tiles + [tile], tile.range.offset + tile.range.length)
  {
    assert (tiles + [tile])[..|tiles|] == tiles;
    FillExtends(bytes, tiles, to, fill);
  }

  lemma {:induction false} FillExtends(bytes: seq<byte>, tiles: seq<Tile>, to: nat, fill: nat)
    requires tiles != [] && IsTiling(bytes, tiles, to) && to + fill <= |bytes|
    requires forall k | to <= k < to + fill :: bytes[k] == FF
    ensures IsTiling(bytes, tiles, to + fill)
  {
  }

  /** The part at its place: tiles up to here, and up to its end. */
  lemma PartIsTiled(bytes: seq<byte>, tiles: seq<Tile>, p: Part, at: nat)
    requires IsWellFormed(p) && tiles != [] && IsTiling(bytes, tiles, at)
    requires at + |Print(p)| <= |bytes| && bytes[at..at + |Print(p)|] == Print(p)
    ensures IsTiling(bytes, tiles + TilesOf(p, at), at + |Print(p)|)
  {
    hide IsTiling;
    SplitWindow(bytes, at, Fill(p.fill), PrintMarker(p) + p.entropy);
    assert Fill(p.fill) + (PrintMarker(p) + p.entropy) == Print(p);
    FillBetween(bytes, at, p);
    var marker := MarkerTile(Range(at + p.fill, MarkerLength(p)));
    TilesGrow(bytes, tiles, at, p.fill, marker);
    if p.code == SOS {
      var data := DataTile(Range(at + p.fill + MarkerLength(p), |p.entropy|));
      TilesGrow(bytes, tiles + [marker], at + p.fill + MarkerLength(p), 0, data);
      assert tiles + TilesOf(p, at) == tiles + [marker] + [data];
    } else {
      assert tiles + TilesOf(p, at) == tiles + [marker];
    }
  }

  /** What the walk has collected agrees with the tiles of the parts so far. */
  ghost predicate AgreesWithTiles(w: Walk, parts: seq<Part>) {
    var tiles := TilesOfAll(parts);
    && tiles != []
    && Separators(w.markers) == MarkerTiles(tiles)
    && w.entropy == DataTiles(tiles)
    && w.scanCount == |w.entropy|
    && w.metadataLength == MetadataTotal(parts)
  }

  lemma BeginningAgrees()
    ensures AgreesWithTiles(BEGINNING, [])
  {
    var tile, start := MarkerTile(Range(0, 2)), MarkerReference(SOI, Range(0, 2), Range(2, 0));
    assert [tile][..0] == [] && [start][..0] == [];
    assert MarkerTiles([tile]) == [] + [Range(0, 2)] == Separators([start]);
    assert DataTiles([tile]) == [];
  }

  lemma {:induction false} WalkAgrees(limits: Limits, parts: seq<Part>)
    requires AreWellFormed(parts) && WalkAll(limits, parts).Got?
    ensures AgreesWithTiles(WalkAll(limits, parts).value, parts)
    ensures WalkAll(limits, parts).value.metadataLength <= limits.metadataLength
  {
    if parts == [] {
      BeginningAgrees();
    } else {
      WalkAgrees(limits, parts[..|parts| - 1]);
      hide AgreesWithTiles, AdvancePart, MetadataTotal;
      AgreementGrows(limits, WalkAll(limits, parts[..|parts| - 1]).value, parts);
    }
  }

  lemma AgreementGrows(limits: Limits, w: Walk, parts: seq<Part>)
    requires AreWellFormed(parts) && parts != [] && AgreesWithTiles(w, parts[..|parts| - 1])
    requires w.metadataLength <= limits.metadataLength
    requires AdvancePart(limits, w, parts[|parts| - 1], OffsetOf(parts, |parts| - 1)).Got?
    ensures var v := AdvancePart(limits, w, parts[|parts| - 1], OffsetOf(parts, |parts| - 1)).value;
            AgreesWithTiles(v, parts) && v.metadataLength <= limits.metadataLength
  {
    var p, at := parts[|parts| - 1], OffsetOf(parts, |parts| - 1);
    hide AdvancePart, Separators, MarkerTiles, DataTiles, TilesOf, PrintAll, MarkerLength;
    AdvanceAddsMarker(limits, w, p, at);
    TilesOfPartJoin(TilesOfAll(parts[..|parts| - 1]), p, at);
  }

  lemma BeginningIsTiled(c: Codestream)
    ensures IsTiling(Encoded(c), TilesOfAll([]), 2)
  {
    hide PrintAll, Ending;
    assert [MarkerTile(Range(0, 2))][..0] == [];
  }

  lemma TilesOfPrefix(parts: seq<Part>, n: nat)
    requires n < |parts|
    ensures TilesOfAll(parts[..n + 1]) == TilesOfAll(parts[..n]) + TilesOf(parts[n], OffsetOf(parts, n))
  {
    assert parts[..n + 1][..n] == parts[..n];
  }

  lemma {:induction false} PartsAreTiled(c: Codestream, n: nat)
    requires AreWellFormed(c.parts) && n <= |c.parts|
    ensures TilesOfAll(c.parts[..n]) != []
    ensures IsTiling(Encoded(c), TilesOfAll(c.parts[..n]), OffsetOf(c.parts, n))
  {
    hide IsTiling, Print, TilesOf, Encoded, IsWellFormed;
    if n == 0 {
      assert c.parts[..0] == [];
      BeginningIsTiled(c);
    } else {
      PartsAreTiled(c, n - 1);
      assert IsWellFormed(c.parts[n - 1]);
      hide TilesOfAll, PrintAll;
      PartStands(c, n - 1);
      TilesOfPrefix(c.parts, n - 1);
      PartIsTiled(Encoded(c), TilesOfAll(c.parts[..n - 1]), c.parts[n - 1], OffsetOf(c.parts, n - 1));
    }
  }

  lemma InventoryIsOfWalk(limits: Limits, bytes: seq<byte>, r: ScanResult)
    requires IsScanOf(limits, bytes, r) && r.Scanned?
    ensures |bytes| >= 2 && bytes[0] == FF && bytes[1] == SOI
    ensures ScanFrom(limits, bytes, 2, BEGINNING).Reached?
    ensures var reached := ScanFrom(limits, bytes, 2, BEGINNING); var v := r.inventory;
            && v.endOffset == reached.endOffset && v.markers == AllMarkers(reached.walk, v.endOffset)
            && v.entropy == reached.walk.entropy && v.scanCount == reached.walk.scanCount > 0
            && v.metadataLength == reached.walk.metadataLength && Some(v.frame) == reached.walk.frame
  {
    hide ScanFrom, IccPasses, XmpMayPass, EmptyChunksLieOutside, Payloads, ConsumeAll, Concluded, IsContiguous;
  }

  /** The inventory describes the source by tiles. */
  ghost predicate DescribesTiling(limits: Limits, bytes: seq<byte>, v: Inventory, tiles: seq<Tile>) {
    && IsTiling(bytes, tiles, v.endOffset + 2)
    && MarkerTiles(tiles) == Separators(v.markers)
    && DataTiles(tiles) == v.entropy
    && v.scanCount == |v.entropy| > 0
    && v.metadataLength <= limits.metadataLength
  }

  /** Tiling: after a successful scan the markers other than restarts and the entropy-coded ranges are in
      source order, disjoint, and cover everything up to the end of the image except fill bytes; there is
      one range for each counted scan; and the metadata total is the sum over the APPn and COM segments. */
  lemma SuccessfulScanTiles(limits: Limits, bytes: seq<byte>, r: ScanResult) returns (c: Codestream, tiles: seq<Tile>)
    requires IsScanOf(limits, bytes, r) && r.Scanned?
    ensures IsCodestream(bytes, c)
    ensures DescribesTiling(limits, bytes, r.inventory, tiles)
    ensures r.inventory.metadataLength == MetadataTotal(c.parts)
  {
    hide ScanFrom, IsScanOf, WalkAll, Encoded, IsTiling, MarkerTiles, DataTiles, TilesOfAll, PrintAll;
    InventoryIsOfWalk(limits, bytes, r);
    c := ScanIsRead(limits, bytes);
    var w := WalkAll(limits, c.parts).value;
    WalkAgrees(limits, c.parts);
    tiles := EndIsTiled(limits, c);
    var end := MarkerReference(EOI, Range(r.inventory.endOffset, 2), Range(r.inventory.endOffset + 2, 0));
    SeparatorsInParts(w.markers, [end]);
    assert [end][..0] == [];
  }

  lemma EndIsTiled(limits: Limits, c: Codestream) returns (tiles: seq<Tile>)
    requires AreWellFormed(c.parts)
    ensures var endOffset := OffsetOf(c.parts, |c.parts|) + c.endFill;
            && IsTiling(Encoded(c), tiles, endOffset + 2)
            && MarkerTiles(tiles) == MarkerTiles(TilesOfAll(c.parts)) + [Range(endOffset, 2)]
            && DataTiles(tiles) == DataTiles(TilesOfAll(c.parts))
  {
    hide Encoded, IsTiling, TilesOfAll, PrintAll;
    var at := OffsetOf(c.parts, |c.parts|);
    var end := MarkerTile(Range(at + c.endFill, 2));
    PartsAreTiled(c, |c.parts|);
    assert c.parts[..|c.parts|] == c.parts;
    EndStands(c);
    SplitWindow(Encoded(c), at, Fill(c.endFill), [FF, EOI]);
    FillBetween(Encoded(c), at, Part(c.endFill, 0, [], []));
    tiles := TilesOfAll(c.parts) + [end];
    TilesGrow(Encoded(c), TilesOfAll(c.parts), at, c.endFill, end);
    TilesJoin(TilesOfAll(c.parts), end);
  }
}
