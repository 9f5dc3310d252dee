/** Which coefficient transform an Exif orientation needs, and when it can be done without
    breaking the grid of interleaved minimum coded units (iMCU). */
module Planner {
  import opened Options

  datatype Orientation =
    | TopLeft | TopRight | BottomRight | BottomLeft | LeftTop | RightTop | RightBottom | LeftBottom

  datatype Transform =
    | Identity | FlipHorizontal | Rotate180 | FlipVertical
    | Transpose | Rotate90Clockwise | Transverse | Rotate270Clockwise

  function TryParseExifOrientation(raw: nat): Option<Orientation> {
    match raw
    case 1 => Some(TopLeft)
    case 2 => Some(TopRight)
    case 3 => Some(BottomRight)
    case 4 => Some(BottomLeft)
    case 5 => Some(LeftTop)
    case 6 => Some(RightTop)
    case 7 => Some(RightBottom)
    case 8 => Some(LeftBottom)
    case _ => None
  }

  /** Exactly the values 1 to 8 are read, each as its own orientation; those from 5 on swap the axes. */
  lemma OrientationsAreNumbered(raw: nat, other: nat)
    ensures TryParseExifOrientation(raw).Some? <==> 1 <= raw <= 8
    ensures TryParseExifOrientation(raw).Some? && TryParseExifOrientation(raw) == TryParseExifOrientation(other) ==>
              raw == other
    ensures TryParseExifOrientation(raw).Some? ==>
              (SwapsAxes(LosslessTransformFor(TryParseExifOrientation(raw).value)) <==> raw >= 5)
  {
  }

  function LosslessTransformFor(o: Orientation): Transform {
    match o
    case TopLeft => Identity
    case TopRight => FlipHorizontal
    case BottomRight => Rotate180
    case BottomLeft => FlipVertical
    case LeftTop => Transpose
    case RightTop => Rotate90Clockwise
    case RightBottom => Transverse
    case LeftBottom => Rotate270Clockwise
  }

  predicate SwapsAxes(t: Transform) {
    t == Transpose || t == Rotate90Clockwise || t == Transverse || t == Rotate270Clockwise
  }

  predicate AffectsRightEdge(t: Transform) {
    t == FlipHorizontal || t == Rotate270Clockwise || t == Rotate180 || t == Transverse
  }

  predicate AffectsBottomEdge(t: Transform) {
    t == FlipVertical || t == Rotate90Clockwise || t == Rotate180 || t == Transverse
  }

  // ----- what a viewer shows, and what a transform produces

  datatype Edge = Top | Bottom | Left | Right
  datatype Size = Size(width: nat, height: nat)
  datatype Pixel = Pixel(x: nat, y: nat)

  predicate Within(p: Pixel, s: Size) {
    p.x < s.width && p.y < s.height
  }

  /** The display edge at which the stored image's row 0 appears: the first half of the name. */
  function RowZeroEdge(o: Orientation): Edge {
    match o
    case TopLeft => Top case TopRight => Top
    case BottomRight => Bottom case BottomLeft => Bottom
    case LeftTop => Left case LeftBottom => Left
    case RightTop => Right case RightBottom => Right
  }

  /** The display edge at which the stored image's column 0 appears: the second half of the name. */
  function ColumnZeroEdge(o: Orientation): Edge {
    match o
    case TopLeft => Left case BottomLeft => Left
    case TopRight => Right case BottomRight => Right
    case LeftTop => Top case RightTop => Top
    case LeftBottom => Bottom case RightBottom => Bottom
  }

  function DistanceFrom(e: Edge, display: Size, p: Pixel): nat
    requires Within(p, display)
  {
    match e
    case Top => p.y
    case Bottom => display.height - 1 - p.y
    case Left => p.x
    case Right => display.width - 1 - p.x
  }

  function Swapped(s: Size): Size { Size(s.height, s.width) }

  function DisplaySize(o: Orientation, stored: Size): Size {
    if RowZeroEdge(o) == Left || RowZeroEdge(o) == Right then Swapped(stored) else stored
  }

  /** The viewer shows stored pixel `p` at `d`: rows count away from row 0's edge, columns away
      from column 0's edge. */
  predicate IsShownAt(o: Orientation, stored: Size, p: Pixel, d: Pixel) {
    && Within(d, DisplaySize(o, stored))
    && DistanceFrom(RowZeroEdge(o), DisplaySize(o, stored), d) == p.y
    && DistanceFrom(ColumnZeroEdge(o), DisplaySize(o, stored), d) == p.x
  }

  function OutputSize(t: Transform, s: Size): Size {
    if SwapsAxes(t) then Swapped(s) else s
  }

  /** Where the codec's transform puts source pixel `p`. */
  function Moved(t: Transform, s: Size, p: Pixel): (d: Pixel)
    requires Within(p, s)
    ensures Within(d, OutputSize(t, s))
  {
    match t
    case Identity => p
    case FlipHorizontal => Pixel(s.width - 1 - p.x, p.y)
    case Rotate180 => Pixel(s.width - 1 - p.x, s.height - 1 - p.y)
    case FlipVertical => Pixel(p.x, s.height - 1 - p.y)
    case Transpose => Pixel(p.y, p.x)
    case Rotate90Clockwise => Pixel(s.height - 1 - p.y, p.x)
    case Transverse => Pixel(s.height - 1 - p.y, s.width - 1 - p.x)
    case Rotate270Clockwise => Pixel(p.y, s.width - 1 - p.x)
  }

  /** The chosen transform produces, pixel for pixel, what a viewer shows for the orientation. */
  lemma TransformShowsOrientation(o: Orientation, stored: Size, p: Pixel, d: Pixel)
    requires Within(p, stored)
    ensures OutputSize(LosslessTransformFor(o), stored) == DisplaySize(o, stored)
    ensures IsShownAt(o, stored, p, d) <==> d == Moved(LosslessTransformFor(o), stored, p)
  {
    match o
    case TopLeft => case TopRight => case BottomRight => case BottomLeft =>
    case LeftTop => case RightTop => case RightBottom => case LeftBottom =>
  }

  function Inverse(t: Transform): Transform {
    match t
    case Rotate90Clockwise => Rotate270Clockwise
    case Rotate270Clockwise => Rotate90Clockwise
    case _ => t
  }

  /** No pixel is lost or duplicated: every transform is undone by its inverse. */
  lemma TransformIsInvertible(t: Transform, s: Size, p: Pixel)
    requires Within(p, s)
    ensures Moved(Inverse(t), OutputSize(t, s), Moved(t, s, p)) == p
    ensures OutputSize(Inverse(t), OutputSize(t, s)) == s && Inverse(Inverse(t)) == t
  {
    match t
    case Identity => case FlipHorizontal => case Rotate180 => case FlipVertical =>
    case Transpose => case Rotate90Clockwise => case Transverse => case Rotate270Clockwise =>
  }

  // ----- the plan

  datatype Policy = RequirePerfectCoefficientTransform | TrimPartialMinimumCodedUnits

  const U64_LIMIT: nat := 0x1_0000_0000_0000_0000

  datatype Request = Request(source: Size, unit: Size, orientation: Orientation, policy: Policy)
  {
    predicate IsMachineSized() {
      source.width < U64_LIMIT && source.height < U64_LIMIT && unit.width < U64_LIMIT && unit.height < U64_LIMIT
    }
  }

  datatype Plan = Plan(transform: Transform, source: Size, output: Size, policy: Policy, unit: Size, discarded: Size)

  datatype PlanError =
    | MalformedJpegStructure
    | PixelCountLimitExceeded(observed: Option<nat>)
    | PerfectCoefficientTransformUnavailable

  datatype PlanResult = Planned(plan: Plan) | Rejected(error: PlanError)

  // ----- division facts

  lemma AtLeastOnce(d: int, unit: nat)
    requires d >= 1
    ensures d * unit >= unit
  {
  }

  /** Quotient and remainder are unique. */
  lemma SameQuotient(k: int, r: nat, k': int, r': nat, unit: nat)
    requires r < unit && r' < unit && k * unit + r == k' * unit + r'
    ensures k == k'
  {
    if k < k' {
      AtLeastOnce(k' - k, unit);
    } else if k' < k {
      AtLeastOnce(k - k', unit);
    }
  }

  lemma Quotient(k: int, unit: nat, r: nat)
    requires r < unit
    ensures (k * unit + r) / unit == k && (k * unit + r) % unit == r
  {
    var v := k * unit + r;
    assert v == (v / unit) * unit + v % unit;
    SameQuotient(k, r, v / unit, v % unit, unit);
  }

  /** The pixels of a trailing partial unit. */
  function PartialEdge(length: nat, unit: nat): (r: nat)
    requires unit > 0
    ensures r <= length && r < unit && (length - r) % unit == 0 && (r < length || length < unit)
    ensures length < unit ==> r == length
  {
    assert length == (length / unit) * unit + length % unit;
    Quotient(length / unit, unit, 0);
    length % unit
  }

  /** The product of the dimensions, if it fits the machine: the division proves that before the
      multiplication happens. */
  function PixelCount(w: nat, h: nat): (count: Option<nat>)
    requires h > 0
    ensures count == if w * h < U64_LIMIT then Some(w * h) else None
  {
    var quotient := (U64_LIMIT - 1) / h;
    if w > quotient then
      assert w * h >= (quotient + 1) * h;
      None
    else
      assert w * h <= quotient * h;
      Some(w * h)
  }

  function CreatePlan(q: Request, maximumPixelCount: nat): PlanResult
    requires q.IsMachineSized()
  {
    var w, h := q.source.width, q.source.height;
    if w == 0 || h == 0 || q.unit.width == 0 || q.unit.height == 0 then Rejected(MalformedJpegStructure)
    else if PixelCount(w, h) == None then Rejected(PixelCountLimitExceeded(None))
    else if PixelCount(w, h).value > maximumPixelCount then Rejected(PixelCountLimitExceeded(PixelCount(w, h)))
    else
      var t := LosslessTransformFor(q.orientation);
      var right := if AffectsRightEdge(t) then PartialEdge(w, q.unit.width) else 0;
      var bottom := if AffectsBottomEdge(t) then PartialEdge(h, q.unit.height) else 0;
      if (right != 0 || bottom != 0) && q.policy == RequirePerfectCoefficientTransform
      then Rejected(PerfectCoefficientTransformUnavailable)
      else if right == w || bottom == h then Rejected(PerfectCoefficientTransformUnavailable)
      else
        Planned(Plan(t, q.source, OutputSize(t, Size(w - right, h - bottom)), q.policy, q.unit, Size(right, bottom)))
  }

  function Less(a: nat, b: nat): nat { if b <= a then a - b else 0 }

  function Retained(p: Plan): Size {
    Size(Less(p.source.width, p.discarded.width), Less(p.source.height, p.discarded.height))
  }

  /** `kept` is the longest prefix of `length` made of whole units. */
  predicate IsLargestMultiple(kept: nat, length: nat, unit: nat) {
    unit > 0 && kept <= length && kept % unit == 0 && length < kept + unit
  }

  /** Acceptance, exactly: positive geometry within the limit, and every affected edge either whole
      or trimmable with something left. */
  lemma PlanIsAcceptedIff(q: Request, maximumPixelCount: nat)
    requires q.IsMachineSized()
    ensures CreatePlan(q, maximumPixelCount).Planned? <==>
              && q.source.width > 0 && q.source.height > 0 && q.unit.width > 0 && q.unit.height > 0
              && q.source.width * q.source.height < U64_LIMIT
              && q.source.width * q.source.height <= maximumPixelCount
              && var t := LosslessTransformFor(q.orientation);
                 && (AffectsRightEdge(t) ==> IsEdgeUsable(q.source.width, q.unit.width, q.policy))
                 && (AffectsBottomEdge(t) ==> IsEdgeUsable(q.source.height, q.unit.height, q.policy))
  {
  }

  predicate IsEdgeUsable(length: nat, unit: nat, policy: Policy)
    requires unit > 0
  {
    PartialEdge(length, unit) == 0 || (policy == TrimPartialMinimumCodedUnits && length >= unit)
  }

  /** What an accepted plan keeps: whole units on affected edges, everything elsewhere, and
      everything under the perfect policy; its output is the transformed retained area. */
  lemma PlanTrimsLeast(q: Request, maximumPixelCount: nat)
    requires q.IsMachineSized() && CreatePlan(q, maximumPixelCount).Planned?
    ensures var p := CreatePlan(q, maximumPixelCount).plan;
            && p.discarded.width < p.source.width && p.discarded.height < p.source.height
            && p.output == OutputSize(p.transform, Retained(p))
            && (if AffectsRightEdge(p.transform)
                then IsLargestMultiple(Retained(p).width, q.source.width, q.unit.width)
                else p.discarded.width == 0)
            && (if AffectsBottomEdge(p.transform)
                then IsLargestMultiple(Retained(p).height, q.source.height, q.unit.height)
                else p.discarded.height == 0)
            && (q.policy == RequirePerfectCoefficientTransform ==> p.discarded == Size(0, 0))
  {
    var p := CreatePlan(q, maximumPixelCount).plan;
  }

  // ----- the iMCU grid

  function UnitOf(p: Pixel, unit: Size): Pixel
    requires unit.width > 0 && unit.height > 0
  {
    Pixel(p.x / unit.width, p.y / unit.height)
  }

  /** Mirroring a whole number of units maps unit `k` to unit `count - 1 - k`. */
  lemma MirroredUnit(length: nat, unit: nat, x: nat)
    requires unit > 0 && length % unit == 0 && x < length
    ensures (length - 1 - x) / unit == length / unit - 1 - x / unit
  {
    var k, r := x / unit, x % unit;
    var n := length / unit;
    assert x == k * unit + r && length == n * unit;
    assert length - 1 - x == (n - 1 - k) * unit + (unit - 1 - r);
    Quotient(n - 1 - k, unit, unit - 1 - r);
  }

  /** A mirrored edge made of whole units keeps pixels of one unit together, and others apart. */
  lemma MovedKeepsUnits(t: Transform, kept: Size, unit: Size, a: Pixel, b: Pixel)
    requires unit.width > 0 && unit.height > 0 && Within(a, kept) && Within(b, kept)
    requires AffectsRightEdge(t) ==> kept.width % unit.width == 0
    requires AffectsBottomEdge(t) ==> kept.height % unit.height == 0
    ensures UnitOf(a, unit) == UnitOf(b, unit) <==>
            UnitOf(Moved(t, kept, a), OutputSize(t, unit)) == UnitOf(Moved(t, kept, b), OutputSize(t, unit))
  {
    if AffectsRightEdge(t) {
      MirroredUnit(kept.width, unit.width, a.x);
      MirroredUnit(kept.width, unit.width, b.x);
    }
    if AffectsBottomEdge(t) {
      MirroredUnit(kept.height, unit.height, a.y);
      MirroredUnit(kept.height, unit.height, b.y);
    }
  }

  /** Pixels of the retained area share a unit before the transform exactly when they share one
      after it, on the output grid with its axes swapped where the transform swaps them. */
  lemma PlanKeepsUnits(q: Request, maximumPixelCount: nat, a: Pixel, b: Pixel)
    requires q.IsMachineSized() && CreatePlan(q, maximumPixelCount).Planned?
    requires Within(a, Retained(CreatePlan(q, maximumPixelCount).plan))
    requires Within(b, Retained(CreatePlan(q, maximumPixelCount).plan))
    ensures var p := CreatePlan(q, maximumPixelCount).plan;
            var a', b' := Moved(p.transform, Retained(p), a), Moved(p.transform, Retained(p), b);
            UnitOf(a, q.unit) == UnitOf(b, q.unit) <==>
            UnitOf(a', OutputSize(p.transform, q.unit)) == UnitOf(b', OutputSize(p.transform, q.unit))
  {
    PlanTrimsLeast(q, maximumPixelCount);
    hide Retained, OutputSize, Moved;
    var p := CreatePlan(q, maximumPixelCount).plan;
    MovedKeepsUnits(p.transform, Retained(p), q.unit, a, b);
  }

  /** The trim is necessary: mirroring an untrimmed edge that holds a whole unit and a partial one
      tears the first unit apart. */
  lemma PartialUnitTears(length: nat, unit: nat)
    requires unit > 0 && length >= unit && length % unit != 0
    ensures 0 / unit == (unit - 1) / unit
    ensures (length - 1 - 0) / unit != (length - 1 - (unit - 1)) / unit
  {
    var n, r := length / unit, length % unit;
    assert length == n * unit + r;
    Quotient(0, unit, unit - 1);
    Quotient(0, unit, 0);
    Quotient(n, unit, r - 1);
    assert length - 1 - (unit - 1) == (n - 1) * unit + r;
    Quotient(n - 1, unit, r);
  }
}
