/**
 * The FocusPointEditor: the crop deltas it records on every resize of the image, and the
 * pointer handlers that turn a drag into a new `object-position` string.
 */
module FocusPoint {
  import opened Wrappers
  import opened JsNumber
  import opened JsString
  import opened Helpers
  import opened ContainScale
  import opened ObjectPosition

  /** A side of the cover-scaled image must overhang the box by more than this many pixels to count as cropped. */
  const DELTA_DIMENSION_THRESHOLD_PX: real := 1.0

  datatype Dimension = Width | Height

  /** How much of one side is cropped away: in pixels, and as a percentage of the scaled side. */
  datatype AxisDelta = AxisDelta(px: real, percent: real)

  datatype ImageDimensionDelta = ImageDimensionDelta(width: AxisDelta, height: AxisDelta, changedDimension: Option<Dimension>)

  datatype Coordinates = Coordinates(x: real, y: real)

  /** `ref.current?.naturalWidth ?? 1` and likewise for the height: a 1×1 source when there is no image element. */
  function NaturalSource(image: Option<Dimensions>): Dimensions {
    image.GetOr(Dimensions(1.0, 1.0))
  }

  /** The delta computed for one ResizeObserver entry with content box `rect`. */
  function EntryDelta(source: Dimensions, rect: Dimensions): (d: ImageDimensionDelta)
    ensures d.width.px == ScaleDimensionsToContainRect(source, rect).width - rect.width
    ensures d.height.px == ScaleDimensionsToContainRect(source, rect).height - rect.height
    ensures d.width.px == 0.0 || d.height.px == 0.0
    ensures d.width.px + rect.width >= 0.0 && d.height.px + rect.height >= 0.0
    ensures d.width.px + rect.width > 0.0 ==> d.width.percent * (d.width.px + rect.width) == d.width.px * 100.0
    ensures d.width.px + rect.width == 0.0 ==> d.width.percent == 0.0
    ensures d.height.px + rect.height > 0.0 ==> d.height.percent * (d.height.px + rect.height) == d.height.px * 100.0
    ensures d.height.px + rect.height == 0.0 ==> d.height.percent == 0.0
    ensures d.changedDimension == Some(Width) <==> d.width.px > DELTA_DIMENSION_THRESHOLD_PX
    ensures d.changedDimension == Some(Height) <==>
              d.width.px <= DELTA_DIMENSION_THRESHOLD_PX && d.height.px > DELTA_DIMENSION_THRESHOLD_PX
  {
    var scaled := ScaleDimensionsToContainRect(source, rect);
    var deltaWidthPx := scaled.width - rect.width;
    var deltaHeightPx := scaled.height - rect.height;
    var changedDimension :=
      if deltaWidthPx > DELTA_DIMENSION_THRESHOLD_PX then Some(Width)
      else if deltaHeightPx > DELTA_DIMENSION_THRESHOLD_PX then Some(Height)
      else None;
    ImageDimensionDelta(
      AxisDelta(deltaWidthPx, ToPercentage(deltaWidthPx, scaled.width)),
      AxisDelta(deltaHeightPx, ToPercentage(deltaHeightPx, scaled.height)),
      changedDimension)
  }

  /**
   * For a positive natural size both deltas are pixels actually cropped away (never negative),
   * each percentage is below 100 for a non-empty box side, and the changed dimension is the
   * only side that is cropped.
   */
  lemma EntryDeltaOfImage(source: Dimensions, rect: Dimensions)
    requires source.width > 0.0 && source.height > 0.0
    ensures var d := EntryDelta(source, rect);
            && d.width.px >= 0.0 && d.height.px >= 0.0
            && 0.0 <= d.width.percent && 0.0 <= d.height.percent
            && (rect.width > 0.0 ==> d.width.percent < 100.0)
            && (rect.height > 0.0 ==> d.height.percent < 100.0)
            && (d.changedDimension == Some(Width) ==> d.height.px == 0.0)
            && (d.changedDimension == Some(Height) ==> d.width.px == 0.0)
  {
    var d := EntryDelta(source, rect);
    ContainsRect(source, rect);
    AxisDeltaBounds(d.width, rect.width);
    AxisDeltaBounds(d.height, rect.height);
  }

  /** A non-negative crop of a side is a percentage in [0, 100) of the scaled side, when the box side is not empty. */
  lemma AxisDeltaBounds(d: AxisDelta, side: real)
    requires d.px >= 0.0 && side >= 0.0
    requires d.px + side > 0.0 ==> d.percent * (d.px + side) == d.px * 100.0
    requires d.px + side == 0.0 ==> d.percent == 0.0
    ensures 0.0 <= d.percent && (side > 0.0 ==> d.percent < 100.0)
  {
    var scaled := d.px + side;
    if scaled > 0.0 {
      PercentOrder(d.percent, d.px, scaled, 0.0);
      PercentOrder(d.percent, d.px, scaled, 100.0);
    }
  }

  /** For a positive box, the width is the cropped side exactly when the image is wider than the box. */
  lemma WidthCroppedIffWider(source: Dimensions, rect: Dimensions)
    requires source.width > 0.0 && source.height > 0.0 && rect.width > 0.0 && rect.height > 0.0
    ensures EntryDelta(source, rect).width.px > 0.0 <==> source.width * rect.height > rect.width * source.height
    ensures EntryDelta(source, rect).height.px > 0.0 <==> source.width * rect.height < rect.width * source.height
  {
    Overhang(source, rect);
  }

  /** Without an image element the entry is still measured, against a 1×1 source. */
  lemma MissingImageExample()
    ensures EntryDelta(NaturalSource(None), Dimensions(200.0, 100.0))
            == ImageDimensionDelta(AxisDelta(0.0, 0.0), AxisDelta(100.0, 50.0), Some(Height))
  {
    Branches(Dimensions(1.0, 1.0), Dimensions(200.0, 100.0));
  }

  // ---------------------------------------------------------------------------
  // Dragging

  datatype MoveOutcome =
    | Ignored                        // the handler returned early
    | Emitted(objectPosition: string) // `onObjectPositionChange` was called with this string
    | Threw                          // the start position had no space, so parsing it threw a TypeError

  /** How far a pointer displacement moves one axis: a percentage of the cropped pixels, clamped to ±100. */
  function AxisShift(pointerDeltaPx: real, croppedPx: real): (shift: real)
    ensures -100.0 <= shift <= 100.0
    ensures croppedPx > 0.0 && pointerDeltaPx >= croppedPx ==> shift == 100.0
    ensures croppedPx > 0.0 && pointerDeltaPx <= -croppedPx ==> shift == -100.0
    ensures croppedPx <= 0.0 || pointerDeltaPx == 0.0 ==> shift == 0.0
    ensures pointerDeltaPx >= 0.0 ==> shift >= 0.0
    ensures pointerDeltaPx <= 0.0 ==> shift <= 0.0
  {
    PercentageBounds(pointerDeltaPx, croppedPx);
    Clamp(ToPercentage(pointerDeltaPx, croppedPx), -100.0, 100.0)
  }

  /** Within one cropped extent of the start, the shift is the pointer displacement as a percentage of the cropped pixels. */
  lemma AxisShiftProportional(pointerDeltaPx: real, croppedPx: real)
    requires croppedPx > 0.0 && -croppedPx <= pointerDeltaPx <= croppedPx
    ensures AxisShift(pointerDeltaPx, croppedPx) * croppedPx == pointerDeltaPx * 100.0
  {
    PercentageBounds(pointerDeltaPx, croppedPx);
  }

  /** The shift of each axis: only the changed dimension moves. */
  function ObjectPositionDelta(delta: ImageDimensionDelta, pointerDelta: Coordinates): (shift: Coordinates)
    ensures delta.changedDimension == Some(Width) ==> shift == Coordinates(AxisShift(pointerDelta.x, delta.width.px), 0.0)
    ensures delta.changedDimension == Some(Height) ==> shift == Coordinates(0.0, AxisShift(pointerDelta.y, delta.height.px))
    ensures delta.changedDimension == None ==> shift == Coordinates(0.0, 0.0)
    ensures -100.0 <= shift.x <= 100.0 && -100.0 <= shift.y <= 100.0
  {
    Coordinates(
      if delta.changedDimension == Some(Width) then AxisShift(pointerDelta.x, delta.width.px) else 0.0,
      if delta.changedDimension == Some(Height) then AxisShift(pointerDelta.y, delta.height.px) else 0.0)
  }

  /** The displacement of the pointer since pointer down, measured from (0, 0) when no pointer was recorded. */
  function PointerDelta(pointerStart: Option<Coordinates>, pointer: Coordinates): (d: Coordinates)
    ensures pointerStart.Some? ==> pointerStart.value.x + d.x == pointer.x && pointerStart.value.y + d.y == pointer.y
    ensures pointerStart.None? ==> d == pointer
  {
    var start := pointerStart.GetOr(Coordinates(0.0, 0.0));
    Coordinates(pointer.x - start.x, pointer.y - start.y)
  }

  /** The coordinates a drag moves the snapshot `p` to, before encoding. */
  function Moved(p: Parsed, shift: Coordinates): (q: Parsed)
    requires p.Parsed?
    ensures q.Parsed? && (q.x.Finite? <==> p.x.Finite?) && (q.y.Finite? <==> p.y.Finite?)
    ensures p.x.Finite? ==> q.x.v + shift.x == p.x.v
    ensures p.y.Finite? ==> q.y.v + shift.y == p.y.v
    ensures !p.x.Finite? ==> q.x == p.x
    ensures !p.y.Finite? ==> q.y == p.y
  {
    Parsed(Sub(p.x, Finite(shift.x)), Sub(p.y, Finite(shift.y)))
  }

  /** What a pointer move does while dragging with a known delta: the snapshot minus the shift, re-encoded. */
  function Drag(objectPositionStart: string, pointerStart: Option<Coordinates>, delta: ImageDimensionDelta, pointer: Coordinates): (r: MoveOutcome)
    ensures r == Threw <==> ' ' !in objectPositionStart
    ensures r != Ignored
  {
    var shift := ObjectPositionDelta(delta, PointerDelta(pointerStart, pointer));
    var previous := StringToObject(objectPositionStart);
    if previous.TypeError? then Threw
    else
      var next := Moved(previous, shift);
      Emitted(ObjectToString(next.x, next.y))
  }

  /**
   * The string a drag emits parses back to the snapshot minus the shift, clamped to [0, 100]
   * and rounded.
   */
  lemma DragDecodes(objectPositionStart: string, pointerStart: Option<Coordinates>, delta: ImageDimensionDelta, pointer: Coordinates)
    requires ' ' in objectPositionStart
    ensures var m := Moved(StringToObject(objectPositionStart), ObjectPositionDelta(delta, PointerDelta(pointerStart, pointer)));
            && Drag(objectPositionStart, pointerStart, delta, pointer) == Emitted(ObjectToString(m.x, m.y))
            && StringToObject(ObjectToString(m.x, m.y)) == Parsed(Canonical(m.x), Canonical(m.y))
  {
    var m := Moved(StringToObject(objectPositionStart), ObjectPositionDelta(delta, PointerDelta(pointerStart, pointer)));
    RoundTrip(m.x, m.y);
  }

  /** Only the changed dimension moves; with no changed dimension nothing moves. */
  lemma DragKeepsOtherAxis(p: Parsed, delta: ImageDimensionDelta, pointerDelta: Coordinates)
    requires p.Parsed?
    ensures var m := Moved(p, ObjectPositionDelta(delta, pointerDelta));
            && (delta.changedDimension != Some(Width) ==> m.x == p.x)
            && (delta.changedDimension != Some(Height) ==> m.y == p.y)
  {
    SubZero(p.x);
    SubZero(p.y);
  }

  lemma SubZero(n: Number)
    ensures Sub(n, Finite(0.0)) == n
  {
  }

  /** Bringing the pointer back to where it went down re-emits the snapshot's coordinates. */
  lemma DragBackToStart(objectPositionStart: string, delta: ImageDimensionDelta, pointer: Coordinates)
    requires ' ' in objectPositionStart
    ensures var p := StringToObject(objectPositionStart);
            Drag(objectPositionStart, Some(pointer), delta, pointer) == Emitted(ObjectToString(p.x, p.y))
  {
    var p := StringToObject(objectPositionStart);
    var shift := ObjectPositionDelta(delta, PointerDelta(Some(pointer), pointer));
    assert shift == Coordinates(0.0, 0.0);
    SubZero(p.x);
    SubZero(p.y);
    assert Moved(p, shift) == p;
    DragDecodes(objectPositionStart, Some(pointer), delta, pointer);
  }

  /** A snapshot the encoder wrote itself comes back unchanged when the pointer returns to its start. */
  lemma DragBackToEncoded(x: Number, y: Number, delta: ImageDimensionDelta, pointer: Coordinates)
    ensures Drag(ObjectToString(x, y), Some(pointer), delta, pointer) == Emitted(ObjectToString(x, y))
  {
    var s := ObjectToString(x, y);
    assert s[|PaddedToken(x)| + 1] == ' ';
    DragBackToStart(s, delta, pointer);
    RoundTrip(x, y);
    EncodeCanonical(x, y);
  }

  lemma MovedFinite(x: real, y: real, shift: Coordinates)
    ensures Moved(Parsed(Finite(x), Finite(y)), shift) == Parsed(Finite(x - shift.x), Finite(y - shift.y))
  {
  }

  /**
   * A non-negative shift (what AxisShift gives for a pointer moved right) never moves the
   * encoded x coordinate right.
   */
  lemma ShiftLeft(x: real, y: real, shift: Coordinates)
    requires shift.x >= 0.0
    ensures var m := Moved(Parsed(Finite(x), Finite(y)), shift);
            Canonical(m.x).Finite? && Canonical(Finite(x)).Finite? && Canonical(m.x).v <= Canonical(Finite(x)).v
  {
    MovedFinite(x, y, shift);
    CanonicalMonotone(x - shift.x, x);
  }

  lemma DragExampleShift(delta: ImageDimensionDelta, pointerStart: Coordinates, pointer: Coordinates)
    requires delta == ImageDimensionDelta(AxisDelta(100.0, 25.0), AxisDelta(0.0, 0.0), Some(Width))
    requires pointerStart == Coordinates(10.0, 10.0) && pointer == Coordinates(30.0, 12.0)
    ensures ObjectPositionDelta(delta, PointerDelta(Some(pointerStart), pointer)) == Coordinates(20.0, 0.0)
  {
    assert ToPercentage(pointer.x - pointerStart.x, delta.width.px) == 20.0;
  }

  /** The coordinates such a drag emits, before they are printed. */
  lemma DragExampleMoves(start: string, delta: ImageDimensionDelta, pointerStart: Coordinates, pointer: Coordinates)
    requires StringToObject(start) == Parsed(Finite(50.0), Finite(50.0))
    requires delta == ImageDimensionDelta(AxisDelta(100.0, 25.0), AxisDelta(0.0, 0.0), Some(Width))
    requires pointerStart == Coordinates(10.0, 10.0) && pointer == Coordinates(30.0, 12.0)
    ensures Drag(start, Some(pointerStart), delta, pointer) == Emitted(ObjectToString(Finite(30.0), Finite(50.0)))
  {
    var shift := ObjectPositionDelta(delta, PointerDelta(Some(pointerStart), pointer));
    DragExampleShift(delta, pointerStart, pointer);
    MovedFinite(50.0, 50.0, shift);
  }

  /**
   * Dragging 20px right over 100 cropped pixels moves a start that parses to (50, 50), such as
   * "50% 50%", by 20 points on x only.
   */
  lemma DragExample(start: string, delta: ImageDimensionDelta, pointerStart: Coordinates, pointer: Coordinates)
    requires StringToObject(start) == Parsed(Finite(50.0), Finite(50.0))
    requires delta == ImageDimensionDelta(AxisDelta(100.0, 25.0), AxisDelta(0.0, 0.0), Some(Width))
    requires pointerStart == Coordinates(10.0, 10.0) && pointer == Coordinates(30.0, 12.0)
    ensures Drag(start, Some(pointerStart), delta, pointer) == Emitted("30% 50%")
  {
    DragExampleMoves(start, delta, pointerStart, pointer);
    EncodeShiftedExample(Finite(30.0), Finite(50.0));
  }

  /**
   * The editor's drag state: the dragging flag, the snapshots taken on pointer down, and the
   * latest crop delta recorded by the resize observer.
   */
  class FocusPointEditor {
    var isDragging: bool
    var objectPositionStart: string
    var pointerCoordinatesStart: Option<Coordinates>
    var imageDimensionDelta: Option<ImageDimensionDelta>

    /** The refs start from the initial `objectPosition` prop; no delta is known yet. */
    constructor (objectPosition: string)
      ensures !isDragging && objectPositionStart == objectPosition
      ensures pointerCoordinatesStart == None && imageDimensionDelta == None
    {
      isDragging := false;
      objectPositionStart := objectPosition;
      pointerCoordinatesStart := None;
      imageDimensionDelta := None;
    }

    /** One ResizeObserver callback: every entry overwrites the delta, so the last one wins. */
    method Resize(entries: seq<Dimensions>, image: Option<Dimensions>)
      modifies this`imageDimensionDelta
      ensures entries == [] ==> imageDimensionDelta == old(imageDimensionDelta)
      ensures entries != [] ==> imageDimensionDelta == Some(EntryDelta(NaturalSource(image), entries[|entries| - 1]))
    {
      for i := 0 to |entries|
        invariant i == 0 ==> imageDimensionDelta == old(imageDimensionDelta)
        invariant i > 0 ==> imageDimensionDelta == Some(EntryDelta(NaturalSource(image), entries[i - 1]))
      {
        var source := NaturalSource(image);
        imageDimensionDelta := Some(EntryDelta(source, entries[i]));
      }
    }

    /** Pointer down: start dragging and snapshot the current position string and the pointer. */
    method PointerDown(objectPosition: string, clientX: real, clientY: real)
      modifies this`isDragging, this`objectPositionStart, this`pointerCoordinatesStart
      ensures isDragging && objectPositionStart == objectPosition
      ensures pointerCoordinatesStart == Some(Coordinates(clientX, clientY))
    {
      isDragging := true;
      objectPositionStart := objectPosition;
      pointerCoordinatesStart := Some(Coordinates(clientX, clientY));
    }

    /** Pointer move: nothing unless dragging with a known delta; otherwise the drag result. */
    method PointerMove(clientX: real, clientY: real) returns (outcome: MoveOutcome)
      ensures !isDragging || imageDimensionDelta == None ==> outcome == Ignored
      ensures isDragging && imageDimensionDelta.Some? ==>
                outcome == Drag(objectPositionStart, pointerCoordinatesStart, imageDimensionDelta.value, Coordinates(clientX, clientY))
    {
      if !isDragging || imageDimensionDelta == None {
        return Ignored;
      }
      var pointerDelta := PointerDelta(pointerCoordinatesStart, Coordinates(clientX, clientY));
      var shift := ObjectPositionDelta(imageDimensionDelta.value, pointerDelta);
      var previous := StringToObject(objectPositionStart);
      if previous.TypeError? {
        return Threw;
      }
      var next := Moved(previous, shift);
      outcome := Emitted(ObjectToString(next.x, next.y));
    }

    /** Pointer up: stop dragging; the snapshots and the delta stay as they are. */
    method PointerUp()
      modifies this`isDragging
      ensures !isDragging
    {
      isDragging := false;
    }
  }
}
