/**
 * The legacy ImageContainer: it works out which axis of the cover-scaled image is cropped by
 * comparing aspect ratios, and drags the focal point along that axis by the pointer's
 * displacement as a percentage of the cropped pixels, with no ±100 clamp. Positions are
 * written with the unpadded encoder of ImageContainer/helpers.
 */
module ImageContainer {
  import opened Wrappers
  import opened JsNumber
  import opened JsString
  import opened Helpers
  import opened ContainScale
  import opened ObjectPosition
  import FocusPoint

  /** Aspect ratios closer than this are treated as equal: nothing is cropped. */
  const RATIO_TOLERANCE: real := 0.005

  datatype MovementAxis = Horizontal | Vertical

  /** What the resize observer records: the pixels added to each side and the cropped axis. */
  datatype ImageObserved = ImageObserved(deltaWidth: Number, deltaHeight: Number, movementAxis: Option<MovementAxis>)

  /** `ref.current ?? {}` with `naturalWidth = 0, naturalHeight = 0` as defaults. */
  function NaturalSize(image: Option<Dimensions>): (natural: Dimensions)
    ensures image.Some? ==> natural == image.value
    ensures image.None? ==> AspectRatio(natural) == NaN && Skipped(Dimensions(0.0, 0.0), natural)
  {
    image.GetOr(Dimensions(0.0, 0.0))
  }

  /**
   * An entry is skipped only when the box and the natural size are both 0 by 0; any non-zero
   * side, of the box or of the image, gets observed.
   */
  function Skipped(rect: Dimensions, natural: Dimensions): (skip: bool)
    ensures skip <==> rect == Dimensions(0.0, 0.0) && natural == Dimensions(0.0, 0.0)
    ensures rect.width > 0.0 || rect.height > 0.0 || natural.width > 0.0 || natural.height > 0.0 ==> !skip
  {
    rect.width == 0.0 && rect.height == 0.0 && natural.width == 0.0 && natural.height == 0.0
  }

  /** The observation made for one entry with content box `rect`. */
  function Observe(rect: Dimensions, natural: Dimensions): (o: ImageObserved)
    ensures o.movementAxis != Some(Horizontal) ==> o.deltaWidth == Finite(0.0)
    ensures o.movementAxis != Some(Vertical) ==> o.deltaHeight == Finite(0.0)
  {
    var currentAspectRatio := AspectRatio(rect);
    var naturalAspectRatio := AspectRatio(natural);
    var movementAxis :=
      if Less(Abs(Sub(naturalAspectRatio, currentAspectRatio)), Finite(RATIO_TOLERANCE)) then None
      else if Greater(naturalAspectRatio, currentAspectRatio) then Some(Horizontal)
      else Some(Vertical);
    var nextWidth :=
      if movementAxis == Some(Horizontal) then Div(Finite(rect.height * natural.width), Finite(natural.height))
      else Finite(rect.width);
    var nextHeight :=
      if movementAxis == Some(Vertical) then Div(Finite(rect.width * natural.height), Finite(natural.width))
      else Finite(rect.height);
    ImageObserved(Sub(nextWidth, Finite(rect.width)), Sub(nextHeight, Finite(rect.height)), movementAxis)
  }

  predicate Positive(d: Dimensions) {
    d.width > 0.0 && d.height > 0.0
  }

  /** A horizontal crop: the image is wider than the box and its width gains a positive number of pixels. */
  lemma ObserveHorizontal(rect: Dimensions, natural: Dimensions)
    requires Positive(rect) && Positive(natural)
    requires Observe(rect, natural).movementAxis == Some(Horizontal)
    ensures natural.width * rect.height > rect.width * natural.height
    ensures Observe(rect, natural).deltaWidth.Finite? && Observe(rect, natural).deltaWidth.v > 0.0
  {
    var a, b := natural.width / natural.height, rect.width / rect.height;
    assert AspectRatio(natural) == Finite(a) && AspectRatio(rect) == Finite(b);
    RatioComparison(natural, rect);
    assert a > b;
    assert rect.height * natural.width / natural.height == rect.height * a;
    assert rect.height * b == rect.width;
    ScaleOrder(a, b, rect.height);
  }

  /** A vertical crop: the image is taller than the box and its height gains a positive number of pixels. */
  lemma ObserveVertical(rect: Dimensions, natural: Dimensions)
    requires Positive(rect) && Positive(natural)
    requires Observe(rect, natural).movementAxis == Some(Vertical)
    ensures natural.width * rect.height < rect.width * natural.height
    ensures Observe(rect, natural).deltaHeight.Finite? && Observe(rect, natural).deltaHeight.v > 0.0
  {
    var a, b := natural.width / natural.height, rect.width / rect.height;
    var nw, nh, rw, rh := natural.width, natural.height, rect.width, rect.height;
    assert AspectRatio(natural) == Finite(a) && AspectRatio(rect) == Finite(b);
    assert !(a > b);
    assert a != b;
    RatioComparison(rect, natural);
    assert rw * nh > nw * rh;
    var h := rw * nh / nw;
    assert h * nw == rw * nh;
    assert rh * nw == nw * rh;
    ScaleOrder(h, rh, nw);
  }

  /**
   * For a loaded image in a non-empty box: "horizontal" means the image is wider than the box
   * and its width gains a positive number of pixels; "vertical" means it is taller and its
   * height gains; no axis means the two ratios are within the tolerance, as they are when
   * they are equal.
   */
  lemma ObserveOfImage(rect: Dimensions, natural: Dimensions)
    requires Positive(rect) && Positive(natural)
    ensures var o := Observe(rect, natural);
            && (o.movementAxis == Some(Horizontal) ==>
                  natural.width * rect.height > rect.width * natural.height && o.deltaWidth.Finite? && o.deltaWidth.v > 0.0)
            && (o.movementAxis == Some(Vertical) ==>
                  natural.width * rect.height < rect.width * natural.height && o.deltaHeight.Finite? && o.deltaHeight.v > 0.0)
            && (o.movementAxis == None <==>
                  -RATIO_TOLERANCE < natural.width / natural.height - rect.width / rect.height < RATIO_TOLERANCE)
  {
    var o := Observe(rect, natural);
    assert AspectRatio(natural) == Finite(natural.width / natural.height);
    assert AspectRatio(rect) == Finite(rect.width / rect.height);
    if o.movementAxis == Some(Horizontal) {
      ObserveHorizontal(rect, natural);
    } else if o.movementAxis == Some(Vertical) {
      ObserveVertical(rect, natural);
    }
  }

  /**
   * When an axis is cropped, the legacy deltas are exactly the overhangs of the FocusPointEditor's
   * contain scaling: the two components detect the same crop by different means.
   */
  lemma ObserveAgreesWithContain(rect: Dimensions, natural: Dimensions)
    requires Positive(rect) && Positive(natural)
    requires Observe(rect, natural).movementAxis.Some?
    ensures var o := Observe(rect, natural);
            var scaled := ScaleDimensionsToContainRect(natural, rect);
            o.deltaWidth == Finite(scaled.width - rect.width) && o.deltaHeight == Finite(scaled.height - rect.height)
  {
    ObserveOfImage(rect, natural);
    Branches(natural, rect);
  }

  /** Equal ratios: nothing is cropped and nothing can be dragged. */
  lemma SameRatioNothingCropped(rect: Dimensions, natural: Dimensions)
    requires Positive(rect) && Positive(natural)
    requires natural.width * rect.height == rect.width * natural.height
    ensures Observe(rect, natural) == ImageObserved(Finite(0.0), Finite(0.0), None)
  {
    var a, b := natural.width / natural.height, rect.width / rect.height;
    assert a * (natural.height * rect.height) == natural.width * rect.height;
    assert b * (natural.height * rect.height) == rect.width * natural.height;
    assert a == b by { ScaleOrder(a, b, natural.height * rect.height); ScaleOrder(b, a, natural.height * rect.height); }
    ObserveOfImage(rect, natural);
  }

  /**
   * An image whose natural size is still 0×0 in a non-empty box is not skipped: both ratios
   * compare false against NaN, so the axis is "vertical" and the height delta is NaN.
   */
  lemma UnloadedImageObserved(rect: Dimensions, image: Option<Dimensions>)
    requires rect == Dimensions(200.0, 100.0) && image == None
    ensures !Skipped(rect, NaturalSize(image))
    ensures Observe(rect, NaturalSize(image)) == ImageObserved(Finite(0.0), NaN, Some(Vertical))
  {
  }

  /** The observation after one callback: every entry not skipped overwrites it, so the last such entry wins. */
  function Observed(entries: seq<Dimensions>, natural: Dimensions, previous: Option<ImageObserved>): (r: Option<ImageObserved>)
    ensures (forall i :: 0 <= i < |entries| ==> Skipped(entries[i], natural)) ==> r == previous
    ensures r != previous ==>
              exists i :: 0 <= i < |entries| && !Skipped(entries[i], natural) && r == Some(Observe(entries[i], natural))
  {
    if entries == [] then previous
    else
      var last := entries[|entries| - 1];
      var before := Observed(entries[..|entries| - 1], natural, previous);
      if Skipped(last, natural) then before else Some(Observe(last, natural))
  }

  /** The entry at `k` decides the observation when every later entry is skipped. */
  lemma {:induction false} ObservedIsLastKept(entries: seq<Dimensions>, natural: Dimensions, previous: Option<ImageObserved>, k: int)
    requires 0 <= k < |entries| && !Skipped(entries[k], natural)
    requires forall j :: k < j < |entries| ==> Skipped(entries[j], natural)
    ensures Observed(entries, natural, previous) == Some(Observe(entries[k], natural))
  {
    if k < |entries| - 1 {
      var prefix := entries[..|entries| - 1];
      assert prefix[k] == entries[k];
      forall j | k < j < |prefix| ensures Skipped(prefix[j], natural) {
        assert prefix[j] == entries[j];
      }
      ObservedIsLastKept(prefix, natural, previous, k);
    }
  }

  // ---------------------------------------------------------------------------
  // Dragging

  datatype Shift = Shift(x: Number, y: Number)

  /** `(pointerDelta / delta) * 100` in JS numbers, with no clamp. */
  function AxisPercent(pointerDeltaPx: real, delta: Number): (p: Number)
    ensures delta == Finite(0.0) ==> p == (if pointerDeltaPx > 0.0 then PosInf else if pointerDeltaPx < 0.0 then NegInf else NaN)
    ensures delta == PosInf || delta == NegInf ==> p == Finite(0.0)
  {
    Mul(Div(Finite(pointerDeltaPx), delta), Finite(100.0))
  }

  /** A finite non-zero delta gives the plain percentage; a NaN delta gives NaN. */
  lemma AxisPercentOf(pointerDeltaPx: real, delta: Number)
    ensures delta.Finite? && delta.v != 0.0 ==> AxisPercent(pointerDeltaPx, delta) == Finite(pointerDeltaPx / delta.v * 100.0)
    ensures delta == NaN ==> AxisPercent(pointerDeltaPx, delta) == NaN
  {
  }

  /** Only the observed movement axis moves; the other one shifts by 0. */
  function ObservedShift(observed: ImageObserved, pointerDelta: FocusPoint.Coordinates): (shift: Shift)
    ensures observed.movementAxis != Some(Horizontal) ==> shift.x == Finite(0.0)
    ensures observed.movementAxis != Some(Vertical) ==> shift.y == Finite(0.0)
  {
    Shift(
      if observed.movementAxis == Some(Horizontal) then AxisPercent(pointerDelta.x, observed.deltaWidth) else Finite(0.0),
      if observed.movementAxis == Some(Vertical) then AxisPercent(pointerDelta.y, observed.deltaHeight) else Finite(0.0))
  }

  /**
   * For a loaded image in a non-empty box the shift is finite, and on the moving axis it is the
   * pointer displacement as a percentage of the pixels cropped on that axis.
   */
  lemma ShiftOfImage(rect: Dimensions, natural: Dimensions, pointerDelta: FocusPoint.Coordinates)
    requires Positive(rect) && Positive(natural)
    ensures var o := Observe(rect, natural);
            var shift := ObservedShift(o, pointerDelta);
            && shift.x.Finite? && shift.y.Finite?
            && (o.movementAxis == Some(Horizontal) ==> shift.x.v * o.deltaWidth.v == pointerDelta.x * 100.0)
            && (o.movementAxis == Some(Vertical) ==> shift.y.v * o.deltaHeight.v == pointerDelta.y * 100.0)
  {
    ObserveOfImage(rect, natural);
  }

  /** What a pointer move does while dragging with an observation: the snapshot minus the shift, re-encoded. */
  function Drag(objectPositionStart: string, pointerStart: Option<FocusPoint.Coordinates>, observed: ImageObserved, pointer: FocusPoint.Coordinates): (r: FocusPoint.MoveOutcome)
    ensures r == FocusPoint.Threw <==> ' ' !in objectPositionStart
    ensures r != FocusPoint.Ignored
  {
    var shift := ObservedShift(observed, FocusPoint.PointerDelta(pointerStart, pointer));
    var previous := StringToObject(objectPositionStart);
    if previous.TypeError? then FocusPoint.Threw
    else FocusPoint.Emitted(UnpaddedObjectToString(Sub(previous.x, shift.x), Sub(previous.y, shift.y)))
  }

  /** The emitted string parses back to the snapshot minus the shift, clamped to [0, 100] and rounded. */
  lemma DragDecodes(objectPositionStart: string, pointerStart: Option<FocusPoint.Coordinates>, observed: ImageObserved, pointer: FocusPoint.Coordinates)
    requires ' ' in objectPositionStart
    ensures var p := StringToObject(objectPositionStart);
            var shift := ObservedShift(observed, FocusPoint.PointerDelta(pointerStart, pointer));
            var s := UnpaddedObjectToString(Sub(p.x, shift.x), Sub(p.y, shift.y));
            && Drag(objectPositionStart, pointerStart, observed, pointer) == FocusPoint.Emitted(s)
            && StringToObject(s) == Parsed(Canonical(Sub(p.x, shift.x)), Canonical(Sub(p.y, shift.y)))
  {
    var p := StringToObject(objectPositionStart);
    var shift := ObservedShift(observed, FocusPoint.PointerDelta(pointerStart, pointer));
    UnpaddedRoundTrip(Sub(p.x, shift.x), Sub(p.y, shift.y));
  }

  /**
   * Leaving out the ±100 clamp changes nothing that is emitted: from a start in [0, 100], a
   * shift beyond ±100 lands on the same edge as the clamped shift.
   */
  lemma MissingClampUnobservable(start: real, shift: real)
    requires 0.0 <= start <= 100.0
    ensures Canonical(Finite(start - shift)) == Canonical(Finite(start - Clamp(shift, -100.0, 100.0)))
  {
    CanonicalIsClampedRounded(start - shift);
    CanonicalIsClampedRounded(start - Clamp(shift, -100.0, 100.0));
  }

  /** The active delta divides the pointer displacement without producing NaN or an infinity. */
  predicate Divisible(observed: ImageObserved) {
    && (observed.movementAxis == Some(Horizontal) ==> observed.deltaWidth.Finite? && observed.deltaWidth.v != 0.0)
    && (observed.movementAxis == Some(Vertical) ==> observed.deltaHeight.Finite? && observed.deltaHeight.v != 0.0)
  }

  /** Every observation of a loaded image in a non-empty box is divisible. */
  lemma ObserveOfImageDivisible(rect: Dimensions, natural: Dimensions)
    requires Positive(rect) && Positive(natural)
    ensures Divisible(Observe(rect, natural))
  {
    ObserveOfImage(rect, natural);
  }

  /** Bringing the pointer back to where it went down re-emits the snapshot's coordinates. */
  lemma DragBackToStart(objectPositionStart: string, observed: ImageObserved, pointer: FocusPoint.Coordinates)
    requires ' ' in objectPositionStart && Divisible(observed)
    ensures var p := StringToObject(objectPositionStart);
            Drag(objectPositionStart, Some(pointer), observed, pointer) == FocusPoint.Emitted(UnpaddedObjectToString(p.x, p.y))
  {
    var p := StringToObject(objectPositionStart);
    ZeroDisplacementNoShift(observed, pointer);
    FocusPoint.SubZero(p.x);
    FocusPoint.SubZero(p.y);
  }

  /** A pointer that has not moved shifts neither axis. */
  lemma ZeroDisplacementNoShift(observed: ImageObserved, pointer: FocusPoint.Coordinates)
    requires Divisible(observed)
    ensures ObservedShift(observed, FocusPoint.PointerDelta(Some(pointer), pointer)) == Shift(Finite(0.0), Finite(0.0))
  {
    var d := FocusPoint.PointerDelta(Some(pointer), pointer);
    assert d.x == 0.0 && d.y == 0.0;
    AxisPercentOf(d.x, observed.deltaWidth);
    AxisPercentOf(d.y, observed.deltaHeight);
  }

  /** A snapshot written by the unpadded encoder comes back unchanged when the pointer returns to its start. */
  lemma DragBackToEncoded(x: Number, y: Number, observed: ImageObserved, pointer: FocusPoint.Coordinates)
    requires Divisible(observed)
    ensures Drag(UnpaddedObjectToString(x, y), Some(pointer), observed, pointer) == FocusPoint.Emitted(UnpaddedObjectToString(x, y))
  {
    var s := UnpaddedObjectToString(x, y);
    TokenCharacters(x);
    assert s[|UnpaddedToken(x)| + 1] == ' ';
    DragBackToStart(s, observed, pointer);
    UnpaddedRoundTrip(x, y);
    EncodeCanonical(x, y);
  }

  /** A drag from a start that parses to (x, y) emits the unpadded encoding of (x, y) minus the shift. */
  lemma DragFromParsed(objectPositionStart: string, pointerStart: Option<FocusPoint.Coordinates>, observed: ImageObserved, pointer: FocusPoint.Coordinates, x: Number, y: Number)
    requires StringToObject(objectPositionStart) == Parsed(x, y)
    ensures var shift := ObservedShift(observed, FocusPoint.PointerDelta(pointerStart, pointer));
            Drag(objectPositionStart, pointerStart, observed, pointer) == FocusPoint.Emitted(UnpaddedObjectToString(Sub(x, shift.x), Sub(y, shift.y)))
  {
  }

  lemma ClampedEncodingExample()
    ensures UnpaddedObjectToString(Finite(-150.0), Finite(50.0)) == "0% 50%"
  {
    assert CoordinateHundredths(Finite(-150.0)) == Some(0);
    assert CoordinateHundredths(Finite(50.0)) == Some(5000);
    assert NatToString(0) == "0";
    assert NatToString(50) == "50";
  }

  lemma NaNEncodingExample()
    ensures UnpaddedObjectToString(Finite(50.0), NaN) == "50% NaN%"
  {
    assert CoordinateHundredths(Finite(50.0)) == Some(5000);
    assert NatToString(50) == "50";
  }

  /** Dragging 200px right over 100 cropped pixels shifts x by 200 points: nothing clamps the shift. */
  lemma UnclampedShiftExample(observed: ImageObserved, pointerStart: FocusPoint.Coordinates, pointer: FocusPoint.Coordinates)
    requires observed == ImageObserved(Finite(100.0), Finite(0.0), Some(Horizontal))
    requires pointerStart == FocusPoint.Coordinates(0.0, 0.0) && pointer == FocusPoint.Coordinates(200.0, 5.0)
    ensures ObservedShift(observed, FocusPoint.PointerDelta(Some(pointerStart), pointer)) == Shift(Finite(200.0), Finite(0.0))
  {
    AxisPercentOf(pointer.x - pointerStart.x, observed.deltaWidth);
    assert (pointer.x - pointerStart.x) / observed.deltaWidth.v * 100.0 == 200.0;
  }

  /** The same drag from "50% 50%": the encoder's clamp still pins the emitted x to 0. */
  lemma UnclampedDragExample(start: string, observed: ImageObserved, pointerStart: FocusPoint.Coordinates, pointer: FocusPoint.Coordinates)
    requires StringToObject(start) == Parsed(Finite(50.0), Finite(50.0))
    requires observed == ImageObserved(Finite(100.0), Finite(0.0), Some(Horizontal))
    requires pointerStart == FocusPoint.Coordinates(0.0, 0.0) && pointer == FocusPoint.Coordinates(200.0, 5.0)
    ensures Drag(start, Some(pointerStart), observed, pointer) == FocusPoint.Emitted("0% 50%")
  {
    UnclampedShiftExample(observed, pointerStart, pointer);
    DragFromParsed(start, Some(pointerStart), observed, pointer, Finite(50.0), Finite(50.0));
    ClampedEncodingExample();
  }

  /** Before the image has a natural size, a vertical drag from "50% 50%" emits a NaN coordinate. */
  lemma UnloadedImageDrag(start: string, rect: Dimensions, image: Option<Dimensions>, pointerStart: FocusPoint.Coordinates, pointer: FocusPoint.Coordinates)
    requires StringToObject(start) == Parsed(Finite(50.0), Finite(50.0))
    requires rect == Dimensions(200.0, 100.0) && image == None
    ensures Drag(start, Some(pointerStart), Observe(rect, NaturalSize(image)), pointer) == FocusPoint.Emitted("50% NaN%")
  {
    var observed := Observe(rect, NaturalSize(image));
    UnloadedImageObserved(rect, image);
    UnloadedImageMoves(start, observed, pointerStart, pointer);
    NaNEncodingExample();
  }

  /** The same drag before encoding: x stays at 50 and y becomes NaN. */
  lemma UnloadedImageMoves(start: string, observed: ImageObserved, pointerStart: FocusPoint.Coordinates, pointer: FocusPoint.Coordinates)
    requires StringToObject(start) == Parsed(Finite(50.0), Finite(50.0))
    requires observed == ImageObserved(Finite(0.0), NaN, Some(Vertical))
    ensures Drag(start, Some(pointerStart), observed, pointer) == FocusPoint.Emitted(UnpaddedObjectToString(Finite(50.0), NaN))
  {
    var shift := ObservedShift(observed, FocusPoint.PointerDelta(Some(pointerStart), pointer));
    UnloadedShift(observed, pointerStart, pointer);
    DragFromParsed(start, Some(pointerStart), observed, pointer, Finite(50.0), Finite(50.0));
    assert Sub(Finite(50.0), shift.x) == Finite(50.0) && Sub(Finite(50.0), shift.y) == NaN;
  }

  /** With a NaN height delta a vertical drag shifts y by NaN and x by nothing. */
  lemma UnloadedShift(observed: ImageObserved, pointerStart: FocusPoint.Coordinates, pointer: FocusPoint.Coordinates)
    requires observed == ImageObserved(Finite(0.0), NaN, Some(Vertical))
    ensures ObservedShift(observed, FocusPoint.PointerDelta(Some(pointerStart), pointer)) == Shift(Finite(0.0), NaN)
  {
    AxisPercentOf(pointer.y - pointerStart.y, NaN);
  }

  /**
   * The container's state: the position it shows, the latest observation, the dragging flag
   * and the snapshots taken on pointer down.
   */
  class ImageContainer {
    var objectPosition: string
    var imageObserved: Option<ImageObserved>
    var isDragging: bool
    var objectPositionStart: string
    var pointerPositionStart: Option<FocusPoint.Coordinates>

    /** Both the shown position and its snapshot start from the default position. */
    constructor (defaultObjectPosition: string)
      ensures objectPosition == defaultObjectPosition && objectPositionStart == defaultObjectPosition
      ensures imageObserved == None && !isDragging && pointerPositionStart == None
    {
      objectPosition := defaultObjectPosition;
      imageObserved := None;
      isDragging := false;
      objectPositionStart := defaultObjectPosition;
      pointerPositionStart := None;
    }

    /** One ResizeObserver callback over `entries`, with the image element's natural size if there is one. */
    method Resize(entries: seq<Dimensions>, image: Option<Dimensions>)
      modifies this`imageObserved
      ensures imageObserved == Observed(entries, NaturalSize(image), old(imageObserved))
    {
      var natural := NaturalSize(image);
      for i := 0 to |entries|
        invariant imageObserved == Observed(entries[..i], natural, old(imageObserved))
      {
        assert entries[..i + 1][..i] == entries[..i];
        if !Skipped(entries[i], natural) {
          imageObserved := Some(Observe(entries[i], natural));
        }
      }
      assert entries[..|entries|] == entries;
    }

    /** Pointer down: start dragging and snapshot the shown position and the pointer. */
    method PointerDown(clientX: real, clientY: real)
      modifies this`isDragging, this`objectPositionStart, this`pointerPositionStart
      ensures isDragging && objectPositionStart == objectPosition
      ensures pointerPositionStart == Some(FocusPoint.Coordinates(clientX, clientY))
    {
      isDragging := true;
      objectPositionStart := objectPosition;
      pointerPositionStart := Some(FocusPoint.Coordinates(clientX, clientY));
    }

    /** Pointer move: nothing unless dragging with an observation; otherwise the drag result becomes the shown position. */
    method PointerMove(clientX: real, clientY: real) returns (outcome: FocusPoint.MoveOutcome)
      modifies this`objectPosition
      ensures !isDragging || imageObserved == None ==> outcome == FocusPoint.Ignored
      ensures isDragging && imageObserved.Some? ==>
                outcome == Drag(objectPositionStart, pointerPositionStart, imageObserved.value, FocusPoint.Coordinates(clientX, clientY))
      ensures objectPosition == if outcome.Emitted? then outcome.objectPosition else old(objectPosition)
    {
      if !isDragging || imageObserved == None {
        return FocusPoint.Ignored;
      }
      var pointerDelta := FocusPoint.PointerDelta(pointerPositionStart, FocusPoint.Coordinates(clientX, clientY));
      var shift := ObservedShift(imageObserved.value, pointerDelta);
      var previous := StringToObject(objectPositionStart);
      if previous.TypeError? {
        return FocusPoint.Threw;
      }
      var next := UnpaddedObjectToString(Sub(previous.x, shift.x), Sub(previous.y, shift.y));
      objectPosition := next;
      outcome := FocusPoint.Emitted(next);
    }

    /** Pointer up: stop dragging; the snapshots and the observation stay as they are. */
    method PointerUp()
      modifies this`isDragging
      ensures !isDragging
    {
      isDragging := false;
    }
  }
}
