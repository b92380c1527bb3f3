/**
 * The PointMarker: a handle dragged over the image. While dragging, the pointer's place in
 * the parent rectangle becomes the new focal point, whatever the previous one was.
 */
module PointMarker {
  import opened Wrappers
  import opened JsNumber
  import opened JsString
  import opened Helpers
  import opened ContainScale
  import opened ObjectPosition

  /** `parent.getBoundingClientRect()`: a position and a size. */
  datatype Rect = Rect(left: real, top: real, width: Length, height: Length)

  /**
   * `clamp((offset / extent) * 100, 0, 100)` in JS numbers: a zero extent divides by zero,
   * giving an infinity that the clamp pins to a bound, or NaN for 0 / 0.
   */
  function AxisPercent(offset: real, extent: Length): (p: Number)
    ensures extent > 0.0 ==> p.Finite?
    ensures extent == 0.0 ==> p == if offset > 0.0 then Finite(100.0) else if offset < 0.0 then Finite(0.0) else NaN
    ensures p == NaN || (p.Finite? && 0.0 <= p.v <= 100.0)
  {
    ClampNumber(Mul(Div(Finite(offset), Finite(extent)), Finite(100.0)), 0.0, 100.0)
  }

  /**
   * The string a move emits for a pointer at (clientX, clientY) over `parent`. It parses back
   * to the two percentages, clamped and rounded; with AxisCanonical, over a parent of positive
   * size these are the pointer's place in the parent.
   */
  function MarkerPosition(parent: Rect, clientX: real, clientY: real): (s: string)
    ensures StringToObject(s)
            == Parsed(Canonical(AxisPercent(clientX - parent.left, parent.width)), Canonical(AxisPercent(clientY - parent.top, parent.height)))
  {
    RoundTrip(AxisPercent(clientX - parent.left, parent.width), AxisPercent(clientY - parent.top, parent.height));
    ObjectToString(AxisPercent(clientX - parent.left, parent.width), AxisPercent(clientY - parent.top, parent.height))
  }

  /** Over a positive extent the percentage is the clamped ratio. */
  lemma AxisPercentOfPositive(offset: real, extent: Length)
    requires extent > 0.0
    ensures AxisPercent(offset, extent) == Finite(Clamp(offset / extent * 100.0, 0.0, 100.0))
  {
  }

  /** Over a positive extent the coordinate the parser reads back is the clamped ratio rounded to hundredths. */
  lemma AxisCanonical(offset: real, extent: Length)
    requires extent > 0.0
    ensures Canonical(AxisPercent(offset, extent)) == Finite(RoundWithTwoDecimals(Clamp(offset / extent * 100.0, 0.0, 100.0)))
  {
    var p := Clamp(offset / extent * 100.0, 0.0, 100.0);
    AxisPercentOfPositive(offset, extent);
    CanonicalIsClampedRounded(p);
    ClampIdempotent(offset / extent * 100.0, 0.0, 100.0);
  }

  /** A pointer outside a positive-size parent lands on the parent's edge. */
  lemma OutsideClampsToEdge(parent: Rect, clientX: real, clientY: real)
    requires parent.width > 0.0 && parent.height > 0.0
    ensures clientX <= parent.left ==> AxisPercent(clientX - parent.left, parent.width) == Finite(0.0)
    ensures clientX >= parent.left + parent.width ==> AxisPercent(clientX - parent.left, parent.width) == Finite(100.0)
  {
    var x := clientX - parent.left;
    AxisPercentOfPositive(x, parent.width);
    PercentageBounds(x, parent.width);
    assert ToPercentage(x, parent.width) == x / parent.width * 100.0;
  }

  /** A pointer at (150, 100) over a 200 by 100 parent at (100, 50) is a quarter across and half down. */
  lemma MarkerExample(parent: Rect, clientX: real, clientY: real)
    requires parent == Rect(100.0, 50.0, 200.0, 100.0) && clientX == 150.0 && clientY == 100.0
    ensures MarkerPosition(parent, clientX, clientY) == "25% 50%"
  {
    AxisExamples();
    assert clientX - parent.left == 50.0 && clientY - parent.top == 50.0;
    MarkerEncodes(parent, clientX, clientY);
    WholeTokens();
    EncodedTokens(Finite(25.0), Finite(50.0), "25", "50");
  }

  /** A pointer left of and below the same parent lands on its left and bottom edges. */
  lemma MarkerEdgeExample(parent: Rect, clientX: real, clientY: real)
    requires parent == Rect(100.0, 50.0, 200.0, 100.0) && clientX == 0.0 && clientY == 400.0
    ensures MarkerPosition(parent, clientX, clientY) == "0% 100%"
  {
    AxisExamples();
    assert clientX - parent.left == -100.0 && clientY - parent.top == 350.0;
    MarkerEncodes(parent, clientX, clientY);
    WholeTokens();
    EncodedTokens(Finite(0.0), Finite(100.0), "0", "100");
  }

  /** The percentages of the two examples. */
  lemma AxisExamples()
    ensures AxisPercent(50.0, 200.0) == Finite(25.0) && AxisPercent(50.0, 100.0) == Finite(50.0)
    ensures AxisPercent(-100.0, 200.0) == Finite(0.0) && AxisPercent(350.0, 100.0) == Finite(100.0)
  {
    AxisPercentOfPositive(50.0, 200.0);
    AxisPercentOfPositive(50.0, 100.0);
    AxisPercentOfPositive(-100.0, 200.0);
    AxisPercentOfPositive(350.0, 100.0);
  }

  /** The marker's string is the padded encoding of the two percentages. */
  lemma MarkerEncodes(parent: Rect, clientX: real, clientY: real)
    ensures MarkerPosition(parent, clientX, clientY)
            == ObjectToString(AxisPercent(clientX - parent.left, parent.width), AxisPercent(clientY - parent.top, parent.height))
  {
  }

  /** The marker's only state: whether a drag is in progress. */
  class PointMarker {
    var isDragging: bool

    constructor ()
      ensures !isDragging
    {
      isDragging := false;
    }

    method PointerDown()
      modifies this
      ensures isDragging
    {
      isDragging := true;
    }

    /**
     * A move with the wrapper element mounted or not, and with its parent element's rectangle
     * if it has one. `prevented` says whether the event's default was prevented.
     */
    method PointerMove(wrapperMounted: bool, parent: Option<Rect>, clientX: real, clientY: real)
      returns (prevented: bool, emitted: Option<string>)
      ensures prevented <==> isDragging && wrapperMounted
      ensures emitted.Some? <==> prevented && parent.Some?
      ensures emitted.Some? ==> emitted.value == MarkerPosition(parent.value, clientX, clientY)
    {
      if !isDragging || !wrapperMounted {
        return false, None;
      }
      prevented := true;
      if parent.None? {
        return prevented, None;
      }
      emitted := Some(MarkerPosition(parent.value, clientX, clientY));
    }

    method PointerUp()
      modifies this
      ensures !isDragging
    {
      isDragging := false;
    }

    method PointerCancel()
      modifies this
      ensures !isDragging
    {
      isDragging := false;
    }
  }
}
