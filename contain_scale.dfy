/**
 * `scaleDimensionsToContainRect`: scale a source size so that it just covers a box. One side
 * is pinned to the box, the other follows the source's aspect ratio. The FocusPointEditor
 * and ImageContainer copies of the helper are the same code and share this model.
 */
module ContainScale {
  import opened JsNumber
  import opened Helpers

  /** A width or height as the DOM reports it: never negative. */
  type Length = r: real | r >= 0.0

  datatype Dimensions = Dimensions(width: Length, height: Length)

  /** `width / height` as JS computes it: an infinity for a zero height, NaN for 0/0. */
  function AspectRatio(d: Dimensions): Number {
    Div(Finite(d.width), Finite(d.height))
  }

  function ScaleDimensionsToContainRect(source: Dimensions, rect: Dimensions): (r: Dimensions)
    ensures Greater(AspectRatio(source), AspectRatio(rect)) ==> r.height == rect.height
    ensures !Greater(AspectRatio(source), AspectRatio(rect)) ==> r.width == rect.width
    ensures r.width == rect.width || r.height == rect.height
  {
    if Greater(AspectRatio(source), AspectRatio(rect)) then
      Dimensions(if source.height > 0.0 then (rect.height * source.width) / source.height else 0.0, rect.height)
    else
      Dimensions(rect.width, if source.width > 0.0 then (rect.width * source.height) / source.width else 0.0)
  }

  /** With a positive box and a positive source height, the JS ratio comparison is a cross-multiplication. */
  lemma RatioComparison(source: Dimensions, rect: Dimensions)
    requires source.height > 0.0 && rect.height > 0.0
    ensures Greater(AspectRatio(source), AspectRatio(rect)) <==> source.width * rect.height > rect.width * source.height
  {
    var s, t := source.width / source.height, rect.width / rect.height;
    assert s * source.height == source.width;
    assert t * rect.height == rect.width;
    assert source.width * rect.height == s * (source.height * rect.height);
    assert rect.width * source.height == t * (source.height * rect.height);
    assert source.height * rect.height > 0.0;
    if s > t {
      assert s * (source.height * rect.height) > t * (source.height * rect.height);
    } else {
      assert s * (source.height * rect.height) <= t * (source.height * rect.height);
    }
  }

  /** For a positive box the JS ratio comparison agrees with cross-multiplication in every case, zero sources included. */
  lemma {:induction false} CrossMultiplication(source: Dimensions, rect: Dimensions)
    requires rect.width > 0.0 && rect.height > 0.0
    ensures Greater(AspectRatio(source), AspectRatio(rect)) <==> source.width * rect.height > rect.width * source.height
  {
    if source.height > 0.0 {
      RatioComparison(source, rect);
    }
  }

  /** The two branches written out: which side is pinned and how the other follows the source. */
  lemma Branches(source: Dimensions, rect: Dimensions)
    requires rect.width > 0.0 && rect.height > 0.0
    ensures source.width * rect.height > rect.width * source.height ==>
              ScaleDimensionsToContainRect(source, rect)
              == Dimensions(if source.height > 0.0 then rect.height * source.width / source.height else 0.0, rect.height)
    ensures source.width * rect.height <= rect.width * source.height ==>
              ScaleDimensionsToContainRect(source, rect)
              == Dimensions(rect.width, if source.width > 0.0 then rect.width * source.height / source.width else 0.0)
  {
    CrossMultiplication(source, rect);
  }

  /** Pinned to the box's height, the width follows the source and is at least the box's. */
  lemma ContainsRectByHeight(source: Dimensions, rect: Dimensions)
    requires source.width > 0.0 && source.height > 0.0
    requires Greater(AspectRatio(source), AspectRatio(rect))
    ensures var r := ScaleDimensionsToContainRect(source, rect);
            r.width >= rect.width && r.height == rect.height && r.width * source.height == r.height * source.width
  {
    var w := rect.height * source.width / source.height;
    assert w * source.height == rect.height * source.width;
    if rect.height > 0.0 {
      RatioComparison(source, rect);
      ScaleOrder(w, rect.width, source.height);
    }
  }

  /** Pinned to the box's width, the height follows the source and is at least the box's. */
  lemma ContainsRectByWidth(source: Dimensions, rect: Dimensions)
    requires source.width > 0.0 && source.height > 0.0
    requires !Greater(AspectRatio(source), AspectRatio(rect))
    ensures var r := ScaleDimensionsToContainRect(source, rect);
            r.width == rect.width && r.height >= rect.height && r.width * source.height == r.height * source.width
  {
    var h := rect.width * source.height / source.width;
    assert h * source.width == rect.width * source.height;
    if rect.height > 0.0 {
      RatioComparison(source, rect);
      assert rect.height * source.width == source.width * rect.height;
      ScaleOrder(h, rect.height, source.width);
    }
  }

  /**
   * For a positive source the result covers the box and keeps the source's aspect ratio,
   * whatever the box (a zero-sized box side included).
   */
  lemma ContainsRect(source: Dimensions, rect: Dimensions)
    requires source.width > 0.0 && source.height > 0.0
    ensures var r := ScaleDimensionsToContainRect(source, rect);
            r.width >= rect.width && r.height >= rect.height && r.width * source.height == r.height * source.width
  {
    if Greater(AspectRatio(source), AspectRatio(rect)) {
      ContainsRectByHeight(source, rect);
    } else {
      ContainsRectByWidth(source, rect);
    }
  }

  /** A source wider than the box overhangs it in width only. */
  lemma OverhangWide(source: Dimensions, rect: Dimensions)
    requires source.width > 0.0 && source.height > 0.0 && rect.width > 0.0 && rect.height > 0.0
    requires source.width * rect.height > rect.width * source.height
    ensures ScaleDimensionsToContainRect(source, rect).width > rect.width
    ensures ScaleDimensionsToContainRect(source, rect).height == rect.height
  {
    Branches(source, rect);
    var w := rect.height * source.width / source.height;
    assert w * source.height == source.width * rect.height;
    ScaleOrder(w, rect.width, source.height);
  }

  /** A source no wider than the box keeps its width and overhangs it in height exactly when it is taller. */
  lemma OverhangTall(source: Dimensions, rect: Dimensions)
    requires source.width > 0.0 && source.height > 0.0 && rect.width > 0.0 && rect.height > 0.0
    requires source.width * rect.height <= rect.width * source.height
    ensures ScaleDimensionsToContainRect(source, rect).width == rect.width
    ensures ScaleDimensionsToContainRect(source, rect).height > rect.height <==> source.width * rect.height < rect.width * source.height
  {
    Branches(source, rect);
    var h := rect.width * source.height / source.width;
    assert h * source.width == rect.width * source.height;
    assert rect.height * source.width == source.width * rect.height;
    ScaleOrder(h, rect.height, source.width);
  }

  /** For positive sizes, the scaled image overhangs the box in width exactly when it is wider, in height exactly when it is taller. */
  lemma Overhang(source: Dimensions, rect: Dimensions)
    requires source.width > 0.0 && source.height > 0.0 && rect.width > 0.0 && rect.height > 0.0
    ensures ScaleDimensionsToContainRect(source, rect).width > rect.width <==> source.width * rect.height > rect.width * source.height
    ensures ScaleDimensionsToContainRect(source, rect).height > rect.height <==> source.width * rect.height < rect.width * source.height
  {
    if source.width * rect.height > rect.width * source.height {
      OverhangWide(source, rect);
    } else {
      OverhangTall(source, rect);
    }
  }

  /** A side proportional to a pinned side that fits under a scaling fits under the same scaling. */
  lemma ProportionalBound(x: real, pinned: real, s1: real, s2: real, k: real)
    requires s1 > 0.0 && s2 > 0.0 && x * s1 == pinned * s2 && pinned <= k * s1
    ensures x <= k * s2
  {
    assert pinned * s2 <= (k * s1) * s2;
    assert (k * s1) * s2 == (k * s2) * s1;
    ScaleOrder(x, k * s2, s1);
  }

  /** The result is the smallest scaling of the source that covers the box. */
  lemma ContainIsSmallest(source: Dimensions, rect: Dimensions, k: real)
    requires source.width > 0.0 && source.height > 0.0
    requires k * source.width >= rect.width && k * source.height >= rect.height
    ensures var r := ScaleDimensionsToContainRect(source, rect);
            r.width <= k * source.width && r.height <= k * source.height
  {
    var r := ScaleDimensionsToContainRect(source, rect);
    ContainsRect(source, rect);
    if r.height == rect.height {
      ProportionalBound(r.width, rect.height, source.height, source.width, k);
    } else {
      ProportionalBound(r.height, rect.width, source.width, source.height, k);
    }
  }

  /** A zero source height pins the height and collapses the width; a zero source width does the reverse. */
  lemma ZeroSource(source: Dimensions, rect: Dimensions)
    requires rect.width > 0.0 && rect.height > 0.0
    ensures source.height == 0.0 && source.width > 0.0 ==>
              ScaleDimensionsToContainRect(source, rect) == Dimensions(0.0, rect.height)
    ensures source.width == 0.0 ==>
              ScaleDimensionsToContainRect(source, rect) == Dimensions(rect.width, 0.0)
  {
    Branches(source, rect);
  }

  lemma ScaleExamples()
    ensures ScaleDimensionsToContainRect(Dimensions(800.0, 600.0), Dimensions(400.0, 400.0)) == Dimensions(1600.0 / 3.0, 400.0)
    ensures ScaleDimensionsToContainRect(Dimensions(400.0, 400.0), Dimensions(800.0, 600.0)) == Dimensions(800.0, 800.0)
    ensures ScaleDimensionsToContainRect(Dimensions(100.0, 0.0), Dimensions(50.0, 50.0)) == Dimensions(0.0, 50.0)
    ensures ScaleDimensionsToContainRect(Dimensions(0.0, 100.0), Dimensions(50.0, 50.0)) == Dimensions(50.0, 0.0)
  {
    Branches(Dimensions(800.0, 600.0), Dimensions(400.0, 400.0));
    Branches(Dimensions(400.0, 400.0), Dimensions(800.0, 600.0));
    ZeroSource(Dimensions(100.0, 0.0), Dimensions(50.0, 50.0));
    ZeroSource(Dimensions(0.0, 100.0), Dimensions(50.0, 50.0));
  }
}
