/**
 * The aspect-ratio slider: a second catalog whose entries carry a position on a logarithmic
 * scale, the hook that merges the image's own ratio into it with a real-valued threshold, and
 * the range input's bounds and change handler.
 *
 * `toLogPosition(value, min, max)` is a logarithm-based helper outside this model; it is a
 * parameter here and nothing is assumed about it. The slider's precision conversions come from
 * AspectRatioSlider/helpers.ts, which is not part of this model; they are taken to be the ones
 * of the `AspectRatio` module.
 */
module AspectRatioSlider {
  import opened Wrappers
  import opened JsNumber
  import opened JsString
  import opened Sequences
  import AspectRatio

  /** A slider entry; only the hook's "original" entry has a precise value. */
  datatype SliderAspectRatio = SliderAspectRatio(name: string, value: Number, position: Number, preciseValue: Option<Number>)

  type LogPosition = (Number, Number, Number) -> Number

  /** The slider's name-to-ratio map, in the order `Object.entries` visits it. */
  const ASPECT_RATIO_MAP: seq<(string, real)> := [
    ("9:16", 9.0 / 16.0), ("4:5", 4.0 / 5.0), ("5:7", 5.0 / 7.0), ("3:4", 3.0 / 4.0),
    ("3:5", 3.0 / 5.0), ("2:3", 2.0 / 3.0), ("1:1", 1.0 / 1.0), ("3:2", 3.0 / 2.0),
    ("5:3", 5.0 / 3.0), ("4:3", 4.0 / 3.0), ("7:5", 7.0 / 5.0), ("5:4", 5.0 / 4.0),
    ("16:9", 16.0 / 9.0), ("4:1", 4.0 / 1.0)
  ]

  /** `ASPECT_RATIO_MAP["9:16"]` and `ASPECT_RATIO_MAP["4:1"]`, the ends of the log scale. */
  const SCALE_MIN: real := 9.0 / 16.0
  const SCALE_MAX: real := 4.0 / 1.0

  /** A map-position difference below which the slider replaces a catalog entry. */
  const POSITION_REPLACEMENT_THRESHOLD: real := 0.01
  const POSITION_SNAP_THRESHOLD: real := POSITION_REPLACEMENT_THRESHOLD / 3.0

  /** How far, as a ratio, a catalog entry must be from the original to be listed beside it. */
  const THRESHOLD: real := 0.01

  /** Each map entry with its position on the log scale. */
  function ToEntries(m: seq<(string, real)>, toLogPosition: LogPosition): seq<SliderAspectRatio> {
    seq(|m|, i requires 0 <= i < |m| => CatalogEntry(m[i].0, m[i].1, toLogPosition))
  }

  /** A catalog entry with a finite ratio, positioned on the scale, without a precise value. */
  function CatalogEntry(name: string, value: real, toLogPosition: LogPosition): SliderAspectRatio {
    SliderAspectRatio(name, Finite(value), toLogPosition(Finite(value), Finite(SCALE_MIN), Finite(SCALE_MAX)), None)
  }

  /** The sort key: the ratio where it is finite (the catalog's always are). */
  function ValueKey(e: SliderAspectRatio): real {
    if e.value.Finite? then e.value.v else 0.0
  }

  /** The slider catalog, sorted by value. */
  function AspectRatioList(toLogPosition: LogPosition): seq<SliderAspectRatio> {
    SortBy(ToEntries(ASPECT_RATIO_MAP, toLogPosition), ValueKey)
  }

  lemma MapEntries(toLogPosition: LogPosition)
    ensures var e := ToEntries(ASPECT_RATIO_MAP, toLogPosition);
            |e| == 14
            && (forall i :: 0 <= i < 14 ==> e[i].name == ASPECT_RATIO_MAP[i].0 && e[i].value == Finite(ASPECT_RATIO_MAP[i].1))
            && (forall i :: 0 <= i < 14 ==> e[i].position == toLogPosition(e[i].value, Finite(SCALE_MIN), Finite(SCALE_MAX)))
            && (forall i :: 0 <= i < 14 ==> e[i].preciseValue.None?)
  {
  }

  /** The slider catalog holds the map's fourteen entries, each positioned on the 9:16 to 4:1 scale, in ascending order. */
  lemma CatalogMembers(toLogPosition: LogPosition)
    ensures var list := AspectRatioList(toLogPosition);
            |list| == 14
            && (forall e :: e in list <==> e in ToEntries(ASPECT_RATIO_MAP, toLogPosition))
            && (forall e :: e in list ==>
                  e.value.Finite? && e.position == toLogPosition(e.value, Finite(SCALE_MIN), Finite(SCALE_MAX)) && e.preciseValue.None?)
            && SortedBy(list, ValueKey)
  {
    var list, entries := AspectRatioList(toLogPosition), ToEntries(ASPECT_RATIO_MAP, toLogPosition);
    MapEntries(toLogPosition);
    forall e | e in list || e in entries
      ensures e in list <==> e in entries
    {
      assert e in list <==> e in multiset(list);
      assert e in entries <==> e in multiset(entries);
    }
  }

  /** 9:16 is the smallest ratio of the map and 4:1 the largest. */
  lemma MapValueRange(toLogPosition: LogPosition, y: SliderAspectRatio)
    requires y in ToEntries(ASPECT_RATIO_MAP, toLogPosition)
    ensures y == ToEntries(ASPECT_RATIO_MAP, toLogPosition)[0] || SCALE_MIN < ValueKey(y)
    ensures y == ToEntries(ASPECT_RATIO_MAP, toLogPosition)[13] || ValueKey(y) < SCALE_MAX
    ensures y.value.Finite? && SCALE_MIN <= ValueKey(y) <= SCALE_MAX
  {
    MapEntries(toLogPosition);
    var i :| 0 <= i < 14 && ToEntries(ASPECT_RATIO_MAP, toLogPosition)[i] == y;
  }

  /** Every slider catalog entry lies on the scale; only its first map entry is at the bottom and only its last at the top. */
  lemma CatalogValueRange(toLogPosition: LogPosition)
    ensures var entries := ToEntries(ASPECT_RATIO_MAP, toLogPosition);
            forall y :: y in AspectRatioList(toLogPosition) ==>
              && (y == entries[0] || SCALE_MIN < ValueKey(y))
              && (y == entries[13] || ValueKey(y) < SCALE_MAX)
              && y.value.Finite? && SCALE_MIN <= ValueKey(y) <= SCALE_MAX
  {
    CatalogMembers(toLogPosition);
    forall y | y in AspectRatioList(toLogPosition)
      ensures y == ToEntries(ASPECT_RATIO_MAP, toLogPosition)[0] || SCALE_MIN < ValueKey(y)
      ensures y == ToEntries(ASPECT_RATIO_MAP, toLogPosition)[13] || ValueKey(y) < SCALE_MAX
      ensures y.value.Finite? && SCALE_MIN <= ValueKey(y) <= SCALE_MAX
    {
      MapValueRange(toLogPosition, y);
    }
  }

  /** The slider catalog runs from 9:16 up to 4:1, the two ends of its own scale. */
  lemma CatalogEnds(toLogPosition: LogPosition)
    ensures var list := AspectRatioList(toLogPosition);
            && list[0] == CatalogEntry("9:16", SCALE_MIN, toLogPosition)
            && list[13] == CatalogEntry("4:1", SCALE_MAX, toLogPosition)
  {
    var list, entries := AspectRatioList(toLogPosition), ToEntries(ASPECT_RATIO_MAP, toLogPosition);
    MapEntries(toLogPosition);
    CatalogMembers(toLogPosition);
    CatalogValueRange(toLogPosition);
    assert entries[0] in list && entries[13] in list;
    SortedFirst(list, ValueKey, entries[0]);
    SortedLast(list, ValueKey, entries[13]);
  }

  /** The position of a name in the slider's map, or -1 for a name it does not hold. */
  function MapPosition(name: string): int {
    if name == "9:16" then 0 else if name == "4:5" then 1 else if name == "5:7" then 2
    else if name == "3:4" then 3 else if name == "3:5" then 4 else if name == "2:3" then 5
    else if name == "1:1" then 6 else if name == "3:2" then 7 else if name == "5:3" then 8
    else if name == "4:3" then 9 else if name == "7:5" then 10 else if name == "5:4" then 11
    else if name == "16:9" then 12 else if name == "4:1" then 13 else -1
  }

  lemma MapNamesDistinct()
    ensures forall i :: 0 <= i < |ASPECT_RATIO_MAP| ==> MapPosition(ASPECT_RATIO_MAP[i].0) == i
  {
  }

  /** No two slider catalog entries share a name. */
  lemma CatalogNames(toLogPosition: LogPosition)
    ensures var list := AspectRatioList(toLogPosition);
            forall i, j :: 0 <= i < |list| && 0 <= j < |list| && i != j ==> list[i].name != list[j].name
  {
    var entries := ToEntries(ASPECT_RATIO_MAP, toLogPosition);
    MapEntries(toLogPosition);
    MapNamesDistinct();
    assert forall i :: 0 <= i < |entries| ==> MapPosition(entries[i].name) == i;
    PermutationDistinctKeys(AspectRatioList(toLogPosition), entries, (e: SliderAspectRatio) => e.name, MapPosition);
  }

  lemma SnapThreshold()
    ensures POSITION_SNAP_THRESHOLD * 3.0 == POSITION_REPLACEMENT_THRESHOLD == 0.01
  {
  }

  /**
   * The entry the hook builds for the image's own ratio, positioned on the catalog's scale. It
   * is kept by the hook's filter unless its ratio is NaN.
   */
  function OriginalEntry(value: Number, minValue: Number, maxValue: Number, toLogPosition: LogPosition): (original: SliderAspectRatio)
    ensures original.name == "original" && original.value == value
    ensures original.position == toLogPosition(value, minValue, maxValue)
    ensures original.preciseValue == Some(AspectRatio.ToPreciseNumber(value))
  {
    SliderAspectRatio("original", value, toLogPosition(value, minValue, maxValue), Some(AspectRatio.ToPreciseNumber(value)))
  }

  /**
   * The hook's filter, in JS comparisons: the original itself, or an entry more than the
   * threshold away from it. Nothing is kept beside a NaN original, and every finite entry is
   * kept beside an infinite one.
   */
  function KeptBeside(n: SliderAspectRatio, original: SliderAspectRatio): (keep: bool)
    ensures original.value.NaN? ==> !keep
    ensures n.value.Finite? && original.value.Finite? ==>
              (keep <==> || (n.name == original.name && n.value == original.value)
                         || ValueKey(n) - ValueKey(original) < -THRESHOLD
                         || ValueKey(n) - ValueKey(original) > THRESHOLD)
    ensures n.value.Finite? && !original.value.Finite? && !original.value.NaN? ==> keep
  {
    || (n.name == original.name && StrictEquals(n.value, original.value))
    || Less(n.value, Sub(original.value, Finite(THRESHOLD)))
    || Greater(n.value, Add(original.value, Finite(THRESHOLD)))
  }

  /**
   * `[...catalog, original].sort((a, b) => a.value - b.value)`. The comparator is consistent for
   * finite ratios, so this is the stable sort by ratio; an infinite original compares above (or
   * below) every finite one and goes to that end. A NaN original makes the comparator
   * inconsistent, and the order is then left to the engine; the filter keeps nothing anyway.
   */
  function SortWithOriginal(catalog: seq<SliderAspectRatio>, original: SliderAspectRatio): seq<SliderAspectRatio> {
    match original.value
    case PosInf => SortBy(catalog, ValueKey) + [original]
    case NegInf => [original] + SortBy(catalog, ValueKey)
    case _ => SortBy(catalog + [original], ValueKey)
  }

  /** The hook's filter as the function value handed to `filter`. */
  function Keep(original: SliderAspectRatio): SliderAspectRatio -> bool {
    n => KeptBeside(n, original)
  }

  /** The sorted list with the original, filtered. */
  function Merge(catalog: seq<SliderAspectRatio>, original: SliderAspectRatio): seq<SliderAspectRatio> {
    Filter(SortWithOriginal(catalog, original), Keep(original))
  }

  /**
   * What the hook promises once an original is merged in: the list holds exactly the entries
   * of the catalog and the original that the filter keeps, adds nothing, and is in ratio order.
   * A finite original is sorted in with the rest, a NaN one leaves nothing at all, and an
   * infinite one stands at the end (or the front) of the sorted catalog entries.
   */
  ghost predicate MergedBeside(r: seq<SliderAspectRatio>, catalog: seq<SliderAspectRatio>, original: SliderAspectRatio) {
    && (forall e :: e in r <==> (e in catalog || e == original) && KeptBeside(e, original))
    && multiset(r) <= multiset(catalog + [original])
    && (original.value.Finite? ==> SortedBy(r, ValueKey))
    && (original.value.NaN? ==> r == [])
    && (original.value == PosInf ==> |r| > 0 && r[|r| - 1] == original && SortedBy(r[..|r| - 1], ValueKey))
    && (original.value == NegInf ==> |r| > 0 && r[0] == original && SortedBy(r[1..], ValueKey))
  }

  /**
   * `useAspectRatioList`: with no original ratio or an empty catalog, the catalog as it is;
   * otherwise the catalog plus an "original" entry, sorted by value, without the catalog entries
   * within the threshold of the original. A ratio of 0 is an original like any other; a NaN
   * ratio lists nothing, and an infinite one is listed at its end of the list.
   */
  function UseAspectRatioList(catalog: seq<SliderAspectRatio>, originalAspectRatioValue: Option<Number>, toLogPosition: LogPosition)
    : (r: seq<SliderAspectRatio>)
    ensures originalAspectRatioValue.None? || catalog == [] ==> r == catalog
    ensures originalAspectRatioValue.Some? && catalog != [] ==>
              MergedBeside(r, catalog, OriginalEntry(originalAspectRatioValue.value, catalog[0].value, catalog[|catalog| - 1].value, toLogPosition))
  {
    if originalAspectRatioValue.None? || catalog == [] then catalog
    else
      var original := OriginalEntry(originalAspectRatioValue.value, catalog[0].value, catalog[|catalog| - 1].value, toLogPosition);
      MergeIsMergedBeside(catalog, original);
      Merge(catalog, original)
  }

  lemma MergeIsMergedBeside(catalog: seq<SliderAspectRatio>, original: SliderAspectRatio)
    ensures MergedBeside(Merge(catalog, original), catalog, original)
  {
    MergeMembers(catalog, original);
    MergeOrder(catalog, original);
    if original.value.NaN? {
      MergeNothing(catalog, original);
    }
  }

  lemma MergeMembers(catalog: seq<SliderAspectRatio>, original: SliderAspectRatio)
    ensures var r := Merge(catalog, original);
            && (forall e :: e in r <==> (e in catalog || e == original) && KeptBeside(e, original))
            && multiset(r) <= multiset(catalog + [original])
  {
    MergeMembership(catalog, original);
  }

  lemma MergeMembership(catalog: seq<SliderAspectRatio>, original: SliderAspectRatio)
    ensures forall e :: e in Merge(catalog, original) <==> (e in catalog || e == original) && KeptBeside(e, original)
  {
    var sorted := SortWithOriginal(catalog, original);
    assert multiset(sorted) == multiset(catalog + [original]);
    forall e ensures e in sorted <==> e in catalog || e == original {
      assert e in sorted <==> e in multiset(sorted);
    }
  }

  /** Beside a NaN original the filter keeps nothing. */
  lemma MergeNothing(catalog: seq<SliderAspectRatio>, original: SliderAspectRatio)
    requires original.value.NaN?
    ensures Merge(catalog, original) == []
  {
    FilterNone(SortWithOriginal(catalog, original), Keep(original));
  }

  lemma MergeOrder(catalog: seq<SliderAspectRatio>, original: SliderAspectRatio)
    ensures var r := Merge(catalog, original);
            && (original.value.Finite? ==> SortedBy(r, ValueKey))
            && (original.value == PosInf ==> |r| > 0 && r[|r| - 1] == original && SortedBy(r[..|r| - 1], ValueKey))
            && (original.value == NegInf ==> |r| > 0 && r[0] == original && SortedBy(r[1..], ValueKey))
  {
    match original.value
    case PosInf => MergeOrderPosInf(catalog, original);
    case NegInf => MergeOrderNegInf(catalog, original);
    case Finite(_) => MergeOrderFinite(catalog, original);
    case NaN =>
  }

  lemma MergeOrderFinite(catalog: seq<SliderAspectRatio>, original: SliderAspectRatio)
    requires original.value.Finite?
    ensures SortedBy(Merge(catalog, original), ValueKey)
  {
    FilterKeepsSorted(SortBy(catalog + [original], ValueKey), Keep(original), ValueKey);
  }

  lemma MergeOrderPosInf(catalog: seq<SliderAspectRatio>, original: SliderAspectRatio)
    requires original.value == PosInf
    ensures var r := Merge(catalog, original);
            |r| > 0 && r[|r| - 1] == original && SortedBy(r[..|r| - 1], ValueKey)
  {
    var sorted := SortBy(catalog, ValueKey);
    OriginalKept(original);
    FilterSnoc(sorted, original, Keep(original));
    FilterKeepsSorted(sorted, Keep(original), ValueKey);
  }

  lemma MergeOrderNegInf(catalog: seq<SliderAspectRatio>, original: SliderAspectRatio)
    requires original.value == NegInf
    ensures var r := Merge(catalog, original);
            |r| > 0 && r[0] == original && SortedBy(r[1..], ValueKey)
  {
    var sorted := SortBy(catalog, ValueKey);
    var s := [original] + sorted;
    OriginalKept(original);
    assert s[0] == original && s[1..] == sorted;
    FilterKeepsSorted(sorted, Keep(original), ValueKey);
  }

  /** An entry is kept beside itself unless its ratio is NaN. */
  lemma OriginalKept(original: SliderAspectRatio)
    ensures KeptBeside(original, original) <==> !original.value.NaN?
  {
  }

  /** Beside a finite original, a finite entry of another name is kept exactly when it is far from it. */
  lemma KeptBesideFinite(e: SliderAspectRatio, original: SliderAspectRatio)
    requires e.value.Finite? && original.value.Finite? && e.name != original.name
    ensures KeptBeside(e, original) <==> e.value.v < original.value.v - THRESHOLD || e.value.v > original.value.v + THRESHOLD
  {
  }

  /** With an original ratio and a non-empty catalog, the hook's list is the merge. */
  lemma HookIsMerge(catalog: seq<SliderAspectRatio>, x: Number, toLogPosition: LogPosition)
    requires catalog != []
    ensures UseAspectRatioList(catalog, Some(x), toLogPosition)
            == Merge(catalog, OriginalEntry(x, catalog[0].value, catalog[|catalog| - 1].value, toLogPosition))
  {
  }

  /**
   * The original is always listed; any other catalog entry is listed exactly when its ratio is
   * more than 0.01 away from the original's.
   */
  lemma OriginalAndFarEntriesKept(catalog: seq<SliderAspectRatio>, v: real, toLogPosition: LogPosition)
    requires catalog != []
    ensures var r := UseAspectRatioList(catalog, Some(Finite(v)), toLogPosition);
            var original := OriginalEntry(Finite(v), catalog[0].value, catalog[|catalog| - 1].value, toLogPosition);
            && original in r
            && (forall e :: e in catalog && e.name != "original" && e.value.Finite? ==>
                  (e in r <==> ValueKey(e) < v - 0.01 || ValueKey(e) > v + 0.01))
  {
    HookIsMerge(catalog, Finite(v), toLogPosition);
    MergeFinite(catalog, OriginalEntry(Finite(v), catalog[0].value, catalog[|catalog| - 1].value, toLogPosition));
  }

  lemma MergeFinite(catalog: seq<SliderAspectRatio>, original: SliderAspectRatio)
    requires original.name == "original" && original.value.Finite?
    ensures var r := Merge(catalog, original);
            && original in r
            && (forall e :: e in catalog && e.name != "original" && e.value.Finite? ==>
                  (e in r <==> ValueKey(e) < original.value.v - 0.01 || ValueKey(e) > original.value.v + 0.01))
  {
    MergeMembership(catalog, original);
    OriginalKept(original);
    forall e | e in catalog && e.name != "original" && e.value.Finite?
      ensures e in Merge(catalog, original) <==> ValueKey(e) < original.value.v - 0.01 || ValueKey(e) > original.value.v + 0.01
    {
      KeptBesideFinite(e, original);
    }
  }

  /** An original below every catalog ratio is listed first. */
  lemma OriginalBelowCatalogFirst(catalog: seq<SliderAspectRatio>, v: real, toLogPosition: LogPosition)
    requires catalog != []
    requires forall e :: e in catalog ==> e.value.Finite? && v < ValueKey(e)
    ensures var r := UseAspectRatioList(catalog, Some(Finite(v)), toLogPosition);
            |r| > 0 && r[0] == OriginalEntry(Finite(v), catalog[0].value, catalog[|catalog| - 1].value, toLogPosition)
  {
    var original := OriginalEntry(Finite(v), catalog[0].value, catalog[|catalog| - 1].value, toLogPosition);
    HookIsMerge(catalog, Finite(v), toLogPosition);
    MergeBelowFirst(catalog, original);
  }

  lemma MergeBelowFirst(catalog: seq<SliderAspectRatio>, original: SliderAspectRatio)
    requires original.value.Finite?
    requires forall e :: e in catalog ==> ValueKey(original) < ValueKey(e)
    ensures var r := Merge(catalog, original);
            |r| > 0 && r[0] == original
  {
    var r := Merge(catalog, original);
    MergeWithin(catalog, original);
    MergeOrderFinite(catalog, original);
    SortedFirst(r, ValueKey, original);
  }

  /** The merge holds the original, unless it is NaN, and nothing from outside the catalog. */
  lemma MergeWithin(catalog: seq<SliderAspectRatio>, original: SliderAspectRatio)
    ensures !original.value.NaN? ==> original in Merge(catalog, original)
    ensures forall e :: e in Merge(catalog, original) ==> e in catalog || e == original
  {
    MergeMembership(catalog, original);
    OriginalKept(original);
  }

  /** A ratio of 0 is listed by the slider's hook, at the front. */
  lemma ZeroOriginal(toLogPosition: LogPosition)
    ensures var r := UseAspectRatioList(AspectRatioList(toLogPosition), Some(Finite(0.0)), toLogPosition);
            |r| > 0 && r[0] == OriginalEntry(Finite(0.0), Finite(SCALE_MIN), Finite(SCALE_MAX), toLogPosition)
  {
    var list := AspectRatioList(toLogPosition);
    CatalogEnds(toLogPosition);
    CatalogMembers(toLogPosition);
    CatalogValueRange(toLogPosition);
    OriginalBelowCatalogFirst(list, 0.0, toLogPosition);
  }

  /** The integer hook, unlike the slider's, treats a ratio of 0 as no ratio at all. */
  lemma ZeroIsNoRatio()
    ensures AspectRatio.UseAspectRatioList(AspectRatio.ASPECT_RATIO_LIST, Some(Finite(0.0))) == AspectRatio.ASPECT_RATIO_LIST
  {
  }

  /**
   * A ratio read before the image has loaded is 0 / 0, NaN: the slider's hook then lists
   * nothing at all, while the integer hook falls back to its whole catalog.
   */
  lemma UnloadedImageRatio(toLogPosition: LogPosition)
    ensures Div(Finite(0.0), Finite(0.0)) == NaN
    ensures UseAspectRatioList(AspectRatioList(toLogPosition), Some(NaN), toLogPosition) == []
    ensures AspectRatio.UseAspectRatioList(AspectRatio.ASPECT_RATIO_LIST, Some(NaN)) == AspectRatio.ASPECT_RATIO_LIST
  {
    CatalogMembers(toLogPosition);
  }

  /**
   * An infinite ratio (a positive width over a zero height) keeps every catalog entry, in
   * ratio order, with the original at the end; a negative infinity puts it first.
   */
  lemma InfiniteOriginalKeepsCatalog(catalog: seq<SliderAspectRatio>, x: Number, toLogPosition: LogPosition)
    requires catalog != [] && forall e :: e in catalog ==> e.value.Finite?
    requires x == PosInf || x == NegInf
    ensures var original := OriginalEntry(x, catalog[0].value, catalog[|catalog| - 1].value, toLogPosition);
            UseAspectRatioList(catalog, Some(x), toLogPosition)
            == if x == PosInf then SortBy(catalog, ValueKey) + [original] else [original] + SortBy(catalog, ValueKey)
  {
    HookIsMerge(catalog, x, toLogPosition);
    MergeKeepsAll(catalog, OriginalEntry(x, catalog[0].value, catalog[|catalog| - 1].value, toLogPosition));
  }

  /** Beside an infinite original every finite entry is kept, so the filter removes nothing. */
  lemma MergeKeepsAll(catalog: seq<SliderAspectRatio>, original: SliderAspectRatio)
    requires forall e :: e in catalog ==> e.value.Finite?
    requires original.name == "original" && (original.value == PosInf || original.value == NegInf)
    ensures Merge(catalog, original) == SortWithOriginal(catalog, original)
  {
    var sorted := SortWithOriginal(catalog, original);
    forall e | e in sorted ensures KeptBeside(e, original) {
      if e != original {
        assert e in multiset(SortBy(catalog, ValueKey));
      }
    }
    FilterAll(sorted, Keep(original));
  }

  /** The range input's bounds, in precise units. */
  datatype SliderRange = SliderRange(minPrecise: Number, maxPrecise: Number)

  /**
   * `toPreciseAspectRatio(aspectRatio ?? 0)`: the precise value of the slider's current ratio,
   * 0 when there is none, and an infinity or NaN carried through.
   */
  function PreciseAspectRatio(aspectRatio: Option<Number>): (p: Number)
    ensures aspectRatio.None? ==> p == Finite(0.0)
    ensures aspectRatio.Some? ==> (p.Finite? <==> aspectRatio.value.Finite?)
    ensures aspectRatio.Some? && aspectRatio.value.Finite? ==> p.v - 0.5 <= aspectRatio.value.v * 100000.0 < p.v + 0.5
    ensures aspectRatio.Some? && !aspectRatio.value.Finite? ==> p == aspectRatio.value
  {
    AspectRatio.ToPreciseNumber(aspectRatio.GetOr(Finite(0.0)))
  }

  /**
   * `catalog.at(0)?.preciseValue ?? 0` and `catalog.at(-1)?.preciseValue ?? 0`: the precise
   * value of an end entry, or 0 when the catalog is empty or the entry has none.
   */
  function EndPrecise(catalog: seq<SliderAspectRatio>, last: bool): (p: Number)
    ensures catalog == [] ==> p == Finite(0.0)
    ensures catalog != [] && !last ==> p == catalog[0].preciseValue.GetOr(Finite(0.0))
    ensures catalog != [] && last ==> p == catalog[|catalog| - 1].preciseValue.GetOr(Finite(0.0))
  {
    if catalog == [] then Finite(0.0)
    else (if last then catalog[|catalog| - 1] else catalog[0]).preciseValue.GetOr(Finite(0.0))
  }

  /**
   * `minPrecise`/`maxPrecise`: the slider reaches from the lower of the current value and the
   * first catalog entry's precise value to the higher of the current value and the last one's.
   * `Math.min` and `Math.max` make a bound NaN as soon as one of their arguments is.
   */
  function Range(aspectRatio: Option<Number>, catalog: seq<SliderAspectRatio>): (range: SliderRange)
    ensures var p, lo, hi := PreciseAspectRatio(aspectRatio), EndPrecise(catalog, false), EndPrecise(catalog, true);
            && (range.minPrecise.NaN? <==> p.NaN? || lo.NaN?)
            && (range.maxPrecise.NaN? <==> p.NaN? || hi.NaN?)
            && (!p.NaN? && !lo.NaN? ==> !Less(p, range.minPrecise) && !Less(lo, range.minPrecise)
                                        && (range.minPrecise == p || range.minPrecise == lo))
            && (!p.NaN? && !hi.NaN? ==> !Less(range.maxPrecise, p) && !Less(range.maxPrecise, hi)
                                        && (range.maxPrecise == p || range.maxPrecise == hi))
  {
    SliderRange(Min(PreciseAspectRatio(aspectRatio), EndPrecise(catalog, false)), Max(PreciseAspectRatio(aspectRatio), EndPrecise(catalog, true)))
  }

  /**
   * The slider catalog has no precise values, so the range always reaches 0: a finite current
   * value stretches it to that value, an infinite one to that infinity, and NaN makes both
   * bounds NaN.
   */
  lemma RangeOfCatalog(aspectRatio: Option<Number>, toLogPosition: LogPosition)
    ensures var p, range := PreciseAspectRatio(aspectRatio), Range(aspectRatio, AspectRatioList(toLogPosition));
            && (p.Finite? ==> range == SliderRange(Finite(if p.v <= 0.0 then p.v else 0.0), Finite(if p.v >= 0.0 then p.v else 0.0)))
            && (p == PosInf ==> range == SliderRange(Finite(0.0), PosInf))
            && (p == NegInf ==> range == SliderRange(NegInf, Finite(0.0)))
            && (p.NaN? ==> range.minPrecise.NaN? && range.maxPrecise.NaN?)
  {
    CatalogMembers(toLogPosition);
    var list := AspectRatioList(toLogPosition);
    assert list[0] in list && list[13] in list;
  }

  /**
   * `handleChange`: the input's text read as a base-10 integer and turned back into a ratio;
   * text that is not a number gives NaN.
   */
  function HandleChange(value: string): (aspectRatio: Number)
    ensures aspectRatio.Finite? <==> ParseInt(value).Some?
    ensures aspectRatio.Finite? ==> AspectRatio.ToPreciseAspectRatio(aspectRatio.v) == ParseInt(value).value
    ensures aspectRatio != PosInf && aspectRatio != NegInf
  {
    match ParseInt(value)
    case None => NaN
    case Some(n) =>
      AspectRatio.PreciseRoundTrip(n);
      Finite(AspectRatio.ToAspectRatio(n as real))
  }

  /** The value the range input reports for a precise value comes back as the ratio it stands for. */
  lemma HandleChangeRoundTrip(aspectRatio: real)
    ensures var p := AspectRatio.ToPreciseAspectRatio(aspectRatio);
            HandleChange(IntToString(p)) == Finite(AspectRatio.ToAspectRatio(p as real))
  {
    ParseIntOfIntToString(AspectRatio.ToPreciseAspectRatio(aspectRatio));
  }
}
