/**
 * The aspect-ratio picker's integer precision, its catalog of common ratios and the hook
 * that merges the image's own ratio into that catalog.
 */
module AspectRatio {
  import opened Wrappers
  import opened JsNumber
  import opened Sequences

  /** Ratios are compared as integers: the ratio times this factor, rounded. */
  const ASPECT_RATIO_PRECISION: int := 100000

  /** `Math.round(aspectRatio * 100000)`: the integer nearest to the scaled ratio, halves rounded up. */
  function ToPreciseAspectRatio(aspectRatio: real): (p: int)
    ensures p as real - 0.5 <= aspectRatio * 100000.0 < p as real + 0.5
  {
    (aspectRatio * ASPECT_RATIO_PRECISION as real + 0.5).Floor
  }

  /** `preciseAspectRatio / 100000` */
  function ToAspectRatio(preciseAspectRatio: real): (r: real)
    ensures r * 100000.0 == preciseAspectRatio
  {
    preciseAspectRatio / ASPECT_RATIO_PRECISION as real
  }

  lemma PrecisionExamples()
    ensures ToPreciseAspectRatio(1.0) == 100000
    ensures ToAspectRatio(0.0) == 0.0
    ensures ToAspectRatio(100000.0) == 1.0
    ensures ToPreciseAspectRatio(1.5) == 150000
  {
  }

  /** An integer precise value survives the trip to a ratio and back. */
  lemma PreciseRoundTrip(n: int)
    ensures ToPreciseAspectRatio(ToAspectRatio(n as real)) == n
  {
    var r := ToAspectRatio(n as real);
    assert r * 100000.0 == n as real;
  }

  /** A ratio comes back from its precise value within half a precision step. */
  lemma RatioRoundTrip(r: real)
    ensures -1.0 / 200000.0 < ToAspectRatio(ToPreciseAspectRatio(r) as real) - r <= 1.0 / 200000.0
  {
    var p := ToPreciseAspectRatio(r);
    var back := ToAspectRatio(p as real);
    assert back * 100000.0 == p as real;
    assert (back - r) * 100000.0 == p as real - r * 100000.0;
  }

  lemma PreciseMonotone(a: real, b: real)
    requires a <= b
    ensures ToPreciseAspectRatio(a) <= ToPreciseAspectRatio(b)
  {
    var pa, pb := ToPreciseAspectRatio(a), ToPreciseAspectRatio(b);
    assert a * 100000.0 <= b * 100000.0;
  }

  /**
   * `Math.round(aspectRatio * 100000)` on a JS number: a finite ratio gives the integer of
   * `ToPreciseAspectRatio`, and an infinity or NaN comes through unchanged.
   */
  function ToPreciseNumber(aspectRatio: Number): (p: Number)
    ensures p.Finite? <==> aspectRatio.Finite?
    ensures aspectRatio.Finite? ==> p.v == ToPreciseAspectRatio(aspectRatio.v) as real
    ensures !aspectRatio.Finite? ==> p == aspectRatio
  {
    match Mul(aspectRatio, Finite(ASPECT_RATIO_PRECISION as real))
    case Finite(x) => Finite((x + 0.5).Floor as real)
    case other => other
  }

  /** A catalog entry: its name, its ratio and the ratio's precise value. */
  datatype AspectRatioEntry = AspectRatioEntry(name: string, value: Number, preciseValue: Number)

  /** An entry with a finite ratio and a finite precise value. */
  function Entry(name: string, value: real, preciseValue: int): AspectRatioEntry {
    AspectRatioEntry(name, Finite(value), Finite(preciseValue as real))
  }

  /** The catalog's name-to-ratio map, in the order `Object.entries` visits it. */
  const ASPECT_RATIO_MAP: seq<(string, real)> := [
    ("9:16", 9.0 / 16.0), ("4:5", 4.0 / 5.0), ("5:7", 5.0 / 7.0), ("3:4", 3.0 / 4.0),
    ("3:5", 3.0 / 5.0), ("2:3", 2.0 / 3.0), ("1:1", 1.0 / 1.0), ("3:2", 3.0 / 2.0),
    ("5:3", 5.0 / 3.0), ("4:3", 4.0 / 3.0), ("7:5", 7.0 / 5.0), ("5:4", 5.0 / 4.0),
    ("16:9", 16.0 / 9.0)
  ]

  /** Each map entry with its precise value. */
  function ToEntries(m: seq<(string, real)>): seq<AspectRatioEntry> {
    seq(|m|, i requires 0 <= i < |m| => Entry(m[i].0, m[i].1, ToPreciseAspectRatio(m[i].1)))
  }

  /** The sort key: the precise value where it is finite (the catalog's always are). */
  function PreciseKey(e: AspectRatioEntry): real {
    if e.preciseValue.Finite? then e.preciseValue.v else 0.0
  }

  /** The catalog, sorted by precise value. */
  const ASPECT_RATIO_LIST: seq<AspectRatioEntry> := SortBy(ToEntries(ASPECT_RATIO_MAP), PreciseKey)

  lemma CatalogEntries()
    ensures ToEntries(ASPECT_RATIO_MAP) == [
      Entry("9:16", 9.0 / 16.0, 56250), Entry("4:5", 4.0 / 5.0, 80000),
      Entry("5:7", 5.0 / 7.0, 71429), Entry("3:4", 3.0 / 4.0, 75000),
      Entry("3:5", 3.0 / 5.0, 60000), Entry("2:3", 2.0 / 3.0, 66667),
      Entry("1:1", 1.0, 100000), Entry("3:2", 3.0 / 2.0, 150000),
      Entry("5:3", 5.0 / 3.0, 166667), Entry("4:3", 4.0 / 3.0, 133333),
      Entry("7:5", 7.0 / 5.0, 140000), Entry("5:4", 5.0 / 4.0, 125000),
      Entry("16:9", 16.0 / 9.0, 177778)
    ]
  {
  }

  /** Entries with different contents have different names. */
  ghost predicate DistinctNames(s: seq<AspectRatioEntry>) {
    forall i, j :: 0 <= i < |s| && 0 <= j < |s| && i != j ==> s[i].name != s[j].name
  }

  /** The sorted catalog holds the map's thirteen entries, each with its own precise value, in ascending order. */
  lemma CatalogMembers()
    ensures |ASPECT_RATIO_LIST| == 13
    ensures forall e :: e in ASPECT_RATIO_LIST <==> e in ToEntries(ASPECT_RATIO_MAP)
    ensures forall e :: e in ASPECT_RATIO_LIST ==> e.value.Finite? && e.preciseValue == ToPreciseNumber(e.value)
    ensures SortedBy(ASPECT_RATIO_LIST, PreciseKey)
  {
    CatalogSameEntries();
  }

  lemma CatalogSameEntries()
    ensures forall e :: e in ASPECT_RATIO_LIST <==> e in ToEntries(ASPECT_RATIO_MAP)
  {
    var entries := ToEntries(ASPECT_RATIO_MAP);
    forall e | e in ASPECT_RATIO_LIST || e in entries
      ensures e in ASPECT_RATIO_LIST <==> e in entries
    {
      assert e in ASPECT_RATIO_LIST <==> e in multiset(ASPECT_RATIO_LIST);
      assert e in entries <==> e in multiset(entries);
    }
  }

  /** 9:16 has the smallest precise value in the map and 16:9 the largest. */
  lemma CatalogKeyRange(y: AspectRatioEntry)
    requires y in ToEntries(ASPECT_RATIO_MAP)
    ensures y == Entry("9:16", 9.0 / 16.0, 56250) || 56250.0 < PreciseKey(y)
    ensures y == Entry("16:9", 16.0 / 9.0, 177778) || PreciseKey(y) < 177778.0
  {
    CatalogEntries();
  }

  /** A sorted permutation of entries starts at the one with the least key and ends at the one with the greatest. */
  lemma SortedEnds(list: seq<AspectRatioEntry>, entries: seq<AspectRatioEntry>, first: AspectRatioEntry, last: AspectRatioEntry)
    requires SortedBy(list, PreciseKey) && multiset(list) == multiset(entries)
    requires first in entries && last in entries
    requires forall y :: y in entries ==> (y == first || PreciseKey(first) < PreciseKey(y))
    requires forall y :: y in entries ==> (y == last || PreciseKey(y) < PreciseKey(last))
    ensures |list| > 0 && list[0] == first && list[|list| - 1] == last
  {
    assert first in multiset(list) && last in multiset(list);
    forall y | y in list ensures y in entries {
      assert y in multiset(entries);
    }
    SortedFirst(list, PreciseKey, first);
    SortedLast(list, PreciseKey, last);
  }

  /** The catalog runs from 9:16 up to 16:9. */
  lemma CatalogEnds()
    ensures ASPECT_RATIO_LIST[0] == Entry("9:16", 9.0 / 16.0, 56250)
    ensures ASPECT_RATIO_LIST[12] == Entry("16:9", 16.0 / 9.0, 177778)
  {
    var first, last := Entry("9:16", 9.0 / 16.0, 56250), Entry("16:9", 16.0 / 9.0, 177778);
    var entries := ToEntries(ASPECT_RATIO_MAP);
    CatalogMembers();
    CatalogEntries();
    forall y | y in entries
      ensures y == first || PreciseKey(first) < PreciseKey(y)
      ensures y == last || PreciseKey(y) < PreciseKey(last)
    {
      CatalogKeyRange(y);
    }
    SortedEnds(ASPECT_RATIO_LIST, entries, first, last);
  }

  /** The position of a name in the map, or -1 for a name it does not hold. */
  function MapPosition(name: string): int {
    if name == "9:16" then 0 else if name == "4:5" then 1 else if name == "5:7" then 2
    else if name == "3:4" then 3 else if name == "3:5" then 4 else if name == "2:3" then 5
    else if name == "1:1" then 6 else if name == "3:2" then 7 else if name == "5:3" then 8
    else if name == "4:3" then 9 else if name == "7:5" then 10 else if name == "5:4" then 11
    else if name == "16:9" then 12 else -1
  }

  /** Each name of the map is found at its own position, so no name occurs twice. */
  lemma MapNamesDistinct()
    ensures forall i :: 0 <= i < |ASPECT_RATIO_MAP| ==> MapPosition(ASPECT_RATIO_MAP[i].0) == i
  {
  }

  /** No two catalog entries share a name. */
  lemma CatalogNames()
    ensures DistinctNames(ASPECT_RATIO_LIST)
  {
    MapNamesDistinct();
    PermutationDistinctKeys(ASPECT_RATIO_LIST, ToEntries(ASPECT_RATIO_MAP), (e: AspectRatioEntry) => e.name, MapPosition);
  }

  /** How far, in precise units, a catalog entry must be from the original ratio to be listed beside it. */
  const ORIGINAL_THRESHOLD: int := 250

  /**
   * The entry the hook builds for the image's own ratio. It is kept by the hook's filter unless
   * its ratio is NaN, and its precise value is finite exactly when the ratio is.
   */
  function OriginalEntry(value: Number): (original: AspectRatioEntry)
    ensures original.name == "original" && original.value == value
    ensures original.preciseValue.Finite? <==> value.Finite?
    ensures value.Finite? ==> original.preciseValue.v - 0.5 <= value.v * 100000.0 < original.preciseValue.v + 0.5
    ensures KeptBeside(original, original) <==> !value.NaN?
  {
    AspectRatioEntry("original", value, ToPreciseNumber(value))
  }

  /**
   * The hook's filter, in JS comparisons: the original itself, or an entry more than the
   * threshold away from it. Nothing is kept beside a NaN original, and every finite entry is
   * kept beside an infinite one.
   */
  function KeptBeside(n: AspectRatioEntry, original: AspectRatioEntry): (keep: bool)
    ensures original.preciseValue.NaN? ==> !keep
    ensures n.preciseValue.Finite? && original.preciseValue.Finite? ==>
              (keep <==> || (n.name == original.name && n.preciseValue == original.preciseValue)
                         || PreciseKey(n) - PreciseKey(original) < -250.0
                         || PreciseKey(n) - PreciseKey(original) > 250.0)
    ensures n.preciseValue.Finite? && !original.preciseValue.Finite? && !original.preciseValue.NaN? ==> keep
  {
    || (n.name == original.name && StrictEquals(n.preciseValue, original.preciseValue))
    || Less(n.preciseValue, Sub(original.preciseValue, Finite(ORIGINAL_THRESHOLD as real)))
    || Greater(n.preciseValue, Add(original.preciseValue, Finite(ORIGINAL_THRESHOLD as real)))
  }

  /**
   * `[...catalog, original].sort((a, b) => a.preciseValue - b.preciseValue)`. The comparator is
   * consistent for finite precise values, so this is the stable sort by precise value; an
   * infinite original compares above (or below) every finite one and goes to that end.
   */
  function SortWithOriginal(catalog: seq<AspectRatioEntry>, original: AspectRatioEntry): seq<AspectRatioEntry> {
    match original.preciseValue
    case PosInf => SortBy(catalog, PreciseKey) + [original]
    case NegInf => [original] + SortBy(catalog, PreciseKey)
    case _ => SortBy(catalog + [original], PreciseKey)
  }

  /** The ratio is missing, 0 or NaN: `!originalAspectRatioValue` holds. */
  predicate NoRatio(originalAspectRatioValue: Option<Number>) {
    originalAspectRatioValue.None? || Falsy(originalAspectRatioValue.value)
  }

  /**
   * `useAspectRatioList`: with no original ratio (or a falsy 0 or NaN) the catalog as it is;
   * otherwise the catalog plus an "original" entry, sorted by precise value, without the catalog
   * entries within the threshold of the original. An infinite ratio is listed at its end of the list.
   */
  function UseAspectRatioList(catalog: seq<AspectRatioEntry>, originalAspectRatioValue: Option<Number>): (r: seq<AspectRatioEntry>)
    ensures NoRatio(originalAspectRatioValue) ==> r == catalog
    ensures !NoRatio(originalAspectRatioValue) ==>
              var original := OriginalEntry(originalAspectRatioValue.value);
              && (forall e :: e in r <==> (e in catalog || e == original) && KeptBeside(e, original))
              && multiset(r) <= multiset(catalog + [original])
              && |r| <= |catalog| + 1
    ensures !NoRatio(originalAspectRatioValue) && originalAspectRatioValue.value.Finite? ==> SortedBy(r, PreciseKey)
    ensures originalAspectRatioValue == Some(PosInf) ==>
              |r| > 0 && r[|r| - 1] == OriginalEntry(PosInf) && SortedBy(r[..|r| - 1], PreciseKey)
    ensures originalAspectRatioValue == Some(NegInf) ==>
              |r| > 0 && r[0] == OriginalEntry(NegInf) && SortedBy(r[1..], PreciseKey)
  {
    if NoRatio(originalAspectRatioValue) then catalog
    else
      var original := OriginalEntry(originalAspectRatioValue.value);
      MergeMembers(catalog, original);
      MergeOrder(catalog, original);
      Merge(catalog, original)
  }

  /** The hook's filter as the function value handed to `filter`. */
  function Keep(original: AspectRatioEntry): AspectRatioEntry -> bool {
    n => KeptBeside(n, original)
  }

  /** The sorted list with the original, filtered. */
  function Merge(catalog: seq<AspectRatioEntry>, original: AspectRatioEntry): seq<AspectRatioEntry> {
    Filter(SortWithOriginal(catalog, original), Keep(original))
  }

  lemma MergeMembers(catalog: seq<AspectRatioEntry>, original: AspectRatioEntry)
    ensures var r := Merge(catalog, original);
            && (forall e :: e in r <==> (e in catalog || e == original) && KeptBeside(e, original))
            && multiset(r) <= multiset(catalog + [original])
            && |r| <= |catalog| + 1
  {
    var sorted := SortWithOriginal(catalog, original);
    assert multiset(sorted) == multiset(catalog + [original]);
    forall e ensures e in sorted <==> e in catalog || e == original {
      assert e in sorted <==> e in multiset(sorted);
    }
  }

  lemma MergeOrder(catalog: seq<AspectRatioEntry>, original: AspectRatioEntry)
    ensures var r := Merge(catalog, original);
            && (original.preciseValue.Finite? ==> SortedBy(r, PreciseKey))
            && (original.preciseValue == PosInf ==> |r| > 0 && r[|r| - 1] == original && SortedBy(r[..|r| - 1], PreciseKey))
            && (original.preciseValue == NegInf ==> |r| > 0 && r[0] == original && SortedBy(r[1..], PreciseKey))
  {
    match original.preciseValue
    case PosInf => MergeOrderPosInf(catalog, original);
    case NegInf => MergeOrderNegInf(catalog, original);
    case Finite(_) => FilterKeepsSorted(SortBy(catalog + [original], PreciseKey), Keep(original), PreciseKey);
    case NaN =>
  }

  lemma MergeOrderPosInf(catalog: seq<AspectRatioEntry>, original: AspectRatioEntry)
    requires original.preciseValue == PosInf
    ensures var r := Merge(catalog, original);
            |r| > 0 && r[|r| - 1] == original && SortedBy(r[..|r| - 1], PreciseKey)
  {
    var sorted := SortBy(catalog, PreciseKey);
    FilterSnoc(sorted, original, Keep(original));
    FilterKeepsSorted(sorted, Keep(original), PreciseKey);
  }

  lemma MergeOrderNegInf(catalog: seq<AspectRatioEntry>, original: AspectRatioEntry)
    requires original.preciseValue == NegInf
    ensures var r := Merge(catalog, original);
            |r| > 0 && r[0] == original && SortedBy(r[1..], PreciseKey)
  {
    var sorted := SortBy(catalog, PreciseKey);
    var s := [original] + sorted;
    assert s[0] == original && s[1..] == sorted;
    FilterKeepsSorted(sorted, Keep(original), PreciseKey);
  }

  /**
   * The original is always listed, and nothing else is added; any other catalog entry is listed
   * exactly when its precise value is more than 250 away from the original's.
   */
  lemma OriginalAndFarEntriesKept(catalog: seq<AspectRatioEntry>, v: real)
    requires v != 0.0
    ensures var r := UseAspectRatioList(catalog, Some(Finite(v)));
            var original := OriginalEntry(Finite(v));
            && original in r
            && (forall e :: e in r ==> e in catalog || e == original)
            && (forall e :: e in catalog && e.name != "original" && e.preciseValue.Finite? ==>
                  (e in r <==> PreciseKey(e) < PreciseKey(original) - 250.0 || PreciseKey(e) > PreciseKey(original) + 250.0))
  {
    HookIsMerge(catalog, Finite(v));
    MergeFinite(catalog, OriginalEntry(Finite(v)));
  }

  /** With a ratio that is not falsy, the hook's list is the merge. */
  lemma HookIsMerge(catalog: seq<AspectRatioEntry>, x: Number)
    requires !NoRatio(Some(x))
    ensures UseAspectRatioList(catalog, Some(x)) == Merge(catalog, OriginalEntry(x))
  {
  }

  lemma MergeFinite(catalog: seq<AspectRatioEntry>, original: AspectRatioEntry)
    requires original.name == "original" && original.preciseValue.Finite?
    ensures var r := Merge(catalog, original);
            && original in r
            && (forall e :: e in r ==> e in catalog || e == original)
            && (forall e :: e in catalog && e.name != "original" && e.preciseValue.Finite? ==>
                  (e in r <==> PreciseKey(e) < PreciseKey(original) - 250.0 || PreciseKey(e) > PreciseKey(original) + 250.0))
  {
    MergeMembers(catalog, original);
    assert KeptBeside(original, original);
    forall e | e in catalog && e.name != "original" && e.preciseValue.Finite?
      ensures e in Merge(catalog, original) <==> PreciseKey(e) < PreciseKey(original) - 250.0 || PreciseKey(e) > PreciseKey(original) + 250.0
    {
      KeptBesideFinite(e, original);
    }
  }

  /** Beside a finite original, a finite entry of another name is kept exactly when it is far from it. */
  lemma KeptBesideFinite(e: AspectRatioEntry, original: AspectRatioEntry)
    requires e.preciseValue.Finite? && original.preciseValue.Finite? && e.name != original.name
    ensures KeptBeside(e, original) <==> PreciseKey(e) < PreciseKey(original) - 250.0 || PreciseKey(e) > PreciseKey(original) + 250.0
  {
  }

  /**
   * An infinite ratio (a positive width over a zero height) lists every finite catalog entry,
   * in catalog order, with the original at the end; a negative one puts the original first.
   */
  lemma InfiniteOriginalKeepsCatalog(catalog: seq<AspectRatioEntry>)
    requires forall e :: e in catalog ==> e.preciseValue.Finite?
    ensures UseAspectRatioList(catalog, Some(PosInf)) == SortBy(catalog, PreciseKey) + [OriginalEntry(PosInf)]
    ensures UseAspectRatioList(catalog, Some(NegInf)) == [OriginalEntry(NegInf)] + SortBy(catalog, PreciseKey)
  {
    MergeKeepsAll(catalog, OriginalEntry(PosInf));
    MergeKeepsAll(catalog, OriginalEntry(NegInf));
  }

  /** Beside an infinite original every finite entry is kept, so the filter removes nothing. */
  lemma MergeKeepsAll(catalog: seq<AspectRatioEntry>, original: AspectRatioEntry)
    requires forall e :: e in catalog ==> e.preciseValue.Finite?
    requires original.name == "original" && (original.preciseValue == PosInf || original.preciseValue == NegInf)
    ensures Merge(catalog, original) == SortWithOriginal(catalog, original)
  {
    var sorted := SortWithOriginal(catalog, original);
    forall e | e in sorted ensures KeptBeside(e, original) {
      if e != original {
        assert e in multiset(SortBy(catalog, PreciseKey));
      }
    }
    FilterAll(sorted, Keep(original));
  }

  /** Some of the catalog's entries around 1:1. */
  lemma CatalogAroundSquare()
    ensures Entry("1:1", 1.0, 100000) in ASPECT_RATIO_LIST
    ensures Entry("5:4", 5.0 / 4.0, 125000) in ASPECT_RATIO_LIST
    ensures Entry("4:5", 4.0 / 5.0, 80000) in ASPECT_RATIO_LIST
  {
    var entries := ToEntries(ASPECT_RATIO_MAP);
    CatalogEntries();
    assert entries[6] == Entry("1:1", 1.0, 100000);
    assert entries[11] == Entry("5:4", 5.0 / 4.0, 125000);
    assert entries[1] == Entry("4:5", 4.0 / 5.0, 80000);
    CatalogMembers();
  }

  /** With the image at 1:1, the original takes the place of the catalog's 1:1 and its neighbours stay. */
  lemma SquareImageExample()
    ensures var r := UseAspectRatioList(ASPECT_RATIO_LIST, Some(Finite(1.0)));
            && Entry("original", 1.0, 100000) in r
            && Entry("1:1", 1.0, 100000) !in r
            && Entry("5:4", 5.0 / 4.0, 125000) in r
            && Entry("4:5", 4.0 / 5.0, 80000) in r
  {
    CatalogAroundSquare();
    assert ToPreciseAspectRatio(1.0) == 100000;
    OriginalAndFarEntriesKept(ASPECT_RATIO_LIST, 1.0);
  }

  /** An entry exactly the threshold away from the original is dropped; one a unit further is kept. */
  lemma ThresholdExample()
    ensures var catalog := [Entry("a", 1.0025, 100250), Entry("b", 1.00251, 100251)];
            var r := UseAspectRatioList(catalog, Some(Finite(1.0)));
            catalog[0] !in r && catalog[1] in r
  {
    var catalog := [Entry("a", 1.0025, 100250), Entry("b", 1.00251, 100251)];
    var original := OriginalEntry(Finite(1.0));
    assert PreciseKey(original) == 100000.0 by {
      assert ToPreciseAspectRatio(1.0) == 100000;
    }
    HookIsMerge(catalog, Finite(1.0));
    MergeFinite(catalog, original);
    assert catalog[0] in catalog && catalog[1] in catalog;
  }
}
