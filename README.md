# focus-point, modelled in Dafny

focus-point is a small web app. The user uploads an image, picks an aspect ratio for the frame
(from a catalog of common ratios plus the image's own) and drags a focal point. The app turns
that focal point into a CSS `object-position` string such as `"33.30% 50%"`.

This project models the logic behind that app:

- The numeric helpers: `clamp`, rounding to hundredths and `toPercentage`.
- The case-insensitive keyboard-shortcut table.
- The `object-position` codec, in its padded form (FocusPointEditor) and its unpadded copies
  (ImageContainer). The central result is the round trip: parsing what the encoder writes
  gives back the clamped, rounded coordinates.
- `scaleDimensionsToContainRect`, the cover scaling that decides which side of the image is
  cropped.
- The FocusPointEditor's crop-delta tracker and its drag state machine.
- The PointMarker's absolute drag.
- The aspect-ratio precision conversions, the two static catalogs and the two hooks that merge
  the image's own ratio into a catalog: sort, then drop near-duplicates.
- The aspect-ratio slider's range bounds and its change handler.
- `escapeHtml`.
- The legacy ImageContainer drag engine.

JavaScript numbers are modelled as `JsNumber.Number`: a finite real, one of the two
infinities, or NaN. This is used wherever the source can divide by zero or parse a bad string.
Coordinates that the encoder writes are counted in whole hundredths of a percent, from 0 to
10000, so printing and parsing become exact decimal-string functions. The state that React
keeps in refs and `useState` becomes the fields of Dafny classes. Each event handler becomes a
method, specified by the pure function that computes what it emits.

Files:

- `wrappers.dfy` — `Option`.
- `js_number.dfy` — JS number arithmetic.
- `js_string.dfy` — `split`, `replace`, `Number()`, `parseInt` and decimal printing.
- `sequences.dfy` — stable sort and filter.
- `helpers.dfy` — `src/helpers.ts`.
- `contain_scale.dfy` — `scaleDimensionsToContainRect`.
- `object_position.dfy` — the codec.
- `focus_point.dfy` — the FocusPointEditor.
- `point_marker.dfy` — the PointMarker.
- `aspect_ratio.dfy` — the AspectRatio precision, catalog and hook.
- `aspect_ratio_slider.dfy` — the AspectRatioSlider catalog, hook and component.
- `code_snippet.dfy` — `escapeHtml`.
- `image_container.dfy` — the legacy ImageContainer.

## Model

| member | source | states |
|---|---|---|
| Helpers.Clamp | src/helpers.ts:9-11 | The value itself inside [min, max], min below it, max above it; for min ≤ max the result lies in [min, max] |
| Helpers.ClampIdempotent | src/helpers.ts:9-11 | Clamping an already clamped value changes nothing |
| Helpers.ClampNumber | src/helpers.ts:9-11 | `clamp` on a JS number: NaN stays NaN, an infinity is pinned to a bound, a finite value is clamped as a real |
| Helpers.RoundHundredths | src/helpers.ts:19-21 | The hundredths count is the nearest integer to 100 × value, halves rounded up |
| Helpers.RoundWithTwoDecimals | src/helpers.ts:19-21 | The result is a whole number of hundredths within 0.005 of the input |
| Helpers.RoundKeepsHundredths | src/helpers.ts:19-21 | A value that is already whole hundredths (an integer included) is left unchanged |
| Helpers.RoundMonotone | src/helpers.ts:19-21 | Rounding never reverses the order of two values |
| Helpers.RoundExamples | src/helpers.test.ts:28-36 | 1.234 → 1.23, 1.235 → 1.24, 1.999 → 2 and 5 → 5 |
| Helpers.ToPercentage | src/helpers.ts:30-32 | a/b × 100 when b > 0 (stated as r × b = 100a), exactly 0 when b ≤ 0 |
| Helpers.PercentageBounds | src/helpers.ts:30-32 | For b > 0 the percentage is ≥ 0, ≥ 100 or ≤ −100 exactly when a is ≥ 0, ≥ b or ≤ −b |
| Helpers.ToLower | src/helpers.ts:66 | Lowercasing keeps the length and maps every character on its own |
| Helpers.ToLowerIdempotent | src/helpers.ts:70 | Lowercasing twice is lowercasing once, so a stored key and a pressed key meet in the same form |
| Helpers.NormalizeKeyMap | src/helpers.ts:63-67 | The normalized map's keys are exactly the lowercased keys of the table, whatever their order and collisions |
| Helpers.CreateKeyboardShortcutHandler | src/helpers.ts:63-67 | The `for … of` loop, `set` by `set`, builds exactly the NormalizeKeyMap map |
| Helpers.HandleKeyDown | src/helpers.ts:69-77 | A pressed key whose lowercase form is in the map gives preventDefault then the callback, once each; any other key gives nothing |
| Helpers.LaterEntryWins | src/helpers.ts:65-67 | The last entry among those whose keys collide after lowercasing decides the callback |
| Helpers.AbsentKey | src/helpers.ts:65-67 | A key that no table entry lowercases to is not in the map |
| Helpers.ShortcutDispatch | src/helpers.ts:59-78 | The whole handler: no effect when no key matches in lowercase, otherwise preventDefault and the last matching entry's callback |
| Helpers.CaseInsensitiveExample | src/helpers.test.ts:75-96 | "u" and "U" select the same callback whichever side is uppercase; "x" selects nothing |
| ContainScale.ScaleDimensionsToContainRect | src/components/FocusPointEditor/helpers/scaleDimensionToContainRect.ts:19-29 | A wider source pins the height, otherwise the width is pinned; one side always equals the box's |
| ContainScale.RatioComparison | src/components/FocusPointEditor/helpers/scaleDimensionToContainRect.ts:19-25 | For positive heights the JS ratio comparison is the cross-multiplied comparison |
| ContainScale.CrossMultiplication | src/components/FocusPointEditor/helpers/scaleDimensionToContainRect.ts:19-25 | For a positive box the cross-multiplied comparison agrees with JS also for a zero source side (Infinity or NaN ratios) |
| ContainScale.Branches | src/components/FocusPointEditor/helpers/scaleDimensionToContainRect.ts:25-29 | Wide source: width = rect.height × sw/sh, height pinned; otherwise width pinned, height = rect.width × sh/sw; 0 for a zero divisor |
| ContainScale.ContainsRectByHeight | src/components/FocusPointEditor/helpers/scaleDimensionToContainRect.ts:25-26 | In the wide branch the result is at least as wide as the box and keeps the source's ratio |
| ContainScale.ContainsRectByWidth | src/components/FocusPointEditor/helpers/scaleDimensionToContainRect.ts:27-28 | In the other branch the result is at least as tall as the box and keeps the source's ratio |
| ContainScale.ContainsRect | src/components/FocusPointEditor/helpers/scaleDimensionToContainRect.ts:3-10 | For a positive source the result covers the box in both sides and keeps the source's aspect ratio |
| ContainScale.ContainIsSmallest | src/components/FocusPointEditor/helpers/scaleDimensionToContainRect.ts:3-6 | Any scaling k of the source that covers the box is at least as large as the result, so the result is "just big enough" |
| ContainScale.OverhangWide | src/components/FocusPointEditor/helpers/scaleDimensionToContainRect.ts:25-26 | A source wider than the box overhangs in width only |
| ContainScale.OverhangTall | src/components/FocusPointEditor/helpers/scaleDimensionToContainRect.ts:27-28 | Otherwise the width is pinned, and the height overhangs exactly when the source is taller |
| ContainScale.Overhang | src/components/FocusPointEditor/helpers/scaleDimensionToContainRect.ts:19-29 | For positive sizes the width overhangs iff the source is wider and the height iff it is taller |
| ContainScale.ScaleExamples | src/components/FocusPointEditor/helpers/scaleDimensionToContainRect.test.ts:5-35 | 800×600 into 400×400 is 1600/3 × 400, 400×400 into 800×600 is 800×800, and the two zero-side cases |
| ContainScale.ZeroSource | src/components/ImageContainer/helpers/scaleDimensionToContainRect.ts:16-20 | Zero source height gives width 0 and the box height; zero source width gives the box width and height 0. The ImageContainer copy is the same code as the editor's, so every ContainScale row holds for both |
| ObjectPosition.CoordinateHundredths | src/components/FocusPointEditor/helpers/cssObjectPositionObjectToString.ts:15-16 | The clamped, rounded coordinate is a hundredths count in [0, 10000], or nothing exactly for NaN |
| ObjectPosition.Canonical | src/components/FocusPointEditor/helpers/cssObjectPositionObjectToString.ts:15-16 | The value the encoder writes lies in [0, 100], and is NaN exactly for NaN |
| ObjectPosition.CanonicalIsClampedRounded | src/components/FocusPointEditor/helpers/cssObjectPositionObjectToString.ts:15-16 | For a finite input that value is `roundWithTwoDecimals(clamp(x, 0, 100))` |
| ObjectPosition.ObjectToString | src/components/FocusPointEditor/helpers/cssObjectPositionObjectToString.ts:11-19 | The output always holds a space and ends in "%", so the parser never throws on it (RoundTrip gives the values) |
| ObjectPosition.UnpaddedObjectToString | src/components/ImageContainer/helpers/cssObjectPositionObjectToString.ts:4-9 | The same for the unpadded encoder: a space, and "%" at the end |
| ObjectPosition.PaddedFormat | src/components/FocusPointEditor/helpers/cssObjectPositionObjectToString.ts:15-16 | A padded token is the integer part alone when whole, otherwise a point and exactly two fraction digits |
| ObjectPosition.PaddingIsTheOnlyDifference | src/components/ImageContainer/helpers/cssObjectPositionObjectToString.ts:5-6 | The padded and unpadded tokens differ only by a trailing "0" after a single fraction digit |
| ObjectPosition.UnpaddedValue | src/components/ImageContainer/helpers/cssObjectPositionObjectToString.ts:5-6 | `Number` of an unpadded token is its hundredths count / 100 |
| ObjectPosition.PaddedValue | src/components/FocusPointEditor/helpers/cssObjectPositionObjectToString.ts:15-16 | `Number` of a padded token is its hundredths count / 100: the pad does not change the value |
| ObjectPosition.StringToObject | src/components/FocusPointEditor/helpers/cssObjectPositionStringToObject.ts:10-19 | The parse throws (TypeError) exactly when the input has no space |
| ObjectPosition.ExtraPiecesIgnored | src/components/FocusPointEditor/helpers/cssObjectPositionStringToObject.ts:13 | Pieces after the second are ignored |
| ObjectPosition.TokenCharacters | src/components/FocusPointEditor/helpers/cssObjectPositionObjectToString.ts:15-18 | No token holds a space or a "%", so the template splits back into exactly its two tokens |
| ObjectPosition.TokenNumber | src/components/FocusPointEditor/helpers/cssObjectPositionObjectToString.ts:15-16 | `Number` of either token of a coordinate is the clamped, rounded coordinate |
| ObjectPosition.ParseTokens | src/Image/ImageContainer/helpers/cssObjectPositionStringToObject.ts:6-10 | For tokens without space or "%", parsing "a% b%" gives `Number(a)` and `Number(b)`; the three parser copies are the same code |
| ObjectPosition.RoundTrip | src/components/FocusPointEditor/FocusPointEditor.tsx:108-115 | Parsing the padded encoder's output gives back the clamped, rounded coordinates |
| ObjectPosition.UnpaddedRoundTrip | src/components/ImageContainer/helpers/cssObjectPositionStringToObject.ts:3-10 | Parsing the unpadded encoder's output gives back the clamped, rounded coordinates (the Image/ImageContainer pair is the same code) |
| ObjectPosition.CanonicalHundredths | src/components/FocusPointEditor/helpers/cssObjectPositionObjectToString.ts:15-16 | Encoding is idempotent on values: clamping and rounding an encoded value gives the same hundredths |
| ObjectPosition.CanonicalMonotone | src/helpers.ts:9-21 | Clamping then rounding never reverses the order of two finite values |
| ObjectPosition.EncodeCanonical | src/components/FocusPointEditor/helpers/cssObjectPositionObjectToString.ts:15-18 | Re-encoding a parsed value writes the same string, for both encoders |
| ObjectPosition.PaddedTokenShape | src/components/FocusPointEditor/helpers/cssObjectPositionObjectToString.ts:15-16 | No token has a minus sign; a token is whole or has exactly two fraction digits |
| ObjectPosition.EncodeHundredths | src/components/FocusPointEditor/helpers/cssObjectPositionObjectToString.ts:18 | The output is the x token, "% ", the y token, then "%", for both encoders |
| ObjectPosition.WholeToken | src/components/FocusPointEditor/helpers/cssObjectPositionObjectToString.test.ts:5-9 | A whole coordinate prints with no decimal point in both encoders |
| ObjectPosition.EncodeWholeExamples | src/components/FocusPointEditor/helpers/cssObjectPositionObjectToString.test.ts:5-9 | "50% 50%", "0% 0%" and "100% 100%" |
| ObjectPosition.EncodeClampExamples | src/components/FocusPointEditor/helpers/cssObjectPositionObjectToString.test.ts:11-14 | x −10 prints "0%" and y 150 prints "100%" |
| ObjectPosition.EncodeRoundExamples | src/components/FocusPointEditor/helpers/cssObjectPositionObjectToString.test.ts:16-18 | 33.333 and 66.666 print "33.33% 66.67%" |
| ObjectPosition.EncodePadExamples | src/components/FocusPointEditor/helpers/cssObjectPositionObjectToString.test.ts:20-22 | 33.3 and 66.6 print "33.30% 66.60%" padded and "33.3% 66.6%" unpadded |
| ObjectPosition.OneFractionDigitExample | src/Image/ImageContainer/helpers/cssObjectPositionObjectToString.ts:8-9 | A lone fraction digit is padded by the editor's encoder only |
| ObjectPosition.ParseFractionExample | src/components/FocusPointEditor/helpers/cssObjectPositionStringToObject.test.ts:11-16 | "25.35% 75.65%" parses to (25.35, 75.65) |
| ObjectPosition.ParseWholeExample | src/components/FocusPointEditor/helpers/cssObjectPositionStringToObject.test.ts:5-9 | "50% 50%" parses to (50, 50) |
| ObjectPosition.ParseNoSpaceExample | src/components/FocusPointEditor/helpers/cssObjectPositionStringToObject.ts:13-17 | "50%" has no second piece, so the parse throws |
| JsString.SplitJoin | src/components/FocusPointEditor/helpers/cssObjectPositionStringToObject.ts:13 | Joining the pieces of `split(" ")` with the separator gives back the input |
| JsString.SplitCount | src/components/FocusPointEditor/helpers/cssObjectPositionStringToObject.ts:13 | There is a second piece exactly when the separator occurs |
| JsString.ReplaceFirstAtEnd | src/components/FocusPointEditor/helpers/cssObjectPositionStringToObject.ts:16-17 | `replace("%", "")` on a token followed by its "%" gives the token |
| JsString.NumeralValue | src/components/FocusPointEditor/helpers/cssObjectPositionStringToObject.ts:16-17 | `Number` of a decimal numeral is its decimal value |
| JsString.ParseIntOfIntToString | src/components/AspectRatioSlider/AspectRatioSlider.tsx:32 | `parseInt` of a printed integer is that integer |
| FocusPoint.EntryDelta | src/components/FocusPointEditor/FocusPointEditor.tsx:44-62 | Pixel deltas are scaled minus box, percentages are `toPercentage` of the scaled side, at most one delta is non-zero; width is chosen iff its delta > 1px, else height iff its delta > 1px |
| FocusPoint.EntryDeltaOfImage | src/components/FocusPointEditor/FocusPointEditor.tsx:44-47 | For a real image both pixel deltas are ≥ 0, percentages are in [0, 100), and the changed dimension is the only cropped side |
| FocusPoint.WidthCroppedIffWider | src/components/FocusPointEditor/FocusPointEditor.tsx:44-47 | The width is cropped exactly when the image is wider than the box, and the height exactly when it is taller |
| FocusPoint.MissingImageExample | src/components/FocusPointEditor/FocusPointEditor.tsx:37-40 | Without an image element the entry is measured against a 1×1 source, not skipped |
| FocusPoint.AxisShift | src/components/FocusPointEditor/FocusPointEditor.tsx:98-106 | The shift lies in [−100, 100]; ±100 once the pointer moves the cropped extent; 0 for no crop or no movement; its sign follows the pointer |
| FocusPoint.AxisShiftProportional | src/components/FocusPointEditor/FocusPointEditor.tsx:98-106 | Within the cropped extent the shift is the displacement as a percentage of the cropped pixels |
| FocusPoint.PointerDelta | src/components/FocusPointEditor/FocusPointEditor.tsx:95-96 | The displacement added to the start gives the pointer; with no start recorded (`?? 0`) the displacement is the pointer itself |
| FocusPoint.ObjectPositionDelta | src/components/FocusPointEditor/FocusPointEditor.tsx:98-106 | Both shifts lie in [−100, 100]; only the changed dimension shifts; with no changed dimension nothing shifts |
| FocusPoint.Moved | src/components/FocusPointEditor/FocusPointEditor.tsx:112-115 | A finite snapshot coordinate minus the shift, so coordinate = moved + shift; an infinite or NaN coordinate stays what it was |
| FocusPoint.Drag | src/components/FocusPointEditor/FocusPointEditor.tsx:108-117 | A move while dragging with a known delta emits a string, or throws exactly when the snapshot has no space |
| FocusPoint.DragDecodes | src/components/FocusPointEditor/FocusPointEditor.tsx:108-117 | The emitted string is snapshot − shift, encoded, and it parses back to those coordinates clamped and rounded |
| FocusPoint.DragKeepsOtherAxis | src/components/FocusPointEditor/FocusPointEditor.tsx:98-106 | The axis that is not the changed dimension keeps the snapshot's coordinate |
| FocusPoint.DragBackToStart | src/components/FocusPointEditor/FocusPointEditor.tsx:108-117 | Returning the pointer to its start re-emits the snapshot's coordinates |
| FocusPoint.DragBackToEncoded | src/components/FocusPointEditor/FocusPointEditor.tsx:108-117 | A snapshot the encoder wrote is re-emitted unchanged when the pointer returns to its start |
| FocusPoint.ShiftLeft | src/components/FocusPointEditor/FocusPointEditor.tsx:112-115 | A non-negative shift never moves the encoded x coordinate up |
| FocusPoint.DragExample | src/components/FocusPointEditor/FocusPointEditor.tsx:95-117 | 20px right over 100 cropped pixels moves a (50, 50) start to "30% 50%" |
| FocusPoint.FocusPointEditor.constructor | src/components/FocusPointEditor/FocusPointEditor.tsx:26-30 | Not dragging, the snapshot is the initial position, and no pointer or delta is known |
| FocusPoint.FocusPointEditor.Resize | src/components/FocusPointEditor/FocusPointEditor.tsx:36-63 | Each entry overwrites the delta, so the last entry's delta is kept; no entries keep the old one |
| FocusPoint.FocusPointEditor.PointerDown | src/components/FocusPointEditor/FocusPointEditor.tsx:73-84 | Sets dragging and snapshots the current position string and the pointer |
| FocusPoint.FocusPointEditor.PointerMove | src/components/FocusPointEditor/FocusPointEditor.tsx:88-120 | Ignored when not dragging or before any delta; otherwise exactly the Drag outcome |
| FocusPoint.FocusPointEditor.PointerUp | src/components/FocusPointEditor/FocusPointEditor.tsx:122-127 | Clears dragging and touches nothing else |
| PointMarker.AxisPercent | src/components/FocusPointEditor/PointMarker/PointMarker.tsx:66-71 | In [0, 100] or NaN; finite for a positive extent; for a zero extent 100, 0 or NaN as the offset is positive, negative or zero |
| PointMarker.MarkerPosition | src/components/FocusPointEditor/PointMarker/PointMarker.tsx:73-78 | The emitted string parses back to the two percentages, clamped and rounded; the previous focal point does not enter |
| PointMarker.AxisPercentOfPositive | src/components/FocusPointEditor/PointMarker/PointMarker.tsx:70-71 | Over a positive extent the percentage is clamp(offset/extent × 100, 0, 100) |
| PointMarker.AxisCanonical | src/components/FocusPointEditor/PointMarker/PointMarker.tsx:66-78 | Over a positive extent the coordinate read back is that clamped ratio rounded to hundredths |
| PointMarker.OutsideClampsToEdge | src/components/FocusPointEditor/PointMarker/PointMarker.tsx:67-71 | A pointer left of the parent lands at 0%, one beyond its right edge at 100% |
| PointMarker.MarkerExample | src/components/FocusPointEditor/PointMarker/PointMarker.tsx:66-78 | (150, 100) over a 200×100 parent at (100, 50) emits "25% 50%" |
| PointMarker.MarkerEdgeExample | src/components/FocusPointEditor/PointMarker/PointMarker.tsx:66-78 | A pointer left of and below that parent emits "0% 100%" |
| PointMarker.PointMarker.constructor | src/components/FocusPointEditor/PointMarker/PointMarker.tsx:43 | The marker starts not dragging |
| PointMarker.PointMarker.PointerDown | src/components/FocusPointEditor/PointMarker/PointMarker.tsx:46-53 | Sets dragging |
| PointMarker.PointMarker.PointerMove | src/components/FocusPointEditor/PointMarker/PointMarker.tsx:57-79 | The default is prevented iff dragging with the wrapper mounted; a string is emitted iff also the parent exists, and it is the parent-relative position |
| PointMarker.PointMarker.PointerUp | src/components/FocusPointEditor/PointMarker/PointMarker.tsx:81-85 | Clears dragging |
| PointMarker.PointMarker.PointerCancel | src/components/FocusPointEditor/PointMarker/PointMarker.tsx:87-91 | Clears dragging, as pointer up does |
| AspectRatio.ToPreciseAspectRatio | src/components/AspectRatio/helpers.ts:3-5 | The integer nearest to ratio × 100000, halves rounded up |
| AspectRatio.ToAspectRatio | src/components/AspectRatio/helpers.ts:7-9 | The precise value divided by 100000 |
| AspectRatio.PrecisionExamples | src/components/AspectRatio/helpers.test.ts:5-21 | 1 → 100000, 0 → 0, 100000 → 1, 1.5 → 150000 |
| AspectRatio.PreciseRoundTrip | src/components/AspectRatio/helpers.ts:3-9 | Every integer precise value survives the trip to a ratio and back |
| AspectRatio.RatioRoundTrip | src/components/AspectRatio/helpers.test.ts:23-26 | A ratio comes back from its precise value within 1/200000 |
| AspectRatio.PreciseMonotone | src/components/AspectRatio/helpers.ts:3-5 | The precise value never decreases as the ratio grows |
| AspectRatio.ToPreciseNumber | src/components/AspectRatio/helpers.ts:3-5 | On a JS number: finite exactly for a finite ratio, where it is ToPreciseAspectRatio; an infinity or NaN comes through unchanged |
| AspectRatio.CatalogEntries | src/components/AspectRatio/constants.ts:6-27 | The thirteen map entries in map order, each with the precise value of its ratio |
| AspectRatio.CatalogMembers | src/components/AspectRatio/constants.ts:22-28 | The catalog holds exactly the thirteen entries, with preciseValue = toPreciseAspectRatio(value), sorted by precise value |
| AspectRatio.CatalogEnds | src/components/AspectRatio/constants.ts:28 | The catalog starts at 9:16 and ends at 16:9 |
| AspectRatio.CatalogNames | src/components/AspectRatio/constants.ts:6-20 | No two catalog entries share a name |
| AspectRatio.UseAspectRatioList | src/components/AspectRatio/hooks.ts:5-25 | No ratio, 0 or NaN (`!value`) gives the catalog; otherwise exactly the catalog entries and the original that pass the filter, nothing added, at most one longer; sorted by precise value for a finite ratio; an infinite ratio's original at the end (+∞) or front (−∞) of the sorted rest |
| AspectRatio.OriginalEntry | src/components/AspectRatio/hooks.ts:9-13 | Named "original" with the given ratio; its precise value is finite iff the ratio is, and then within 0.5 of ratio × 100000; it passes the filter beside itself unless the ratio is NaN |
| AspectRatio.KeptBeside | src/components/AspectRatio/hooks.ts:17-22 | Beside a NaN original nothing passes; for finite values, same name and precise value or more than 250 away; beside an infinite original every finite entry passes |
| AspectRatio.OriginalAndFarEntriesKept | src/components/AspectRatio/hooks.ts:17-22 | The original is always listed; another entry is listed iff its precise value is more than 250 from the original's |
| AspectRatio.InfiniteOriginalKeepsCatalog | src/components/AspectRatio/hooks.ts:15-23 | An infinite ratio keeps the whole sorted catalog, with the original appended for +∞ and prepended for −∞ |
| AspectRatio.CatalogAroundSquare | src/components/AspectRatio/constants.ts:8-18 | 1:1, 5:4 and 4:5 are in the catalog with their precise values |
| AspectRatio.SquareImageExample | src/components/AspectRatio/hooks.ts:15-23 | A 1:1 image's original replaces the catalog's 1:1, and 5:4 and 4:5 stay |
| AspectRatio.ThresholdExample | src/components/AspectRatio/hooks.ts:21-22 | An entry exactly 250 away is dropped and one 251 away is kept |
| AspectRatioSlider.MapEntries | src/components/AspectRatioSlider/constants.ts:21-26 | Fourteen entries in map order, each positioned by `toLogPosition(value, 9/16, 4/1)` |
| AspectRatioSlider.CatalogMembers | src/components/AspectRatioSlider/constants.ts:21-27 | The catalog holds exactly the fourteen positioned entries, sorted by value |
| AspectRatioSlider.MapValueRange | src/components/AspectRatioSlider/constants.ts:4-19 | Every ratio of the map lies between 9/16 and 4/1; only 9:16 and 4:1 are at the ends |
| AspectRatioSlider.CatalogValueRange | src/components/AspectRatioSlider/constants.ts:21-27 | The same range facts for every catalog entry |
| AspectRatioSlider.CatalogEnds | src/components/AspectRatioSlider/constants.ts:27 | The catalog starts at 9:16 and ends at 4:1, the two ends of its scale |
| AspectRatioSlider.CatalogNames | src/components/AspectRatioSlider/constants.ts:4-19 | No two catalog entries share a name |
| AspectRatioSlider.SnapThreshold | src/components/AspectRatioSlider/constants.ts:29-30 | The replacement threshold is 0.01 and the snap threshold is exactly a third of it |
| AspectRatioSlider.UseAspectRatioList | src/components/AspectRatioSlider/hooks.ts:8-33 | No ratio or an empty catalog gives the catalog; otherwise exactly the catalog entries and the original that pass the filter, nothing added; sorted by value for a finite ratio; empty for NaN; an infinite ratio's original at the end (+∞) or front (−∞) of the sorted rest |
| AspectRatioSlider.OriginalEntry | src/components/AspectRatioSlider/hooks.ts:17-22 | Named "original", with the given ratio, its log position between the catalog's ends, and the precise value of the ratio |
| AspectRatioSlider.KeptBeside | src/components/AspectRatioSlider/hooks.ts:26-31 | Beside a NaN original nothing passes; for finite values, same name and value or more than 0.01 away; beside an infinite original every finite entry passes |
| AspectRatioSlider.OriginalKept | src/components/AspectRatioSlider/hooks.ts:28 | An entry passes the filter beside itself exactly when its ratio is not NaN (`NaN === NaN` is false) |
| AspectRatioSlider.OriginalAndFarEntriesKept | src/components/AspectRatioSlider/hooks.ts:24-31 | The original is always listed; another entry is listed iff its value is more than 0.01 from the original's |
| AspectRatioSlider.OriginalBelowCatalogFirst | src/components/AspectRatioSlider/hooks.ts:24-25 | An original below every catalog ratio is listed first |
| AspectRatioSlider.ZeroOriginal | src/components/AspectRatioSlider/hooks.ts:13-15 | A ratio of 0 is not skipped by the slider's hook: it is listed first, positioned on the 9:16 to 4:1 scale |
| AspectRatioSlider.ZeroIsNoRatio | src/components/AspectRatio/hooks.ts:7 | The integer hook treats a ratio of 0 as no ratio and returns the catalog |
| AspectRatioSlider.UnloadedImageRatio | src/App.tsx:109 | An image read before it loads has ratio 0 / 0 = NaN: the slider's hook then lists nothing, the integer hook its whole catalog |
| AspectRatioSlider.InfiniteOriginalKeepsCatalog | src/components/AspectRatioSlider/hooks.ts:24-31 | An infinite ratio keeps the whole sorted catalog, with the original appended for +∞ and prepended for −∞ |
| AspectRatioSlider.PreciseAspectRatio | src/components/AspectRatioSlider/AspectRatioSlider.tsx:15 | 0 without a ratio; otherwise finite iff the ratio is, within 0.5 of ratio × 100000, an infinity or NaN carried through |
| AspectRatioSlider.EndPrecise | src/components/AspectRatioSlider/AspectRatioSlider.tsx:19 | The first (or last) entry's precise value, 0 for an empty catalog or an entry without one |
| JsNumber.Min | src/components/AspectRatioSlider/AspectRatioSlider.tsx:17-20 | `Math.min`: NaN iff either argument is; otherwise one of the two, and neither is below it |
| JsNumber.Max | src/components/AspectRatioSlider/AspectRatioSlider.tsx:22-25 | `Math.max`: NaN iff either argument is; otherwise one of the two, and neither is above it |
| AspectRatioSlider.Range | src/components/AspectRatioSlider/AspectRatioSlider.tsx:15-25 | A bound is NaN iff one of its two arguments is; otherwise the minimum is no greater than the current and first precise values and is one of them, and the maximum likewise for the last |
| AspectRatioSlider.RangeOfCatalog | src/components/AspectRatioSlider/AspectRatioSlider.tsx:17-25 | Against the slider catalog, whose entries have no precise value, the range reaches from 0 to a finite or infinite current value, and is NaN at both ends for a NaN one |
| AspectRatioSlider.HandleChange | src/components/AspectRatioSlider/AspectRatioSlider.tsx:31-34 | A numeric input gives the ratio whose precise value is the parsed integer; anything else gives NaN |
| AspectRatioSlider.HandleChangeRoundTrip | src/components/AspectRatioSlider/AspectRatioSlider.tsx:31-34 | The value the input reports for a precise value comes back as the ratio it stands for |
| CodeSnippet.ReplaceAll | src/CodeSnippet/helpers.ts:10-14 | A global replace removes every occurrence and leaves text without one unchanged |
| CodeSnippet.ReplaceAllAppend | src/CodeSnippet/helpers.ts:10-14 | A global replace of one character works piece by piece |
| CodeSnippet.EscapeChar | src/CodeSnippet/helpers.ts:10-14 | The five specials become entities starting with "&"; anything else stays; none of `<>"'` is ever written |
| CodeSnippet.EscapeHtmlOfChar | src/CodeSnippet/helpers.ts:10-14 | The five chained replaces map one character to its entity |
| CodeSnippet.EscapeHtmlAppend | src/CodeSnippet/helpers.ts:9-14 | Escaping a concatenation escapes each part |
| CodeSnippet.EscapeHtmlIsPerCharacter | src/CodeSnippet/helpers.test.ts:40-42 | Because "&" goes first, the chain equals a per-character escape: no entity is escaped twice |
| CodeSnippet.EscapeHtml | src/CodeSnippet/helpers.ts:9-14 | The output contains no raw `<`, `>`, `"` or `'` |
| CodeSnippet.EscapeLength | src/CodeSnippet/helpers.ts:9-14 | The output is never shorter, and equally long exactly when none of the five characters occurs |
| CodeSnippet.UnchangedIffNothingToEscape | src/CodeSnippet/helpers.test.ts:31-38 | The input comes back unchanged exactly when it holds none of the five characters (the empty string included) |
| CodeSnippet.UnescapeEscape | src/CodeSnippet/helpers.ts:9-14 | Decoding the five entities undoes the escape, so it loses nothing |
| CodeSnippet.EscapeHtmlCons | src/CodeSnippet/helpers.ts:9-14 | The output is the first character's escape followed by the rest's |
| CodeSnippet.EscapeAroundPlain | src/CodeSnippet/helpers.test.ts:5-8 | One special between plain text is the only thing replaced; an existing entity is escaped again |
| ImageContainer.Observe | src/components/ImageContainer/ImageContainer.tsx:37-62 | Only the movement axis gets a non-zero delta |
| ImageContainer.NaturalSize | src/components/ImageContainer/ImageContainer.tsx:33 | The image element's natural size, or 0×0 without one; a 0×0 natural size has a NaN ratio and, in a 0×0 box, is skipped |
| ImageContainer.Skipped | src/components/ImageContainer/ImageContainer.tsx:35 | An entry is skipped exactly when the box and the natural size are both 0×0; any positive side is observed |
| ImageContainer.ObserveOfImage | src/components/ImageContainer/ImageContainer.tsx:40-56 | For positive sizes: horizontal iff the image is wider and the width gains pixels, vertical iff taller and the height gains; no axis iff the ratios differ by less than 0.005 |
| ImageContainer.ObserveHorizontal | src/components/ImageContainer/ImageContainer.tsx:50-52 | A horizontal axis means a wider image and a positive width delta |
| ImageContainer.ObserveVertical | src/components/ImageContainer/ImageContainer.tsx:54-56 | A vertical axis means a taller image and a positive height delta |
| ImageContainer.ObserveAgreesWithContain | src/components/ImageContainer/ImageContainer.tsx:47-62 | When an axis is cropped the deltas are exactly the overhangs of contain scaling |
| ImageContainer.SameRatioNothingCropped | src/components/ImageContainer/ImageContainer.tsx:40-45 | Equal ratios give no axis and zero deltas |
| ImageContainer.UnloadedImageObserved | src/components/ImageContainer/ImageContainer.tsx:33-45 | A 0×0 natural size in a non-empty box is not skipped; NaN ratios make the axis vertical with a NaN height delta |
| ImageContainer.Observed | src/components/ImageContainer/ImageContainer.tsx:31-63 | Entries that are all skipped keep the observation; any change comes from some entry that is not skipped |
| ImageContainer.ObservedIsLastKept | src/components/ImageContainer/ImageContainer.tsx:31-63 | The last entry that is not skipped decides the observation |
| ImageContainer.AxisPercentOf | src/components/ImageContainer/ImageContainer.tsx:96-97 | A finite non-zero delta gives displacement/delta × 100, with no clamp; a NaN delta gives NaN |
| ImageContainer.AxisPercent | src/components/ImageContainer/ImageContainer.tsx:96-97 | A zero delta gives +Infinity, −Infinity or NaN as the displacement is positive, negative or zero; an infinite delta gives 0 |
| ImageContainer.ObservedShift | src/components/ImageContainer/ImageContainer.tsx:98-99 | Only the movement axis shifts |
| ImageContainer.ShiftOfImage | src/components/ImageContainer/ImageContainer.tsx:94-99 | For positive sizes the shift is finite and is the displacement as a percentage of the cropped pixels |
| ImageContainer.Drag | src/components/ImageContainer/ImageContainer.tsx:101-108 | A move emits a string, or throws exactly when the snapshot has no space |
| ImageContainer.DragDecodes | src/components/ImageContainer/ImageContainer.tsx:101-106 | The emitted string is snapshot − shift in the unpadded encoding, and parses back clamped and rounded |
| ImageContainer.MissingClampUnobservable | src/components/ImageContainer/ImageContainer.tsx:103-106 | From a start in [0, 100] the missing ±100 clamp changes nothing that is written |
| ImageContainer.ObserveOfImageDivisible | src/components/ImageContainer/ImageContainer.tsx:96-99 | For positive sizes the active delta is finite and non-zero, so the division is safe |
| ImageContainer.DragBackToStart | src/components/ImageContainer/ImageContainer.tsx:94-108 | Returning the pointer to its start re-emits the snapshot's coordinates |
| ImageContainer.ZeroDisplacementNoShift | src/components/ImageContainer/ImageContainer.tsx:94-99 | A pointer that has not moved shifts neither axis |
| ImageContainer.DragBackToEncoded | src/components/ImageContainer/ImageContainer.tsx:101-108 | A snapshot written by the unpadded encoder is re-emitted unchanged |
| ImageContainer.DragFromParsed | src/components/ImageContainer/ImageContainer.tsx:101-106 | From a start that parses to (x, y) the move emits the encoding of (x, y) − shift |
| ImageContainer.ClampedEncodingExample | src/components/ImageContainer/helpers/cssObjectPositionObjectToString.ts:5-8 | −150 prints "0%" in the unpadded encoder |
| ImageContainer.NaNEncodingExample | src/Image/ImageContainer/helpers/cssObjectPositionObjectToString.ts:8-11 | A NaN coordinate prints "NaN%" |
| ImageContainer.UnclampedShiftExample | src/components/ImageContainer/ImageContainer.tsx:96-98 | 200px over 100 cropped pixels shifts x by 200 points |
| ImageContainer.UnclampedDragExample | src/components/ImageContainer/ImageContainer.tsx:101-106 | That drag from (50, 50) still emits "0% 50%", because the encoder clamps |
| ImageContainer.UnloadedImageDrag | src/components/ImageContainer/ImageContainer.tsx:94-108 | Before the image has a natural size, a drag from (50, 50) emits "50% NaN%" |
| ImageContainer.ImageContainer.constructor | src/components/ImageContainer/ImageContainer.tsx:20-25 | The shown position and its snapshot start at the default; not dragging; nothing observed |
| ImageContainer.ImageContainer.Resize | src/components/ImageContainer/ImageContainer.tsx:30-63 | The loop leaves the observation of the last entry that is not skipped |
| ImageContainer.ImageContainer.PointerDown | src/components/ImageContainer/ImageContainer.tsx:73-86 | Sets dragging and snapshots the shown position and the pointer |
| ImageContainer.ImageContainer.PointerMove | src/components/ImageContainer/ImageContainer.tsx:88-111 | Ignored when not dragging or nothing observed; otherwise the Drag outcome, whose string becomes the shown position |
| ImageContainer.ImageContainer.PointerUp | src/components/ImageContainer/ImageContainer.tsx:113-118 | Clears dragging |

## Left out

- Rendering, ResizeObserver subscription and disconnection, pointer capture and `useEffectEvent` are not modelled. Each resize or pointer event is a method call.
- JS number details are not modelled: `Number.EPSILON` in rounding, −0, binary floating-point error and IEEE rounding of divisions. Numbers are exact reals or an infinity or NaN. The source's case of `0.1 + 0.2` rounding to 0.3 is about floating-point drift and has no counterpart here.
- `Number(string)` covers `[sign] digits [. digits]`, the empty string and `Infinity`. Every other string gives NaN. Exponents, hexadecimal and surrounding whitespace are left out.
- `String(number)` is modelled only for the numbers the encoder prints: whole hundredths in [0, 100] and NaN.
- `toLowerCase` is modelled for ASCII letters only; other Unicode case mappings are left out.
- `toLogPosition` is a logarithm-based helper and is not part of this model. It is a function parameter, and nothing is assumed about it.
- The stale catalog imports are both read as the catalog defined next to them: `ASPECT_RATIO` in the AspectRatio hook, and `ASPECT_RATIO` with `.preciseValue` in the slider component. The slider catalog's entries have no precise value, so `?.preciseValue ?? 0` gives 0 (RangeOfCatalog).
- The helpers ImageContainer.tsx imports (`coordinatesToCssObjectPosition`, `cssObjectPositionToCoordinates`, `./constants`) are not part of this model. They are taken to be the unpadded codec of ImageContainer/helpers, and `DEFAULT_OBJECT_POSITION` is a constructor parameter.
- The fields of the `ImageObserved` type in ImageContainer/types.ts do not match how the component uses it. The model follows the use: `deltaWidth`, `deltaHeight`, `movementAxis`.
- `detectProportionalImageHeight` is not modelled: it uses a floating-point square root and the viewport height.
- `getPointerCoordinatesFromEvent` is a field copy and is inlined as (clientX, clientY).
- The cursor choice and the ghost-image transform are render expressions, and are not modelled.
- FocusPoint.ShiftLeft: stated for finite snapshot coordinates and over the shift, not over the pointer event.
- FocusPoint.DragExample, ImageContainer.UnclampedDragExample, ImageContainer.UnloadedImageDrag: stated for any start string that parses to (50, 50), which includes "50% 50%".
- AspectRatio.UseAspectRatioList, AspectRatioSlider.UseAspectRatioList: the keep-iff-far-away property is stated in OriginalAndFarEntriesKept, for entries not named "original".
- Stability of the sort is modelled in the definition, but no lemma states it.
- AspectRatioSlider/helpers.ts is not part of this model. The slider's hook and component import `toPreciseAspectRatio` and `toAspectRatio` from it; the model takes them to be the AspectRatio/helpers.ts functions of the same names (AspectRatio.ToPreciseAspectRatio, AspectRatio.ToAspectRatio, AspectRatio.ToPreciseNumber). If that file differs, the slider's precise values, AspectRatioSlider.PreciseAspectRatio, AspectRatioSlider.Range and AspectRatioSlider.HandleChange differ with it.
- The order `sort` leaves for a NaN original is not modelled: its comparator is then inconsistent, and the engine's order is unspecified. The model sorts by the finite key instead; the filter keeps nothing beside a NaN original, so the hook's result, `[]`, does not depend on it.
- PointMarker.AxisPercent: a zero-size parent is modelled with JS division (an infinity or NaN), not excluded by a precondition.
