/** The numeric helpers and the keyboard-shortcut lookup of `src/helpers.ts`. */
module Helpers {
  import opened Wrappers
  import opened JsNumber

  /** `Math.min(max, Math.max(value, min))` on finite numbers. */
  function Clamp(value: real, min: real, max: real): (r: real)
    ensures min <= value <= max ==> r == value
    ensures value < min && min <= max ==> r == min
    ensures value > max ==> r == max
    ensures min <= max ==> min <= r <= max
  {
    var atLeastMin := if value > min then value else min;
    if max < atLeastMin then max else atLeastMin
  }

  lemma ClampIdempotent(value: real, min: real, max: real)
    requires min <= max
    ensures Clamp(Clamp(value, min, max), min, max) == Clamp(value, min, max)
  {
  }

  /** `clamp` on any JS number: NaN stays NaN, the infinities go to the bounds. */
  function ClampNumber(n: Number, min: real, max: real): (r: Number)
    ensures r == NaN <==> n == NaN
    ensures r != NaN ==> r.Finite? && (min <= max ==> min <= r.v <= max)
    ensures n.Finite? ==> r == Finite(Clamp(n.v, min, max))
  {
    match n
    case Finite(x) => Finite(Clamp(x, min, max))
    case PosInf => Finite(max)
    case NegInf => Finite(Clamp(min, min, max))
    case NaN => NaN
  }

  /**
   * `Math.round(value * 100)`: the whole number of hundredths nearest to `value`, halves
   * rounded up.
   */
  function RoundHundredths(value: real): (h: int)
    ensures h as real - 0.5 <= value * 100.0 < h as real + 0.5
  {
    (value * 100.0 + 0.5).Floor
  }

  /** `roundWithTwoDecimals(value)`: `value` rounded to a whole number of hundredths. */
  function RoundWithTwoDecimals(value: real): (r: real)
    ensures r * 100.0 == (r * 100.0).Floor as real
    ensures -0.005 < r - value <= 0.005
  {
    RoundHundredths(value) as real / 100.0
  }

  lemma RoundKeepsHundredths(h: int)
    ensures RoundHundredths(h as real / 100.0) == h
  {
  }

  lemma RoundMonotone(a: real, b: real)
    requires a <= b
    ensures RoundHundredths(a) <= RoundHundredths(b)
  {
  }

  lemma RoundExamples()
    ensures RoundWithTwoDecimals(1.234) == 1.23
    ensures RoundWithTwoDecimals(1.235) == 1.24
    ensures RoundWithTwoDecimals(1.999) == 2.0
    ensures RoundWithTwoDecimals(5.0) == 5.0
  {
    assert RoundHundredths(1.234) == 123;
    assert RoundHundredths(1.235) == 124;
    assert RoundHundredths(1.999) == 200;
    assert RoundHundredths(5.0) == 500;
  }

  /** `toPercentage(a, b)`: `a` as a percentage of `b`, and 0 when `b` is not positive. */
  function ToPercentage(a: real, b: real): (r: real)
    ensures b > 0.0 ==> r * b == a * 100.0
    ensures b <= 0.0 ==> r == 0.0
  {
    if b > 0.0 then (a / b) * 100.0 else 0.0
  }

  /** Multiplying both sides by a positive number keeps their order. */
  lemma ScaleOrder(r: real, c: real, b: real)
    requires b > 0.0
    ensures r >= c <==> r * b >= c * b
    ensures r > c <==> r * b > c * b
  {
    if r > c {
      assert (r - c) * b > 0.0;
    } else if r < c {
      assert (c - r) * b > 0.0;
    }
  }

  /** A percentage `r` of `a` over a positive `b` compares with `c` as `a * 100` does with `c * b`. */
  lemma PercentOrder(r: real, a: real, b: real, c: real)
    requires b > 0.0 && r * b == a * 100.0
    ensures r >= c <==> a * 100.0 >= c * b
    ensures r <= c <==> a * 100.0 <= c * b
  {
    ScaleOrder(r, c, b);
    ScaleOrder(c, r, b);
  }

  /** How `toPercentage(a, b)` compares with 0 and ±100: by how `a` compares with 0 and ±`b`. */
  lemma PercentageBounds(a: real, b: real)
    ensures b > 0.0 ==> (ToPercentage(a, b) >= 0.0 <==> a >= 0.0)
    ensures b > 0.0 ==> (ToPercentage(a, b) >= 100.0 <==> a >= b)
    ensures b > 0.0 ==> (ToPercentage(a, b) <= -100.0 <==> a <= -b)
  {
    if b > 0.0 {
      var r := ToPercentage(a, b);
      PercentOrder(r, a, b, 0.0);
      PercentOrder(r, a, b, 100.0);
      PercentOrder(r, a, b, -100.0);
    }
  }

  // ---------------------------------------------------------------------------
  // createKeyboardShortcutHandler

  /** `toLowerCase` on one character (ASCII letters only). */
  function ToLowerChar(c: char): char {
    if 'A' <= c <= 'Z' then ((c as int) + 32) as char else c
  }

  function ToLower(s: string): (r: string)
    ensures |r| == |s|
    ensures forall i :: 0 <= i < |s| ==> r[i] == ToLowerChar(s[i])
  {
    seq(|s|, i requires 0 <= i < |s| => ToLowerChar(s[i]))
  }

  lemma ToLowerIdempotent(s: string)
    ensures ToLower(ToLower(s)) == ToLower(s)
  {
  }

  /**
   * The map the handler consults: each entry of `keyMap`, in iteration order, stored under
   * its lower-cased key, so a later entry overwrites an earlier one with the same key.
   */
  function NormalizeKeyMap<C>(keyMap: seq<(string, C)>): (normalized: map<string, C>)
    ensures normalized.Keys == set i | 0 <= i < |keyMap| :: ToLower(keyMap[i].0)
    decreases |keyMap|
  {
    if keyMap == [] then map[]
    else
      var init, last := keyMap[..|keyMap| - 1], keyMap[|keyMap| - 1];
      assert forall i :: 0 <= i < |init| ==> init[i] == keyMap[i];
      NormalizeKeyMap(init)[ToLower(last.0) := last.1]
  }

  /** The loop of `createKeyboardShortcutHandler` that fills the normalized map. */
  method CreateKeyboardShortcutHandler<C>(keyMap: seq<(string, C)>) returns (normalizedKeyMap: map<string, C>)
    ensures normalizedKeyMap == NormalizeKeyMap(keyMap)
  {
    normalizedKeyMap := map[];
    for i := 0 to |keyMap|
      invariant normalizedKeyMap == NormalizeKeyMap(keyMap[..i])
    {
      var (key, callback) := keyMap[i];
      normalizedKeyMap := normalizedKeyMap[ToLower(key) := callback];
      assert keyMap[..i + 1][..i] == keyMap[..i];
    }
    assert keyMap[..|keyMap|] == keyMap;
  }

  /** What the handler does to a key event, in order. */
  datatype KeyEffect<C> = PreventDefault | RunCallback(callback: C)

  /** The returned handler: look the lower-cased key up; on a hit prevent the default, then run the callback. */
  function HandleKeyDown<C>(normalizedKeyMap: map<string, C>, key: string): (effects: seq<KeyEffect<C>>)
    ensures ToLower(key) !in normalizedKeyMap ==> effects == []
    ensures ToLower(key) in normalizedKeyMap ==> effects == [PreventDefault, RunCallback(normalizedKeyMap[ToLower(key)])]
  {
    var pressedKey := ToLower(key);
    if pressedKey in normalizedKeyMap then [PreventDefault, RunCallback(normalizedKeyMap[pressedKey])] else []
  }

  /** The entry that a lower-cased key selects is the last entry with that key in iteration order. */
  lemma {:induction false} LaterEntryWins<C>(keyMap: seq<(string, C)>, i: nat)
    requires i < |keyMap|
    requires forall j :: i < j < |keyMap| ==> ToLower(keyMap[j].0) != ToLower(keyMap[i].0)
    ensures ToLower(keyMap[i].0) in NormalizeKeyMap(keyMap)
    ensures NormalizeKeyMap(keyMap)[ToLower(keyMap[i].0)] == keyMap[i].1
    decreases |keyMap|
  {
    if i < |keyMap| - 1 {
      var prefix := keyMap[..|keyMap| - 1];
      assert prefix[i] == keyMap[i];
      LaterEntryWins(prefix, i);
    }
  }

  /** A key no entry matches, in any letter case, is in the map under no spelling. */
  lemma {:induction false} AbsentKey<C>(keyMap: seq<(string, C)>, key: string)
    requires forall j :: 0 <= j < |keyMap| ==> ToLower(keyMap[j].0) != key
    ensures key !in NormalizeKeyMap(keyMap)
    decreases |keyMap|
  {
    if keyMap != [] {
      AbsentKey(keyMap[..|keyMap| - 1], key);
    }
  }

  /**
   * Pressing a key in any letter case fires the callback of the last entry whose key has the
   * same lower case, calling preventDefault once before it; a key matching no entry does nothing.
   */
  lemma ShortcutDispatch<C>(keyMap: seq<(string, C)>, key: string)
    ensures (forall j :: 0 <= j < |keyMap| ==> ToLower(keyMap[j].0) != ToLower(key)) ==>
              HandleKeyDown(NormalizeKeyMap(keyMap), key) == []
    ensures forall i ::
              (0 <= i < |keyMap| && ToLower(keyMap[i].0) == ToLower(key)
               && (forall j :: i < j < |keyMap| ==> ToLower(keyMap[j].0) != ToLower(key))) ==>
              HandleKeyDown(NormalizeKeyMap(keyMap), key) == [PreventDefault, RunCallback(keyMap[i].1)]
  {
    if forall j :: 0 <= j < |keyMap| ==> ToLower(keyMap[j].0) != ToLower(key) {
      AbsentKey(keyMap, ToLower(key));
    }
    forall i | 0 <= i < |keyMap| && ToLower(keyMap[i].0) == ToLower(key)
        && (forall j :: i < j < |keyMap| ==> ToLower(keyMap[j].0) != ToLower(key))
      ensures HandleKeyDown(NormalizeKeyMap(keyMap), key) == [PreventDefault, RunCallback(keyMap[i].1)]
    {
      LaterEntryWins(keyMap, i);
    }
  }

  /** "U" and "u" select the same callback. */
  lemma CaseInsensitiveExample<C>(callback: C)
    ensures HandleKeyDown(NormalizeKeyMap([("u", callback)]), "U") == [PreventDefault, RunCallback(callback)]
    ensures HandleKeyDown(NormalizeKeyMap([("U", callback)]), "u") == [PreventDefault, RunCallback(callback)]
    ensures HandleKeyDown(NormalizeKeyMap([("u", callback)]), "x") == []
  {
    assert ToLower("U") == "u";
    assert ToLower("u") == "u";
    assert ToLower("x") == "x";
  }
}
