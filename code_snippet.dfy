/**
 * `escapeHtml`: the five characters that carry meaning in HTML text and attributes become
 * entities, by five global replacements in a row, `&` first.
 */
module CodeSnippet {

  /** `s.replace(/c/g, rep)`: every occurrence of `c`, left to right, replaced by `rep`. */
  function ReplaceAll(s: string, c: char, rep: string): (r: string)
    ensures c !in rep ==> c !in r
    ensures c !in s ==> r == s
    ensures forall d :: d !in s && d !in rep ==> d !in r
  {
    if s == [] then []
    else
      assert s == [s[0]] + s[1..];
      (if s[0] == c then rep else [s[0]]) + ReplaceAll(s[1..], c, rep)
  }

  /** Replacing in a concatenation replaces in each part. */
  lemma {:induction false} ReplaceAllAppend(a: string, b: string, c: char, rep: string)
    ensures ReplaceAll(a + b, c, rep) == ReplaceAll(a, c, rep) + ReplaceAll(b, c, rep)
  {
    if a == [] {
      assert a + b == b;
    } else {
      assert (a + b)[0] == a[0];
      assert (a + b)[1..] == a[1..] + b;
      ReplaceAllAppend(a[1..], b, c, rep);
    }
  }

  /** The entities hold none of the four markup characters. */
  lemma EntitiesPlain()
    ensures '<' !in "&lt;" && '>' !in "&gt;" && '"' !in "&quot;" && '\'' !in "&#039;"
    ensures '<' !in "&gt;" && '<' !in "&quot;" && '>' !in "&quot;"
    ensures '<' !in "&#039;" && '>' !in "&#039;" && '"' !in "&#039;"
  {
  }

  function EscapeHtml(unsafe: string): (r: string)
    ensures '<' !in r && '>' !in r && '"' !in r && '\'' !in r
  {
    EntitiesPlain();
    var amp := ReplaceAll(unsafe, '&', "&amp;");
    var lt := ReplaceAll(amp, '<', "&lt;");
    var gt := ReplaceAll(lt, '>', "&gt;");
    assert '<' !in gt;
    var quot := ReplaceAll(gt, '"', "&quot;");
    assert '<' !in quot && '>' !in quot;
    ReplaceAll(quot, '\'', "&#039;")
  }

  predicate IsSpecial(c: char) {
    c == '&' || c == '<' || c == '>' || c == '"' || c == '\''
  }

  /** The entity for one of the five characters; every other character stands for itself. */
  function EscapeChar(c: char): (r: string)
    ensures IsSpecial(c) <==> |r| > 1
    ensures IsSpecial(c) ==> r[0] == '&'
    ensures !IsSpecial(c) ==> r == [c]
    ensures '<' !in r && '>' !in r && '"' !in r && '\'' !in r
  {
    match c
    case '&' => "&amp;"
    case '<' => "&lt;"
    case '>' => "&gt;"
    case '"' => "&quot;"
    case '\'' => "&#039;"
    case _ => [c]
  }

  /** The escape applied one character at a time. */
  function EscapeEach(s: string): string {
    if s == [] then [] else EscapeChar(s[0]) + EscapeEach(s[1..])
  }

  /** Replacing in a one-character string. */
  lemma ReplaceAllOfChar(c: char, d: char, rep: string)
    ensures ReplaceAll([c], d, rep) == if c == d then rep else [c]
  {
    assert [c][1..] == [];
  }

  /** The five replacements, written out on the text left after the `&` step. */
  function LaterSteps(s: string): string {
    ReplaceAll(ReplaceAll(ReplaceAll(ReplaceAll(s, '<', "&lt;"), '>', "&gt;"), '"', "&quot;"), '\'', "&#039;")
  }

  /** The five replacements take a single character to its entity. */
  lemma EscapeHtmlOfChar(c: char)
    ensures EscapeHtml([c]) == EscapeChar(c)
  {
    ReplaceAllOfChar(c, '&', "&amp;");
    if c == '&' {
      assert EscapeHtml([c]) == LaterSteps("&amp;");
    } else if c == '<' {
      ReplaceAllOfChar(c, '<', "&lt;");
    } else if c == '>' {
      ReplaceAllOfChar(c, '<', "&lt;");
      ReplaceAllOfChar(c, '>', "&gt;");
    } else if c == '"' {
      ReplaceAllOfChar(c, '<', "&lt;");
      ReplaceAllOfChar(c, '>', "&gt;");
      ReplaceAllOfChar(c, '"', "&quot;");
    } else {
      ReplaceAllOfChar(c, '<', "&lt;");
      ReplaceAllOfChar(c, '>', "&gt;");
      ReplaceAllOfChar(c, '"', "&quot;");
      ReplaceAllOfChar(c, '\'', "&#039;");
    }
  }

  /** The five replacements distribute over concatenation. */
  lemma EscapeHtmlAppend(a: string, b: string)
    ensures EscapeHtml(a + b) == EscapeHtml(a) + EscapeHtml(b)
  {
    ReplaceAllAppend(a, b, '&', "&amp;");
    var a1, b1 := ReplaceAll(a, '&', "&amp;"), ReplaceAll(b, '&', "&amp;");
    ReplaceAllAppend(a1, b1, '<', "&lt;");
    var a2, b2 := ReplaceAll(a1, '<', "&lt;"), ReplaceAll(b1, '<', "&lt;");
    ReplaceAllAppend(a2, b2, '>', "&gt;");
    var a3, b3 := ReplaceAll(a2, '>', "&gt;"), ReplaceAll(b2, '>', "&gt;");
    ReplaceAllAppend(a3, b3, '"', "&quot;");
    var a4, b4 := ReplaceAll(a3, '"', "&quot;"), ReplaceAll(b3, '"', "&quot;");
    ReplaceAllAppend(a4, b4, '\'', "&#039;");
  }

  /**
   * Because `&` is replaced first, no entity written by a later step is escaped again: the
   * chain of replacements is the per-character escape.
   */
  lemma {:induction false} EscapeHtmlIsPerCharacter(s: string)
    ensures EscapeHtml(s) == EscapeEach(s)
  {
    if s != [] {
      assert s == [s[0]] + s[1..];
      EscapeHtmlAppend([s[0]], s[1..]);
      EscapeHtmlOfChar(s[0]);
      EscapeHtmlIsPerCharacter(s[1..]);
    }
  }

  /** The output is never shorter than the input, and is as long only when nothing needed escaping. */
  lemma {:induction false} EscapeLength(s: string)
    ensures |EscapeEach(s)| >= |s|
    ensures |EscapeEach(s)| == |s| <==> forall i :: 0 <= i < |s| ==> !IsSpecial(s[i])
  {
    if s != [] {
      EscapeLength(s[1..]);
      assert forall i :: 1 <= i < |s| ==> s[i] == s[1..][i - 1];
    }
  }

  /** Text without any of the five characters passes through unchanged, and only such text does. */
  lemma UnchangedIffNothingToEscape(s: string)
    ensures EscapeHtml(s) == s <==> forall i :: 0 <= i < |s| ==> !IsSpecial(s[i])
  {
    EscapeHtmlIsPerCharacter(s);
    EscapeLength(s);
    if forall i :: 0 <= i < |s| ==> !IsSpecial(s[i]) {
      assert '&' !in s && '<' !in s && '>' !in s && '"' !in s && '\'' !in s;
    }
  }

  /** Reads the five entities back; any other character stands for itself. */
  function Unescape(t: string): string {
    if t == [] then []
    else if |t| >= 5 && t[..5] == "&amp;" then "&" + Unescape(t[5..])
    else if |t| >= 4 && t[..4] == "&lt;" then "<" + Unescape(t[4..])
    else if |t| >= 4 && t[..4] == "&gt;" then ">" + Unescape(t[4..])
    else if |t| >= 6 && t[..6] == "&quot;" then "\"" + Unescape(t[6..])
    else if |t| >= 6 && t[..6] == "&#039;" then "'" + Unescape(t[6..])
    else [t[0]] + Unescape(t[1..])
  }

  /** A character that is not one of the five is read back as itself. */
  lemma UnescapePlain(c: char, rest: string)
    requires !IsSpecial(c)
    ensures Unescape([c] + rest) == [c] + Unescape(rest)
  {
    var t := [c] + rest;
    assert t[1..] == rest;
    assert forall k :: 0 < k <= |t| ==> t[..k][0] == c;
  }

  /** An entity is read back as its character. */
  lemma UnescapeEntity(c: char, rest: string)
    requires IsSpecial(c)
    ensures Unescape(EscapeChar(c) + rest) == [c] + Unescape(rest)
  {
    var e := EscapeChar(c);
    var t := e + rest;
    assert t[..|e|] == e && t[|e|..] == rest;
    assert forall k :: 1 < k <= |t| ==> t[..k][1] == e[1];
  }

  /** Reading back an escaped character, followed by anything, gives the character back first. */
  lemma UnescapeChar(c: char, rest: string)
    ensures Unescape(EscapeChar(c) + rest) == [c] + Unescape(rest)
  {
    if IsSpecial(c) {
      UnescapeEntity(c, rest);
    } else {
      UnescapePlain(c, rest);
    }
  }

  /** Escaping loses nothing: reading the entities back gives the original text. */
  lemma {:induction false} UnescapeEscape(s: string)
    ensures Unescape(EscapeHtml(s)) == s
  {
    EscapeHtmlIsPerCharacter(s);
    UnescapeEach(s);
  }

  lemma {:induction false} UnescapeEach(s: string)
    ensures Unescape(EscapeEach(s)) == s
  {
    if s != [] {
      UnescapeChar(s[0], EscapeEach(s[1..]));
      UnescapeEach(s[1..]);
    }
  }

  /** The escape of a non-empty text: its first character's entity, then the escape of the rest. */
  lemma EscapeHtmlCons(s: string)
    requires s != []
    ensures EscapeHtml(s) == EscapeChar(s[0]) + EscapeHtml(s[1..])
  {
    assert s == [s[0]] + s[1..];
    EscapeHtmlAppend([s[0]], s[1..]);
    EscapeHtmlOfChar(s[0]);
  }

  predicate Plain(t: string) {
    forall i :: 0 <= i < |t| ==> !IsSpecial(t[i])
  }

  /**
   * One character between two plain texts: only it is replaced. With `c` an ampersand this
   * takes `a & b` to `a &amp; b`, and takes an entity such as `&lt;` to `&amp;lt;`, so text
   * that is already escaped is escaped again.
   */
  lemma EscapeAroundPlain(p: string, c: char, r: string)
    requires Plain(p) && Plain(r)
    ensures EscapeHtml(p + [c] + r) == p + EscapeChar(c) + r
  {
    EscapeHtmlAppend(p + [c], r);
    EscapeHtmlAppend(p, [c]);
    EscapeHtmlOfChar(c);
    UnchangedIffNothingToEscape(p);
    UnchangedIffNothingToEscape(r);
  }
}
