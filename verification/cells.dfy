/** The two cell helpers of the manifest table (script.js:167-168):
    `sanitizeNumber`, which an edited amount cell is rewritten with, and
    `escapeHtml`, which every text is passed through before it is written
    into a row's markup; plus the browser's decoding of that markup back into
    the text a cell shows. */
module Cells {
  import opened Text

  // ---------------------------------------------------------------- sanitizeNumber

  /** `sanitizeNumber(text)`: the ASCII digits of `text` read as a number and
      written back as a numeral; text without digits becomes "0". */
  function SanitizeNumber(text: string): (r: string)
    ensures IsNumeral(r)
  {
    NatToString(DecimalValue(Digits(text)))
  }

  /** Sanitizing keeps the amount that the digits of the text stand for. */
  lemma SanitizeKeepsValue(text: string)
    ensures DecimalValue(SanitizeNumber(text)) == DecimalValue(Digits(text))
  {
    NatToStringValue(DecimalValue(Digits(text)));
  }

  /** A numeral is left as it is. */
  lemma SanitizeFixesNumerals(s: string)
    requires IsNumeral(s)
    ensures SanitizeNumber(s) == s
  {
    DigitsOfDigits(s);
    ValueNatToString(s);
  }

  /** Sanitizing twice is sanitizing once. */
  lemma SanitizeIdempotent(text: string)
    ensures SanitizeNumber(SanitizeNumber(text)) == SanitizeNumber(text)
  {
    SanitizeFixesNumerals(SanitizeNumber(text));
  }

  // ---------------------------------------------------------------- escapeHtml

  predicate IsSpecial(c: char) { c == '&' || c == '<' || c == '>' || c == '"' }

  function EscapeChar(c: char): string {
    match c
    case '&' => "&amp;"
    case '<' => "&lt;"
    case '>' => "&gt;"
    case '"' => "&quot;"
    case _ => [c]
  }

  /** `escapeHtml(s)`: each of `&`, `<`, `>` and `"` replaced by its entity,
      every other character copied. No raw `<`, `>` or `"` is left. */
  function EscapeHtml(s: string): (r: string)
    ensures '<' !in r && '>' !in r && '"' !in r
  {
    if s == [] then [] else EscapeChar(s[0]) + EscapeHtml(s[1..])
  }

  /** A text with none of the four special characters is copied unchanged. */
  lemma {:induction false} EscapePlain(s: string)
    requires forall i :: 0 <= i < |s| ==> !IsSpecial(s[i])
    ensures EscapeHtml(s) == s
  {
    if s != [] {
      EscapePlain(s[1..]);
      assert [s[0]] + s[1..] == s;
    }
  }

  /** Escaping works character by character: the text of a concatenation
      is the concatenation of the escaped parts, so every character other
      than the four special ones is copied in place. */
  lemma {:induction false} EscapeConcat(a: string, b: string)
    ensures EscapeHtml(a + b) == EscapeHtml(a) + EscapeHtml(b)
  {
    if a == [] {
      assert a + b == b;
    } else {
      var ab := a + b;
      assert ab[0] == a[0] && ab[1..] == a[1..] + b;
      assert EscapeHtml(ab) == EscapeChar(a[0]) + EscapeHtml(a[1..] + b);
      EscapeConcat(a[1..], b);
    }
  }

  predicate StartsWith(s: string, p: string) { |p| <= |s| && s[..|p|] == p }

  /** How the browser reads back the text of markup written by `escapeHtml`:
      the four entities it produces become their characters again. (The
      browser knows more entities; none of them can occur in escaped text.) */
  function UnescapeHtml(s: string): string
    decreases |s|
  {
    if s == [] then []
    else if s[0] != '&' then [s[0]] + UnescapeHtml(s[1..])
    else if StartsWith(s, "&amp;") then "&" + UnescapeHtml(s[5..])
    else if StartsWith(s, "&lt;") then "<" + UnescapeHtml(s[4..])
    else if StartsWith(s, "&gt;") then ">" + UnescapeHtml(s[4..])
    else if StartsWith(s, "&quot;") then "\"" + UnescapeHtml(s[6..])
    else [s[0]] + UnescapeHtml(s[1..])
  }

  lemma UnescapeChar(c: char, t: string)
    ensures UnescapeHtml(EscapeChar(c) + t) == [c] + UnescapeHtml(t)
  {
    var s := EscapeChar(c) + t;
    if c == '&' {
      assert s[..5] == "&amp;" && s[5..] == t;
    } else if c == '<' {
      assert s[..4] == "&lt;" && s[4..] == t;
      assert !StartsWith(s, "&amp;") by { if |s| >= 5 { assert s[..5][1] == 'l'; } }
    } else if c == '>' {
      assert s[..4] == "&gt;" && s[4..] == t;
      assert !StartsWith(s, "&amp;") by { if |s| >= 5 { assert s[..5][1] == 'g'; } }
      assert !StartsWith(s, "&lt;") by { assert s[..4][1] == 'g'; }
    } else if c == '"' {
      assert s[..6] == "&quot;" && s[6..] == t;
      assert !StartsWith(s, "&amp;") by { assert s[..5][1] == 'q'; }
      assert !StartsWith(s, "&lt;") && !StartsWith(s, "&gt;") by { assert s[..4][1] == 'q'; }
    } else {
      assert s[0] == c && s[1..] == t;
    }
  }

  /** Decoding undoes escaping. */
  lemma {:induction false} EscapeRoundTrip(s: string)
    ensures UnescapeHtml(EscapeHtml(s)) == s
  {
    if s != [] {
      EscapeRoundTrip(s[1..]);
      UnescapeChar(s[0], EscapeHtml(s[1..]));
      assert [s[0]] + s[1..] == s;
    }
  }
}
