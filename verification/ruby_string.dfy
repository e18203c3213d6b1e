/** The parts of Ruby's String class the allow-list check relies on:
    `strip` (with `lstrip` and `rstrip`) and `start_with?`. Strings are
    sequences of characters; Ruby's `strip` only knows ASCII whitespace. */
module RubyString {

  /** Ruby's whitespace for `strip`: NUL, horizontal tab, line feed,
      vertical tab, form feed, carriage return and space. Nothing else
      (in particular no non-ASCII space) counts. */
  predicate IsWhitespace(c: char) {
    c == '\0' || c == '\t' || c == '\n' || c == '\U{000B}' || c == '\U{000C}' || c == '\r' || c == ' '
  }

  predicate AllWhitespace(s: string) {
    forall i :: 0 <= i < |s| ==> IsWhitespace(s[i])
  }

  /** Ruby's `start_with?` for a single string argument: an exact,
      case-sensitive comparison of the leading characters. */
  predicate StartsWith(s: string, prefix: string): (b: bool)
    ensures b <==> |prefix| <= |s| && s == prefix + s[|prefix|..]
  {
    |prefix| <= |s| && s[..|prefix|] == prefix
  }

  /** Ruby's `lstrip`: drops the longest all-whitespace prefix. */
  function StripLeading(s: string): (r: string)
    ensures |r| <= |s| && r == s[|s| - |r|..]
    ensures AllWhitespace(s[..|s| - |r|])
    ensures |r| > 0 ==> !IsWhitespace(r[0])
  {
    if |s| > 0 && IsWhitespace(s[0]) then
      var r := StripLeading(s[1..]);
      var dropped, droppedRest := s[..|s| - |r|], s[1..][..|s| - 1 - |r|];
      assert s[1..][|s| - 1 - |r|..] == s[|s| - |r|..];
      forall i | 0 <= i < |dropped| ensures IsWhitespace(dropped[i]) {
        if i > 0 {
          assert dropped[i] == droppedRest[i - 1];
        }
      }
      r
    else
      s
  }

  /** Ruby's `rstrip`: drops the longest all-whitespace suffix. */
  function StripTrailing(s: string): (r: string)
    ensures |r| <= |s| && r == s[..|r|]
    ensures AllWhitespace(s[|r|..])
    ensures |r| > 0 ==> !IsWhitespace(r[|r| - 1])
  {
    if |s| > 0 && IsWhitespace(s[|s| - 1]) then
      var r := StripTrailing(s[..|s| - 1]);
      var dropped, droppedRest := s[|r|..], s[..|s| - 1][|r|..];
      forall i | 0 <= i < |dropped| ensures IsWhitespace(dropped[i]) {
        if i < |dropped| - 1 {
          assert dropped[i] == droppedRest[i];
        }
      }
      r
    else
      s
  }

  /** Ruby's `strip`: the result has no whitespace at either end; it is
      the slice of `s` between a whitespace prefix and a whitespace suffix
      (`StripIsSlice`, `StripRemovesOnlyWhitespace`). */
  function Strip(s: string): (r: string)
    ensures |r| > 0 ==> !IsWhitespace(r[0]) && !IsWhitespace(r[|r| - 1])
  {
    StripTrailing(StripLeading(s))
  }

  /** `strip` (that is, `rstrip` after `lstrip`) keeps the slice of `s`
      that starts where `lstrip` stopped. */
  lemma StripIsSlice(s: string)
    ensures var i, r := |s| - |StripLeading(s)|, StripTrailing(StripLeading(s));
            i + |r| <= |s| && s[i..i + |r|] == r
  {
  }

  /** What `strip` removes on either side of that slice is whitespace. */
  lemma StripRemovesOnlyWhitespace(s: string)
    ensures var i, r := |s| - |StripLeading(s)|, StripTrailing(StripLeading(s));
            i + |r| <= |s| && AllWhitespace(s[..i]) && AllWhitespace(s[i + |r|..])
  {
    var left := StripLeading(s);
    var r := StripTrailing(left);
    var i := |s| - |left|;
    assert s[i + |r|..] == left[|r|..];
  }

  /** Leading whitespace in front of a string that starts with a
      non-whitespace character is exactly what `lstrip` removes. */
  lemma StripLeadingPadded(w: string, m: string)
    requires AllWhitespace(w)
    requires |m| > 0 && !IsWhitespace(m[0])
    ensures StripLeading(w + m) == m
  {
    var s := w + m;
    var r := StripLeading(s);
    assert r == s[|w|..];
  }

  /** Trailing whitespace behind a string that ends with a non-whitespace
      character is exactly what `rstrip` removes. */
  lemma StripTrailingPadded(m: string, w: string)
    requires AllWhitespace(w)
    requires |m| > 0 && !IsWhitespace(m[|m| - 1])
    ensures StripTrailing(m + w) == m
  {
    var s := m + w;
    var r := StripTrailing(s);
    assert r == s[..|m|];
  }

  /** `strip` is the inverse of padding: surrounding any string that has
      no whitespace at either end with whitespace on both sides, and then
      stripping, gives the string back. */
  lemma StripUndoesPadding(w1: string, m: string, w2: string)
    requires AllWhitespace(w1) && AllWhitespace(w2)
    requires |m| > 0 ==> !IsWhitespace(m[0]) && !IsWhitespace(m[|m| - 1])
    ensures Strip(w1 + m + w2) == m
  {
    if |m| == 0 {
      assert w1 + m + w2 == w1 + w2;
    } else {
      assert w1 + m + w2 == w1 + (m + w2);
      StripLeadingPadded(w1, m + w2);
      StripTrailingPadded(m, w2);
    }
  }

  /** Stripping twice is the same as stripping once. */
  lemma StripIdempotent(s: string)
    ensures Strip(Strip(s)) == Strip(s)
  {

  }

  /** `rstrip` never cuts into a prefix whose last character is not
      whitespace, so a string starts with such a prefix exactly when its
      right-stripped form does. */
  lemma StartsWithSurvivesStripTrailing(s: string, prefix: string)
    requires |prefix| > 0 && !IsWhitespace(prefix[|prefix| - 1])
    ensures StartsWith(StripTrailing(s), prefix) <==> StartsWith(s, prefix)
  {
  }
}
