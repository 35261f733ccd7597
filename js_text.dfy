/**
 * The two pieces of JavaScript string semantics that the form validators rely on:
 * the character class `\s` of regular expressions and `String.prototype.trim`.
 * Both use the same set of characters: the ECMAScript WhiteSpace and
 * LineTerminator code points.
 */
module JsText {

  /** True iff `c` belongs to the regular-expression class `\s`, which is also
      the set of characters `trim()` removes: the ECMAScript WhiteSpace and
      LineTerminator code points. These are tab, line feed, line tabulation,
      form feed and carriage return (U+0009 to U+000D), space, no-break space,
      the members of the Unicode "space separator" category (U+1680, U+2000 to
      U+200A, U+202F, U+205F, U+3000), the line and paragraph separators
      (U+2028, U+2029) and the byte-order mark (U+FEFF). */
  predicate IsWhitespace(c: char) {
    || '\t' <= c <= '\r'
    || c == ' ' || c == '\U{00A0}' || c == '\U{1680}'
    || '\U{2000}' <= c <= '\U{200A}'
    || c == '\U{2028}' || c == '\U{2029}' || c == '\U{202F}' || c == '\U{205F}'
    || c == '\U{3000}' || c == '\U{FEFF}'
  }

  /** True iff `c` belongs to the regular-expression class `\d`. */
  predicate IsDigit(c: char) {
    '0' <= c <= '9'
  }

  predicate AllWhitespace(s: string) {
    forall i :: 0 <= i < |s| ==> IsWhitespace(s[i])
  }

  predicate NoWhitespace(s: string) {
    forall i :: 0 <= i < |s| ==> !IsWhitespace(s[i])
  }

  /** Drops the leading whitespace: the result is a suffix of `s` that does not
      start with whitespace, and all that was dropped is whitespace. */
  function TrimStart(s: string): (r: string)
    ensures |r| <= |s| && r == s[|s| - |r|..]
    ensures AllWhitespace(s[..|s| - |r|])
    ensures r == [] || !IsWhitespace(r[0])
    decreases |s|
  {
    if |s| > 0 && IsWhitespace(s[0]) then
      var r := TrimStart(s[1..]);
      assert s[..|s| - |r|] == [s[0]] + s[1..][..|s| - 1 - |r|];
      r
    else
      s
  }

  /** Drops the trailing whitespace: the result is a prefix of `s` that does not
      end with whitespace, and all that was dropped is whitespace. */
  function TrimEnd(s: string): (r: string)
    ensures |r| <= |s| && r == s[..|r|]
    ensures AllWhitespace(s[|r|..])
    ensures r == [] || !IsWhitespace(r[|r| - 1])
    decreases |s|
  {
    if |s| > 0 && IsWhitespace(s[|s| - 1]) then
      var r := TrimEnd(s[..|s| - 1]);
      assert s[|r|..] == s[..|s| - 1][|r|..] + [s[|s| - 1]];
      r
    else
      s
  }

  /** `s.trim()` */
  function Trim(s: string): string {
    TrimEnd(TrimStart(s))
  }

  /** `!s.trim()`: the trimmed string is the empty string, which JavaScript
      treats as false. */
  predicate IsBlank(s: string) {
    Trim(s) == ""
  }

  /** A prefix `r` of a suffix `t` of `s`, each cut made only through
      whitespace, is the inner slice `s[a..b]` with whitespace on both sides. */
  lemma PrefixOfSuffix(s: string, t: string, r: string) returns (a: nat, b: nat)
    requires |t| <= |s| && t == s[|s| - |t|..] && AllWhitespace(s[..|s| - |t|])
    requires |r| <= |t| && r == t[..|r|] && AllWhitespace(t[|r|..])
    ensures a == |s| - |t| && b == a + |r| && b <= |s|
    ensures r == s[a..b] && AllWhitespace(s[..a]) && AllWhitespace(s[b..])
  {
    a := |s| - |t|;
    b := a + |r|;
    assert t[|r|..] == s[b..];
  }

  /** The trimmed string is the slice `s[a..b]` between the first and the last
      non-whitespace character: it neither starts nor ends with whitespace and
      only whitespace lies outside it. */
  lemma TrimIsInnerSlice(s: string) returns (a: nat, b: nat)
    ensures a <= b <= |s| && Trim(s) == s[a..b]
    ensures AllWhitespace(s[..a]) && AllWhitespace(s[b..])
    ensures Trim(s) == [] || (!IsWhitespace(Trim(s)[0]) && !IsWhitespace(Trim(s)[b - a - 1]))
  {
    var t := TrimStart(s);
    var r := TrimEnd(t);
    a, b := PrefixOfSuffix(s, t, r);
    if r != [] {
      assert r[0] == t[0];
    }
  }

  /** A string is blank exactly when every one of its characters is whitespace. */
  lemma {:induction false} BlankIffAllWhitespace(s: string)
    ensures IsBlank(s) <==> AllWhitespace(s)
  {
    var t := TrimStart(s);
    if !AllWhitespace(s) {
      var i :| 0 <= i < |s| && !IsWhitespace(s[i]);
      assert t[i - (|s| - |t|)] == s[i];
    }
  }
}
