/**
 * JavaScript's `String.prototype.trim`: remove the leading and trailing
 * characters that ECMAScript counts as WhiteSpace or LineTerminator.
 */
module JsText {

  /** ECMAScript WhiteSpace (TAB, VT, FF, ZWNBSP, and every Zs character) and LineTerminator (LF, CR, LS, PS). */
  predicate IsWhitespace(c: char)
  {
    || c == '\t' || c == '\U{000B}' || c == '\U{000C}' || c == ' ' || c == '\U{00A0}' || c == '\U{FEFF}'
    || c == '\U{1680}' || ('\U{2000}' <= c <= '\U{200A}') || c == '\U{202F}' || c == '\U{205F}' || c == '\U{3000}'
    || c == '\n' || c == '\r' || c == '\U{2028}' || c == '\U{2029}'
  }

  /** Every character of `s` is whitespace (this includes the empty string). */
  predicate IsBlank(s: string)
  {
    forall i :: 0 <= i < |s| ==> IsWhitespace(s[i])
  }

  /** The number of whitespace characters `s` starts with. */
  function LeadingSpace(s: string): (n: nat)
    ensures n <= |s| && IsBlank(s[..n])
    ensures n < |s| ==> !IsWhitespace(s[n])
  {
    if |s| == 0 || !IsWhitespace(s[0]) then 0
    else
      var n := 1 + LeadingSpace(s[1..]);
      assert s[..n] == [s[0]] + s[1..][..n - 1];
      n
  }

  /** The position where the run of whitespace that `s` ends with begins. */
  function TrailingStart(s: string): (n: nat)
    ensures n <= |s| && IsBlank(s[n..])
    ensures n > 0 ==> !IsWhitespace(s[n - 1])
  {
    if |s| == 0 || !IsWhitespace(s[|s| - 1]) then |s|
    else
      var n := TrailingStart(s[..|s| - 1]);
      assert s[n..] == s[..|s| - 1][n..] + [s[|s| - 1]];
      n
  }

  /**
   * `s.trim()`: the infix of `s` left after dropping its whitespace prefix
   * and suffix; it neither starts nor ends with whitespace.
   */
  function Trim(s: string): (r: string)
    ensures exists a, b :: 0 <= a <= b <= |s| && r == s[a..b] && IsBlank(s[..a]) && IsBlank(s[b..])
    ensures r != [] ==> !IsWhitespace(r[0]) && !IsWhitespace(r[|r| - 1])
  {
    var a := LeadingSpace(s);
    var b := a + TrailingStart(s[a..]);
    assert s[a..b] == s[a..][..b - a];
    assert s[b..] == s[a..][b - a..];
    s[a..b]
  }

  /** A blank string is all leading whitespace. */
  lemma {:induction false} LeadingSpaceOfBlank(s: string)
    requires IsBlank(s)
    ensures LeadingSpace(s) == |s|
  {
    if |s| > 0 {
      LeadingSpaceOfBlank(s[1..]);
    }
  }

  /** `!s.trim()` holds, i.e. the trimmed text is empty, exactly when `s` is blank. */
  lemma TrimEmptyIffBlank(s: string)
    ensures Trim(s) == [] <==> IsBlank(s)
  {
    var a := LeadingSpace(s);
    var b := a + TrailingStart(s[a..]);
    assert s[a..b] == s[a..][..b - a];
    if IsBlank(s) {
      LeadingSpaceOfBlank(s);
    }
    if Trim(s) == [] {
      assert s[a..][TrailingStart(s[a..])..] == s[a..];
      assert a == |s|;
      assert s[..a] == s;
    }
  }
}
