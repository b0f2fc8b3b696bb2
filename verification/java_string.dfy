/** The two `java.lang.String` queries the validation rules use:
    `isBlank()` and `length()`. A Dafny `string` is a sequence of Unicode
    scalar values (code points); Java counts UTF-16 code units.
 */
module JavaString {

  /** `Character.isWhitespace(int codePoint)`: the Unicode space, line and
      paragraph separators except the no-break spaces U+00A0, U+2007 and
      U+202F, plus the controls U+0009..U+000D and U+001C..U+001F. */
  predicate IsWhitespace(c: char) {
    || ('\t' <= c <= '\r')
    || ('\U{1C}' <= c <= ' ')
    || c == '\U{1680}'
    || ('\U{2000}' <= c <= '\U{2006}')
    || ('\U{2008}' <= c <= '\U{200A}')
    || c == '\U{2028}'
    || c == '\U{2029}'
    || c == '\U{205F}'
    || c == '\U{3000}'
  }

  /** `String.isBlank()`: empty, or nothing but whitespace code points. */
  predicate IsBlank(s: string) {
    forall i :: 0 <= i < |s| ==> IsWhitespace(s[i])
  }

  /** A code point that UTF-16 stores in one code unit. */
  predicate InBasicPlane(c: char) {
    c as int < 0x1_0000
  }

  /** `String.length()`: the number of UTF-16 code units, so a code point
      outside the Basic Multilingual Plane (a surrogate pair) counts twice. */
  function Utf16Length(s: string): (n: nat)
    ensures |s| <= n <= 2 * |s|
    ensures (forall i :: 0 <= i < |s| ==> InBasicPlane(s[i])) ==> n == |s|
    ensures (forall i :: 0 <= i < |s| ==> !InBasicPlane(s[i])) ==> n == 2 * |s|
  {
    if s == [] then 0
    else (if InBasicPlane(s[0]) then 1 else 2) + Utf16Length(s[1..])
  }
}
