/**
 * The .NET string and regular-expression tests that the validators use.
 * A Dafny `char` is a Unicode scalar value and a .NET `char` a UTF-16 code
 * unit; they coincide on characters of the Basic Multilingual Plane other
 * than the surrogates U+D800–U+DFFF, so for strings made of those `|s|` is
 * `String.Length`.
 */
module Text {

  /**
   * `char.IsWhiteSpace`: the Unicode separators (categories Zs, Zl and Zp),
   * U+0009 to U+000D and U+0085. The class `\s` of .NET regular expressions,
   * `[\f\n\r\t\v\x85\p{Z}]`, is the same set.
   */
  predicate IsWhiteSpace(c: char)
  {
    var n := c as int;
    (0x09 <= n <= 0x0D) || n == 0x20 || n == 0x85 || n == 0xA0 || n == 0x1680
    || (0x2000 <= n <= 0x200A) || n == 0x2028 || n == 0x2029 || n == 0x202F
    || n == 0x205F || n == 0x3000
  }

  /** `string.IsNullOrWhiteSpace` on a non-null string: true of "" too. */
  predicate IsNullOrWhiteSpace(s: string)
  {
    forall i :: 0 <= i < |s| ==> IsWhiteSpace(s[i])
  }

  /** Every character of `s` is in the class `cls`. */
  predicate AllIn(s: string, cls: char -> bool)
  {
    forall i :: 0 <= i < |s| ==> cls(s[i])
  }

  /**
   * `Regex.IsMatch(s, "^[cls]+$")` with default options. Without
   * `RegexOptions.Multiline`, `$` matches at the end of the input and also
   * just before a line feed that is its last character, so one trailing
   * '\n' after at least one class character is accepted.
   */
  predicate MatchesWhole(s: string, cls: char -> bool)
  {
    (|s| > 0 && AllIn(s, cls))
    || (|s| > 1 && s[|s| - 1] == '\n' && AllIn(s[..|s| - 1], cls))
  }

  /** `Regex.IsMatch(s, "[cls]")`: the unanchored pattern finds one class character. */
  predicate ContainsAny(s: string, cls: char -> bool)
  {
    exists i :: 0 <= i < |s| && cls(s[i])
  }

  /** A string holding a character that is not white space is not blank. */
  lemma NotBlank(s: string, i: nat)
    requires i < |s| && !IsWhiteSpace(s[i])
    ensures !IsNullOrWhiteSpace(s)
  {
  }
}
