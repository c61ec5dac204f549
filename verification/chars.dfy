/**
 * Character classes of Python's `re` and `str` as the cleaner uses them.
 *
 * Whitespace follows `str.isspace` (which is also what `\s` and `str.split`
 * use) over all of Unicode; word characters, digits and case are modelled
 * for ASCII only, and every other character counts as a non-word,
 * non-digit character that `lower()` leaves alone.
 */
module Chars {

  /** `\d`, restricted to ASCII. */
  predicate IsDigit(c: char) {
    '0' <= c <= '9'
  }

  predicate IsUpper(c: char) {
    'A' <= c <= 'Z'
  }

  predicate IsLowerLetter(c: char) {
    'a' <= c <= 'z'
  }

  /** `\w`, restricted to ASCII: letters, digits and the underscore. */
  predicate IsWordChar(c: char) {
    IsUpper(c) || IsLowerLetter(c) || IsDigit(c) || c == '_'
  }

  /** `str.isspace`, `\s` and the separators of `str.split()`. */
  predicate IsSpace(c: char) {
    || '\t' <= c <= '\r'
    || '\U{1C}' <= c <= ' '
    || c == '\U{85}' || c == '\U{A0}' || c == '\U{1680}'
    || '\U{2000}' <= c <= '\U{200A}'
    || c == '\U{2028}' || c == '\U{2029}' || c == '\U{202F}'
    || c == '\U{205F}' || c == '\U{3000}'
  }

  /**
   * `str.lower` on one character (ASCII letters only): a capital becomes the
   * small letter at the same place in the alphabet, and only capitals change.
   */
  function Lower(c: char): (r: char)
    ensures !IsUpper(r)
    ensures r == c <==> !IsUpper(c)
    ensures IsUpper(c) ==> IsLowerLetter(r) && r as int - 'a' as int == c as int - 'A' as int
  {
    if IsUpper(c) then (c as int + 32) as char else c
  }

  /**
   * `str.lower` on a string: same length, no capital left, and each
   * character the same as before ignoring case.
   */
  function LowerString(s: string): (r: string)
    ensures |r| == |s|
    ensures forall k :: 0 <= k < |r| ==> !IsUpper(r[k]) && SameIgnoringCase(r[k], s[k])
  {
    seq(|s|, k requires 0 <= k < |s| => Lower(s[k]))
  }

  /** Characters equal under `re.IGNORECASE` (for the ASCII letters). */
  predicate SameIgnoringCase(a: char, b: char) {
    Lower(a) == Lower(b)
  }

  /** Strings of equal length that agree position by position ignoring case. */
  predicate EqualIgnoringCase(s: string, t: string) {
    |s| == |t| && forall k :: 0 <= k < |s| ==> SameIgnoringCase(s[k], t[k])
  }

  /**
   * `\b` at position `j` of `s` (0 <= j <= |s|): exactly one of the
   * characters on either side is a word character, the outside of the
   * string counting as a non-word character.
   */
  predicate BoundaryAt(s: string, j: nat)
    requires j <= |s|
  {
    (j > 0 && IsWordChar(s[j - 1])) != (j < |s| && IsWordChar(s[j]))
  }

  /** Lowering never produces or removes whitespace or word-ness. */
  lemma LowerKeepsClasses(c: char)
    ensures IsSpace(Lower(c)) == IsSpace(c)
    ensures IsWordChar(Lower(c)) == IsWordChar(c)
    ensures !IsUpper(Lower(c))
    ensures Lower(Lower(c)) == Lower(c)
  {
  }
}
