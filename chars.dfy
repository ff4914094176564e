/**
 * Character classes of Python 3 `str` methods, restricted to the Latin-1 range
 * U+0000..U+00FF, where they can be written out exactly.
 */
module Chars {

  /** A character in U+0000..U+00FF. */
  type Latin1 = c: char | c as int < 256 witness 'a'

  /** A Python string whose characters are all in the Latin-1 range. */
  type Text = seq<Latin1>

  predicate IsAsciiLower(c: char) { 'a' <= c <= 'z' }

  predicate IsAsciiUpper(c: char) { 'A' <= c <= 'Z' }

  /** The 52 keys of the shift table: `string.ascii_lowercase + string.ascii_uppercase`. */
  predicate IsAsciiLetter(c: char) { IsAsciiLower(c) || IsAsciiUpper(c) }

  /**
   * `str.isalpha` of a one-character string: the Unicode letter categories
   * (Lu, Ll, Lt, Lm, Lo), which in Latin-1 are the ASCII letters, U+00AA, U+00B5,
   * U+00BA and U+00C0..U+00FF except U+00D7 and U+00F7.
   */
  predicate IsAlpha(c: Latin1) {
    || IsAsciiLetter(c)
    || c as int == 0xAA || c as int == 0xB5 || c as int == 0xBA
    || (0xC0 <= c as int <= 0xFF && c as int != 0xD7 && c as int != 0xF7)
  }

  /** A letter that `str.isalpha` accepts but that has no entry in the shift table. */
  predicate IsForeignLetter(c: Latin1) { IsAlpha(c) && !IsAsciiLetter(c) }

  /**
   * `str.isspace` of a one-character string, the separator class of `str.split()`:
   * U+0009..U+000D, U+001C..U+0020, U+0085 and U+00A0.
   */
  predicate IsSpace(c: Latin1) {
    9 <= c as int <= 13 || 28 <= c as int <= 32 || c as int == 0x85 || c as int == 0xA0
  }

  /** The capitals of Latin-1: A..Z and U+00C0..U+00DE except U+00D7. */
  predicate IsCapital(c: Latin1) {
    IsAsciiUpper(c) || (0xC0 <= c as int <= 0xDE && c as int != 0xD7)
  }

  /**
   * `str.lower` of a one-character string: a capital moves 32 code points up to its
   * small letter; everything else is its own lower case.
   */
  function LowerChar(c: Latin1): (r: Latin1)
    ensures !IsAlpha(c) ==> r == c
    ensures IsAlpha(r) == IsAlpha(c) && IsSpace(r) == IsSpace(c)
    ensures IsAsciiLetter(c) ==> IsAsciiLower(r) && (r == c || r as int == c as int + 32)
    ensures IsAsciiLetter(r) ==> IsAsciiLetter(c)
    ensures !IsCapital(r)
    ensures IsCapital(c) ==> r as int == c as int + 32
    ensures !IsCapital(c) ==> r == c
  {
    if IsCapital(c) then
      (c as int + 32) as char
    else
      c
  }
}
