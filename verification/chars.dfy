/** Character classes used by the scanner and the literal decoder, and the
    `find_if` search they are used with. */
module Chars {

  /** The whitespace both `number_of_entries` and `trim` skip. */
  predicate IsSpace(c: char) {
    c == ' ' || c == '\t' || c == '\r' || c == '\n'
  }

  predicate IsDecimalDigit(c: char) {
    '0' <= c <= '9'
  }

  predicate IsLetter(c: char) {
    ('a' <= c <= 'z') || ('A' <= c <= 'Z')
  }

  /** `is_alnum_char` of the scanner: identifier characters, which here
      include `-` so that a negative value is picked up with its sign. */
  predicate IsIdentChar(c: char) {
    c == '_' || c == '-' || IsLetter(c) || IsDecimalDigit(c)
  }

  /** The characters of "0123456789abcdefABCDEFxX": what the decoder takes
      as the numeral before the suffix. */
  predicate IsNumeralChar(c: char) {
    IsDecimalDigit(c) || ('a' <= c <= 'f') || ('A' <= c <= 'F') || c == 'x' || c == 'X'
  }

  predicate IsSign(c: char) {
    c == '+' || c == '-'
  }

  predicate AllLetters(s: string) {
    forall i | 0 <= i < |s| :: IsLetter(s[i])
  }

  predicate AllSpaces(s: string) {
    forall i | 0 <= i < |s| :: IsSpace(s[i])
  }

  /** `std::ranges::find_if`: the index of the first element satisfying `p`,
      or `|s|` (the end iterator) when there is none. */
  function FindFirst(s: string, p: char -> bool): (i: nat)
    ensures i <= |s|
    ensures forall j | 0 <= j < i :: !p(s[j])
    ensures i < |s| ==> p(s[i])
  {
    if s == [] then 0
    else if p(s[0]) then 0
    else 1 + FindFirst(s[1..], p)
  }
}
