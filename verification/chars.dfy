/** Character classes used by the colour patterns, and the digit values that
    Python's `int(...)` and format specifiers give them. Only ASCII digits are
    recognised; see README for the Unicode digits this leaves out. */
module CharClass {

  /** `\d` restricted to ASCII, and the `[0-9]` of the hex patterns. */
  predicate IsDigit(c: char) {
    '0' <= c <= '9'
  }

  /** `[0-9a-f]`, the first hex alternative of the scanner. */
  predicate IsLowerHex(c: char) {
    IsDigit(c) || 'a' <= c <= 'f'
  }

  /** `[0-9A-F]`, the second hex alternative of the scanner. */
  predicate IsUpperHex(c: char) {
    IsDigit(c) || 'A' <= c <= 'F'
  }

  /** A digit that `int(_, 16)` accepts, in either case. */
  predicate IsHexDigit(c: char) {
    IsLowerHex(c) || IsUpperHex(c)
  }

  /** `\s` on a `str`: the characters for which `str.isspace()` holds. */
  predicate IsSpace(c: char) {
    || '\U{9}' <= c <= '\U{D}'
    || '\U{1C}' <= c <= '\U{20}'
    || c == '\U{85}' || c == '\U{A0}' || c == '\U{1680}'
    || '\U{2000}' <= c <= '\U{200A}'
    || c == '\U{2028}' || c == '\U{2029}' || c == '\U{202F}'
    || c == '\U{205F}' || c == '\U{3000}'
  }

  /** The whitespace `int()` strips around a number: the characters of
      `str.isspace()` except the separators U+001C..U+001F, which `int()`
      does not count as space. */
  predicate IsIntSpace(c: char) {
    IsSpace(c) && !('\U{1C}' <= c <= '\U{1F}')
  }

  function DigitValue(c: char): (v: nat)
    requires IsDigit(c)
    ensures v < 10
  {
    c as int - '0' as int
  }

  function HexValue(c: char): (v: nat)
    requires IsHexDigit(c)
    ensures v < 16
    ensures IsDigit(c) ==> v == DigitValue(c)
  {
    if IsDigit(c) then DigitValue(c)
    else if 'a' <= c <= 'f' then c as int - 'a' as int + 10
    else c as int - 'A' as int + 10
  }

  /** The digit `str(n)` writes for a single decimal digit. */
  function DigitChar(n: nat): (c: char)
    requires n < 10
    ensures IsDigit(c) && DigitValue(c) == n
  {
    ('0' as int + n) as char
  }

  /** The digit the `x` format writes: always lower case. */
  function HexChar(n: nat): (c: char)
    requires n < 16
    ensures IsLowerHex(c) && !('A' <= c <= 'F')
    ensures HexValue(c) == n
  {
    if n < 10 then DigitChar(n) else ('a' as int + n - 10) as char
  }
}
