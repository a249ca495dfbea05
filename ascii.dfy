/** Character classes used by the scripts, restricted to ASCII. */
module Ascii {

  /** Python's `str.isspace()` on the ASCII range: space, tab, line feed,
      vertical tab, form feed, carriage return and the four separators
      U+001C..U+001F. */
  predicate IsSpace(c: char)
  {
    c == ' ' || 9 <= c as int <= 13 || 28 <= c as int <= 31
  }

  /** The decimal digits `0`..`9` (what `\d` matches on ASCII input). */
  predicate IsDigit(c: char)
  {
    '0' <= c <= '9'
  }

  /** `str.lower()` on one ASCII character. */
  function LowerChar(c: char): char
  {
    if 'A' <= c <= 'Z' then (c as int + 32) as char else c
  }

  /** `str.lower()` on ASCII text. */
  function Lower(s: string): string
  {
    seq(|s|, i requires 0 <= i < |s| => LowerChar(s[i]))
  }
}
