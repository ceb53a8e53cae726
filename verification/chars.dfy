/** Character classes used by the regular expressions of the text pipeline.
    The classes are ASCII: `\d` is 0-9, `\w` is letters, digits and `_`,
    and `\s` is the six ASCII white-space characters. */
module Chars {

  predicate IsDigit(c: char) { '0' <= c <= '9' }

  predicate IsUpper(c: char) { 'A' <= c <= 'Z' }

  predicate IsLower(c: char) { 'a' <= c <= 'z' }

  /** `\w` */
  predicate IsWordChar(c: char) { IsDigit(c) || IsUpper(c) || IsLower(c) || c == '_' }

  /** `\s`: space, tab, line feed, vertical tab, form feed, carriage return. */
  predicate IsSpace(c: char) { c == ' ' || c == '\t' || c == '\n' || c == '\r' || c == '\U{B}' || c == '\U{C}' }

  /** Sentence terminators `.`, `!` and `?`. */
  predicate IsTerminator(c: char) { c == '.' || c == '!' || c == '?' }

  /** The characters removed from answers and corpus words: `.,;!?()"`. */
  predicate IsStripped(c: char) {
    c == '.' || c == ',' || c == ';' || c == '!' || c == '?' || c == '(' || c == ')' || c == '"'
  }

  /** Control characters U+0000 to U+001F and U+007F. */
  predicate IsControl(c: char) { c <= '\U{1F}' || c == '\U{7F}' }

  /** ASCII `toLowerCase` of one character. */
  function ToLower(c: char): (r: char)
    ensures IsUpper(c) ==> IsLower(r) && r as int - c as int == 32
    ensures !IsUpper(c) ==> r == c
    ensures !IsUpper(r)
  {
    if IsUpper(c) then (c as int + 32) as char else c
  }

  /** ASCII `toUpperCase` of one character. */
  function ToUpper(c: char): (r: char)
    ensures IsLower(c) ==> IsUpper(r) && c as int - r as int == 32
    ensures !IsLower(c) ==> r == c
    ensures !IsLower(r)
  {
    if IsLower(c) then (c as int - 32) as char else c
  }

  /** The value of a decimal digit. */
  function DigitValue(c: char): (r: nat)
    requires IsDigit(c)
    ensures r < 10
    ensures c == '0' + r as char
  {
    (c as int - '0' as int) as nat
  }

  /** The decimal digit of a value below ten. */
  function DigitChar(d: nat): (r: char)
    requires d < 10
    ensures IsDigit(r)
    ensures DigitValue(r) == d
  {
    ('0' as int + d) as char
  }
}
