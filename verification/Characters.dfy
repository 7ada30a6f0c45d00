/** Characters the text codecs single out. A text is a string of bytes. */
module Characters {

  const NUL: char := 0 as char
  const BS: char := 8 as char
  const VT: char := 11 as char
  const FF: char := 12 as char

  /** isspace in the C locale. */
  predicate IsSpace(c: char) {
    c == ' ' || c == '\t' || c == '\n' || c == VT || c == FF || c == '\r'
  }

  predicate IsHex(c: char) {
    '0' <= c <= '9' || 'a' <= c <= 'f' || 'A' <= c <= 'F'
  }

  function HexValue(c: char): (n: nat)
    requires IsHex(c)
    ensures n < 16
  {
    if c <= '9' then c as int - '0' as int else if c <= 'F' then c as int - 'A' as int + 10 else c as int - 'a' as int + 10
  }

  /** A lower-case hexadecimal digit. */
  function HexDigit(n: nat): (c: char)
    requires n < 16
    ensures IsHex(c) && HexValue(c) == n
  {
    if n < 10 then '0' + n as char else 'a' + (n - 10) as char
  }

  function Lower(c: char): char {
    if 'A' <= c <= 'Z' then 'a' + (c - 'A') else c
  }

  /** The same word but for the case of its letters. */
  predicate SameLetters(s: string, word: string) {
    |s| == |word| && forall i | 0 <= i < |s| :: Lower(s[i]) == Lower(word[i])
  }

  /** Leading white space skipped. */
  function SkipSpace(s: string): (r: string)
    ensures |r| <= |s| && (r != "" ==> !IsSpace(r[0]))
  {
    if s != "" && IsSpace(s[0]) then SkipSpace(s[1..]) else s
  }
}
