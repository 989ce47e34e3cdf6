/** Character classes used by the text normaliser and the heading filters.
    The classes are the ASCII parts of the Unicode classes the original code
    relies on (`\s`, `str.isspace`, letters, cased characters). */
module Chars {

  /** `\s` of the regular expressions and `str.isspace`, restricted to ASCII:
      space, the controls tab, line feed, vertical tab, form feed and
      carriage return (U+0009 to U+000D), and the four separators U+001C to
      U+001F, which Python also counts as whitespace. */
  predicate IsWhitespace(c: char) {
    c == ' ' || ('\t' <= c <= '\r') || ('\U{001C}' <= c <= '\U{001F}')
  }

  /** The bullet characters stripped from the start of a line: • * - · ◦ ● */
  predicate IsBullet(c: char) {
    c == '\U{2022}' || c == '*' || c == '-' || c == '\U{00B7}' || c == '\U{25E6}' || c == '\U{25CF}'
  }

  predicate IsBulletOrWhitespace(c: char) {
    IsBullet(c) || IsWhitespace(c)
  }

  predicate IsUpperChar(c: char) {
    'A' <= c <= 'Z'
  }

  predicate IsLowerChar(c: char) {
    'a' <= c <= 'z'
  }

  /** A "word" character of `\w` that is neither a digit nor `_`. */
  predicate IsLetter(c: char) {
    IsUpperChar(c) || IsLowerChar(c)
  }

  function ToLowerChar(c: char): (r: char)
    ensures IsUpperChar(c) ==> IsLowerChar(r)
    ensures !IsUpperChar(c) ==> r == c
    ensures IsWhitespace(r) <==> IsWhitespace(c)
    ensures !IsUpperChar(r)
  {
    if IsUpperChar(c) then (c as int + 32) as char else c
  }

  /** `str.lower`, character by character. */
  function Lower(s: string): (r: string)
    ensures |r| == |s|
    ensures forall i :: 0 <= i < |s| ==> r[i] == ToLowerChar(s[i])
  {
    seq(|s|, i requires 0 <= i < |s| => ToLowerChar(s[i]))
  }

  predicate HasLetter(s: string) {
    exists i :: 0 <= i < |s| && IsLetter(s[i])
  }

  /** `str.isupper`: at least one cased character and no lower-case one. */
  predicate IsUpperText(s: string) {
    (exists i :: 0 <= i < |s| && IsUpperChar(s[i])) &&
    forall i :: 0 <= i < |s| ==> !IsLowerChar(s[i])
  }

  lemma LetterIsNotWhitespace(c: char)
    ensures IsLetter(c) ==> !IsWhitespace(c) && !IsBullet(c)
  {
  }

  /** Lower-casing is idempotent. */
  lemma LowerIdempotent(s: string)
    ensures Lower(Lower(s)) == Lower(s)
  {
  }
}
