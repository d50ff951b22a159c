/** Character classes used by the two journal patterns: `\d` (a decimal
    digit), `\w` (a word character) and the zero-width `\b` (a word
    boundary). The classes are the ASCII ones. */
module Chars {

  /** `\d` */
  predicate IsDigit(c: char) {
    '0' <= c <= '9'
  }

  /** `\w`: a letter, a digit or the underscore. */
  predicate IsWordChar(c: char) {
    ('a' <= c <= 'z') || ('A' <= c <= 'Z') || IsDigit(c) || c == '_'
  }

  /** The character just before position `k` exists and is a word character. */
  predicate WordBefore(s: string, k: nat)
    requires k <= |s|
  {
    0 < k && IsWordChar(s[k - 1])
  }

  /** The character at position `k` exists and is a word character. */
  predicate WordAfter(s: string, k: nat)
    requires k <= |s|
  {
    k < |s| && IsWordChar(s[k])
  }

  /** `\b` at position `k` (0 <= k <= |s|): a word character on exactly one
      side, the ends of the text counting as non-word. */
  predicate Boundary(s: string, k: nat)
    requires k <= |s|
  {
    WordBefore(s, k) != WordAfter(s, k)
  }
}
