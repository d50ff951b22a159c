/** The two fixed-length patterns of the journal extractors and what it
    means for one of them to match at a position of the journal text:

      JournalDate   \b\d{2}/\d{2}/\d{4}\b
      SecretCode    \bAZMAR-\d{3}\b

    Neither pattern has alternatives or repetition of variable length, so
    trying it at a position either matches exactly `Length(p)` characters
    or fails; `MatchAt` is that trial. */
module Patterns {
  import opened Chars

  datatype Pattern = JournalDate | SecretCode

  /** The literal part of a secret code. */
  const CodePrefix: string := "AZMAR-"

  /** Number of characters every match of `p` spans. */
  function Length(p: Pattern): (n: nat)
    ensures n > 0
  {
    match p
    case JournalDate => 10
    case SecretCode => 9
  }

  /** `\d{2}/\d{2}/\d{4}`, with no calendar check. */
  predicate IsDateText(t: string) {
    && |t| == 10
    && IsDigit(t[0]) && IsDigit(t[1]) && t[2] == '/'
    && IsDigit(t[3]) && IsDigit(t[4]) && t[5] == '/'
    && IsDigit(t[6]) && IsDigit(t[7]) && IsDigit(t[8]) && IsDigit(t[9])
  }

  /** `AZMAR-\d{3}` */
  predicate IsCodeText(t: string) {
    && |t| == 9
    && t[..6] == CodePrefix
    && IsDigit(t[6]) && IsDigit(t[7]) && IsDigit(t[8])
  }

  /** The text `t` is exactly the pattern without its two `\b` anchors. */
  predicate HasShape(p: Pattern, t: string) {
    match p
    case JournalDate => IsDateText(t)
    case SecretCode => IsCodeText(t)
  }

  /** Trying `p` at position `i` of `s` succeeds: a word boundary at `i`,
      the shape on `s[i..i + Length(p)]`, and a word boundary right after. */
  predicate MatchAt(p: Pattern, s: string, i: nat) {
    && i + Length(p) <= |s|
    && Boundary(s, i)
    && HasShape(p, s[i..i + Length(p)])
    && Boundary(s, i + Length(p))
  }

  /** A character that can never be part of a match and is not a word
      character (a space, a comma, a full stop, ...). */
  predicate IsSeparator(c: char) {
    !IsWordChar(c) && c != '/' && c != '-'
  }

  /** Both patterns begin and end with a word character, so the two `\b`
      anchors say exactly this: the character before the match and the
      character after it, where they exist, are not word characters. */
  lemma MatchAtAnchored(p: Pattern, s: string, i: nat)
    ensures MatchAt(p, s, i) <==>
      && i + Length(p) <= |s|
      && HasShape(p, s[i..i + Length(p)])
      && (i == 0 || !IsWordChar(s[i - 1]))
      && (i + Length(p) == |s| || !IsWordChar(s[i + Length(p)]))
  {
    var n := Length(p);
    if i + n <= |s| && HasShape(p, s[i..i + n]) {
      var t := s[i..i + n];
      assert t[0] == s[i] && t[n - 1] == s[i + n - 1];
      assert IsWordChar(t[0]) && IsWordChar(t[n - 1]) by {
        if p.SecretCode? {
          assert t[0] == t[..6][0] == 'A';
        }
      }
    }
  }

  /** Every character of a match is a word character or one of `/` and `-`;
      in particular none is a separator. */
  lemma ShapeHasNoSeparator(p: Pattern, t: string, k: nat)
    requires HasShape(p, t) && k < |t|
    ensures !IsSeparator(t[k])
  {
    if p.SecretCode? && k < 6 {
      assert t[k] == t[..6][k] == CodePrefix[k];
    }
  }

  /** Two anchored matches of the same pattern never overlap. A match
      starting inside an earlier one needs a non-word character just
      before it, and inside a date only the two `/` are non-word (offsets
      3 and 6 would put a `/` of the later match on a digit of the earlier
      one), inside a code only the `-` is (and it is followed by a digit,
      not by `A`). */
  lemma NoOverlap(p: Pattern, s: string, i: nat, j: nat)
    requires MatchAt(p, s, i) && MatchAt(p, s, j) && i < j
    ensures i + Length(p) <= j
  {
    var n := Length(p);
    if j < i + n {
      MatchAtAnchored(p, s, j);
    }
  }
}
