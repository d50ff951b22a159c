# Journal extractors of the Lost Temple of Azmar expedition script

The expedition script (`adventure.py`) reads Dr. Reed's journal and pulls
two kinds of tokens out of its text with `re.findall`:

- `extract_journal_dates`: every date written `\b\d{2}/\d{2}/\d{4}\b`,
  for example `05/21/1920`;
- `extract_secret_codes`: every secret code written `\bAZMAR-\d{3}\b`,
  for example `AZMAR-042`.

This project models those two extractors and proves what they return.
There is no regex engine here. Both patterns have a fixed length, so they
become a hand-written scanner over `string` (`seq<char>`):

- `chars.dfy` (module `Chars`): the classes `\d` and `\w` and the
  zero-width word boundary `\b`.
- `patterns.dfy` (module `Patterns`): the two patterns.
  - `MatchAt(p, s, i)` means the regex engine's attempt at position `i`
    succeeds: a `\b`, the fixed shape, then another `\b`.
  - The main lemma, `NoOverlap`, shows that two anchored matches of the
    same pattern never overlap.
- `scanner.dfy` (module `Scanner`): `re.findall` for one pattern.
  - The specification `Matches` lists the substring at every position where
    the pattern matches, in increasing order, with duplicates kept.
    `MatchStartsFrom` lists those positions.
  - The method `FindAll` is the engine's scan, a `while` loop. It tries the
    pattern at the current position. On success it records the match and
    resumes right after it; on failure it moves on by one.
  - `FindAll` is proved to return exactly `Matches`: because matches never
    overlap, jumping past a match skips nothing.
  - The loop stops once fewer characters remain than one match needs.
    Python's loop runs up to the end of the text, but no match can start in
    that tail, so the result is the same.
- `adventure.dfy` (module `Adventure`): the two extractors, each a call to
  `FindAll` with its pattern, plus concrete cases.

Each extractor's result is fixed by its input (`ensures dates ==
Matches(JournalDate, journalText)`). So calling it twice on the same text
gives the same list.

## Model

| member | source | states |
|---|---|---|
| `Chars.IsDigit` | adventure.py:47 | Defines `\d` as the ASCII digits `0`-`9`. Both patterns use it, at line 47 and line 60. |
| `Chars.IsWordChar` | adventure.py:47 | Defines `\w`, the class that `\b` tests: an ASCII letter, a digit or `_`. |
| `Chars.Boundary` | adventure.py:47 | Defines `\b` at a position `k` from 0 to the text length: exactly one of the characters before and after `k` is a word character. A missing character at either end of the text counts as non-word. |
| `Patterns.IsDateText` | adventure.py:47 | Defines the body `\d{2}/\d{2}/\d{4}` of the date pattern: ten characters, digits at offsets 0, 1, 3, 4 and 6-9, `/` at offsets 2 and 5. |
| `Patterns.IsCodeText` | adventure.py:60 | Defines the body `AZMAR-\d{3}` of the code pattern: nine characters, the literal `AZMAR-` followed by three digits. |
| `Patterns.MatchAt` | adventure.py:47-60 | Defines one attempt of the regex engine at position `i`. It needs a `\b` at `i`, the pattern body on the next `Length(p)` characters (10 for a date, 9 for a code), and a `\b` right after them. |
| `Scanner.MatchesFrom` | adventure.py:47-60 | Defines the substrings at every position `k` or later where the pattern matches, in increasing position order, duplicates kept. |
| `Scanner.Matches` | adventure.py:47-60 | Defines the list `re.findall` returns: `MatchesFrom` starting at position 0. |
| `Patterns.MatchAtAnchored` | adventure.py:47-60 | A match at `i` holds exactly when the shape occupies `s[i..i+len]`, the character before it (if any) is not a word character, and the character after it (if any) is not one either. Both directions are proved. |
| `Patterns.ShapeHasNoSeparator` | adventure.py:47-60 | Every character of a date or a code is a word character, `/` or `-`. So a space, comma or full stop never lies inside a match. |
| `Patterns.NoOverlap` | adventure.py:47-60 | Two anchored matches of the same pattern at `i < j` satisfy `i + len <= j`: they never overlap. |
| `Scanner.MatchStartsFrom` | adventure.py:47-60 | The listed positions are all match positions at or after `k`. Every match position at or after `k` is listed. The list is strictly increasing. |
| `Scanner.MatchesHaveShape` | adventure.py:47-60 | Every returned string has the pattern's length and shape: ten characters `dd/dd/dddd`, or `AZMAR-` and three digits. |
| `Scanner.MatchesAreSlicesAtStarts` | adventure.py:47-60 | The n-th returned string is the contiguous slice of the text at the n-th match position. So results come in text order, one per match, duplicates kept. |
| `Scanner.NothingInsideMatch` | adventure.py:47-60 | No match starts strictly inside another match. |
| `Scanner.JumpPastMatch` | adventure.py:47-60 | After a match at `k`, the remaining results are that match followed by the results from `k + len`. Resuming after a match loses nothing. |
| `Scanner.FindAll` | adventure.py:47-60 | The greedy left-to-right scan of `re.findall` returns exactly the list of substrings at all anchored match positions (`Matches`). |
| `Scanner.MatchCountBound` | adventure.py:47-60 | Matches do not overlap, so the number of results times the match length is at most the length of the text. |
| `Scanner.EmptyIffNoMatch` | adventure.py:47-60 | The result is empty exactly when the pattern matches at no position. This covers the empty text and any text without a match. |
| `Scanner.SplitAtSeparator` | adventure.py:47-60 | The results for `a + [c] + b`, where `c` is neither a word character nor `/` or `-`, are the results for `a` followed by the results for `b`. |
| `Scanner.WholeTextMatch` | adventure.py:47-60 | A text that is exactly one date or one code yields a list holding just that text. |
| `Scanner.RepeatedMatchKept` | adventure.py:47-60 | Two copies of one match joined by a separator yield that match twice: order and duplicates are kept. |
| `Adventure.ExtractJournalDates` | adventure.py:37-47 | Returns the list of all anchored date matches of the journal text, in text order. Every element is `dd/dd/dddd`: ten characters, digits at 0,1,3,4,6-9 and `/` at 2 and 5. |
| `Adventure.ExtractSecretCodes` | adventure.py:50-60 | Returns the list of all anchored code matches of the journal text, in text order. Every element is `AZMAR-` followed by exactly three digits. |
| `Adventure.DateNeedsWordBoundaries` | adventure.py:47 | `112/03/1920` and `12/03/19201` yield no date: a digit glued to either end breaks the `\b` anchor. |
| `Adventure.DateIsNotValidated` | adventure.py:39-47 | `13/99/0000` is returned as a date. The documented MM/DD/YYYY reading is not checked against a calendar. |
| `Adventure.RejectedCodes` | adventure.py:52-60 | `AZMAR-12` (too few digits), `AZMAR-0001` (too many) and `XAZMAR-001` (a word character in front) yield no code. |

## Left out

- `load_artifact_data` (adventure.py:21) is not modelled. It is one call to `pandas.read_excel` (sheet `Main Chamber`, three rows skipped), and all of its parsing happens inside that library.
- `load_location_notes` (adventure.py:34) is not modelled. It is one call to `pandas.read_csv` with a tab separator, and all of its parsing happens inside that library.
- The `__main__` driver (adventure.py:62-102) is not modelled. It only opens files, prints tables and results, and reports `FileNotFoundError`; there is no logic in it to verify. The journal text it reads becomes the `journalText` parameter of the extractors.
- `\d` and `\w` are the ASCII classes: `0`-`9` for `\d`, and letters, digits and `_` for `\w`. Python 3 `str` patterns use the Unicode classes, so the model answers differently on text with non-ASCII letters or digits. Take `Matches(JournalDate, "é12/03/1920")`: the model returns `["12/03/1920"]`, but Python returns `[]`, because `é` is a Unicode `\w` and so there is no `\b` before the `1`. In the other direction, a date written in Arabic-Indic digits (`٠`-`٩`) matches in Python but not in the model. The non-overlap argument rests on four facts: digits are word characters, `/` and `-` are not, `A` is not a digit, and the letters of `AZMAR` are word characters. The Unicode classes satisfy all four, so `NoOverlap` and the agreement of `FindAll` with `Matches` would carry over unchanged.
- General regular-expression matching is not modelled, only these two fixed patterns.
