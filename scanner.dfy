/** `re.findall` for one of the two fixed-length anchored patterns.

    The specification lists the substring at every position where the
    pattern matches, in increasing position order, duplicates kept
    (`MatchesFrom`, `Matches`; the positions themselves are
    `MatchStartsFrom`). The implementation `FindAll` is the scan the regex
    engine performs: try the pattern at the current position, on success
    record the match and resume right after it, on failure move on by one.
    Because anchored matches never overlap (`Patterns.NoOverlap`), skipping
    past a match loses nothing and the two agree. */
module Scanner {
  import opened Chars
  import opened Patterns

  /** Every position `i >= k` at which `p` matches in `s`, increasing. */
  function MatchStartsFrom(p: Pattern, s: string, k: nat): (starts: seq<nat>)
    decreases |s| - k
    ensures forall n :: 0 <= n < |starts| ==> k <= starts[n] && MatchAt(p, s, starts[n])
    ensures forall i :: k <= i && MatchAt(p, s, i) ==> i in starts
    ensures forall n, m :: 0 <= n < m < |starts| ==> starts[n] < starts[m]
  {
    if |s| < k + Length(p) then []
    else if MatchAt(p, s, k) then [k] + MatchStartsFrom(p, s, k + 1)
    else MatchStartsFrom(p, s, k + 1)
  }

  /** The substring at every position `i >= k` at which `p` matches in
      `s`, in increasing position order. */
  function MatchesFrom(p: Pattern, s: string, k: nat): seq<string>
    decreases |s| - k
  {
    if |s| < k + Length(p) then []
    else (if MatchAt(p, s, k) then [s[k..k + Length(p)]] else []) + MatchesFrom(p, s, k + 1)
  }

  /** What `re.findall` returns for `p` on `s`. */
  function Matches(p: Pattern, s: string): seq<string> {
    MatchesFrom(p, s, 0)
  }

  /** Every returned string has the shape of the pattern (and so its
      length). */
  lemma {:induction false} MatchesHaveShape(p: Pattern, s: string, k: nat)
    decreases |s| - k
    ensures forall t :: t in MatchesFrom(p, s, k) ==> |t| == Length(p) && HasShape(p, t)
  {
    if |s| >= k + Length(p) {
      MatchesHaveShape(p, s, k + 1);
    }
  }

  /** `found[n]` is the slice of `s` of length `len` at `starts[n]`, for
      every `n`. */
  predicate SlicesAt(s: string, starts: seq<nat>, found: seq<string>, len: nat) {
    && |found| == |starts|
    && forall n :: 0 <= n < |starts| ==>
         starts[n] + len <= |s| && found[n] == s[starts[n]..starts[n] + len]
  }

  /** The n-th match is the slice of `s` at the n-th match position: every
      returned string is a contiguous piece of the text, and they come in
      the order of their positions. */
  lemma {:induction false} MatchesAreSlicesAtStarts(p: Pattern, s: string, k: nat)
    decreases |s| - k
    ensures SlicesAt(s, MatchStartsFrom(p, s, k), MatchesFrom(p, s, k), Length(p))
  {
    var starts, found := MatchStartsFrom(p, s, k), MatchesFrom(p, s, k);
    if |s| >= k + Length(p) {
      MatchesAreSlicesAtStarts(p, s, k + 1);
      var starts', found' := MatchStartsFrom(p, s, k + 1), MatchesFrom(p, s, k + 1);
      if MatchAt(p, s, k) {
        assert starts == [k] + starts';
        assert found == [s[k..k + Length(p)]] + found';
        SlicesAtCons(s, k, starts', found', Length(p));
      } else {
        assert starts == starts' && found == found';
      }
    }
  }

  lemma SlicesAtCons(s: string, k: nat, starts: seq<nat>, found: seq<string>, len: nat)
    requires k + len <= |s| && SlicesAt(s, starts, found, len)
    ensures SlicesAt(s, [k] + starts, [s[k..k + len]] + found, len)
  {
    var starts', found' := [k] + starts, [s[k..k + len]] + found;
    forall n | 0 < n < |starts'|
      ensures starts'[n] + len <= |s| && found'[n] == s[starts'[n]..starts'[n] + len]
    {
      assert starts'[n] == starts[n - 1] && found'[n] == found[n - 1];
    }
  }

  /** Positions where nothing matches contribute nothing. */
  lemma {:induction false} SkipNonMatching(p: Pattern, s: string, a: nat, b: nat)
    requires a <= b
    requires forall i :: a <= i < b ==> !MatchAt(p, s, i)
    decreases b - a
    ensures MatchesFrom(p, s, a) == MatchesFrom(p, s, b)
  {
    if a < b && |s| >= a + Length(p) {
      SkipNonMatching(p, s, a + 1, b);
    }
  }

  /** No match starts strictly inside another one. */
  lemma NothingInsideMatch(p: Pattern, s: string, k: nat)
    requires MatchAt(p, s, k)
    ensures forall i :: k < i < k + Length(p) ==> !MatchAt(p, s, i)
  {
    forall i | k < i < k + Length(p)
      ensures !MatchAt(p, s, i)
    {
      if MatchAt(p, s, i) {
        NoOverlap(p, s, k, i);
      }
    }
  }

  /** After a match at `k` the next one can only start at `k + Length(p)`
      or later, so resuming there loses nothing. */
  lemma JumpPastMatch(p: Pattern, s: string, k: nat)
    requires MatchAt(p, s, k)
    ensures MatchesFrom(p, s, k) == [s[k..k + Length(p)]] + MatchesFrom(p, s, k + Length(p))
  {
    NothingInsideMatch(p, s, k);
    SkipNonMatching(p, s, k + 1, k + Length(p));
    assert MatchesFrom(p, s, k) == [s[k..k + Length(p)]] + MatchesFrom(p, s, k + 1);
  }

  /** The greedy left-to-right scan of `re.findall`. */
  method FindAll(p: Pattern, s: string) returns (found: seq<string>)
    ensures found == Matches(p, s)
  {
    found := [];
    var pos := 0;
    while pos + Length(p) <= |s|
      invariant pos <= |s|
      invariant found + MatchesFrom(p, s, pos) == Matches(p, s)
      decreases |s| - pos
    {
      if MatchAt(p, s, pos) {
        var t := s[pos..pos + Length(p)];
        ghost var rest := MatchesFrom(p, s, pos + Length(p));
        assert (found + [t]) + rest == found + ([t] + rest);
        JumpPastMatch(p, s, pos);
        found := found + [t];
        pos := pos + Length(p);
      } else {
        assert MatchesFrom(p, s, pos) == MatchesFrom(p, s, pos + 1);
        pos := pos + 1;
      }
    }
  }

  /** Non-overlapping matches of length `Length(p)` fit in the text. */
  lemma {:induction false} MatchCountBound(p: Pattern, s: string, k: nat)
    requires k <= |s|
    decreases |s| - k
    ensures |MatchesFrom(p, s, k)| * Length(p) <= |s| - k
  {
    if |s| >= k + Length(p) {
      if MatchAt(p, s, k) {
        JumpPastMatch(p, s, k);
        MatchCountBound(p, s, k + Length(p));
      } else {
        MatchCountBound(p, s, k + 1);
      }
    }
  }

  /** The result is empty exactly when the pattern matches nowhere in the
      text (so in particular for the empty text). */
  lemma EmptyIffNoMatch(p: Pattern, s: string)
    ensures Matches(p, s) == [] <==> forall i :: !MatchAt(p, s, i)
  {
    if forall i :: !MatchAt(p, s, i) {
      SkipNonMatching(p, s, 0, |s|);
    } else {
      var i :| MatchAt(p, s, i);
      MatchesAreSlicesAtStarts(p, s, 0);
      assert i in MatchStartsFrom(p, s, 0);
    }
  }

  /** A match lying wholly before a separator is a match of the text up
      to the separator, and the other way round. */
  lemma MatchBeforeSeparator(p: Pattern, s1: string, c: char, s2: string, i: nat)
    requires IsSeparator(c) && i + Length(p) <= |s1|
    ensures MatchAt(p, s1 + [c] + s2, i) <==> MatchAt(p, s1, i)
    ensures (s1 + [c] + s2)[i..i + Length(p)] == s1[i..i + Length(p)]
  {
    var s := s1 + [c] + s2;
    assert s[..|s1|] == s1;
    assert s[i..i + Length(p)] == s1[i..i + Length(p)];
  }

  /** No match covers a separator. */
  lemma NoMatchOverSeparator(p: Pattern, s1: string, c: char, s2: string, i: nat)
    requires IsSeparator(c) && i <= |s1| < i + Length(p)
    ensures !MatchAt(p, s1 + [c] + s2, i)
  {
    var s := s1 + [c] + s2;
    if MatchAt(p, s, i) {
      assert s[i..i + Length(p)][|s1| - i] == c;
      ShapeHasNoSeparator(p, s[i..i + Length(p)], |s1| - i);
    }
  }

  /** A match lying wholly after a separator is a match of the text that
      follows the separator, shifted, and the other way round. */
  lemma MatchAfterSeparator(p: Pattern, s1: string, c: char, s2: string, j: nat)
    requires IsSeparator(c)
    ensures MatchAt(p, s1 + [c] + s2, |s1| + 1 + j) <==> MatchAt(p, s2, j)
    ensures j + Length(p) <= |s2| ==>
              (s1 + [c] + s2)[|s1| + 1 + j..|s1| + 1 + j + Length(p)] == s2[j..j + Length(p)]
  {
    var s := s1 + [c] + s2;
    assert s[|s1| + 1..] == s2;
    if j + Length(p) <= |s2| {
      assert s[|s1| + 1 + j..|s1| + 1 + j + Length(p)] == s2[j..j + Length(p)];
    }
  }

  lemma {:induction false} MatchesBeforeSeparator(p: Pattern, s1: string, c: char, s2: string, k: nat)
    requires IsSeparator(c) && k <= |s1| + 1
    decreases |s1| + 1 - k
    ensures MatchesFrom(p, s1 + [c] + s2, k) == MatchesFrom(p, s1, k) + MatchesFrom(p, s1 + [c] + s2, |s1| + 1)
  {
    var s := s1 + [c] + s2;
    var after := MatchesFrom(p, s, |s1| + 1);
    if |s1| < k + Length(p) {
      NothingBeforeSeparator(p, s1, c, s2, k);
    } else {
      MatchesBeforeSeparator(p, s1, c, s2, k + 1);
      StepBeforeSeparator(p, s1, c, s2, k, after);
    }
  }

  /** Within the last `Length(p)` positions before a separator nothing
      matches. */
  lemma NothingBeforeSeparator(p: Pattern, s1: string, c: char, s2: string, k: nat)
    requires IsSeparator(c) && k <= |s1| + 1 && |s1| < k + Length(p)
    ensures MatchesFrom(p, s1, k) == []
    ensures MatchesFrom(p, s1 + [c] + s2, k) == MatchesFrom(p, s1 + [c] + s2, |s1| + 1)
  {
    var s := s1 + [c] + s2;
    forall i | k <= i < |s1| + 1
      ensures !MatchAt(p, s, i)
    {
      NoMatchOverSeparator(p, s1, c, s2, i);
    }
    SkipNonMatching(p, s, k, |s1| + 1);
  }

  lemma StepBeforeSeparator(p: Pattern, s1: string, c: char, s2: string, k: nat, after: seq<string>)
    requires IsSeparator(c) && k + Length(p) <= |s1|
    requires MatchesFrom(p, s1 + [c] + s2, k + 1) == MatchesFrom(p, s1, k + 1) + after
    ensures MatchesFrom(p, s1 + [c] + s2, k) == MatchesFrom(p, s1, k) + after
  {
    var s := s1 + [c] + s2;
    MatchBeforeSeparator(p, s1, c, s2, k);
    var head, rest := if MatchAt(p, s1, k) then [s1[k..k + Length(p)]] else [], MatchesFrom(p, s1, k + 1);
    assert MatchesFrom(p, s, k) == head + (rest + after);
    assert head + (rest + after) == (head + rest) + after;
  }

  lemma {:induction false} MatchesAfterSeparator(p: Pattern, s1: string, c: char, s2: string, j: nat)
    requires IsSeparator(c)
    decreases |s2| - j
    ensures MatchesFrom(p, s1 + [c] + s2, |s1| + 1 + j) == MatchesFrom(p, s2, j)
  {
    var s, i := s1 + [c] + s2, |s1| + 1 + j;
    if j + Length(p) <= |s2| {
      MatchAfterSeparator(p, s1, c, s2, j);
      MatchesAfterSeparator(p, s1, c, s2, j + 1);
      assert i + 1 == |s1| + 1 + (j + 1);
      var head := if MatchAt(p, s, i) then [s[i..i + Length(p)]] else [];
      assert MatchesFrom(p, s, i) == head + MatchesFrom(p, s, i + 1);
      assert MatchesFrom(p, s2, j) == head + MatchesFrom(p, s2, j + 1);
    } else {
      assert |s| < i + Length(p);
    }
  }

  /** Matches never reach across a separator (a space, a comma, a full
      stop, ...): the matches of a text are those of the part before the
      separator followed by those of the part after it. */
  lemma SplitAtSeparator(p: Pattern, s1: string, c: char, s2: string)
    requires IsSeparator(c)
    ensures Matches(p, s1 + [c] + s2) == Matches(p, s1) + Matches(p, s2)
  {
    MatchesBeforeSeparator(p, s1, c, s2, 0);
    MatchesAfterSeparator(p, s1, c, s2, 0);
  }

  /** A text that is exactly one match yields exactly itself. */
  lemma WholeTextMatch(p: Pattern, t: string)
    requires HasShape(p, t)
    ensures Matches(p, t) == [t]
  {
    assert t[0..Length(p)] == t;
    MatchAtAnchored(p, t, 0);
    assert MatchAt(p, t, 0);
    assert MatchesFrom(p, t, 1) == [];
  }

  /** Matches are reported in text order and a repeated one is reported
      again: two copies of a match separated by a separator yield it twice. */
  lemma RepeatedMatchKept(p: Pattern, t: string, c: char)
    requires HasShape(p, t) && IsSeparator(c)
    ensures Matches(p, t + [c] + t) == [t, t]
  {
    WholeTextMatch(p, t);
    SplitAtSeparator(p, t, c, t);
  }
}
