/** The two journal extractors of the expedition script. Each is
    `re.findall` of one fixed anchored pattern over the journal text. */
module Adventure {
  import opened Chars
  import opened Patterns
  import opened Scanner

  /** All dates written `\d{2}/\d{2}/\d{4}` as a whole word in the
      journal, left to right, duplicates kept. */
  method ExtractJournalDates(journalText: string) returns (dates: seq<string>)
    ensures dates == Matches(JournalDate, journalText)
    ensures forall d :: d in dates ==> IsDateText(d)
  {
    dates := FindAll(JournalDate, journalText);
    MatchesHaveShape(JournalDate, journalText, 0);
  }

  /** All secret codes `AZMAR-` + three digits written as a whole word in
      the journal, left to right, duplicates kept. */
  method ExtractSecretCodes(journalText: string) returns (codes: seq<string>)
    ensures codes == Matches(SecretCode, journalText)
    ensures forall c :: c in codes ==> IsCodeText(c)
  {
    codes := FindAll(SecretCode, journalText);
    MatchesHaveShape(SecretCode, journalText, 0);
  }

  /** A date glued to a further digit on either side is not a date:
      nothing is found in `112/03/1920` nor in `12/03/19201`. */
  lemma DateNeedsWordBoundaries()
    ensures Matches(JournalDate, "112/03/1920") == []
    ensures Matches(JournalDate, "12/03/19201") == []
  {
    var s := "112/03/1920";
    assert !MatchAt(JournalDate, s, 0) by { assert s[0..10][2] == '2'; }
    assert !MatchAt(JournalDate, s, 1) by { assert IsWordChar(s[0]); }
    assert MatchesFrom(JournalDate, s, 2) == [];
    var u := "12/03/19201";
    assert !MatchAt(JournalDate, u, 0) by { assert IsWordChar(u[10]); }
    assert !MatchAt(JournalDate, u, 1) by { assert u[1..11][2] == '0'; }
    assert MatchesFrom(JournalDate, u, 2) == [];
  }

  /** The month and day are not checked against a calendar. */
  lemma DateIsNotValidated()
    ensures Matches(JournalDate, "13/99/0000") == ["13/99/0000"]
  {
    WholeTextMatch(JournalDate, "13/99/0000");
  }

  /** Too few digits, too many digits, or a word character in front: no
      code is found. */
  lemma RejectedCodes()
    ensures Matches(SecretCode, "AZMAR-12") == []
    ensures Matches(SecretCode, "AZMAR-0001") == []
    ensures Matches(SecretCode, "XAZMAR-001") == []
  {
    var s := "AZMAR-0001";
    assert !MatchAt(SecretCode, s, 0) by { assert IsWordChar(s[9]); }
    assert !MatchAt(SecretCode, s, 1) by { assert s[1..10][..6][0] == 'Z'; }
    assert MatchesFrom(SecretCode, s, 2) == [];
    var u := "XAZMAR-001";
    assert !MatchAt(SecretCode, u, 0) by { assert u[0..9][..6][0] == 'X'; }
    assert !MatchAt(SecretCode, u, 1) by { assert IsWordChar(u[0]); }
    assert MatchesFrom(SecretCode, u, 2) == [];
  }
}
