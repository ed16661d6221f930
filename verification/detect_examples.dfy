/**
 Worked inputs for the document-type classifier: substring rather than
 whole-word matching, case-insensitivity, and the strict threshold.

 Each input string is a parameter fixed by a `requires` (`text == "ID CARD"`)
 rather than a literal argument, which keeps the verifier from unfolding the
 whole classifier on the literal and lets each step be proved on its own.
 */
module DetectExamples {
  import opened Text
  import opened ResumeAnalyzer

  /** A keyword longer than the text cannot occur in it. */
  lemma TooLongNotContained(t: string, k: string)
    requires |k| > |t|
    ensures !Contains(t, k)
  {
    if Contains(t, k) {
      var i := ContainsOccurs(t, k);
    }
  }

  lemma NetworkLowered(text: string)
    requires text == "Network"
    ensures Lower(text) == "network"
  {
  }

  lemma NetworkHoldsWork(l: string)
    requires l == "network"
    ensures Contains(l, "work")
  {
    assert l[3..7] == "work";
    OccursContains(l, "work", 3);
  }

  /** `'work'` is counted inside `"Network"`: matching is by substring, not
      by whole word, and ignores case. */
  lemma WorkFoundInNetwork(tb: KeywordTable, text: string)
    requires tb == NewAnalyzer()
    requires text == "Network"
    ensures Contains(Lower(text), "work")
    ensures Found(tb, Resume, text) > 0
    ensures Score(tb, Resume, text) > 0.0
  {
    NetworkLowered(text);
    NetworkHoldsWork(Lower(text));
    assert tb == InitialTable;
    assert Keywords(tb, Resume)[3] == "work";
    KeywordFoundScores(tb, Resume, text, 3);
  }

  /** Some character of `k`, from position `j` on, does not occur in `t`. */
  predicate CharMissing(k: string, t: string, j: nat)
    decreases |k| - j
  {
    j < |k| && (k[j] !in t || CharMissing(k, t, j + 1))
  }

  lemma {:induction false} AllCharsPresent(k: string, t: string, j: nat)
    requires forall m :: 0 <= m < |k| ==> k[m] in t
    ensures !CharMissing(k, t, j)
    decreases |k| - j
  {
    if j < |k| {
      AllCharsPresent(k, t, j + 1);
    }
  }

  /** Every character of a contained string occurs in the text. */
  lemma ContainedCharsPresent(t: string, k: string)
    requires Contains(t, k)
    ensures forall m :: 0 <= m < |k| ==> k[m] in t
  {
    var i := ContainsOccurs(t, k);
    forall m | 0 <= m < |k|
      ensures k[m] in t
    {
      assert k[m] == t[i..i + |k|][m] == t[i + m];
    }
  }

  /** A string with a character outside `alphabet` is not contained in text
      written in `alphabet`. */
  lemma MissingCharNotContained(t: string, k: string, alphabet: string)
    requires forall c :: c in t ==> c in alphabet
    requires CharMissing(k, alphabet, 0)
    ensures !Contains(t, k)
  {
    if Contains(t, k) {
      ContainedCharsPresent(t, k);
      AllCharsPresent(k, alphabet, 0);
    }
  }

  /** The letters of the identity-card examples below. */
  const Alphabet: string := "abcdir "

  /** Character `j` of `k` is not in `alphabet`, so `CharMissing` holds from
      any position up to `j`. */
  lemma {:induction false} MissingAt(k: string, alphabet: string, j: nat, from: nat)
    requires j < |k| && k[j] !in alphabet && from <= j
    ensures CharMissing(k, alphabet, from)
    decreases j - from
  {
    if from < j {
      MissingAt(k, alphabet, j, from + 1);
    }
  }

  /** Every keyword of the first three bags, and every identity-card keyword
      but the first, has a character outside `Alphabet`. */
  lemma ResumeOutsideAlphabetHead()
    ensures forall i :: 0 <= i < 5 ==> CharMissing(ResumeKeywords[i], Alphabet, 0)
  {
    MissingAt("experience", Alphabet, 0, 0);
    MissingAt("education", Alphabet, 0, 0);
    MissingAt("skills", Alphabet, 0, 0);
    MissingAt("work", Alphabet, 0, 0);
    MissingAt("project", Alphabet, 0, 0);
  }

  lemma ResumeOutsideAlphabetTail()
    ensures forall i :: 5 <= i < |ResumeKeywords| ==> CharMissing(ResumeKeywords[i], Alphabet, 0)
  {
    MissingAt("objective", Alphabet, 0, 0);
    MissingAt("summary", Alphabet, 0, 0);
    MissingAt("employment", Alphabet, 0, 0);
    MissingAt("qualification", Alphabet, 0, 0);
    MissingAt("achievements", Alphabet, 2, 0);
  }

  lemma ResumeOutsideAlphabet()
    ensures forall k :: k in ResumeKeywords ==> CharMissing(k, Alphabet, 0)
  {
    ResumeOutsideAlphabetHead();
    ResumeOutsideAlphabetTail();
  }

  lemma MarksheetOutsideAlphabetHead()
    ensures forall i :: 0 <= i < 5 ==> CharMissing(MarksheetKeywords[i], Alphabet, 0)
  {
    MissingAt("grade", Alphabet, 0, 0);
    MissingAt("marks", Alphabet, 0, 0);
    MissingAt("score", Alphabet, 0, 0);
    MissingAt("semester", Alphabet, 0, 0);
    MissingAt("cgpa", Alphabet, 1, 0);
  }

  lemma MarksheetOutsideAlphabetTail()
    ensures forall i :: 5 <= i < |MarksheetKeywords| ==> CharMissing(MarksheetKeywords[i], Alphabet, 0)
  {
    MissingAt("sgpa", Alphabet, 0, 0);
    MissingAt("examination", Alphabet, 0, 0);
    MissingAt("result", Alphabet, 1, 0);
    MissingAt("academic year", Alphabet, 4, 0);
    MissingAt("percentage", Alphabet, 0, 0);
  }

  lemma MarksheetOutsideAlphabet()
    ensures forall k :: k in MarksheetKeywords ==> CharMissing(k, Alphabet, 0)
  {
    MarksheetOutsideAlphabetHead();
    MarksheetOutsideAlphabetTail();
  }

  lemma CertificateOutsideAlphabetHead()
    ensures forall i :: 0 <= i < 4 ==> CharMissing(CertificateKeywords[i], Alphabet, 0)
  {
    MissingAt("certificate", Alphabet, 1, 0);
    MissingAt("certification", Alphabet, 1, 0);
    MissingAt("awarded", Alphabet, 1, 0);
    MissingAt("completed", Alphabet, 1, 0);
  }

  lemma CertificateOutsideAlphabetTail()
    ensures forall i :: 4 <= i < |CertificateKeywords| ==> CharMissing(CertificateKeywords[i], Alphabet, 0)
  {
    MissingAt("achievement", Alphabet, 2, 0);
    MissingAt("training", Alphabet, 0, 0);
    MissingAt("course completion", Alphabet, 1, 0);
    MissingAt("qualified", Alphabet, 0, 0);
  }

  lemma CertificateOutsideAlphabet()
    ensures forall k :: k in CertificateKeywords ==> CharMissing(k, Alphabet, 0)
  {
    CertificateOutsideAlphabetHead();
    CertificateOutsideAlphabetTail();
  }

  lemma IdCardOutsideAlphabet()
    ensures forall i :: 1 <= i < |IdCardKeywords| ==> CharMissing(IdCardKeywords[i], Alphabet, 0)
  {
  }

  /** No entry of `bag` occurs in `t` when each has a character outside the
      alphabet `t` is written in. */
  lemma NoneFound(bag: seq<string>, t: string)
    requires forall c :: c in t ==> c in Alphabet
    requires forall k :: k in bag ==> CharMissing(k, Alphabet, 0)
    ensures Matches(bag, t) == 0
  {
    forall i | 0 <= i < |bag|
      ensures !Contains(t, bag[i])
    {
      MissingCharNotContained(t, bag[i], Alphabet);
    }
  }

  /** Exactly one identity-card keyword, `'id card'`, occurs in `t`. */
  lemma OnlyFirstIdCardKeyword(t: string)
    requires forall c :: c in t ==> c in Alphabet
    requires Contains(t, "id card")
    ensures Matches(IdCardKeywords, t) == 1
  {
    IdCardOutsideAlphabet();
    var bag := IdCardKeywords;
    forall i | 1 <= i < |bag|
      ensures !Contains(t, bag[i])
    {
      MissingCharNotContained(t, bag[i], Alphabet);
    }
    assert Matches(bag[1..], t) == 0;
  }

  /** Text that lower-cases to letters of `Alphabet` and contains `'id card'`
      matches that one keyword and nothing else. */
  lemma OnlyIdCardFound(tb: KeywordTable, text: string)
    requires tb == NewAnalyzer()
    requires forall c :: c in Lower(text) ==> c in Alphabet
    requires Contains(Lower(text), "id card")
    ensures Found(tb, Resume, text) == 0
    ensures Found(tb, Marksheet, text) == 0
    ensures Found(tb, Certificate, text) == 0
    ensures Found(tb, IdCard, text) == 1
  {
    assert tb == InitialTable;
    ResumeOutsideAlphabet();
    MarksheetOutsideAlphabet();
    CertificateOutsideAlphabet();
    NoneFound(ResumeKeywords, Lower(text));
    NoneFound(MarksheetKeywords, Lower(text));
    NoneFound(CertificateKeywords, Lower(text));
    OnlyFirstIdCardKeyword(Lower(text));
  }

  lemma IdCardUpperLowered(text: string)
    requires text == "ID CARD"
    ensures Lower(text) == "id card"
  {
  }

  /** Unfolding helper: the density as the quotient it is defined by. */
  lemma DensityFormula(tb: KeywordTable, t: DocType, text: string)
    requires NonEmptyBags(tb)
    ensures Density(tb, t, text) == Found(tb, t, text) as real / |Keywords(tb, t)| as real
  {
  }

  /** Unfolding helper: the frequency as the quotient it is defined by. */
  lemma FrequencyFormula(tb: KeywordTable, t: DocType, text: string)
    ensures Frequency(tb, t, text) == Found(tb, t, text) as real / (WordCount(Lower(text)) + 1) as real
  {
  }

  /** One out of `n` is `q` when `q` is the reciprocal of `n`. */
  lemma UnitFraction(m: real, n: real, q: real)
    requires m == 1.0 && n * q == 1.0
    ensures m / n == q
  {
  }

  /** One match among two words: the denominator is 3. The real division is
      done here, away from the word-count facts of the frequency lemmas,
      where the solver handles it poorly. */
  lemma OneInTwoWords(m: nat, w: nat)
    requires m == 1 && w == 2
    ensures m as real / (w + 1) as real == 1.0 / 3.0
  {
  }

  /** One match among five words: the denominator is 6. */
  lemma OneInFiveWords(m: nat, w: nat)
    requires m == 1 && w == 5
    ensures m as real / (w + 1) as real == 1.0 / 6.0
  {
  }

  /** One identity-card keyword found: density 1/7. */
  lemma OneKeywordDensity(tb: KeywordTable, text: string)
    requires tb == NewAnalyzer()
    requires Found(tb, IdCard, text) == 1
    ensures Density(tb, IdCard, text) == 1.0 / 7.0
  {
    DensityFormula(tb, IdCard, text);
    assert |Keywords(tb, IdCard)| == 7;
    UnitFraction(Found(tb, IdCard, text) as real, |Keywords(tb, IdCard)| as real, 1.0 / 7.0);
  }

  /** One identity-card keyword among two words: frequency 1/3. */
  lemma OneKeywordInTwoWords(tb: KeywordTable, text: string)
    requires Found(tb, IdCard, text) == 1 && WordCount(Lower(text)) == 2
    ensures Frequency(tb, IdCard, text) == 1.0 / 3.0
  {
    FrequencyFormula(tb, IdCard, text);
    OneInTwoWords(Found(tb, IdCard, text), WordCount(Lower(text)));
  }

  /** One identity-card keyword among five words: frequency 1/6. */
  lemma OneKeywordInFiveWords(tb: KeywordTable, text: string)
    requires Found(tb, IdCard, text) == 1 && WordCount(Lower(text)) == 5
    ensures Frequency(tb, IdCard, text) == 1.0 / 6.0
  {
    FrequencyFormula(tb, IdCard, text);
    OneInFiveWords(Found(tb, IdCard, text), WordCount(Lower(text)));
  }

  /** When identity card is the only type with a keyword, the label is decided
      by its score alone. */
  lemma OnlyIdCardScores(tb: KeywordTable, text: string)
    requires NonEmptyBags(tb)
    requires Found(tb, Resume, text) == 0 && Found(tb, Marksheet, text) == 0
    requires Found(tb, Certificate, text) == 0
    ensures Score(tb, IdCard, text) > Threshold ==> Detect(tb, text) == IdCard
    ensures Score(tb, IdCard, text) <= Threshold ==> Detect(tb, text) == Unknown
  {
    DetectUnique(tb, text, IdCard);
    DetectUnique(tb, text, Unknown);
  }

  lemma UpperIdCardWords(text: string)
    requires text == "ID CARD"
    ensures Lower(text) == "id card"
    ensures WordCount(Lower(text)) == 2
  {
    IdCardUpperLowered(text);
    var ws := ["id", "card"];
    assert forall j :: 0 <= j < |ws| ==> IsWord(ws[j]);
    assert JoinWords(ws) == Lower(text);
    SplitJoinWords(ws);
  }

  lemma UpperIdCardFound(tb: KeywordTable, text: string)
    requires tb == NewAnalyzer()
    requires text == "ID CARD"
    ensures Found(tb, Resume, text) == 0 && Found(tb, Marksheet, text) == 0
    ensures Found(tb, Certificate, text) == 0 && Found(tb, IdCard, text) == 1
  {
    IdCardUpperLowered(text);
    OccursContains(Lower(text), "id card", 0);
    OnlyIdCardFound(tb, text);
  }

  /** Upper-case text `"ID CARD"` is classified as an identity card: its
      score is 0.7/7 + 0.3/3 = 0.2, and every other type scores 0. */
  lemma UpperCaseIdCard(tb: KeywordTable, text: string)
    requires tb == NewAnalyzer()
    requires text == "ID CARD"
    ensures Score(tb, IdCard, text) == 0.2
    ensures Detect(tb, text) == IdCard
  {
    UpperIdCardWords(text);
    UpperIdCardFound(tb, text);
    OneKeywordDensity(tb, text);
    OneKeywordInTwoWords(tb, text);
    OnlyIdCardScores(tb, text);
  }

  lemma BoundaryLowered(text: string)
    requires text == "id card a b c"
    ensures Lower(text) == text
  {
  }

  lemma BoundaryWords(text: string)
    requires text == "id card a b c"
    ensures WordCount(text) == 5
  {
    var ws := ["id", "card", "a", "b", "c"];
    assert forall j :: 0 <= j < |ws| ==> IsWord(ws[j]);
    assert JoinWords(ws) == text;
    SplitJoinWords(ws);
  }

  lemma BoundaryFound(tb: KeywordTable, text: string)
    requires tb == NewAnalyzer()
    requires text == "id card a b c"
    ensures Found(tb, Resume, text) == 0 && Found(tb, Marksheet, text) == 0
    ensures Found(tb, Certificate, text) == 0 && Found(tb, IdCard, text) == 1
  {
    BoundaryLowered(text);
    OccursContains(text, "id card", 0);
    OnlyIdCardFound(tb, text);
  }

  /** `"id card a b c"` scores exactly 0.7/7 + 0.3/6 = 0.15 as an identity
      card, every other type scores 0, and because the threshold is strict
      the answer is `Unknown`. */
  lemma ThresholdIsStrict(tb: KeywordTable, text: string)
    requires tb == NewAnalyzer()
    requires text == "id card a b c"
    ensures Score(tb, IdCard, text) == Threshold
    ensures Detect(tb, text) == Unknown
  {
    BoundaryLowered(text);
    BoundaryWords(text);
    BoundaryFound(tb, text);
    OneKeywordDensity(tb, text);
    OneKeywordInFiveWords(tb, text);
    OnlyIdCardScores(tb, text);
  }
}
