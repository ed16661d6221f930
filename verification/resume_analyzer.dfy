/**
 The rule-based document-type classifier of `ResumeAnalyzer`: a static table
 of keyword bags, one per document type, and `detect_document_type`, which
 scores lower-cased text against every bag and returns the best-scoring type,
 or `unknown` when even the best score is not significant.

 Scores are computed over `real`; the source computes them in floating point.
 */
module ResumeAnalyzer {
  import opened Text

  /* ---------------------------------------------------------------------- */
  /* Labels and the keyword table                                           */
  /* ---------------------------------------------------------------------- */

  /** What `detect_document_type` can return. */
  datatype Label = Resume | Marksheet | Certificate | IdCard | Unknown

  /** The labels that own a keyword bag. */
  type DocType = l: Label | l != Unknown witness Resume

  /** The keys of the keyword table in declaration order, which is also the
      order in which `max` meets them. */
  const DocTypes: seq<DocType> := [Resume, Marksheet, Certificate, IdCard]

  /** Position of a document type in the table. */
  function Rank(t: DocType): (n: nat)
    ensures n < |DocTypes| && DocTypes[n] == t
  {
    if t == Resume then 0
    else if t == Marksheet then 1
    else if t == Certificate then 2
    else 3
  }

  /** The string the source uses for each label. */
  function Name(l: Label): (s: string)
    ensures s in {"resume", "marksheet", "certificate", "id_card", "unknown"}
    ensures s == "unknown" <==> l == Unknown
  {
    match l
    case Resume => "resume"
    case Marksheet => "marksheet"
    case Certificate => "certificate"
    case IdCard => "id_card"
    case Unknown => "unknown"
  }

  /** A keyword of the table: non-empty, lower-case, and starting with a
      character that is not whitespace. */
  predicate IsKeyword(k: string) {
    |k| > 0 && IsLowerCase(k) && !IsSpace(k[0])
  }

  /** `self.document_types`: one keyword bag per document type, kept in the
      order of `DocTypes`. */
  datatype KeywordTable = KeywordTable(
    resume: seq<string>,
    marksheet: seq<string>,
    certificate: seq<string>,
    idCard: seq<string>)

  /** The bag of document type `t`. */
  function Keywords(tb: KeywordTable, t: DocType): seq<string> {
    match t
    case Resume => tb.resume
    case Marksheet => tb.marksheet
    case Certificate => tb.certificate
    case IdCard => tb.idCard
  }

  /** No bag is empty, so `matches / len(keywords)` never divides by zero. */
  predicate NonEmptyBags(tb: KeywordTable) {
    |tb.resume| > 0 && |tb.marksheet| > 0 && |tb.certificate| > 0 && |tb.idCard| > 0
  }

  lemma NonEmptyBag(tb: KeywordTable, t: DocType)
    requires NonEmptyBags(tb)
    ensures |Keywords(tb, t)| > 0
  {
  }

  /** Every bag is non-empty and holds only keywords. */
  predicate WellFormed(tb: KeywordTable) {
    && NonEmptyBags(tb)
    && forall t: DocType, i :: 0 <= i < |Keywords(tb, t)| ==> IsKeyword(Keywords(tb, t)[i])
  }

  const ResumeKeywords: seq<string> :=
    [ "experience", "education", "skills", "work", "project", "objective",
      "summary", "employment", "qualification", "achievements" ]

  const MarksheetKeywords: seq<string> :=
    [ "grade", "marks", "score", "semester", "cgpa", "sgpa", "examination",
      "result", "academic year", "percentage" ]

  const CertificateKeywords: seq<string> :=
    [ "certificate", "certification", "awarded", "completed", "achievement",
      "training", "course completion", "qualified" ]

  const IdCardKeywords: seq<string> :=
    [ "id card", "identity", "student id", "employee id", "valid until",
      "date of issue", "identification" ]

  lemma ResumeKeywordsHead()
    ensures forall i :: 0 <= i < 5 ==> IsKeyword(ResumeKeywords[i])
  {
    assert IsKeyword("experience");
    assert IsKeyword("education");
    assert IsKeyword("skills");
    assert IsKeyword("work");
    assert IsKeyword("project");
  }

  lemma ResumeKeywordsTail()
    ensures forall i :: 5 <= i < |ResumeKeywords| ==> IsKeyword(ResumeKeywords[i])
  {
    assert IsKeyword("objective");
    assert IsKeyword("summary");
    assert IsKeyword("employment");
    assert IsKeyword("qualification");
    assert IsKeyword("achievements");
  }

  lemma MarksheetKeywordsHead()
    ensures forall i :: 0 <= i < 5 ==> IsKeyword(MarksheetKeywords[i])
  {
    assert IsKeyword("grade");
    assert IsKeyword("marks");
    assert IsKeyword("score");
    assert IsKeyword("semester");
    assert IsKeyword("cgpa");
  }

  lemma MarksheetKeywordsTail()
    ensures forall i :: 5 <= i < |MarksheetKeywords| ==> IsKeyword(MarksheetKeywords[i])
  {
    assert IsKeyword("sgpa");
    assert IsKeyword("examination");
    assert IsKeyword("result");
    assert IsKeyword("academic year");
    assert IsKeyword("percentage");
  }

  lemma CertificateKeywordsHead()
    ensures forall i :: 0 <= i < 4 ==> IsKeyword(CertificateKeywords[i])
  {
    assert IsKeyword("certificate");
    assert IsKeyword("certification");
    assert IsKeyword("awarded");
    assert IsKeyword("completed");
  }

  lemma CertificateKeywordsTail()
    ensures forall i :: 4 <= i < |CertificateKeywords| ==> IsKeyword(CertificateKeywords[i])
  {
    assert IsKeyword("achievement");
    assert IsKeyword("training");
    assert IsKeyword("course completion");
    assert IsKeyword("qualified");
  }

  lemma IdCardKeywordsHead()
    ensures forall i :: 0 <= i < 4 ==> IsKeyword(IdCardKeywords[i])
  {
    assert IsKeyword("id card");
    assert IsKeyword("identity");
    assert IsKeyword("student id");
    assert IsKeyword("employee id");
  }

  lemma IdCardKeywordsTail()
    ensures forall i :: 4 <= i < |IdCardKeywords| ==> IsKeyword(IdCardKeywords[i])
  {
    assert IsKeyword("valid until");
    assert IsKeyword("date of issue");
    assert IsKeyword("identification");
  }

  /** The table `ResumeAnalyzer()` builds. */
  const InitialTable: KeywordTable :=
    KeywordTable(ResumeKeywords, MarksheetKeywords, CertificateKeywords, IdCardKeywords)

  /** `ResumeAnalyzer()`: the table holds 10 resume, 10 marksheet, 8
      certificate and 7 identity-card keywords, all well formed. */
  function NewAnalyzer(): (tb: KeywordTable)
    ensures WellFormed(tb)
    ensures |tb.resume| == 10 && |tb.marksheet| == 10
    ensures |tb.certificate| == 8 && |tb.idCard| == 7
  {
    ResumeKeywordsHead();
    ResumeKeywordsTail();
    MarksheetKeywordsHead();
    MarksheetKeywordsTail();
    CertificateKeywordsHead();
    CertificateKeywordsTail();
    IdCardKeywordsHead();
    IdCardKeywordsTail();
    InitialTable
  }

  /* ---------------------------------------------------------------------- */
  /* Scores                                                                  */
  /* ---------------------------------------------------------------------- */

  /** `sum(1 for keyword in keywords if keyword in text)`: the number of
      entries of `bag` that occur in `text`, each counted once however often
      it occurs. */
  function Matches(bag: seq<string>, text: string): (m: nat)
    ensures m <= |bag|
    ensures m == 0 <==> forall i :: 0 <= i < |bag| ==> !Contains(text, bag[i])
    ensures m == |bag| <==> forall i :: 0 <= i < |bag| ==> Contains(text, bag[i])
  {
    if |bag| == 0 then 0
    else (if Contains(text, bag[0]) then 1 else 0) + Matches(bag[1..], text)
  }

  /** `matches` for document type `t`: keywords found in the lower-cased text. */
  function Found(tb: KeywordTable, t: DocType, text: string): (m: nat)
    ensures m <= |Keywords(tb, t)|
    ensures m == 0 <==> forall i :: 0 <= i < |Keywords(tb, t)| ==> !Contains(Lower(text), Keywords(tb, t)[i])
    ensures m == |Keywords(tb, t)| <==> forall i :: 0 <= i < |Keywords(tb, t)| ==> Contains(Lower(text), Keywords(tb, t)[i])
  {
    Matches(Keywords(tb, t), Lower(text))
  }

  /** `matches / len(keywords)`: the fraction of the bag found. */
  function Density(tb: KeywordTable, t: DocType, text: string): (d: real)
    requires NonEmptyBags(tb)
    ensures 0.0 <= d <= 1.0
    ensures d == 0.0 <==> Found(tb, t, text) == 0
    ensures d == 1.0 <==> Found(tb, t, text) == |Keywords(tb, t)|
  {
    var m := Found(tb, t, text);
    var n := |Keywords(tb, t)|;
    NonEmptyBag(tb, t);
    Ratio(m, n);
    m as real / n as real
  }

  /** `matches / (len(text.split()) + 1)`; the denominator is at least 1. */
  function Frequency(tb: KeywordTable, t: DocType, text: string): (f: real)
    ensures 0.0 <= f <= Found(tb, t, text) as real
    ensures f == 0.0 <==> Found(tb, t, text) == 0
  {
    var m := Found(tb, t, text);
    var n := WordCount(Lower(text)) + 1;
    Ratio(m, n);
    m as real / n as real
  }

  lemma Ratio(m: nat, n: nat)
    requires n > 0
    ensures 0.0 <= m as real / n as real <= m as real
    ensures m as real / n as real == 0.0 <==> m == 0
    ensures m <= n ==> m as real / n as real <= 1.0
    ensures m as real / n as real == 1.0 <==> m == n
  {
    var q, a, b := m as real / n as real, m as real, n as real;
    assert q * b == a;
    ProductSign(q, b);
    ProductSign(q - 1.0, b);
    assert (q - 1.0) * b == a - b;
    assert q * (b - 1.0) == a - q;
    ProductSign(q, b - 1.0);
  }

  /** The sign of a product whose second factor is not negative. */
  lemma ProductSign(x: real, y: real)
    requires y >= 0.0
    ensures x >= 0.0 ==> x * y >= 0.0
    ensures y > 0.0 ==> (x * y > 0.0 <==> x > 0.0)
    ensures y > 0.0 ==> (x * y == 0.0 <==> x == 0.0)
  {
  }

  /** The composite score `0.7 * density + 0.3 * frequency`. */
  function Score(tb: KeywordTable, t: DocType, text: string): (s: real)
    requires NonEmptyBags(tb)
    ensures 0.0 <= s
    ensures s == 0.0 <==> Found(tb, t, text) == 0
    ensures 0.7 * Density(tb, t, text) <= s
  {
    Density(tb, t, text) * 0.7 + Frequency(tb, t, text) * 0.3
  }

  /** Only a best score strictly above this is significant. */
  const Threshold: real := 0.15

  /* ---------------------------------------------------------------------- */
  /* Choosing the best label                                                 */
  /* ---------------------------------------------------------------------- */

  /** Python's `max` over a non-empty sequence: it scans left to right and
      replaces its candidate only by a strictly greater value, so it returns
      the FIRST position holding the maximum. */
  function FirstArgMax(xs: seq<real>): (k: nat)
    requires |xs| > 0
    ensures k < |xs|
    ensures forall j :: 0 <= j < |xs| ==> xs[j] <= xs[k]
    ensures forall j :: 0 <= j < k ==> xs[j] < xs[k]
  {
    if |xs| == 1 then 0
    else
      var k := FirstArgMax(xs[..|xs| - 1]);
      if xs[|xs| - 1] > xs[k] then |xs| - 1 else k
  }

  /** The `scores` dictionary, in the table's order. */
  function Scores(tb: KeywordTable, text: string): (ss: seq<real>)
    requires NonEmptyBags(tb)
    ensures |ss| == |DocTypes|
    ensures forall t: DocType :: ss[Rank(t)] == Score(tb, t, text)
  {
    seq(|DocTypes|, i requires 0 <= i < |DocTypes| => Score(tb, DocTypes[i], text))
  }

  lemma ScoresAt(tb: KeywordTable, text: string)
    requires NonEmptyBags(tb)
    ensures |Scores(tb, text)| == |DocTypes|
    ensures forall t: DocType :: Scores(tb, text)[Rank(t)] == Score(tb, t, text)
    ensures forall i :: 0 <= i < |DocTypes| ==> Rank(DocTypes[i]) == i
  {
  }

  /** `r` is a correct answer for `text`: either no document type scores
      above the threshold and `r` is `Unknown`, or `r` scores above the
      threshold, at least as high as every type, and strictly higher than
      every type declared before it. */
  ghost predicate Classifies(tb: KeywordTable, text: string, r: Label)
    requires NonEmptyBags(tb)
  {
    if r == Unknown then
      forall t: DocType :: Score(tb, t, text) <= Threshold
    else
      && Score(tb, r, text) > Threshold
      && (forall t: DocType :: Score(tb, t, text) <= Score(tb, r, text))
      && (forall t: DocType :: Rank(t) < Rank(r) ==> Score(tb, t, text) < Score(tb, r, text))
  }

  /** One keyword of a type present in the lower-cased text is enough for
      that type to score above zero. */
  lemma KeywordFoundScores(tb: KeywordTable, t: DocType, text: string, i: nat)
    requires NonEmptyBags(tb)
    requires i < |Keywords(tb, t)| && Contains(Lower(text), Keywords(tb, t)[i])
    ensures Found(tb, t, text) > 0
    ensures Score(tb, t, text) > 0.0
  {
  }

  /** `detect_document_type`. */
  function Detect(tb: KeywordTable, text: string): (r: Label)
    requires NonEmptyBags(tb)
    ensures Classifies(tb, text, r)
  {
    FirstArgMaxClassifies(tb, text);
    var k := FirstArgMax(Scores(tb, text));
    if Scores(tb, text)[k] > Threshold then DocTypes[k] else Unknown
  }

  /** The first best position of the score list, with the threshold applied,
      is a correct answer. */
  lemma FirstArgMaxClassifies(tb: KeywordTable, text: string)
    requires NonEmptyBags(tb)
    ensures var k := FirstArgMax(Scores(tb, text));
      Classifies(tb, text, if Scores(tb, text)[k] > Threshold then DocTypes[k] else Unknown)
  {
    var ss := Scores(tb, text);
    var k := FirstArgMax(ss);
    ScoresAt(tb, text);
    forall t: DocType
      ensures Score(tb, t, text) <= ss[k]
    {
      assert ss[Rank(t)] == Score(tb, t, text);
    }
    forall t: DocType | Rank(t) < k
      ensures Score(tb, t, text) < ss[k]
    {
      assert ss[Rank(t)] == Score(tb, t, text);
    }
    assert Score(tb, DocTypes[k], text) == ss[k];
  }

  /** `max(scores.items(), key=...)` as the loop CPython runs: keep the
      first candidate and replace it only by a strictly greater score. */
  method MaxPosition(xs: seq<real>) returns (best: nat)
    requires |xs| > 0
    ensures best == FirstArgMax(xs)
  {
    best := 0;
    var i := 1;
    while i < |xs|
      invariant 1 <= i <= |xs|
      invariant best == FirstArgMax(xs[..i])
    {
      assert xs[..i + 1][..i] == xs[..i];
      if xs[i] > xs[best] {
        best := i;
      }
      i := i + 1;
    }
    assert xs[..|xs|] == xs;
  }

  /** `detect_document_type`, returning the label's string. */
  method DetectDocumentType(tb: KeywordTable, text: string) returns (name: string)
    requires NonEmptyBags(tb)
    ensures name == Name(Detect(tb, text))
    ensures name in {"resume", "marksheet", "certificate", "id_card", "unknown"}
  {
    var scores := Scores(tb, text);
    var best := MaxPosition(scores);
    name := if scores[best] > Threshold then Name(DocTypes[best]) else "unknown";
  }

  /* ---------------------------------------------------------------------- */
  /* Properties                                                              */
  /* ---------------------------------------------------------------------- */

  /** `Classifies` pins the answer down: `Detect` meets it and no other
      label does. */
  lemma DetectUnique(tb: KeywordTable, text: string, r: Label)
    requires NonEmptyBags(tb)
    ensures Classifies(tb, text, r) <==> r == Detect(tb, text)
  {
    var d := Detect(tb, text);
    if Classifies(tb, text, r) {
      if r == Unknown {
        assert d == Unknown;
      } else {
        assert d != Unknown;
        assert Rank(r) == Rank(d);
      }
    }
  }

  /** The answer is `Unknown` exactly when no document type scores strictly
      above the threshold; a best score of exactly `Threshold` is not enough. */
  lemma UnknownIffNoneSignificant(tb: KeywordTable, text: string)
    requires NonEmptyBags(tb)
    ensures Detect(tb, text) == Unknown <==> forall t: DocType :: Score(tb, t, text) <= Threshold
  {
    DetectUnique(tb, text, Unknown);
  }

  /** Text in which no keyword of any bag occurs is `Unknown`. */
  lemma NoKeywordIsUnknown(tb: KeywordTable, text: string)
    requires NonEmptyBags(tb)
    requires forall t: DocType, i :: 0 <= i < |Keywords(tb, t)| ==> !Contains(Lower(text), Keywords(tb, t)[i])
    ensures forall t: DocType :: Score(tb, t, text) == 0.0
    ensures Detect(tb, text) == Unknown
  {
  }

  /** Empty and whitespace-only text is `Unknown`. */
  lemma BlankIsUnknown(tb: KeywordTable, text: string)
    requires WellFormed(tb)
    requires IsBlank(text)
    ensures forall t: DocType :: Found(tb, t, text) == 0 && Score(tb, t, text) == 0.0
    ensures Detect(tb, text) == Unknown
  {
    LowerKeepsSpaces(text);
    forall t: DocType, i | 0 <= i < |Keywords(tb, t)|
      ensures !Contains(Lower(text), Keywords(tb, t)[i])
    {
      BlankContainsNoWord(Lower(text), Keywords(tb, t)[i]);
    }
    NoKeywordIsUnknown(tb, text);
  }

  /** Keywords are matched case-insensitively: a keyword is found in the
      lower-cased text exactly when some window of the original text
      lower-cases to it. */
  lemma FoundIgnoringCase(text: string, k: string)
    ensures Contains(Lower(text), k) <==> exists i :: OccursIgnoringCaseAt(text, k, i)
  {
    var l := Lower(text);
    forall i | 0 <= i && i + |k| <= |text|
      ensures OccursAt(l, k, i) <==> OccursIgnoringCaseAt(text, k, i)
    {
      LowerSlice(text, i, i + |k|);
    }
  }

  /** The window of `t` starting at `i` lower-cases to `k`. */
  ghost predicate OccursIgnoringCaseAt(t: string, k: string, i: int) {
    0 <= i && i + |k| <= |t| && Lower(t[i..i + |k|]) == k
  }

  lemma LowerSlice(s: string, i: nat, j: nat)
    requires i <= j <= |s|
    ensures Lower(s)[i..j] == Lower(s[i..j])
  {
  }

  /** Texts that agree once lower-cased get the same label. */
  lemma SameLowerSameLabel(tb: KeywordTable, a: string, b: string)
    requires NonEmptyBags(tb)
    requires Lower(a) == Lower(b)
    ensures Detect(tb, a) == Detect(tb, b)
  {
    assert forall t: DocType :: Score(tb, t, a) == Score(tb, t, b);
    assert Scores(tb, a) == Scores(tb, b);
  }

  /** Lower-casing the input first does not change the label. */
  lemma DetectIgnoresCase(tb: KeywordTable, text: string)
    requires NonEmptyBags(tb)
    ensures Detect(tb, Lower(text)) == Detect(tb, text)
  {
    LowerIdempotent(text);
    SameLowerSameLabel(tb, Lower(text), text);
  }

  /** Counting over two bags one after the other is counting over each. */
  lemma {:induction false} MatchesAppend(a: seq<string>, b: seq<string>, text: string)
    ensures Matches(a + b, text) == Matches(a, text) + Matches(b, text)
    decreases |a|
  {
    if |a| == 0 {
      assert a + b == b;
    } else {
      assert (a + b)[0] == a[0];
      assert (a + b)[1..] == a[1..] + b;
      MatchesAppend(a[1..], b, text);
    }
  }

  /** Appending text never loses a keyword, so it never lowers `matches`. */
  lemma {:induction false} MatchesGrow(bag: seq<string>, t: string, u: string)
    ensures Matches(bag, t) <= Matches(bag, t + u)
    ensures Matches(bag, u) <= Matches(bag, t + u)
    decreases |bag|
  {
    if |bag| > 0 {
      ContainsInConcat(t, u, bag[0]);
      MatchesGrow(bag[1..], t, u);
    }
  }

  /** Finding more than 3/14 of a bag's keywords makes that type
      significant however long the text is, so the answer is not `Unknown`. */
  lemma EnoughKeywordsAreSignificant(tb: KeywordTable, t: DocType, text: string)
    requires NonEmptyBags(tb)
    requires 14 * Found(tb, t, text) > 3 * |Keywords(tb, t)|
    ensures Score(tb, t, text) > Threshold
    ensures Detect(tb, text) != Unknown
  {
    SignificantRatio(Found(tb, t, text), |Keywords(tb, t)|);
  }

  lemma SignificantRatio(m: nat, n: nat)
    requires n > 0 && 14 * m > 3 * n
    ensures 0.7 * (m as real / n as real) > Threshold
  {
    var d, a, b := m as real / n as real, m as real, n as real;
    assert d * b == a;
    assert (d - 3.0 / 14.0) * b == a - 3.0 * b / 14.0;
    ProductSign(d - 3.0 / 14.0, b);
  }
}
