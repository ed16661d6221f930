# Document-type classifier of the resume analyzer

This project models the rule-based document-type classifier of
`ResumeAnalyzer` in Dafny. The classifier has two parts:

- A table of four keyword bags, fixed by the constructor: `resume`, `marksheet`,
  `certificate` and `id_card`.
- `detect_document_type`, which does the following:
  - lower-cases the text;
  - counts, for every bag, how many of its keywords occur in the text as
    substrings;
  - scores each bag as `0.7 * matches/|bag| + 0.3 * matches/(words + 1)`;
  - takes the first bag with the highest score, in table order;
  - returns its name only if that score is strictly above `0.15`,
    and `'unknown'` otherwise.

The project has three files:

- `text.dfy` (module `Text`): the string primitives the classifier relies
  on. `Lower` is ASCII A-Z lower-casing (the ASCII part of `str.lower()`),
  `Split`/`WordCount` are `str.split()`, and `Contains` is the `in` operator
  on strings. `Split` separates at exactly
  the characters for which Python's `str.isspace()` holds: ASCII
  whitespace, U+001C-U+001F and the Unicode space characters.
- `resume_analyzer.dfy` (module `ResumeAnalyzer`): the keyword table, the
  scores, the first-maximum choice and the classifier, with its properties.
  - The table is the analyzer's instance state (`self.document_types`), so
    it is a `KeywordTable` parameter of every operation.
  - `NewAnalyzer` builds the table the constructor sets up.
  - The general properties hold for any table whose bags are non-empty.
    `BlankIsUnknown` also needs the table to be well-formed: every keyword
    non-empty, lower-case and starting with a non-space character.
- `detect_examples.dfy` (module `DetectExamples`): worked inputs.
  - `"Network"` matches the keyword `work`.
  - `"ID CARD"` is an identity card.
  - `"id card a b c"` scores exactly `0.15` and is therefore `unknown`.

The classifier is specified by the predicate `Classifies(tb, text, r)`. It says
either of two things:

- No type scores above the threshold, and `r` is `Unknown`.
- `r` scores above the threshold, at least as high as every type, and
  strictly higher than every type listed before it.

`Detect` meets this predicate, and `DetectUnique` shows that no other label
does.

Keyword matching is plain substring containment (`keyword in text`): `work`
is found inside `network`.

## Model

| member | source | states |
|---|---|---|
| ResumeAnalyzer.NewAnalyzer | components/resume_analyzer.py:6-23 | the constructor's table has 10 resume, 10 marksheet, 8 certificate and 7 identity-card keywords; no bag is empty, so the density division is always defined, and every keyword is lower-case and starts with a non-space character |
| ResumeAnalyzer.Name | components/resume_analyzer.py:7-43 | the label names are the table's keys `resume`, `marksheet`, `certificate`, `id_card` and the fallback `unknown`, and only the unknown label is named `unknown` |
| ResumeAnalyzer.Matches | components/resume_analyzer.py:34 | matches is at most the bag size (each keyword counts once however often it occurs); it is 0 exactly when no keyword occurs and equals the bag size exactly when every keyword occurs |
| ResumeAnalyzer.MatchesAppend | components/resume_analyzer.py:34 | counting over two concatenated bags is the sum of the two counts |
| ResumeAnalyzer.MatchesGrow | components/resume_analyzer.py:34 | appending or prepending text never lowers the match count |
| ResumeAnalyzer.Found | components/resume_analyzer.py:29-34 | the matches of a type's bag in the lower-cased text are at most the bag size, 0 exactly when no keyword of the bag occurs in the lower-cased text, and the bag size exactly when every one does |
| ResumeAnalyzer.Density | components/resume_analyzer.py:35 | density lies in [0, 1]; it is 0 exactly when nothing matched and 1 exactly when the whole bag matched |
| ResumeAnalyzer.Frequency | components/resume_analyzer.py:36 | frequency is defined for every text (the denominator is at least 1), lies between 0 and matches, and is 0 exactly when nothing matched |
| ResumeAnalyzer.Score | components/resume_analyzer.py:37 | the score is non-negative, 0 exactly when nothing matched, and at least 0.7 times the density |
| ResumeAnalyzer.KeywordFoundScores | components/resume_analyzer.py:34-37 | one keyword of a bag present in the lower-cased text gives that type a positive score |
| ResumeAnalyzer.Scores | components/resume_analyzer.py:30-37 | the score table has one entry per document type, and the entry at each type's position in table order is that type's score |
| ResumeAnalyzer.FirstArgMax | components/resume_analyzer.py:40 | `max` returns a position holding the largest score, and every earlier position holds a strictly smaller one (first maximum wins ties) |
| ResumeAnalyzer.MaxPosition | components/resume_analyzer.py:40 | the left-to-right scan that replaces its candidate only on a strictly greater value finds the first maximum |
| ResumeAnalyzer.Detect | components/resume_analyzer.py:25-43 | the label returned is a correct classification: unknown only when no type scores above 0.15; otherwise above 0.15, maximal, and strictly above every type earlier in the table |
| ResumeAnalyzer.DetectDocumentType | components/resume_analyzer.py:25-43 | the string returned is the name of the classified label and is always one of resume, marksheet, certificate, id_card or unknown |
| ResumeAnalyzer.DetectUnique | components/resume_analyzer.py:33-43 | a label is a correct classification exactly when it is the one returned, so ties are broken by table order and nothing else |
| ResumeAnalyzer.UnknownIffNoneSignificant | components/resume_analyzer.py:43 | the answer is unknown exactly when every score is at most 0.15, since the threshold is strict |
| ResumeAnalyzer.NoKeywordIsUnknown | components/resume_analyzer.py:34-43 | text containing no keyword of any bag scores 0 for every type and is unknown |
| ResumeAnalyzer.BlankIsUnknown | components/resume_analyzer.py:29-43 | for any table of well-formed keywords, the constructor's included, empty or whitespace-only text matches no keyword of any type, every type scores 0, and the answer is unknown |
| ResumeAnalyzer.FoundIgnoringCase | components/resume_analyzer.py:29-34 | a keyword is found in the lower-cased text exactly when some window of the original text lower-cases to it |
| ResumeAnalyzer.SameLowerSameLabel | components/resume_analyzer.py:29 | two texts equal once lower-cased get the same label |
| ResumeAnalyzer.DetectIgnoresCase | components/resume_analyzer.py:29 | lower-casing the input beforehand does not change the label |
| ResumeAnalyzer.EnoughKeywordsAreSignificant | components/resume_analyzer.py:35-43 | finding more than 3/14 of a bag makes that type score above 0.15 whatever the text length, so the answer is not unknown |
| Text.Lower | components/resume_analyzer.py:29 | lower-casing keeps the length and maps each character by itself, ASCII capitals to small letters |
| Text.LowerIsLowerCase | components/resume_analyzer.py:29 | lower-cased text has no capitals, and text is its own lower-case form exactly when it has none |
| Text.LowerIdempotent | components/resume_analyzer.py:29 | lower-casing twice is lower-casing once |
| Text.Split | components/resume_analyzer.py:36 | every element of the split is a non-empty run of non-whitespace, and the split is empty exactly when the text is blank |
| Text.SplitWord | components/resume_analyzer.py:36 | a single word splits into itself |
| Text.SplitAppend | components/resume_analyzer.py:36 | text cut at whitespace splits into the split of the first piece followed by the split of the second; with `SplitWord` and the blank case this fixes the split of every text as its whitespace-separated runs, in order |
| Text.SplitJoinWords | components/resume_analyzer.py:36 | splitting words joined by single spaces gives the words back |
| Text.WordCount | components/resume_analyzer.py:36 | the word count is 0 exactly when the text is empty or whitespace only |
| Text.WordCountLower | components/resume_analyzer.py:29-36 | the word count of the lower-cased text is that of the original |
| Text.Contains | components/resume_analyzer.py:34 | `keyword in text` holds exactly when the keyword occurs at some index of the text |
| Text.ContainsInConcat | components/resume_analyzer.py:34 | a substring of either part is a substring of the concatenation |
| Text.BlankContainsNoWord | components/resume_analyzer.py:34 | blank text contains no string that starts with a non-space character |
| DetectExamples.WorkFoundInNetwork | components/resume_analyzer.py:29-37 | `work` is found inside `Network`, so the resume type scores above 0 |
| DetectExamples.OnlyIdCardFound | components/resume_analyzer.py:7-22 | text written in the letters a, b, c, d, i, r and space that contains `id card` matches no keyword of the first three bags and exactly one identity-card keyword |
| DetectExamples.UpperCaseIdCard | components/resume_analyzer.py:19-43 | `"ID CARD"` scores 0.2 as an identity card and is classified as one |
| DetectExamples.ThresholdIsStrict | components/resume_analyzer.py:35-43 | `"id card a b c"` scores exactly 0.15 as an identity card and is unknown |

## Left out

- Detect: requires every bag of the table to be non-empty. With an empty bag the source's `matches / len(keywords)` raises `ZeroDivisionError`. The constructor's table meets the requirement (`NewAnalyzer`).
- BlankIsUnknown: requires well-formed keywords. In Python the empty string and strings of spaces are found in blank text, so blank text is `unknown` only for such a table. The constructor's table is one.
- Floating point: scores are exact `real` numbers, not IEEE-754 doubles. The model makes no claim about float rounding at the 0.15 boundary or in near-ties. `ThresholdIsStrict` is exact over the reals only.
- Text.Lower: lower-cases the ASCII letters A-Z only. Python's `str.lower()` also maps non-ASCII capitals, which the model leaves unchanged.
- Purity of `detect_document_type` holds by construction: the keyword table is an immutable value, and every operation is a function of the table and the text. No separate lemma states it.
- The other parts of the repository are not part of this model because they are I/O or foreign code:
  - the AI analyzer (PDF/DOCX extraction, OCR, HTTP calls);
  - the MongoDB layer;
  - the Streamlit UI and dashboard;
  - the driver installer and launcher;
  - the empty resume-builder templates.
- Section extraction, skill matching, formatting scoring and whole-word keyword matching do not exist in the classifier's code and are not modelled.
