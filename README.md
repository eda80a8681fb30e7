# Exam answer-sheet grading, modelled in Dafny

The system grades a scanned exam answer sheet. OCR turns the image into text.
The text is cut into one answer per question label of the answer key ("Q1", "Q2", ...).
Each answer is compared with its reference answer by TF-IDF cosine similarity.
The similarity percentage is then mapped to marks out of 5 by a threshold ladder.
This project models the deterministic core of that pipeline and proves what it promises:

- `wrappers.dfy`: the `Option` type that stands for Python's `None`.
- `text.dfy` (module `Text`): `clean_text` and `is_valid_text` of `evaluate.py`.
  It also models the Python library pieces they use: `str.lower()`, `str.strip()`,
  the whitespace class `\s` and the two `re.sub` rewrites.
- `segment.dfy` (module `Segment`): `split_answers` of `evaluate.py`.
  `RegexSearch` follows the regex engine's backtracking order and serves as the reference.
  `IsRegexMatch` states declaratively which match the engine finds.
  `Search` is a direct scan proved equal to the reference.
  `SplitAnswers` is the loop over the key that fills the answer map.
- `scoring.dfy` (module `Scoring`): the empty-input branch of `similarity_score`,
  ladder A and `evaluate_exam` (validity sentinel, blank-sheet sentinel, 5-character
  short-circuit, running total).
- `app.dfy` (module `App`): the rules `app.py` applies after the pipeline.
  These are the whole-exam grade band and the single-question mode (its OCR gate,
  its label check, its short-answer test and ladder B).

The answer key is a parameter: a sequence of `Entry(question, reference)` in key order.
The OCR output is an arbitrary string.
The TF-IDF cosine is a parameter `cosine: (string, string) -> real`, applied to the two cleaned texts.

Facts about the code that the model makes explicit:

- `clean_text` is not idempotent: "a ! b" cleans to "a  b", and cleaning that again changes it.
  It settles from the second application on.
- A label written with no answer after it captures the next label and that label's answer:
  in "Q1: Q2: Paris", Q1's answer is "q2: paris".
- The `[:\-]?\s*` suffix inside the lookahead binds only to the last label.
  It cannot change whether the lookahead holds, because it can match the empty string.
- Every text that passes `is_valid_text` also passes the single-question gate.
  The converse does not hold: fifteen '!' pass the gate but clean to "".
- Single-question mode never gives fewer marks than whole-exam mode for the same answer.
  The two differ exactly for similarity in [55, 75), where they give 4 and 3.

## Model

| member | source | states |
|---|---|---|
| Text.Lower | evaluate.py:22 | `str.lower()` on ASCII: same length, every character lower-cased, whitespace positions unchanged |
| Text.Strip | evaluate.py:26 | `str.strip()`: the result is no longer than the input and neither begins nor ends with whitespace |
| Text.StripPosition | evaluate.py:26 | `str.strip()` removes only whitespace: the result sits in the input at the end of the leading whitespace, with only whitespace after it |
| Text.CollapseSpacesCollapsed | evaluate.py:23 | after `re.sub(r'\s+', ' ', ...)` whitespace occurs only as single plain spaces, never two in a row |
| Text.CollapseSpacesJoin | evaluate.py:23 | `re.sub(r'\s+', ' ', ...)` turns each whitespace run into exactly one space: a run between two non-space characters (or the ends) becomes a single ' ', and the text on either side is collapsed on its own |
| Text.AlnumsOfDeleteSpecial | evaluate.py:24 | `re.sub(r'[^a-z0-9\s]', '', ...)` keeps every lower-case ASCII letter and digit, in order |
| Text.CleanTextAlphabet | evaluate.py:20-26 | `clean_text` output holds only `[a-z0-9]` and plain spaces, has no leading or trailing space, and is "" for "" |
| Text.CleanTextKeepsAlnums | evaluate.py:20-26 | `clean_text` keeps exactly the lower-cased ASCII letters and digits of its input, in order |
| Text.CleanTextEmptyIff | evaluate.py:20-26 | `clean_text` yields "" exactly when the input has no ASCII letter or digit |
| Text.CleanTextNotIdempotent | evaluate.py:22-26 | collapsing before deleting makes `clean_text` not idempotent: "a ! b" gives "a  b", and a second application changes that |
| Text.CleanTextSettlesAfterTwo | evaluate.py:20-26 | a third application of `clean_text` changes nothing |
| Text.CleanTextFixesCanonical | evaluate.py:20-26 | a string in the output alphabet with single inner spaces and no outer ones is left unchanged |
| Text.CleanTextWithinStrip | evaluate.py:20-26 | the cleaned text is never longer than the input after `str.strip()` |
| Text.ValidTextHasAlnum | evaluate.py:50-55 | a text accepted by `is_valid_text` (cleaned length above 20) holds an ASCII letter or digit |
| Segment.RegexSearch | evaluate.py:73-80 | the engine's order of trying starts, delimiter, whitespace back-off and lazy group end; a match lies after its start and its label, and its group is non-empty |
| Segment.RegexSearchFrom | evaluate.py:80 | from a start position the search fails exactly when no later position can begin a match, and otherwise stops at the first that can |
| Segment.TryAtClosedForm | evaluate.py:73-80 | where a match can start, the engine's group starts after the optional ':'/'-' and all whitespace, keeping one character, and ends at the first later lookahead position |
| Segment.SearchCharacterization | evaluate.py:73-83 | no match exactly when the label never occurs with a character after it; otherwise the match starts at the label's leftmost such occurrence, skips an optional ':'/'-' and whitespace, and ends at the first later position where a label begins or at the end |
| Segment.SearchDetermined | evaluate.py:73-83 | the characterisation has exactly one solution: any span meeting it is the engine's match |
| Segment.Search | evaluate.py:80-83 | the scan returns the same match as the engine's search |
| Segment.SplitAnswers | evaluate.py:63-87 | the loop over the labels builds the map from each label to its group, or "" when there is no match |
| Segment.SplitShape | evaluate.py:70-85 | one entry per label; an entry is "" exactly when the label does not occur with a character after it; otherwise it is the group of the characterised match |
| Segment.EmptyAnswerSwallowsNextLabel | evaluate.py:73-80 | in "Q1: Q2: Paris" Q1's answer is "q2: paris" and Q2's is "paris": the spans of two labels overlap |
| Segment.AnswerRunsToNextLabel | evaluate.py:73-83 | in "Q1: Paris Q2: London" Q1's answer is "paris ", up to where Q2 begins |
| Scoring.SimilarityScore | evaluate.py:95-103 | an empty cleaned student text scores 0 |
| Scoring.BlankAnswerScoresZero | evaluate.py:97-103 | a student text without ASCII letters or digits scores 0 for every similarity measure |
| Scoring.ScoreSeesOnlyCleanText | evaluate.py:97-99 | the score depends on the two texts only through their cleaned forms |
| Scoring.MarksA | evaluate.py:155-162 | ladder A gives 0, 2, 3 or 5 |
| Scoring.MarksAMonotone | evaluate.py:155-162 | ladder A never decreases as the similarity rises |
| Scoring.GradeQuestion | evaluate.py:144-162 | marks of one question lie in 0..5 |
| Scoring.ShortAnswerSkipsSimilarity | evaluate.py:144-149 | a stripped answer under 5 characters gets similarity 0 and marks 0, the same under any similarity measure |
| Scoring.PunctuationAnswerScoresZero | evaluate.py:147-152 | "?!?!?" passes the 5-character test yet scores 0 under any measure |
| Scoring.SumMarksBounds | evaluate.py:165 | a sum of per-question marks in 0..5 lies in 0..5 times the number of questions |
| Scoring.GradeAll | evaluate.py:142-171 | one result per key entry in key order, each the entry's grading; the total is the sum of their marks and lies in 0..5 times the key size |
| Scoring.EvaluateExam | evaluate.py:122-174 | (None, 0) exactly when the text fails `is_valid_text` or every split answer is blank after strip; otherwise one result per key entry and their total; 0 <= total <= 5 * size of the key |
| Scoring.NoLabelRejected | evaluate.py:132-136 | a text in which no label occurs with a character after it is rejected |
| Scoring.ShortSheetRejected | evaluate.py:128-129 | a text of at most 20 characters after strip is rejected |
| Scoring.EmptyKeyRejected | evaluate.py:135-136 | with an empty key every text is rejected, since `all` of nothing holds |
| App.Percentage | app.py:91 | the percentage is 5 times the total |
| App.PercentageRange | app.py:91 | a total in 0..20 gives a percentage in 0..100 |
| App.GradeBandIntervals | app.py:97-111 | Fail below 35, Pass in [35, 55), Second Class in [55, 65), First Class in [65, 75), Distinction from 75: closed below, in both directions |
| App.GradeBandMonotone | app.py:97-111 | the grade never drops as the percentage rises |
| App.GradeOfTotal | app.py:91-111 | on integer totals the band has thresholds 7, 11, 13 and 15 and equals the band of the percentage |
| App.FourQuestionExample | app.py:91-111 | marks 5, 3, 2, 0 total 10, that is 50 percent, a Pass |
| App.MarksB | app.py:166-175 | ladder B gives 0 or 2..5 |
| App.MarksBMonotone | app.py:166-175 | ladder B never decreases as the similarity rises |
| App.LadderBAgainstA | app.py:166-175 | ladder B is never below ladder A; they differ exactly on [55, 75), where B gives 4 and A gives 3 |
| App.AnswerOrDefault | app.py:153 | a label missing from the split reads as "" |
| App.GradeSingle | app.py:153-175 | the selected answer is always scored, with marks in 0..5, and flagged as detected exactly when it has at least 5 characters after strip |
| App.EvaluateSingle | app.py:131-175 | for a question of the key: "unable to read" exactly when the stripped text is under 15 characters; "no valid question labels" exactly when it is not and every split answer is blank; otherwise a score with marks in 0..5 |
| App.SingleShortAnswer | app.py:156-160 | a stripped answer under 5 characters gets similarity 0, marks 0 and the warning |
| App.SelectedAnswerFromSplit | app.py:131-153 | for a question offered by the selectbox the `get` default never applies: the answer read is the split's entry for it |
| App.SelectedLabelPresent | app.py:131-134 | a question chosen from the key always has an entry in the split |
| App.SingleGradeNeverBelowExam | app.py:157-175 | on the same answer both modes compute the same similarity, and single-question mode gives at least as many marks |
| App.SingleOnAcceptedSheet | app.py:140-153 | on a sheet whole-exam mode accepts, single-question mode passes both checks and grades the same split answer |
| App.SingleNeverBelowExam | app.py:140-175 | where whole-exam mode grades a sheet, single-question mode grades each key question with the same similarity and no fewer marks |
| App.ValidTextPassesSingleGate | app.py:140 | every text accepted by `is_valid_text` passes the 15-character gate |
| App.SingleGateIsLooser | app.py:140 | a text of fifteen or more '!' passes the 15-character gate but fails `is_valid_text` |

## Left out

- `extract_text` (OpenCV thresholding and the Tesseract call) is image I/O and a foreign call. The OCR output is an arbitrary input string.
- The TF-IDF vectoriser and the cosine similarity are a library computation in floating point. They are the parameter `cosine`, applied to the cleaned texts; only the empty-input branch of `similarity_score` is modelled.
- Text.Lower: only ASCII letters are lower-cased. Python's full Unicode case mapping is not modelled, including mappings that change length or turn a character into an ASCII letter.
- Percentages and similarities are exact reals. The floating-point rounding of `total_marks / 20 * 100` is not modelled; for totals 0..20 it does not cross any band boundary.
- The answer key module is not part of this model. The key is a parameter with distinct labels.
- Segment.SplitAnswers: labels are assumed free of regex metacharacters, because the source splices them into the pattern unescaped.
- The Streamlit page (uploads, image decoding, messages, colours, progress bars, the printing loop) is presentation only. The single-question outcome records which message would be shown.
- `train.py` and `model.py` (the Keras network) are not on the grading path.
