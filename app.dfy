/** The decision rules app.py runs after evaluate.py: the grade band shown in
    whole-exam mode, and single-question mode with its own OCR gate, its own
    short-answer test and a finer marking ladder. The Streamlit calls around them
    (messages, colours, progress bars) are not modelled. */
module App {
  import opened Text
  import opened Segment
  import opened Scoring

  // ---------------------------------------------------------------------------
  // Whole-exam mode: percentage and grade band
  // ---------------------------------------------------------------------------

  /** percentage = total_marks / 20 * 100, for an exam of four 5-mark questions. */
  function Percentage(total: int): (p: real)
    ensures p == 5.0 * total as real
  {
    (total as real / 20.0) * 100.0
  }

  lemma PercentageRange(total: int)
    requires 0 <= total <= 20
    ensures 0.0 <= Percentage(total) <= 100.0
  {
  }

  datatype Grade = Fail | Pass | SecondClass | FirstClass | FirstClassWithDistinction

  /** The order of the grades, from Fail up. */
  function Rank(g: Grade): nat {
    match g
    case Fail => 0
    case Pass => 1
    case SecondClass => 2
    case FirstClass => 3
    case FirstClassWithDistinction => 4
  }

  /** The if/elif chain on the percentage. */
  function GradeBand(percentage: real): Grade {
    if percentage < 35.0 then Fail
    else if percentage < 55.0 then Pass
    else if percentage < 65.0 then SecondClass
    else if percentage < 75.0 then FirstClass
    else FirstClassWithDistinction
  }

  /** Each grade is one interval of percentages, closed below and open above. */
  lemma GradeBandIntervals(p: real)
    ensures GradeBand(p) == Fail <==> p < 35.0
    ensures GradeBand(p) == Pass <==> 35.0 <= p < 55.0
    ensures GradeBand(p) == SecondClass <==> 55.0 <= p < 65.0
    ensures GradeBand(p) == FirstClass <==> 65.0 <= p < 75.0
    ensures GradeBand(p) == FirstClassWithDistinction <==> 75.0 <= p
  {
  }

  /** The grade never drops as the percentage rises. */
  lemma GradeBandMonotone(p: real, q: real)
    requires p <= q
    ensures Rank(GradeBand(p)) <= Rank(GradeBand(q))
  {
  }

  /** The band over integer totals: with percentage = 5 * total the thresholds are 7, 11, 13 and 15. */
  function GradeOfTotal(total: int): (g: Grade)
    ensures g == GradeBand(Percentage(total))
  {
    if total < 7 then Fail
    else if total < 11 then Pass
    else if total < 13 then SecondClass
    else if total < 15 then FirstClass
    else FirstClassWithDistinction
  }

  /** Marks 5, 3, 2 and 0 on four questions total 10, that is 50 percent, a Pass. */
  lemma FourQuestionExample()
    ensures SumMarks([QuestionResult("Q1", 80.0, 5), QuestionResult("Q2", 50.0, 3),
                      QuestionResult("Q3", 40.0, 2), QuestionResult("Q4", 10.0, 0)]) == 10
    ensures Percentage(10) == 50.0
    ensures GradeOfTotal(10) == Pass
  {
    var rs := [QuestionResult("Q1", 80.0, 5), QuestionResult("Q2", 50.0, 3),
               QuestionResult("Q3", 40.0, 2), QuestionResult("Q4", 10.0, 0)];
    assert rs[..1][..0] == [];
    assert SumMarks(rs[..1]) == 5;
    assert rs[..2][..1] == rs[..1];
    assert SumMarks(rs[..2]) == 8;
    assert rs[..3][..2] == rs[..2];
    assert SumMarks(rs[..3]) == 10;
    assert rs[..3] == rs[..|rs| - 1];
  }

  // ---------------------------------------------------------------------------
  // Single-question mode: ladder B
  // ---------------------------------------------------------------------------

  /** The single-question ladder: 5 from 75, 4 from 55, 3 from 45, 2 from 35, else 0. */
  function MarksB(similarity: real): (marks: int)
    ensures marks == 0 || 2 <= marks <= 5
  {
    if similarity >= 75.0 then 5
    else if similarity >= 55.0 then 4
    else if similarity >= 45.0 then 3
    else if similarity >= 35.0 then 2
    else 0
  }

  lemma MarksBMonotone(x: real, y: real)
    requires x <= y
    ensures MarksB(x) <= MarksB(y)
  {
  }

  /** Ladder B never gives fewer marks than ladder A, and the two differ exactly on
      [55, 75), where B gives 4 and A gives 3. */
  lemma LadderBAgainstA(similarity: real)
    ensures MarksB(similarity) >= MarksA(similarity)
    ensures MarksB(similarity) != MarksA(similarity) <==> 55.0 <= similarity < 75.0
    ensures 55.0 <= similarity < 75.0 ==> MarksB(similarity) == 4 && MarksA(similarity) == 3
  {
  }

  // ---------------------------------------------------------------------------
  // Single-question mode: the path from OCR text to a mark
  // ---------------------------------------------------------------------------

  /** What single-question mode shows: one of its two errors, or the answer it found
      with similarity and marks; `detected` is false when it warned that the answer
      was not detected properly. */
  datatype SingleOutcome =
    | Unreadable
    | NoLabels
    | Scored(answer: string, similarity: real, marks: int, detected: bool)

  /** dict.get(q, ""). */
  function AnswerOrDefault(answers: map<string, string>, q: string): (a: string)
    ensures q !in answers ==> a == ""
  {
    if q in answers then answers[q] else ""
  }

  /** Grading the selected answer: under 5 characters once stripped it gets similarity 0
      and marks 0 with a warning; otherwise its similarity, marked by ladder B. */
  function GradeSingle(answer: string, reference: string, cosine: (string, string) -> real): (r: SingleOutcome)
    ensures r.Scored? && 0 <= r.marks <= 5 && (r.detected <==> |r.answer| >= 5)
  {
    var studentAnswer := Strip(answer);
    if |studentAnswer| < 5 then Scored(studentAnswer, 0.0, 0, false)
    else
      var similarity := SimilarityScore(studentAnswer, reference, cosine);
      Scored(studentAnswer, similarity, MarksB(similarity), true)
  }

  /** Single-question mode on the OCR text for the selected key entry; the selectbox
      offers only the key's questions, and the entry carries the reference answer. */
  function EvaluateSingle(fullText: string, key: seq<Entry>, selected: Entry, cosine: (string, string) -> real): (r: SingleOutcome)
    requires selected in key
    ensures r == Unreadable <==> |Strip(fullText)| < 15
    ensures r == NoLabels <==> |Strip(fullText)| >= 15 && AllBlank(Split(fullText, Labels(key)))
    ensures r.Scored? ==> 0 <= r.marks <= 5 && (r.detected <==> |r.answer| >= 5)
  {
    if |Strip(fullText)| < 15 then Unreadable
    else
      var answers := Split(fullText, Labels(key));
      if AllBlank(answers) then NoLabels
      else GradeSingle(AnswerOrDefault(answers, selected.question), selected.reference, cosine)
  }

  /** A selected answer shorter than 5 characters once stripped gets similarity 0 and
      marks 0 with the warning, whatever the similarity measure. */
  lemma SingleShortAnswer(answer: string, reference: string, f: (string, string) -> real)
    requires |Strip(answer)| < 5
    ensures GradeSingle(answer, reference, f) == Scored(Strip(answer), 0.0, 0, false)
  {
  }

  /** A question picked from the key always has an entry in the split, so the default is not used. */
  lemma SelectedLabelPresent(fullText: string, key: seq<Entry>, i: int)
    requires 0 <= i < |key|
    ensures key[i].question in Split(fullText, Labels(key))
  {
    assert Labels(key)[i] == key[i].question;
  }

  /** The get default never applies in single-question mode: the selected answer is
      the split's entry for the selected question. */
  lemma SelectedAnswerFromSplit(fullText: string, key: seq<Entry>, selected: Entry)
    requires selected in key
    ensures selected.question in Split(fullText, Labels(key))
    ensures AnswerOrDefault(Split(fullText, Labels(key)), selected.question)
         == Split(fullText, Labels(key))[selected.question]
  {
    var i :| 0 <= i < |key| && key[i] == selected;
    SelectedLabelPresent(fullText, key, i);
  }

  /** On the same answer the two modes compute the same similarity, and
      single-question mode never gives fewer marks. */
  lemma SingleGradeNeverBelowExam(answer: string, reference: string, cosine: (string, string) -> real)
    ensures GradeSingle(answer, reference, cosine).similarity == GradeQuestion(answer, reference, cosine).similarity
    ensures GradeSingle(answer, reference, cosine).marks >= GradeQuestion(answer, reference, cosine).marks
  {
    var studentAnswer := Strip(answer);
    if |studentAnswer| >= 5 {
      LadderBAgainstA(SimilarityScore(studentAnswer, reference, cosine));
    }
  }

  /** On a sheet whole-exam mode accepts, single-question mode passes both of its
      checks and grades the same split answer. */
  lemma SingleOnAcceptedSheet(fullText: string, key: seq<Entry>, i: int, cosine: (string, string) -> real)
    requires 0 <= i < |key|
    requires !Rejected(fullText, key)
    ensures key[i].question in Split(fullText, Labels(key))
    ensures EvaluateSingle(fullText, key, key[i], cosine)
         == GradeSingle(Split(fullText, Labels(key))[key[i].question], key[i].reference, cosine)
  {
    SelectedLabelPresent(fullText, key, i);
    ValidTextPassesSingleGate(fullText);
  }

  /** Where whole-exam mode grades a sheet, single-question mode grades every question
      of the key on it too, with the same similarity and never fewer marks. */
  lemma SingleNeverBelowExam(fullText: string, key: seq<Entry>, i: int, cosine: (string, string) -> real)
    requires 0 <= i < |key|
    requires !Rejected(fullText, key)
    ensures key[i].question in Split(fullText, Labels(key))
    ensures EvaluateSingle(fullText, key, key[i], cosine).Scored?
    ensures EvaluateSingle(fullText, key, key[i], cosine).similarity
         == ResultFor(key[i], Split(fullText, Labels(key)), cosine).similarity
    ensures EvaluateSingle(fullText, key, key[i], cosine).marks
         >= ResultFor(key[i], Split(fullText, Labels(key)), cosine).marks
  {
    SingleOnAcceptedSheet(fullText, key, i, cosine);
    var answer := Split(fullText, Labels(key))[key[i].question];
    SingleGradeNeverBelowExam(answer, key[i].reference, cosine);
  }

  // ---------------------------------------------------------------------------
  // The two OCR gates
  // ---------------------------------------------------------------------------

  /** Every text that passes is_valid_text passes single-question mode's gate. */
  lemma ValidTextPassesSingleGate(fullText: string)
    requires IsValidText(fullText)
    ensures |Strip(fullText)| >= 15
  {
    CleanTextWithinStrip(fullText);
  }

  /** The converse fails: fifteen or more '!' pass single-question mode's gate
      although cleaning leaves nothing of them. */
  lemma SingleGateIsLooser(s: string)
    requires |s| >= 15
    requires forall i :: 0 <= i < |s| ==> s[i] == '!'
    ensures |Strip(s)| >= 15
    ensures !IsValidText(s)
  {
    assert Alnums(s) == [] by {
      assert forall i :: 0 <= i < |s| ==> !IsLowerAlnum(s[i]);
      AlnumsOfNoAlnum(s);
    }
    assert Lower(s) == s by {
      LowerUnchanged(s);
    }
    CleanTextEmptyIff(s);
    StripUnchanged(s);
  }
}
