/** similarity_score and evaluate_exam of evaluate.py: the whole-exam grading path.
    The answer key is a parameter (a sequence of label/reference pairs in the key's
    order), the OCR text is an arbitrary string, and the TF-IDF cosine similarity is
    an uninterpreted function from the two cleaned texts to a real. */
module Scoring {
  import opened Wrappers
  import opened Text
  import opened Segment

  // ---------------------------------------------------------------------------
  // The answer key and the results
  // ---------------------------------------------------------------------------

  /** One answer-key entry: a question label such as "Q1" and its reference answer. */
  datatype Entry = Entry(question: string, reference: string)

  /** What grading one question yields: a similarity percentage and the marks. */
  datatype Marking = Marking(similarity: real, marks: int)

  /** One row of evaluate_exam's results dictionary. */
  datatype QuestionResult = QuestionResult(question: string, similarity: real, marks: int)

  function Labels(key: seq<Entry>): (r: seq<string>)
    ensures |r| == |key|
    ensures forall i :: 0 <= i < |key| ==> r[i] == key[i].question
  {
    seq(|key|, i requires 0 <= i < |key| => key[i].question)
  }

  /** The key is a dictionary, so its labels are distinct; they go into the pattern
      unescaped, so they are taken free of regex metacharacters. */
  predicate ValidKey(key: seq<Entry>) {
    && PlainLabels(Labels(key))
    && (forall i, j :: 0 <= i < j < |key| ==> key[i].question != key[j].question)
  }

  /** Every answer of the split is empty once stripped: the `all(...)` test of evaluate_exam. */
  predicate AllBlank(answers: map<string, string>) {
    forall q :: q in answers ==> Strip(answers[q]) == []
  }

  // ---------------------------------------------------------------------------
  // similarity_score
  // ---------------------------------------------------------------------------

  /** similarity_score: both texts are cleaned; an empty cleaned student text scores 0,
      otherwise the cosine of the cleaned texts as a percentage. */
  function SimilarityScore(student: string, correct: string, cosine: (string, string) -> real): (r: real)
    ensures CleanText(student) == [] ==> r == 0.0
  {
    var s := CleanText(student);
    var c := CleanText(correct);
    if |s| == 0 then 0.0 else cosine(s, c) * 100.0
  }

  /** A student text without any ASCII letter or digit scores 0 whatever the similarity measure. */
  lemma BlankAnswerScoresZero(student: string, correct: string, cosine: (string, string) -> real)
    requires Alnums(Lower(student)) == []
    ensures SimilarityScore(student, correct, cosine) == 0.0
  {
    CleanTextEmptyIff(student);
  }

  /** The score depends on the two texts only through their cleaned forms. */
  lemma ScoreSeesOnlyCleanText(a: string, b: string, c: string, d: string, cosine: (string, string) -> real)
    requires CleanText(a) == CleanText(b) && CleanText(c) == CleanText(d)
    ensures SimilarityScore(a, c, cosine) == SimilarityScore(b, d, cosine)
  {
    var x, y := CleanText(a), CleanText(c);
    ScoreOfCleaned(a, c, x, y, cosine);
    ScoreOfCleaned(b, d, x, y, cosine);
  }

  lemma ScoreOfCleaned(student: string, correct: string, x: string, y: string, cosine: (string, string) -> real)
    requires CleanText(student) == x && CleanText(correct) == y
    ensures SimilarityScore(student, correct, cosine) == if |x| == 0 then 0.0 else cosine(x, y) * 100.0
  {
  }

  // ---------------------------------------------------------------------------
  // Per-question marking (ladder A)
  // ---------------------------------------------------------------------------

  /** The whole-exam ladder: 5 from 75, 3 from 45, 2 from 35, else 0. */
  function MarksA(similarity: real): (marks: int)
    ensures marks == 0 || marks == 2 || marks == 3 || marks == 5
  {
    if similarity >= 75.0 then 5
    else if similarity >= 45.0 then 3
    else if similarity >= 35.0 then 2
    else 0
  }

  /** Ladder A never lowers the marks as the similarity rises. */
  lemma MarksAMonotone(x: real, y: real)
    requires x <= y
    ensures MarksA(x) <= MarksA(y)
  {
  }

  /** Grading one question: an answer under 5 characters once stripped gets similarity 0
      and marks 0; otherwise the similarity of the stripped answer, marked by ladder A. */
  function GradeQuestion(answer: string, reference: string, cosine: (string, string) -> real): (g: Marking)
    ensures 0 <= g.marks <= 5
  {
    var studentAnswer := Strip(answer);
    if |studentAnswer| < 5 then Marking(0.0, 0)
    else
      var similarity := SimilarityScore(studentAnswer, reference, cosine);
      Marking(similarity, MarksA(similarity))
  }

  /** A short answer gets (0, 0) and the similarity measure is not consulted: any two
      measures give the same result. */
  lemma ShortAnswerSkipsSimilarity(answer: string, reference: string, f: (string, string) -> real, g: (string, string) -> real)
    requires |Strip(answer)| < 5
    ensures GradeQuestion(answer, reference, f) == Marking(0.0, 0)
    ensures GradeQuestion(answer, reference, f) == GradeQuestion(answer, reference, g)
  {
  }

  /** An answer that passes the 5-character test can still score 0 for every
      measure, when cleaning leaves nothing of it. */
  lemma PunctuationAnswerScoresZero(reference: string, cosine: (string, string) -> real)
    ensures GradeQuestion("?!?!?", reference, cosine) == Marking(0.0, 0)
  {
    var a := "?!?!?";
    assert Strip(a) == a by {
      StripUnchanged(a);
    }
    assert Alnums(Lower(a)) == [] by {
      LowerUnchanged(a);
      assert a[1..][1..] == a[2..];
      assert a[2..][1..] == a[3..];
      assert a[3..][1..] == a[4..];
      assert Alnums(a[4..]) == [];
      assert Alnums(a[3..]) == [];
      assert Alnums(a[2..]) == [];
      assert Alnums(a[1..]) == [];
    }
    BlankAnswerScoresZero(a, reference, cosine);
  }

  // ---------------------------------------------------------------------------
  // evaluate_exam
  // ---------------------------------------------------------------------------

  /** The result row evaluate_exam records for one key entry. */
  function ResultFor(e: Entry, answers: map<string, string>, cosine: (string, string) -> real): QuestionResult
    requires e.question in answers
  {
    var g := GradeQuestion(answers[e.question], e.reference, cosine);
    QuestionResult(e.question, g.similarity, g.marks)
  }

  lemma RowOfGrading(e: Entry, answers: map<string, string>, cosine: (string, string) -> real, g: Marking)
    requires e.question in answers
    requires g == GradeQuestion(answers[e.question], e.reference, cosine)
    ensures ResultFor(e, answers, cosine) == QuestionResult(e.question, g.similarity, g.marks)
  {
  }

  /** The grading of one key entry against a split, as a function of the entry. */
  function Grader(answers: map<string, string>, cosine: (string, string) -> real): Entry --> QuestionResult {
    (e: Entry) requires e.question in answers => ResultFor(e, answers, cosine)
  }

  /** The rows recorded for a prefix of the key, in key order. */
  function Rows(key: seq<Entry>, row: Entry --> QuestionResult): seq<QuestionResult>
    requires forall i :: 0 <= i < |key| ==> row.requires(key[i])
  {
    if key == [] then [] else Rows(key[..|key| - 1], row) + [row(key[|key| - 1])]
  }

  lemma {:induction false} RowsLength(key: seq<Entry>, row: Entry --> QuestionResult)
    requires forall i :: 0 <= i < |key| ==> row.requires(key[i])
    ensures |Rows(key, row)| == |key|
  {
    if key != [] {
      RowsLength(key[..|key| - 1], row);
    }
  }

  /** Extending the prefix by one entry appends that entry's row. */
  lemma RowsSnoc(key: seq<Entry>, row: Entry --> QuestionResult, i: int)
    requires forall j :: 0 <= j < |key| ==> row.requires(key[j])
    requires 0 <= i < |key|
    ensures Rows(key[..i + 1], row) == Rows(key[..i], row) + [row(key[i])]
  {
    assert key[..i + 1][..i] == key[..i];
  }

  /** Row i is the row function applied to key entry i. */
  lemma {:induction false} RowsAt(key: seq<Entry>, row: Entry --> QuestionResult, i: int)
    requires forall j :: 0 <= j < |key| ==> row.requires(key[j])
    requires 0 <= i < |key|
    ensures |Rows(key, row)| == |key|
    ensures Rows(key, row)[i] == row(key[i])
  {
    var init := key[..|key| - 1];
    RowsLength(init, row);
    if i < |init| {
      RowsAt(init, row, i);
      assert init[i] == key[i];
    }
  }

  /** The running total: marks summed in key order. */
  function SumMarks(rs: seq<QuestionResult>): int {
    if rs == [] then 0 else SumMarks(rs[..|rs| - 1]) + rs[|rs| - 1].marks
  }

  lemma SumMarksAppend(rs: seq<QuestionResult>, r: QuestionResult)
    ensures SumMarks(rs + [r]) == SumMarks(rs) + r.marks
  {
    assert (rs + [r])[..|rs|] == rs;
  }

  lemma {:induction false} SumMarksBounds(rs: seq<QuestionResult>)
    requires forall i :: 0 <= i < |rs| ==> 0 <= rs[i].marks <= 5
    ensures 0 <= SumMarks(rs) <= 5 * |rs|
  {
    if rs != [] {
      SumMarksBounds(rs[..|rs| - 1]);
    }
  }

  /** evaluate_exam returns (None, 0): the cleaned text is too short, or no answer survives strip. */
  predicate Rejected(fullText: string, key: seq<Entry>) {
    !IsValidText(fullText) || AllBlank(Split(fullText, Labels(key)))
  }

  /** The loop of evaluate_exam over the key: grade each entry's answer and keep a running total. */
  method GradeAll(key: seq<Entry>, answers: map<string, string>, cosine: (string, string) -> real)
    returns (rs: seq<QuestionResult>, total: int)
    requires forall i :: 0 <= i < |key| ==> key[i].question in answers
    ensures |rs| == |key|
    ensures forall i :: 0 <= i < |key| ==> rs[i] == ResultFor(key[i], answers, cosine)
    ensures total == SumMarks(rs)
    ensures 0 <= total <= 5 * |key|
  {
    rs := [];
    total := 0;
    for i := 0 to |key|
      invariant rs == Rows(key[..i], Grader(answers, cosine))
      invariant |rs| == i
      invariant total == SumMarks(rs)
      invariant 0 <= total <= 5 * i
    {
      var e := key[i];
      var g := GradeQuestion(answers[e.question], e.reference, cosine);
      total := total + g.marks;
      var r := QuestionResult(e.question, g.similarity, g.marks);
      SumMarksAppend(rs, r);
      RowsSnoc(key, Grader(answers, cosine), i);
      assert Grader(answers, cosine)(e) == r by {
        RowOfGrading(e, answers, cosine, g);
      }
      rs := rs + [r];
    }
    assert key[..|key|] == key;
    forall i | 0 <= i < |key|
      ensures rs[i] == ResultFor(key[i], answers, cosine)
    {
      RowsAt(key, Grader(answers, cosine), i);
    }
  }

  /** evaluate_exam on the OCR text: the sentinel (None, 0) for an unreadable sheet or
      one without any labelled answer, else one result per key entry, in key order,
      and their total. */
  method EvaluateExam(fullText: string, key: seq<Entry>, cosine: (string, string) -> real)
    returns (results: Option<seq<QuestionResult>>, total: int)
    requires ValidKey(key)
    ensures results.None? <==> Rejected(fullText, key)
    ensures results.None? ==> total == 0
    ensures results.Some? ==>
      && |results.value| == |key|
      && (forall i :: 0 <= i < |key| ==>
            results.value[i] == ResultFor(key[i], Split(fullText, Labels(key)), cosine))
      && total == SumMarks(results.value)
    ensures 0 <= total <= 5 * |key|
  {
    if !IsValidText(fullText) {
      return None, 0;
    }
    var answers := SplitAnswers(fullText, Labels(key));
    if AllBlank(answers) {
      return None, 0;
    }
    assert forall i :: 0 <= i < |key| ==> key[i].question == Labels(key)[i];
    var rs;
    rs, total := GradeAll(key, answers, cosine);
    results := Some(rs);
  }

  // ---------------------------------------------------------------------------
  // When evaluate_exam rejects a sheet
  // ---------------------------------------------------------------------------

  /** A sheet on which no label of the key occurs (with a character after it) is rejected. */
  lemma NoLabelRejected(fullText: string, key: seq<Entry>)
    requires forall q, p :: q in Labels(key) ==> !Matchable(Lower(fullText), Lower(q), p)
    ensures Rejected(fullText, key)
  {
    var answers := Split(fullText, Labels(key));
    forall q | q in answers
      ensures Strip(answers[q]) == []
    {
      SplitShape(fullText, Labels(key), q);
    }
  }

  /** A sheet whose stripped text has at most 20 characters is rejected. */
  lemma ShortSheetRejected(fullText: string, key: seq<Entry>)
    requires |Strip(fullText)| <= 20
    ensures Rejected(fullText, key)
  {
    CleanTextWithinStrip(fullText);
  }

  /** An empty answer key gives no answers, so every sheet is rejected. */
  lemma EmptyKeyRejected(fullText: string)
    ensures Rejected(fullText, [])
  {
    assert Split(fullText, Labels([])) == map[];
  }
}
