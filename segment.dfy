/** split_answers of evaluate.py. For every answer-key label q the source searches
    the lower-cased text with one pattern: q lower-cased, an optional ':' or '-',
    any whitespace, a lazy group of at least one character (with DOTALL, so it
    crosses newlines), and a lookahead for any lower-cased label or the end of the
    text. It keeps the group, or "" when there is no match. This module gives the
    regex engine's backtracking order as a reference (RegexSearch), a direct scan
    proved equal to it (Search), a declarative account of what the match is, and
    the loop that fills the answer map (SplitAnswers). In the lookahead the
    optional delimiter and whitespace bind only to the last label, but a lookahead
    only tests whether its body can match, and that suffix can match the empty
    string, so the lookahead holds exactly where some label begins, or where $
    matches. */
module Segment {
  import opened Wrappers
  import opened Text

  // ---------------------------------------------------------------------------
  // The pieces of the pattern
  // ---------------------------------------------------------------------------

  /** Labels are spliced into the pattern unescaped; the model holds for labels
      free of regex metacharacters, which then match themselves literally. */
  predicate PlainLabel(q: string) {
    forall i :: 0 <= i < |q| ==> q[i] !in ".^$*+?{}[]\\|()"
  }

  predicate PlainLabels(labels: seq<string>) {
    forall i :: 0 <= i < |labels| ==> PlainLabel(labels[i])
  }

  /** l occurs in t at index p. */
  predicate OccursAt(t: string, l: string, p: int) {
    0 <= p && p + |l| <= |t| && t[p..p + |l|] == l
  }

  /** A match of the whole pattern can start at p: l occurs there and at least
      one character follows it for (.+?) to capture. */
  predicate Matchable(t: string, l: string, p: int) {
    OccursAt(t, l, p) && p + |l| < |t|
  }

  /** The lookahead (?=k1|...|kn[:\-]?\s*|$) holds at e: some label begins at e,
      or e is the end of t, or e is just before a final newline (Python's $). */
  predicate Boundary(t: string, lows: seq<string>, e: int) {
    || (exists k :: 0 <= k < |lows| && OccursAt(t, lows[k], e))
    || e == |t|
    || (0 <= e == |t| - 1 && t[e] == '\n')
  }

  /** The class [:\-]. */
  predicate IsDelimiter(c: char) {
    c == ':' || c == '-'
  }

  /** Number of whitespace characters in t from index i on. */
  function SpaceRun(t: string, i: nat): (n: nat)
    ensures n == 0 || i + n <= |t|
    ensures forall k :: i <= k < i + n ==> IsSpace(t[k])
    ensures i + n < |t| ==> !IsSpace(t[i + n])
    decreases |t| - i
  {
    if i < |t| && IsSpace(t[i]) then 1 + SpaceRun(t, i + 1) else 0
  }

  // ---------------------------------------------------------------------------
  // The regex engine's search order (the reference)
  // ---------------------------------------------------------------------------

  /** Where a match lies: the label at `at`, group 1 is t[from..to]. */
  datatype Span = Span(at: nat, from: nat, to: nat)

  /** (.+?) followed by the lookahead: try ending the group at e, e + 1, ..., |t|. */
  function LazyEnd(t: string, lows: seq<string>, e: nat): (r: Option<nat>)
    ensures r.Some? <==> e <= |t|
    ensures r.Some? ==> e <= r.value <= |t|
    decreases |t| + 1 - e
  {
    if e > |t| then None
    else if Boundary(t, lows, e) then Some(e)
    else LazyEnd(t, lows, e + 1)
  }

  /** Group 1 starting at s: it needs at least one character. */
  function TryCapture(t: string, lows: seq<string>, s: nat): (r: Option<(nat, nat)>)
    ensures r.Some? ==> r.value.0 == s < r.value.1 <= |t|
  {
    if s < |t| then
      match LazyEnd(t, lows, s + 1)
      case Some(e) => Some((s, e))
      case None => None
    else None
  }

  /** \s* after index i, greedy: try w whitespace characters, then w - 1, ..., 0. */
  function TrySpaces(t: string, lows: seq<string>, i: nat, w: nat): (r: Option<(nat, nat)>)
    ensures r.Some? ==> i <= r.value.0 <= i + w && r.value.0 < r.value.1 <= |t|
    decreases w
  {
    match TryCapture(t, lows, i + w)
    case Some(c) => Some(c)
    case None => if w == 0 then None else TrySpaces(t, lows, i, w - 1)
  }

  /** [:\-]? at index i, greedy: first with the delimiter consumed, then without. */
  function TryDelimiter(t: string, lows: seq<string>, i: nat): (r: Option<(nat, nat)>)
    ensures r.Some? ==> i <= r.value.0 < r.value.1 <= |t|
  {
    var taken := if i < |t| && IsDelimiter(t[i]) then TrySpaces(t, lows, i + 1, SpaceRun(t, i + 1)) else None;
    if taken.Some? then taken else TrySpaces(t, lows, i, SpaceRun(t, i))
  }

  /** The whole pattern anchored at p. */
  function TryAt(t: string, lows: seq<string>, l: string, p: nat): (r: Option<Span>)
    ensures r.Some? ==> r.value.at == p && p + |l| <= r.value.from < r.value.to <= |t|
  {
    if OccursAt(t, l, p) then
      match TryDelimiter(t, lows, p + |l|)
      case Some(c) => Some(Span(p, c.0, c.1))
      case None => None
    else None
  }

  /** re.search: try the start positions p, p + 1, ..., |t| in turn. */
  function RegexSearch(t: string, lows: seq<string>, l: string, p: nat): (r: Option<Span>)
    ensures r.Some? ==> p <= r.value.at && r.value.at + |l| <= r.value.from < r.value.to <= |t|
    decreases |t| + 1 - p
  {
    if p > |t| then None
    else
      match TryAt(t, lows, l, p)
      case Some(m) => Some(m)
      case None => RegexSearch(t, lows, l, p + 1)
  }

  // ---------------------------------------------------------------------------
  // What the match is, stated without the engine
  // ---------------------------------------------------------------------------

  /** p is the first index at which a match can start. */
  predicate LeftmostMatchable(t: string, l: string, p: int) {
    Matchable(t, l, p) && forall q :: 0 <= q < p ==> !Matchable(t, l, q)
  }

  /** t[i..s] is what [:\-]?\s* consumed: an optional delimiter at i, then whitespace. */
  predicate SkippedPrefix(t: string, i: int, s: int) {
    0 <= i <= s <= |t| && forall k :: i <= k < s ==> IsSpace(t[k]) || (k == i && IsDelimiter(t[k]))
  }

  /** ... and it consumed all it could while leaving one character for the group:
      the group starts at the last character of t, or at a character that is
      neither whitespace nor the delimiter right after the label. */
  predicate SkipMaximal(t: string, i: int, s: int) {
    || s == |t| - 1
    || (0 <= s < |t| && !IsSpace(t[s]) && !(s == i && IsDelimiter(t[s])))
  }

  /** Group t[s..e] ends at the first lookahead position after its first character. */
  predicate EndsAtFirstBoundary(t: string, lows: seq<string>, s: int, e: int) {
    0 <= s < e <= |t| && Boundary(t, lows, e) && forall k :: s < k < e ==> !Boundary(t, lows, k)
  }

  /** The match m is the one the regex finds. */
  predicate IsRegexMatch(t: string, lows: seq<string>, l: string, m: Span) {
    && LeftmostMatchable(t, l, m.at)
    && SkippedPrefix(t, m.at + |l|, m.from)
    && SkipMaximal(t, m.at + |l|, m.from)
    && EndsAtFirstBoundary(t, lows, m.from, m.to)
  }

  /** Where the group starts when the match starts at p, in closed form. */
  function CaptureStart(t: string, l: string, p: int): (s: nat)
    requires Matchable(t, l, p)
    ensures p + |l| <= s < |t|
  {
    var i := p + |l|;
    var i' := if IsDelimiter(t[i]) then i + 1 else i;
    var j := i' + SpaceRun(t, i');
    if j < |t| then j else |t| - 1
  }

  // ---------------------------------------------------------------------------
  // The engine's order agrees with the closed form
  // ---------------------------------------------------------------------------

  lemma {:induction false} LazyEndFound(t: string, lows: seq<string>, e: nat)
    requires e <= |t|
    ensures LazyEnd(t, lows, e).Some?
    ensures Boundary(t, lows, LazyEnd(t, lows, e).value)
    ensures forall k :: e <= k < LazyEnd(t, lows, e).value ==> !Boundary(t, lows, k)
    decreases |t| - e
  {
    if !Boundary(t, lows, e) {
      LazyEndFound(t, lows, e + 1);
    }
  }

  lemma CaptureFound(t: string, lows: seq<string>, s: nat)
    requires s < |t|
    ensures TryCapture(t, lows, s) == Some((s, LazyEnd(t, lows, s + 1).value))
  {
    LazyEndFound(t, lows, s + 1);
  }

  /** \s* backs off by one character when the whitespace runs to the end of t. */
  lemma TrySpacesBackOff(t: string, lows: seq<string>, i: nat, w: nat)
    requires i + w <= |t|
    ensures i + w < |t| ==> TrySpaces(t, lows, i, w) == TryCapture(t, lows, i + w)
    ensures i + w == |t| && w > 0 ==> TrySpaces(t, lows, i, w) == TryCapture(t, lows, |t| - 1)
    ensures i + w == |t| && w == 0 ==> TrySpaces(t, lows, i, w) == None
  {
    if i + w < |t| {
      CaptureFound(t, lows, i + w);
    } else if w > 0 {
      CaptureFound(t, lows, |t| - 1);
      assert TrySpaces(t, lows, i, w) == TrySpaces(t, lows, i, w - 1);
    }
  }

  /** Where a match can start and no delimiter follows the label, the engine's
      group starts past the whitespace, keeping one character. */
  lemma TryAtPlain(t: string, lows: seq<string>, l: string, p: nat)
    requires Matchable(t, l, p) && !IsDelimiter(t[p + |l|])
    ensures TryAt(t, lows, l, p) == Some(Span(p, CaptureStart(t, l, p), LazyEnd(t, lows, CaptureStart(t, l, p) + 1).value))
  {
    var i := p + |l|;
    CaptureFound(t, lows, CaptureStart(t, l, p));
    TrySpacesBackOff(t, lows, i, SpaceRun(t, i));
  }

  /** Where a delimiter follows the label, the engine consumes it, unless it is the
      last character of t, which the group then keeps. */
  lemma TryAtDelimited(t: string, lows: seq<string>, l: string, p: nat)
    requires Matchable(t, l, p) && IsDelimiter(t[p + |l|])
    ensures TryAt(t, lows, l, p) == Some(Span(p, CaptureStart(t, l, p), LazyEnd(t, lows, CaptureStart(t, l, p) + 1).value))
  {
    var i := p + |l|;
    CaptureFound(t, lows, CaptureStart(t, l, p));
    TrySpacesBackOff(t, lows, i + 1, SpaceRun(t, i + 1));
    assert SpaceRun(t, i) == 0;
    TrySpacesBackOff(t, lows, i, 0);
  }

  lemma TryAtClosedForm(t: string, lows: seq<string>, l: string, p: nat)
    ensures TryAt(t, lows, l, p).Some? <==> Matchable(t, l, p)
    ensures Matchable(t, l, p) ==>
      var s := CaptureStart(t, l, p);
      TryAt(t, lows, l, p) == Some(Span(p, s, LazyEnd(t, lows, s + 1).value))
  {
    if Matchable(t, l, p) {
      if IsDelimiter(t[p + |l|]) {
        TryAtDelimited(t, lows, l, p);
      } else {
        TryAtPlain(t, lows, l, p);
      }
    } else if OccursAt(t, l, p) {
      var i := p + |l|;
      assert SpaceRun(t, i) == 0;
      TrySpacesBackOff(t, lows, i, 0);
    }
  }

  lemma {:induction false} NoMatchBeyond(t: string, lows: seq<string>, l: string, p: nat)
    requires p + |l| >= |t|
    ensures RegexSearch(t, lows, l, p) == None
    ensures forall q :: p <= q ==> !Matchable(t, l, q)
    decreases |t| + 1 - p
  {
    if p <= |t| {
      TryAtClosedForm(t, lows, l, p);
      NoMatchBeyond(t, lows, l, p + 1);
    }
  }

  /** From start position p on, the engine finds the first matchable index, in closed form. */
  lemma {:induction false} RegexSearchFrom(t: string, lows: seq<string>, l: string, p: nat)
    ensures RegexSearch(t, lows, l, p).None? <==> forall q :: p <= q ==> !Matchable(t, l, q)
    ensures RegexSearch(t, lows, l, p).Some? ==>
      var m := RegexSearch(t, lows, l, p).value;
      && Matchable(t, l, m.at)
      && (forall q :: p <= q < m.at ==> !Matchable(t, l, q))
      && TryAt(t, lows, l, m.at) == Some(m)
    decreases |t| + 1 - p
  {
    if p + |l| >= |t| {
      NoMatchBeyond(t, lows, l, p);
    } else {
      TryAtClosedForm(t, lows, l, p);
      if !Matchable(t, l, p) {
        assert RegexSearch(t, lows, l, p) == RegexSearch(t, lows, l, p + 1);
        RegexSearchFrom(t, lows, l, p + 1);
        var r := RegexSearch(t, lows, l, p);
        if r.Some? {
          forall q | p <= q < r.value.at ensures !Matchable(t, l, q) {
            if q == p {
              assert !Matchable(t, l, p);
            }
          }
        }
      }
    }
  }

  lemma CaptureStartSkips(t: string, l: string, p: int)
    requires Matchable(t, l, p)
    ensures SkippedPrefix(t, p + |l|, CaptureStart(t, l, p))
    ensures SkipMaximal(t, p + |l|, CaptureStart(t, l, p))
  {
    var i := p + |l|;
    var i' := if IsDelimiter(t[i]) then i + 1 else i;
    var w := SpaceRun(t, i');
    if IsDelimiter(t[i]) && i' == |t| {
      assert SpaceRun(t, i') == 0;
    }
  }

  /** What re.search finds, stated without the engine: no match exactly when the
      label never occurs with a character after it; otherwise the match starts at
      the first such occurrence, the group begins past an optional ':' or '-' and
      the whitespace after it (backing off to keep one character), and ends at the
      first later index where a label begins, or at the end ($). */
  lemma SearchCharacterization(t: string, lows: seq<string>, l: string)
    ensures RegexSearch(t, lows, l, 0).None? <==> forall p :: !Matchable(t, l, p)
    ensures RegexSearch(t, lows, l, 0).Some? ==> IsRegexMatch(t, lows, l, RegexSearch(t, lows, l, 0).value)
  {
    RegexSearchFrom(t, lows, l, 0);
    var r := RegexSearch(t, lows, l, 0);
    if r.Some? {
      var m := r.value;
      assert LeftmostMatchable(t, l, m.at);
      TryAtClosedForm(t, lows, l, m.at);
      CaptureStartSkips(t, l, m.at);
      LazyEndFound(t, lows, m.from + 1);
      assert m.to == LazyEnd(t, lows, m.from + 1).value;
      assert Boundary(t, lows, m.to);
      assert forall k :: m.from < k < m.to ==> !Boundary(t, lows, k);
      assert EndsAtFirstBoundary(t, lows, m.from, m.to);
    }
  }

  /** The declarative account pins the match down: at most one span satisfies it,
      and it is the one the engine returns. */
  lemma SearchDetermined(t: string, lows: seq<string>, l: string, m: Span)
    requires IsRegexMatch(t, lows, l, m)
    ensures RegexSearch(t, lows, l, 0) == Some(m)
  {
    SearchCharacterization(t, lows, l);
    var r := RegexSearch(t, lows, l, 0).value;
    assert r.at == m.at;
    assert r.from == m.from;
    assert r.to == m.to;
  }

  // ---------------------------------------------------------------------------
  // The scan
  // ---------------------------------------------------------------------------

  /** The first index at which l occurs with a character after it, if any. */
  method FirstMatchable(t: string, l: string) returns (p: Option<nat>)
    ensures p.None? <==> forall q :: !Matchable(t, l, q)
    ensures p.Some? ==> LeftmostMatchable(t, l, p.value)
  {
    var i := 0;
    while i + |l| < |t| && !OccursAt(t, l, i)
      invariant 0 <= i
      invariant forall q :: 0 <= q < i ==> !Matchable(t, l, q)
      decreases |t| - i
    {
      i := i + 1;
    }
    if i + |l| < |t| {
      assert Matchable(t, l, i);
      p := Some(i);
    } else {
      assert forall q :: i <= q ==> !Matchable(t, l, q);
      p := None;
    }
  }

  /** Skip the optional delimiter after the label, then the whitespace; back off
      to the last character when the whitespace runs to the end. */
  method SkipToGroup(t: string, l: string, p: nat) returns (s: nat)
    requires Matchable(t, l, p)
    ensures s == CaptureStart(t, l, p)
  {
    var i := p + |l|;
    if IsDelimiter(t[i]) {
      i := i + 1;
    }
    var j := i;
    while j < |t| && IsSpace(t[j])
      invariant i <= j <= |t|
      invariant SpaceRun(t, i) == (j - i) + SpaceRun(t, j)
    {
      j := j + 1;
    }
    assert SpaceRun(t, j) == 0;
    s := if j < |t| then j else |t| - 1;
  }

  /** Extend the group one character at a time until the lookahead holds. */
  method GroupEnd(t: string, lows: seq<string>, s: nat) returns (e: nat)
    requires s < |t|
    ensures LazyEnd(t, lows, s + 1) == Some(e)
    ensures EndsAtFirstBoundary(t, lows, s, e)
  {
    e := s + 1;
    while !Boundary(t, lows, e)
      invariant s < e <= |t|
      invariant LazyEnd(t, lows, s + 1) == LazyEnd(t, lows, e)
      invariant forall k :: s < k < e ==> !Boundary(t, lows, k)
      decreases |t| - e
    {
      e := e + 1;
    }
  }

  /** One re.search, as a left-to-right scan: find the first occurrence of l with
      a character after it, skip the optional delimiter and the whitespace, then
      extend the group to the next boundary. */
  method Search(t: string, lows: seq<string>, l: string) returns (m: Option<Span>)
    ensures m == RegexSearch(t, lows, l, 0)
  {
    var start := FirstMatchable(t, l);
    if start.None? {
      SearchCharacterization(t, lows, l);
      return None;
    }
    var p := start.value;
    var s := SkipToGroup(t, l, p);
    var e := GroupEnd(t, lows, s);
    CaptureStartSkips(t, l, p);
    SearchDetermined(t, lows, l, Span(p, s, e));
    m := Some(Span(p, s, e));
  }

  // ---------------------------------------------------------------------------
  // The answer map
  // ---------------------------------------------------------------------------

  /** Group 1 of the search for l, or "" when there is no match. */
  function AnswerIn(t: string, lows: seq<string>, l: string): string {
    match RegexSearch(t, lows, l, 0)
    case None => ""
    case Some(m) => t[m.from..m.to]
  }

  /** The labels lower-cased, as they are joined into the lookahead. */
  function Lowers(labels: seq<string>): (r: seq<string>)
    ensures |r| == |labels|
    ensures forall i :: 0 <= i < |labels| ==> r[i] == Lower(labels[i])
  {
    seq(|labels|, i requires 0 <= i < |labels| => Lower(labels[i]))
  }

  /** The map split_answers returns: each label of the key to its answer in the lower-cased text. */
  function Split(fullText: string, labels: seq<string>): map<string, string> {
    var t := Lower(fullText);
    var lows := Lowers(labels);
    map q | q in labels :: AnswerIn(t, lows, Lower(q))
  }

  /** split_answers: lower-case the text once, then search for each label in turn. */
  method SplitAnswers(fullText: string, labels: seq<string>) returns (answers: map<string, string>)
    requires PlainLabels(labels)
    ensures answers == Split(fullText, labels)
  {
    var t := Lower(fullText);
    var lows := Lowers(labels);
    answers := map[];
    for i := 0 to |labels|
      invariant answers == map q | q in labels[..i] :: AnswerIn(t, lows, Lower(q))
    {
      var q := labels[i];
      var m := Search(t, lows, Lower(q));
      var answer := if m.Some? then t[m.value.from..m.value.to] else "";
      AnswersStep(labels, i, t, lows, answer);
      answers := answers[q := answer];
    }
    assert labels[..|labels|] == labels;
  }

  /** Recording the answer of label i extends the map from the first i labels to the first i + 1. */
  lemma AnswersStep(labels: seq<string>, i: int, t: string, lows: seq<string>, answer: string)
    requires 0 <= i < |labels|
    requires answer == AnswerIn(t, lows, Lower(labels[i]))
    ensures (map q | q in labels[..i] :: AnswerIn(t, lows, Lower(q)))[labels[i] := answer]
         == map q | q in labels[..i + 1] :: AnswerIn(t, lows, Lower(q))
  {
    assert labels[..i + 1] == labels[..i] + [labels[i]];
  }

  /** split_answers has exactly one entry per label; an entry is "" exactly when the
      label does not occur in the text with a character after it; otherwise it is
      the non-empty group of the match described in SearchCharacterization. */
  lemma SplitShape(fullText: string, labels: seq<string>, q: string)
    requires q in labels
    ensures Split(fullText, labels).Keys == set k | k in labels
    ensures Split(fullText, labels)[q] == "" <==> forall p :: !Matchable(Lower(fullText), Lower(q), p)
    ensures Split(fullText, labels)[q] != "" ==>
      exists m :: IsRegexMatch(Lower(fullText), Lowers(labels), Lower(q), m)
               && Split(fullText, labels)[q] == Lower(fullText)[m.from..m.to]
  {
    var t := Lower(fullText);
    var lows := Lowers(labels);
    SearchCharacterization(t, lows, Lower(q));
  }

  // ---------------------------------------------------------------------------
  // Worked examples
  // ---------------------------------------------------------------------------

  /** No label begins at k when t[k] differs from the first character of every label. */
  lemma NoLabelStartsAt(t: string, lows: seq<string>, k: int)
    requires 0 <= k < |t| && t[k] != '\n'
    requires forall j :: 0 <= j < |lows| ==> |lows[j]| > 0 && lows[j][0] != t[k]
    ensures !Boundary(t, lows, k)
  {
    forall j | 0 <= j < |lows|
      ensures !OccursAt(t, lows[j], k)
    {
      if k + |lows[j]| <= |t| {
        assert t[k..k + |lows[j]|][0] == t[k];
      }
    }
  }

  lemma LowerExampleText()
    ensures Lower("Q1: Q2: Paris") == "q1: q2: paris"
  {
  }

  /** The match for q1 in "q1: q2: paris": group 1 starts at q2 and runs to the end. */
  lemma SwallowedSpanQ1()
    ensures RegexSearch("q1: q2: paris", ["q1", "q2"], "q1", 0) == Some(Span(0, 4, 13))
  {
    var t := "q1: q2: paris";
    var lows := ["q1", "q2"];
    assert OccursAt(t, "q1", 0);
    assert LeftmostMatchable(t, "q1", 0);
    assert SkippedPrefix(t, 2, 4);
    assert SkipMaximal(t, 2, 4);
    forall k | 4 < k < 13
      ensures !Boundary(t, lows, k)
    {
      assert k == 5 || k == 6 || k == 7 || k == 8 || k == 9 || k == 10 || k == 11 || k == 12;
      NoLabelStartsAt(t, lows, k);
    }
    assert EndsAtFirstBoundary(t, lows, 4, 13);
    SearchDetermined(t, lows, "q1", Span(0, 4, 13));
  }

  /** The match for q2 in the same text. */
  lemma SwallowedSpanQ2()
    ensures RegexSearch("q1: q2: paris", ["q1", "q2"], "q2", 0) == Some(Span(4, 8, 13))
  {
    var t := "q1: q2: paris";
    var lows := ["q1", "q2"];
    assert OccursAt(t, "q2", 4);
    forall q | 0 <= q < 4
      ensures !Matchable(t, "q2", q)
    {
      assert t[q..q + 2][1] == t[q + 1];
    }
    assert LeftmostMatchable(t, "q2", 4);
    assert SkippedPrefix(t, 6, 8);
    assert SkipMaximal(t, 6, 8);
    forall k | 8 < k < 13
      ensures !Boundary(t, lows, k)
    {
      assert k == 9 || k == 10 || k == 11 || k == 12;
      NoLabelStartsAt(t, lows, k);
    }
    assert EndsAtFirstBoundary(t, lows, 8, 13);
    SearchDetermined(t, lows, "q2", Span(4, 8, 13));
  }

  /** A label written with no answer after it takes the next label and that label's
      answer as its own: the capture must hold at least one character, and the
      boundary test only starts after it. */
  lemma EmptyAnswerSwallowsNextLabel()
    ensures Split("Q1: Q2: Paris", ["Q1", "Q2"])["Q1"] == "q2: paris"
    ensures Split("Q1: Q2: Paris", ["Q1", "Q2"])["Q2"] == "paris"
  {
    var t := "q1: q2: paris";
    assert t[4..13] == "q2: paris";
    assert t[8..13] == "paris";
    assert Split("Q1: Q2: Paris", ["Q1", "Q2"])["Q1"] == "q2: paris" by {
      LowerExampleText();
      LowerExampleLabels();
      SwallowedSpanQ1();
      SplitEntry("Q1: Q2: Paris", ["Q1", "Q2"], "Q1");
    }
    assert Split("Q1: Q2: Paris", ["Q1", "Q2"])["Q2"] == "paris" by {
      LowerExampleText();
      LowerExampleLabels();
      SwallowedSpanQ2();
      SplitEntry("Q1: Q2: Paris", ["Q1", "Q2"], "Q2");
    }
  }

  lemma LowerOrdinaryText()
    ensures Lower("Q1: Paris Q2: London") == "q1: paris q2: london"
  {
  }

  /** The match for q1 in "q1: paris q2: london" stops where q2 begins. */
  lemma OrdinarySpanQ1()
    ensures RegexSearch("q1: paris q2: london", ["q1", "q2"], "q1", 0) == Some(Span(0, 4, 10))
  {
    var t := "q1: paris q2: london";
    var lows := ["q1", "q2"];
    assert OccursAt(t, "q1", 0);
    assert LeftmostMatchable(t, "q1", 0);
    assert SkippedPrefix(t, 2, 4);
    assert SkipMaximal(t, 2, 4);
    forall k | 4 < k < 10
      ensures !Boundary(t, lows, k)
    {
      assert k == 5 || k == 6 || k == 7 || k == 8 || k == 9;
      NoLabelStartsAt(t, lows, k);
    }
    assert OccursAt(t, lows[1], 10);
    assert EndsAtFirstBoundary(t, lows, 4, 10);
    SearchDetermined(t, lows, "q1", Span(0, 4, 10));
  }

  /** In the ordinary layout an answer runs up to the next label, trailing space included. */
  lemma AnswerRunsToNextLabel()
    ensures Split("Q1: Paris Q2: London", ["Q1", "Q2"])["Q1"] == "paris "
  {
    var t := "q1: paris q2: london";
    assert t[4..10] == "paris ";
    LowerOrdinaryText();
    LowerExampleLabels();
    OrdinarySpanQ1();
    SplitEntry("Q1: Paris Q2: London", ["Q1", "Q2"], "Q1");
  }

  lemma LowerExampleLabels()
    ensures Lower("Q1") == "q1" && Lower("Q2") == "q2"
    ensures Lowers(["Q1", "Q2"]) == ["q1", "q2"]
  {
    assert Lower("Q1") == "q1";
    assert Lower("Q2") == "q2";
  }

  lemma SplitEntry(fullText: string, labels: seq<string>, q: string)
    requires q in labels
    ensures Split(fullText, labels)[q] == AnswerIn(Lower(fullText), Lowers(labels), Lower(q))
  {
  }
}
