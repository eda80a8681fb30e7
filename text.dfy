/** The text normaliser of evaluate.py (clean_text, is_valid_text), together with
    the pieces of Python's string library it relies on: str.lower(), str.strip(),
    the regex class \s and the two re.sub rewrites. */
module Text {

  /** Python's str.isspace(); the regex class \s matches exactly these characters in a str pattern. */
  predicate IsSpace(c: char) {
    ('\t' <= c <= '\r') || ('\U{1c}' <= c <= '\U{1f}') || c == ' '
    || c == '\U{85}' || c == '\U{a0}' || c == '\U{1680}'
    || ('\U{2000}' <= c <= '\U{200a}') || c == '\U{2028}' || c == '\U{2029}'
    || c == '\U{202f}' || c == '\U{205f}' || c == '\U{3000}'
  }

  /** The class [a-z0-9]: what clean_text keeps besides whitespace. */
  predicate IsLowerAlnum(c: char) {
    ('a' <= c <= 'z') || ('0' <= c <= '9')
  }

  predicate AllSpaces(s: string) {
    forall i :: 0 <= i < |s| ==> IsSpace(s[i])
  }

  // ---------------------------------------------------------------------------
  // str.lower()
  // ---------------------------------------------------------------------------

  function LowerChar(c: char): (d: char)
    ensures !('A' <= d <= 'Z')
    ensures IsSpace(d) <==> IsSpace(c)
  {
    if 'A' <= c <= 'Z' then (c as int + 32) as char else c
  }

  /** str.lower() on ASCII; other characters are left as they are. */
  function Lower(s: string): (r: string)
    ensures |r| == |s|
    ensures forall i :: 0 <= i < |s| ==> r[i] == LowerChar(s[i])
  {
    seq(|s|, i requires 0 <= i < |s| => LowerChar(s[i]))
  }

  // ---------------------------------------------------------------------------
  // str.strip()
  // ---------------------------------------------------------------------------

  /** The characters of s that are not whitespace, in order. */
  function NonSpaces(s: string): string {
    if s == [] then [] else (if IsSpace(s[0]) then [] else [s[0]]) + NonSpaces(s[1..])
  }

  /** s without its leading whitespace. */
  function SkipSpaces(s: string): (r: string)
    ensures |r| <= |s|
    ensures AllSpaces(s[..|s| - |r|])
    ensures r == [] || !IsSpace(r[0])
  {
    if s != [] && IsSpace(s[0]) then
      var r := SkipSpaces(s[1..]);
      assert s[..|s| - |r|] == [s[0]] + s[1..][..|s| - 1 - |r|];
      r
    else s
  }

  /** What SkipSpaces leaves is a suffix of its input. */
  lemma {:induction false} SkipSpacesSuffix(s: string)
    ensures SkipSpaces(s) == s[|s| - |SkipSpaces(s)|..]
  {
    if s != [] && IsSpace(s[0]) {
      SkipSpacesSuffix(s[1..]);
      assert s[1..][|s| - 1 - |SkipSpaces(s[1..])|..] == s[|s| - |SkipSpaces(s[1..])|..];
    }
  }

  lemma {:induction false} SkipSpacesNonSpaces(s: string)
    ensures NonSpaces(SkipSpaces(s)) == NonSpaces(s)
  {
    if s != [] && IsSpace(s[0]) {
      SkipSpacesNonSpaces(s[1..]);
    }
  }

  /** s without its trailing whitespace. */
  function StripRight(s: string): (r: string)
    ensures |r| <= |s|
    ensures AllSpaces(s[|r|..])
    ensures r == [] || !IsSpace(r[|r| - 1])
  {
    if s != [] && IsSpace(s[|s| - 1]) then
      var r := StripRight(s[..|s| - 1]);
      assert s[|r|..] == s[..|s| - 1][|r|..] + [s[|s| - 1]];
      r
    else s
  }

  /** What StripRight leaves is a prefix of its input. */
  lemma {:induction false} StripRightPrefix(s: string)
    ensures StripRight(s) == s[..|StripRight(s)|]
  {
    if s != [] && IsSpace(s[|s| - 1]) {
      StripRightPrefix(s[..|s| - 1]);
      assert s[..|s| - 1][..|StripRight(s[..|s| - 1])|] == s[..|StripRight(s[..|s| - 1])|];
    }
  }

  /** r sits in s at index i with only whitespace before and after it. */
  predicate StrippedAt(s: string, r: string, i: int) {
    0 <= i && i + |r| <= |s| && s[i..i + |r|] == r && AllSpaces(s[..i]) && AllSpaces(s[i + |r|..])
  }

  /** str.strip(): s without leading and trailing whitespace. */
  function Strip(s: string): (r: string)
    ensures |r| <= |s|
    ensures r == [] || (!IsSpace(r[0]) && !IsSpace(r[|r| - 1]))
  {
    var l := SkipSpaces(s);
    StripRightPrefix(l);
    StripRight(l)
  }

  /** str.strip() removes exactly the whitespace before and after what it returns. */
  lemma StripPosition(s: string)
    ensures StrippedAt(s, Strip(s), |s| - |SkipSpaces(s)|)
  {
    StripSlice(s);
    StripTrailing(s);
  }

  lemma StripSlice(s: string)
    ensures var i := |s| - |SkipSpaces(s)|; s[i..i + |Strip(s)|] == Strip(s)
  {
    var i, l := |s| - |SkipSpaces(s)|, SkipSpaces(s);
    var r := StripRight(l);
    SkipSpacesSuffix(s);
    StripRightPrefix(l);
    assert s[i..i + |r|] == l[..|r|];
  }

  lemma StripTrailing(s: string)
    ensures AllSpaces(s[|s| - |SkipSpaces(s)| + |Strip(s)|..])
  {
    var i, l := |s| - |SkipSpaces(s)|, SkipSpaces(s);
    var r := StripRight(l);
    SkipSpacesSuffix(s);
    assert s[i + |r|..] == l[|r|..];
  }

  // ---------------------------------------------------------------------------
  // The two rewrites of clean_text
  // ---------------------------------------------------------------------------

  /** Whitespace only as single ' ' characters: never another whitespace character, never two in a row. */
  predicate Collapsed(s: string) {
    && (forall i :: 0 <= i < |s| && IsSpace(s[i]) ==> s[i] == ' ')
    && (forall i :: 0 <= i < |s| - 1 ==> !(IsSpace(s[i]) && IsSpace(s[i + 1])))
  }

  /** re.sub(r'\s+', ' ', s): every maximal run of whitespace becomes one space. */
  function CollapseSpaces(s: string): (r: string)
    ensures |r| <= |s|
    ensures s != [] ==> r != [] && (IsSpace(r[0]) <==> IsSpace(s[0]))
    decreases |s|
  {
    if s == [] then []
    else if IsSpace(s[0]) then [' '] + CollapseSpaces(SkipSpaces(s[1..]))
    else [s[0]] + CollapseSpaces(s[1..])
  }

  /** re.sub(r'[^a-z0-9\s]', '', s): keeps lower-case ASCII letters, digits and whitespace, in order. */
  function DeleteSpecial(s: string): (r: string)
    ensures |r| <= |s|
  {
    if s == [] then []
    else (if IsLowerAlnum(s[0]) || IsSpace(s[0]) then [s[0]] else []) + DeleteSpecial(s[1..])
  }

  // ---------------------------------------------------------------------------
  // clean_text and is_valid_text
  // ---------------------------------------------------------------------------

  /** clean_text: lower-case, collapse whitespace runs, delete everything outside
      [a-z0-9\s], strip. The collapsing happens before the deletion. */
  function CleanText(s: string): (r: string)
    ensures |r| <= |s|
  {
    Strip(DeleteSpecial(CollapseSpaces(Lower(s))))
  }

  /** is_valid_text: the cleaned OCR text is longer than 20 characters. */
  predicate IsValidText(fullText: string) {
    |CleanText(fullText)| > 20
  }

  // ---------------------------------------------------------------------------
  // What clean_text produces
  // ---------------------------------------------------------------------------

  /** Every character is in [a-z0-9] or is a plain space. */
  predicate InCleanAlphabet(s: string) {
    forall i :: 0 <= i < |s| ==> IsLowerAlnum(s[i]) || s[i] == ' '
  }

  lemma CollapsedCons(c: char, x: string)
    requires Collapsed(x)
    requires IsSpace(c) ==> c == ' ' && (x == [] || !IsSpace(x[0]))
    ensures Collapsed([c] + x)
  {
    var s := [c] + x;
    forall i | 0 <= i < |s| - 1 ensures !(IsSpace(s[i]) && IsSpace(s[i + 1])) {
      if i > 0 {
        assert s[i] == x[i - 1] && s[i + 1] == x[i];
      }
    }
  }

  lemma {:induction false} CollapseSpacesCollapsed(s: string)
    ensures Collapsed(CollapseSpaces(s))
    decreases |s|
  {
    if s != [] {
      if IsSpace(s[0]) {
        var rest := SkipSpaces(s[1..]);
        CollapseSpacesCollapsed(rest);
        CollapsedCons(' ', CollapseSpaces(rest));
      } else {
        CollapseSpacesCollapsed(s[1..]);
        CollapsedCons(s[0], CollapseSpaces(s[1..]));
      }
    }
  }

  /** Skipping a whitespace prefix that ends before a non-space character. */
  lemma {:induction false} SkipSpacesOver(w: string, b: string)
    requires AllSpaces(w)
    requires b == [] || !IsSpace(b[0])
    ensures SkipSpaces(w + b) == b
  {
    if w != [] {
      assert (w + b)[1..] == w[1..] + b;
      SkipSpacesOver(w[1..], b);
    }
  }

  /** Leading whitespace that ends inside x is skipped within x alone. */
  lemma {:induction false} SkipSpacesConcat(x: string, y: string)
    requires !AllSpaces(x)
    ensures SkipSpaces(x + y) == SkipSpaces(x) + y
  {
    if IsSpace(x[0]) {
      assert (x + y)[1..] == x[1..] + y;
      SkipSpacesConcat(x[1..], y);
    }
  }

  /** Each whitespace run becomes exactly one space: a run w between a (empty or
      ending in a non-space) and b (empty or starting with one) turns into a single
      ' ', and a and b are collapsed on their own. */
  lemma {:induction false} CollapseSpacesJoin(a: string, w: string, b: string)
    requires a == [] || !IsSpace(a[|a| - 1])
    requires w != [] && AllSpaces(w)
    requires b == [] || !IsSpace(b[0])
    ensures CollapseSpaces(a + w + b) == CollapseSpaces(a) + [' '] + CollapseSpaces(b)
    decreases |a|
  {
    if a == [] {
      CollapseJoinEmpty(w, b);
      assert a + w + b == w + b;
    } else {
      var c, x := a[0], a[1..];
      assert a == [c] + x;
      if IsSpace(c) {
        SkipSpacesKeepsLast(x);
        CollapseSpacesJoin(SkipSpaces(x), w, b);
        CollapseJoinSpace(c, x, w, b);
      } else {
        CollapseSpacesJoin(x, w, b);
        CollapseJoinNonSpace(c, x, w, b);
      }
    }
  }

  /** A whitespace run at the very front becomes one space. */
  lemma CollapseJoinEmpty(w: string, b: string)
    requires w != [] && AllSpaces(w)
    requires b == [] || !IsSpace(b[0])
    ensures CollapseSpaces(w + b) == [' '] + CollapseSpaces(b)
  {
    assert w + b == [w[0]] + (w[1..] + b);
    CollapseSpacesCons(w[0], w[1..] + b);
    SkipSpacesOver(w[1..], b);
  }

  lemma CollapseJoinSpace(c: char, x: string, w: string, b: string)
    requires IsSpace(c) && !AllSpaces(x)
    requires CollapseSpaces(SkipSpaces(x) + w + b)
          == CollapseSpaces(SkipSpaces(x)) + [' '] + CollapseSpaces(b)
    ensures CollapseSpaces([c] + x + w + b) == CollapseSpaces([c] + x) + [' '] + CollapseSpaces(b)
  {
    var r := SkipSpaces(x);
    CollapseSpaceHead(c, x, w, b);
    CollapseSpacesCons(c, x);
    ConsJoin(' ', CollapseSpaces([c] + x + w + b), CollapseSpaces(r + w + b),
      CollapseSpaces([c] + x), CollapseSpaces(r), CollapseSpaces(b));
  }

  lemma CollapseJoinNonSpace(c: char, x: string, w: string, b: string)
    requires !IsSpace(c)
    requires CollapseSpaces(x + w + b) == CollapseSpaces(x) + [' '] + CollapseSpaces(b)
    ensures CollapseSpaces([c] + x + w + b) == CollapseSpaces([c] + x) + [' '] + CollapseSpaces(b)
  {
    CollapseNonSpaceHead(c, x, w, b);
    CollapseSpacesCons(c, x);
    ConsJoin(c, CollapseSpaces([c] + x + w + b), CollapseSpaces(x + w + b),
      CollapseSpaces([c] + x), CollapseSpaces(x), CollapseSpaces(b));
  }

  /** A leading whitespace run that does not reach the end becomes one space. */
  lemma CollapseSpaceHead(c: char, x: string, w: string, b: string)
    requires IsSpace(c) && !AllSpaces(x)
    ensures CollapseSpaces([c] + x + w + b) == [' '] + CollapseSpaces(SkipSpaces(x) + w + b)
  {
    var r, y := SkipSpaces(x), w + b;
    assert CollapseSpaces([c] + (x + y)) == [' '] + CollapseSpaces(r + y) by {
      CollapseSpacesCons(c, x + y);
      SkipSpacesConcat(x, y);
    }
    assert [c] + x + w + b == [c] + (x + y);
    assert r + y == r + w + b;
  }

  /** A leading non-space character is kept as it is. */
  lemma CollapseNonSpaceHead(c: char, x: string, w: string, b: string)
    requires !IsSpace(c)
    ensures CollapseSpaces([c] + x + w + b) == [c] + CollapseSpaces(x + w + b)
  {
    assert [c] + x + w + b == [c] + (x + w + b);
    CollapseSpacesCons(c, x + w + b);
  }

  /** The shape both cases of CollapseSpacesJoin close with: one character in front
      of a joined string is in front of its left part. */
  lemma ConsJoin(c: char, whole: string, tail: string, left: string, leftTail: string, right: string)
    requires whole == [c] + tail && left == [c] + leftTail
    requires tail == leftTail + [' '] + right
    ensures whole == left + [' '] + right
  {
  }

  /** One step of CollapseSpaces on a string with a known first character. */
  lemma CollapseSpacesCons(c: char, t: string)
    ensures CollapseSpaces([c] + t)
         == if IsSpace(c) then [' '] + CollapseSpaces(SkipSpaces(t)) else [c] + CollapseSpaces(t)
  {
    assert ([c] + t)[1..] == t;
  }

  /** What SkipSpaces leaves of a string ending in a non-space still ends in it. */
  lemma SkipSpacesKeepsLast(x: string)
    requires x != [] && !IsSpace(x[|x| - 1])
    ensures SkipSpaces(x) != [] && !IsSpace(SkipSpaces(x)[|SkipSpaces(x)| - 1])
    ensures !AllSpaces(x)
  {
    SkipSpacesSuffix(x);
  }

  lemma {:induction false} CollapseSpacesAlphabet(s: string)
    requires InCleanAlphabet(s)
    ensures InCleanAlphabet(CollapseSpaces(s))
    decreases |s|
  {
    if s != [] {
      if IsSpace(s[0]) {
        var rest := SkipSpaces(s[1..]);
        SkipSpacesSuffix(s[1..]);
        assert forall i :: 0 <= i < |rest| ==> rest[i] == s[|s| - |rest| + i];
        CollapseSpacesAlphabet(rest);
      } else {
        CollapseSpacesAlphabet(s[1..]);
      }
    }
  }

  lemma {:induction false} DeleteSpecialAlphabet(s: string)
    requires forall i :: 0 <= i < |s| && IsSpace(s[i]) ==> s[i] == ' '
    ensures InCleanAlphabet(DeleteSpecial(s))
  {
    if s != [] {
      DeleteSpecialAlphabet(s[1..]);
    }
  }

  lemma {:induction false} DeleteSpecialUnchanged(s: string)
    requires forall i :: 0 <= i < |s| ==> IsLowerAlnum(s[i]) || IsSpace(s[i])
    ensures DeleteSpecial(s) == s
  {
    if s != [] {
      DeleteSpecialUnchanged(s[1..]);
    }
  }

  lemma StripAlphabet(s: string)
    requires InCleanAlphabet(s)
    ensures InCleanAlphabet(Strip(s))
  {
    var r := Strip(s);
    var i := |s| - |SkipSpaces(s)|;
    StripPosition(s);
    assert forall m :: 0 <= m < |r| ==> r[m] == s[i + m];
  }

  /** clean_text's output holds only lower-case ASCII letters, digits and plain spaces,
      has no leading or trailing space, and is "" for "". */
  lemma CleanTextAlphabet(s: string)
    ensures InCleanAlphabet(CleanText(s))
    ensures CleanText(s) == [] || (CleanText(s)[0] != ' ' && CleanText(s)[|CleanText(s)| - 1] != ' ')
    ensures s == [] ==> CleanText(s) == []
  {
    var collapsed := CollapseSpaces(Lower(s));
    CollapseSpacesCollapsed(Lower(s));
    DeleteSpecialAlphabet(collapsed);
    StripAlphabet(DeleteSpecial(collapsed));
  }

  // ---------------------------------------------------------------------------
  // What clean_text keeps
  // ---------------------------------------------------------------------------

  /** The characters of s in [a-z0-9], in order. */
  function Alnums(s: string): string {
    if s == [] then [] else (if IsLowerAlnum(s[0]) then [s[0]] else []) + Alnums(s[1..])
  }

  lemma {:induction false} AlnumsConcat(a: string, b: string)
    ensures Alnums(a + b) == Alnums(a) + Alnums(b)
  {
    if a != [] {
      assert (a + b)[0] == a[0];
      assert (a + b)[1..] == a[1..] + b;
      AlnumsConcat(a[1..], b);
      var head := if IsLowerAlnum(a[0]) then [a[0]] else [];
      calc {
        Alnums(a + b);
        head + Alnums(a[1..] + b);
        head + (Alnums(a[1..]) + Alnums(b));
        (head + Alnums(a[1..])) + Alnums(b);
      }
    } else {
      assert a + b == b;
    }
  }

  lemma {:induction false} AlnumsOfSpaces(a: string)
    requires AllSpaces(a)
    ensures Alnums(a) == []
  {
    if a != [] {
      AlnumsOfSpaces(a[1..]);
    }
  }

  lemma {:induction false} AlnumsOfNoAlnum(a: string)
    requires forall i :: 0 <= i < |a| ==> !IsLowerAlnum(a[i])
    ensures Alnums(a) == []
  {
    if a != [] {
      AlnumsOfNoAlnum(a[1..]);
    }
  }

  lemma {:induction false} AlnumsOfNonSpaces(s: string)
    ensures Alnums(NonSpaces(s)) == Alnums(s)
  {
    if s != [] {
      var head := if IsSpace(s[0]) then [] else [s[0]];
      AlnumsConcat(head, NonSpaces(s[1..]));
      AlnumsOfNonSpaces(s[1..]);
    }
  }

  lemma {:induction false} AlnumsOfDeleteSpecial(s: string)
    ensures Alnums(DeleteSpecial(s)) == Alnums(s)
  {
    if s != [] {
      var head := if IsLowerAlnum(s[0]) || IsSpace(s[0]) then [s[0]] else [];
      AlnumsConcat(head, DeleteSpecial(s[1..]));
      AlnumsOfDeleteSpecial(s[1..]);
    }
  }

  lemma AlnumsOfStrip(s: string)
    ensures Alnums(Strip(s)) == Alnums(s)
  {
    var r := Strip(s);
    var i := |s| - |SkipSpaces(s)|;
    StripPosition(s);
    assert s == s[..i] + s[i..i + |r|] + s[i + |r|..];
    AlnumsConcat(s[..i] + r, s[i + |r|..]);
    AlnumsConcat(s[..i], r);
    AlnumsOfSpaces(s[..i]);
    AlnumsOfSpaces(s[i + |r|..]);
  }

  lemma {:induction false} CollapseSpacesNonSpaces(s: string)
    ensures NonSpaces(CollapseSpaces(s)) == NonSpaces(s)
    decreases |s|
  {
    if s != [] {
      if IsSpace(s[0]) {
        var rest := SkipSpaces(s[1..]);
        var x := CollapseSpaces(rest);
        CollapseSpacesNonSpaces(rest);
        SkipSpacesNonSpaces(s[1..]);
        assert ([' '] + x)[1..] == x;
      } else {
        var x := CollapseSpaces(s[1..]);
        CollapseSpacesNonSpaces(s[1..]);
        assert ([s[0]] + x)[1..] == x;
      }
    }
  }

  /** clean_text keeps every ASCII letter (lower-cased) and digit of its input, in order, and no other. */
  lemma CleanTextKeepsAlnums(s: string)
    ensures Alnums(CleanText(s)) == Alnums(Lower(s))
  {
    var collapsed := CollapseSpaces(Lower(s));
    AlnumsOfStrip(DeleteSpecial(collapsed));
    AlnumsOfDeleteSpecial(collapsed);
    AlnumsOfNonSpaces(collapsed);
    CollapseSpacesNonSpaces(Lower(s));
    AlnumsOfNonSpaces(Lower(s));
  }

  /** clean_text yields "" exactly when its input holds no ASCII letter and no digit. */
  lemma CleanTextEmptyIff(s: string)
    ensures CleanText(s) == [] <==> Alnums(Lower(s)) == []
  {
    var r := CleanText(s);
    CleanTextKeepsAlnums(s);
    CleanTextAlphabet(s);
    if r != [] {
      assert IsLowerAlnum(r[0]);
      assert r == [r[0]] + r[1..];
      AlnumsConcat([r[0]], r[1..]);
    }
  }

  /** A valid text holds at least one ASCII letter or digit. */
  lemma ValidTextHasAlnum(s: string)
    requires IsValidText(s)
    ensures Alnums(Lower(s)) != []
  {
    CleanTextEmptyIff(s);
  }

  // ---------------------------------------------------------------------------
  // clean_text is not idempotent, but settles after two applications
  // ---------------------------------------------------------------------------

  /** A string in clean_text's alphabet with no outer space and no doubled space. */
  predicate Canonical(s: string) {
    && InCleanAlphabet(s)
    && (s == [] || (s[0] != ' ' && s[|s| - 1] != ' '))
    && Collapsed(s)
  }

  lemma LowerUnchanged(s: string)
    requires forall i :: 0 <= i < |s| ==> !('A' <= s[i] <= 'Z')
    ensures Lower(s) == s
  {
  }

  lemma StripUnchanged(s: string)
    requires s == [] || (!IsSpace(s[0]) && !IsSpace(s[|s| - 1]))
    ensures Strip(s) == s
  {
    assert SkipSpaces(s) == s;
    assert StripRight(s) == s;
  }

  lemma {:induction false} CollapseUnchanged(s: string)
    requires Collapsed(s)
    ensures CollapseSpaces(s) == s
  {
    if s != [] {
      assert Collapsed(s[1..]);
      if IsSpace(s[0]) {
        assert s[1..] == [] || !IsSpace(s[1]);
        assert SkipSpaces(s[1..]) == s[1..];
      }
      CollapseUnchanged(s[1..]);
    }
  }

  /** Applied to a canonical string, clean_text returns it unchanged. */
  lemma CleanTextFixesCanonical(t: string)
    requires Canonical(t)
    ensures CleanText(t) == t
  {
    LowerUnchanged(t);
    CollapseUnchanged(t);
    DeleteSpecialUnchanged(t);
    StripUnchanged(t);
  }

  lemma StripCollapsed(s: string)
    requires Collapsed(s)
    ensures Collapsed(Strip(s))
  {
    var r := Strip(s);
    var i := |s| - |SkipSpaces(s)|;
    StripPosition(s);
    assert forall m :: 0 <= m < |r| ==> r[m] == s[i + m];
  }

  /** Cleaning twice gives a canonical string. */
  lemma CleanTextTwiceIsCanonical(s: string)
    ensures Canonical(CleanText(CleanText(s)))
  {
    var c := CleanText(s);
    CleanTextAlphabet(s);
    LowerUnchanged(c);
    var k := CollapseSpaces(c);
    CollapseSpacesAlphabet(c);
    CollapseSpacesCollapsed(c);
    DeleteSpecialUnchanged(k);
    StripAlphabet(k);
    StripCollapsed(k);
    assert CleanText(c) == Strip(k);
  }

  /** clean_text is idempotent from the second application on. */
  lemma CleanTextSettlesAfterTwo(s: string)
    ensures CleanText(CleanText(CleanText(s))) == CleanText(CleanText(s))
  {
    CleanTextTwiceIsCanonical(s);
    CleanTextFixesCanonical(CleanText(CleanText(s)));
  }

  /** clean_text is not idempotent: deleting '!' after collapsing leaves two spaces
      side by side, which a second application collapses. */
  lemma CleanTextNotIdempotent()
    ensures CleanText("a ! b") == "a  b"
    ensures CleanText(CleanText("a ! b")) != CleanText("a ! b")
  {
    CleanBangExample();
    var c := "a  b";
    CleanTextTwiceIsCanonical("a ! b");
    assert IsSpace(c[1]) && IsSpace(c[2]);
    assert !Canonical(c);
  }

  /** clean_text on a string without upper-case letters whose collapsed and filtered
      form has no outer whitespace. */
  lemma CleanTextSteps(s: string, c: string, d: string)
    requires forall i :: 0 <= i < |s| ==> !('A' <= s[i] <= 'Z')
    requires CollapseSpaces(s) == c && DeleteSpecial(c) == d
    requires d == [] || (!IsSpace(d[0]) && !IsSpace(d[|d| - 1]))
    ensures CleanText(s) == d
  {
    LowerUnchanged(s);
    StripUnchanged(d);
  }

  lemma CleanBangExample()
    ensures CleanText("a ! b") == "a  b"
  {
    CollapseBangExample();
    DeleteBangExample();
    CleanTextSteps("a ! b", "a ! b", "a  b");
  }

  lemma CollapseBangExample()
    ensures CollapseSpaces("a ! b") == "a ! b"
  {
    var s := "a ! b";
    assert !IsSpace(s[0]) && !IsSpace(s[2]) && !IsSpace(s[4]);
    assert Collapsed(s);
    CollapseUnchanged(s);
  }

  lemma DeleteBangExample()
    ensures DeleteSpecial("a ! b") == "a  b"
  {
    var s := "a ! b";
    assert s[3..][1..] == s[4..];
    assert s[2..][1..] == s[3..];
    assert s[1..][1..] == s[2..];
    assert DeleteSpecial(s[4..]) == "b";
    assert DeleteSpecial(s[3..]) == " b";
    assert DeleteSpecial(s[2..]) == " b";
    assert DeleteSpecial(s[1..]) == "  b";
  }

  // ---------------------------------------------------------------------------
  // clean_text is never longer than str.strip()
  // ---------------------------------------------------------------------------

  /** StripRight is the only prefix that ends in a non-space and leaves only whitespace after it. */
  lemma StripRightUnique(s: string, r: string)
    requires |r| <= |s| && r == s[..|r|]
    requires AllSpaces(s[|r|..])
    requires r == [] || !IsSpace(r[|r| - 1])
    ensures StripRight(s) == r
  {
  }

  lemma StripRightCons(c: char, z: string)
    ensures |StripRight([c] + z)| ==
      if StripRight(z) != [] then 1 + |StripRight(z)| else if IsSpace(c) then 0 else 1
  {
    var s := [c] + z;
    var q := StripRight(z);
    assert s[1..] == z;
    StripRightPrefix(z);
    if q != [] {
      var r := [c] + q;
      assert s[..|r|] == r;
      assert s[|r|..] == z[|q|..];
      StripRightUnique(s, r);
    } else if IsSpace(c) {
      assert AllSpaces(s[1..]);
      StripRightUnique(s, []);
    } else {
      assert s[..1] == [c];
      StripRightUnique(s, [c]);
    }
  }

  lemma {:induction false} StripRightSuffix(y: string, k: nat)
    requires k <= |y|
    ensures |StripRight(y[k..])| <= |StripRight(y)|
    ensures StripRight(y[k..]) != [] ==> |StripRight(y[k..])| + k == |StripRight(y)|
  {
    if k > 0 {
      StripRightSuffix(y, k - 1);
      assert y[k - 1..] == [y[k - 1]] + y[k..];
      StripRightCons(y[k - 1], y[k..]);
    }
  }

  lemma StripShorterThanStripRight(z: string)
    ensures |Strip(z)| <= |StripRight(z)|
  {
    var l := SkipSpaces(z);
    SkipSpacesSuffix(z);
    StripRightSuffix(z, |z| - |l|);
  }

  lemma DeleteSpecialCons(c: char, z: string)
    ensures DeleteSpecial([c] + z) == (if IsLowerAlnum(c) || IsSpace(c) then [c] else []) + DeleteSpecial(z)
  {
    assert ([c] + z)[1..] == z;
  }

  lemma {:induction false} CleanedRightEnd(y: string)
    ensures |StripRight(DeleteSpecial(CollapseSpaces(y)))| <= |StripRight(y)|
    decreases |y|
  {
    if y != [] {
      if IsSpace(y[0]) {
        var s := SkipSpaces(y[1..]);
        CleanedRightEnd(s);
        CleanedRightEndSpace(y);
      } else {
        CleanedRightEnd(y[1..]);
        CleanedRightEndNonSpace(y);
      }
    }
  }

  /** A non-space character at k lies inside StripRight. */
  lemma StripRightKeeps(y: string, k: nat)
    requires k < |y| && !IsSpace(y[k])
    ensures |StripRight(y)| > k
  {
  }

  lemma CleanedRightEndSpace(y: string)
    requires y != [] && IsSpace(y[0])
    requires |StripRight(DeleteSpecial(CollapseSpaces(SkipSpaces(y[1..]))))| <= |StripRight(SkipSpaces(y[1..]))|
    ensures |StripRight(DeleteSpecial(CollapseSpaces(y)))| <= |StripRight(y)|
  {
    var s := SkipSpaces(y[1..]);
    var c := CollapseSpaces(s);
    var w := DeleteSpecial(c);
    assert CollapseSpaces(y) == [' '] + c;
    DeleteSpecialCons(' ', c);
    StripRightCons(' ', w);
    SkipSpacesSuffix(y[1..]);
    assert y[1..][|y[1..]| - |s|..] == y[|y| - |s|..];
    StripRightSuffix(y, |y| - |s|);
  }

  lemma CleanedRightEndNonSpace(y: string)
    requires y != [] && !IsSpace(y[0])
    requires |StripRight(DeleteSpecial(CollapseSpaces(y[1..])))| <= |StripRight(y[1..])|
    ensures |StripRight(DeleteSpecial(CollapseSpaces(y)))| <= |StripRight(y)|
  {
    var c := CollapseSpaces(y[1..]);
    var w := DeleteSpecial(c);
    assert CollapseSpaces(y) == [y[0]] + c;
    DeleteSpecialCons(y[0], c);
    if IsLowerAlnum(y[0]) {
      StripRightCons(y[0], w);
    } else {
      assert DeleteSpecial(CollapseSpaces(y)) == w;
    }
    StripRightSuffix(y, 1);
    StripRightKeeps(y, 0);
  }

  lemma {:induction false} CleanedStrip(x: string)
    ensures |Strip(DeleteSpecial(CollapseSpaces(x)))| <= |Strip(x)|
    decreases |x|
  {
    if x != [] {
      if IsSpace(x[0]) {
        var s := SkipSpaces(x[1..]);
        var w := DeleteSpecial(CollapseSpaces(s));
        CleanedStrip(s);
        DeleteSpecialCons(' ', CollapseSpaces(s));
        assert SkipSpaces([' '] + w) == SkipSpaces(w) by {
          assert ([' '] + w)[1..] == w;
        }
        assert SkipSpaces(s) == s;
      } else {
        CleanedRightEnd(x);
        StripShorterThanStripRight(DeleteSpecial(CollapseSpaces(x)));
      }
    }
  }

  /** a and b have whitespace at the same positions. */
  predicate SameSpaces(a: string, b: string) {
    |a| == |b| && forall i :: 0 <= i < |a| ==> (IsSpace(a[i]) <==> IsSpace(b[i]))
  }

  lemma {:induction false} SkipSpacesSameSpaces(a: string, b: string)
    requires SameSpaces(a, b)
    ensures |SkipSpaces(a)| == |SkipSpaces(b)|
  {
    if a != [] {
      SkipSpacesSameSpaces(a[1..], b[1..]);
    }
  }

  lemma {:induction false} StripRightSameSpaces(a: string, b: string)
    requires SameSpaces(a, b)
    ensures |StripRight(a)| == |StripRight(b)|
  {
    if a != [] {
      StripRightSameSpaces(a[..|a| - 1], b[..|b| - 1]);
    }
  }

  lemma StripSameSpaces(a: string, b: string)
    requires SameSpaces(a, b)
    ensures |Strip(a)| == |Strip(b)|
  {
    SkipSpacesSameSpaces(a, b);
    SkipSpacesSuffix(a);
    SkipSpacesSuffix(b);
    var k := |a| - |SkipSpaces(a)|;
    assert SameSpaces(a[k..], b[k..]);
    StripRightSameSpaces(SkipSpaces(a), SkipSpaces(b));
  }

  /** clean_text never yields more characters than str.strip() leaves. */
  lemma CleanTextWithinStrip(s: string)
    ensures |CleanText(s)| <= |Strip(s)|
  {
    var x := Lower(s);
    assert CleanText(s) == Strip(DeleteSpecial(CollapseSpaces(x)));
    CleanedStrip(x);
    assert SameSpaces(x, s) by {
      forall i | 0 <= i < |s|
        ensures IsSpace(x[i]) <==> IsSpace(s[i])
      {
        assert x[i] == LowerChar(s[i]);
      }
    }
    StripSameSpaces(x, s);
  }
}
