/**
 * `fix_ocr_mistakes`, `format_initials_and_spacing` and `preprocess_line`:
 * the corrections applied to one retained line before it is sent to the
 * language model.
 */
module Preprocess {

  import opened Wrappers
  import opened Chars
  import opened Regex

  // ------------------------------------------------------ fix_ocr_mistakes

  /** The digits OCR reads for a `J`. */
  predicate IsOcrDigit(c: char) { c == '1' || c == '3' || c == '4' }

  /** `s.replace(c, w)` */
  function ReplaceChar(s: string, c: char, w: string): (r: string)
    ensures forall x :: x in r ==> x in w || (x in s && x != c)
    ensures c !in s ==> r == s
  {
    if s == [] then []
    else (if s[0] == c then w else [s[0]]) + ReplaceChar(s[1..], c, w)
  }

  /** What the replacement lambda does to the matched text: `.replace('1', 'J.').replace('3', 'J').replace('4', 'J')`. */
  function RewriteDigits(t: string): (r: string)
    ensures forall x :: x in r ==> !IsOcrDigit(x)
    ensures forall x :: x in r ==> x in t || x == 'J' || x == '.'
  {
    ReplaceChar(ReplaceChar(ReplaceChar(t, '1', "J."), '3', "J"), '4', "J")
  }

  /** The same rewrite as one pass over the characters: 1 becomes `J.`, 3 and 4 become `J`. */
  function DigitsAsJ(t: string): (r: string)
  {
    if t == [] then []
    else (if t[0] == '1' then "J." else if IsOcrDigit(t[0]) then "J" else [t[0]]) + DigitsAsJ(t[1..])
  }

  lemma {:induction false} ReplaceCharAppend(a: string, b: string, c: char, w: string)
    ensures ReplaceChar(a + b, c, w) == ReplaceChar(a, c, w) + ReplaceChar(b, c, w)
    decreases |a|
  {
    if a != [] {
      assert (a + b)[0] == a[0] && (a + b)[1..] == a[1..] + b;
      ReplaceCharAppend(a[1..], b, c, w);
      var h := if a[0] == c then w else [a[0]];
      assert ReplaceChar(a + b, c, w) == h + ReplaceChar(a[1..] + b, c, w);
      assert ReplaceChar(a, c, w) == h + ReplaceChar(a[1..], c, w);
    } else {
      assert a + b == b;
    }
  }

  /** The three chained `str.replace` calls rewrite each character on its own. */
  lemma {:induction false} RewriteDigitsPerCharacter(t: string)
    ensures RewriteDigits(t) == DigitsAsJ(t)
    decreases |t|
  {
    if t != [] {
      var head := [t[0]];
      assert t == head + t[1..];
      ReplaceCharAppend(head, t[1..], '1', "J.");
      var h1 := ReplaceChar(head, '1', "J.");
      var r1 := ReplaceChar(t[1..], '1', "J.");
      ReplaceCharAppend(h1, r1, '3', "J");
      var h2 := ReplaceChar(h1, '3', "J");
      var r2 := ReplaceChar(r1, '3', "J");
      ReplaceCharAppend(h2, r2, '4', "J");
      RewriteDigitsPerCharacter(t[1..]);
      if t[0] == '1' {
        assert h1 == "J.";
        assert ReplaceChar("J.", '3', "J") == "J.";
        assert ReplaceChar("J.", '4', "J") == "J.";
      }
    }
  }

  /** s[i..e] matches `\(.*[134].*\)`, where `.` is any character but a newline. */
  ghost predicate OcrMatch(s: string, i: nat, e: nat) {
    && i + 3 <= e <= |s|
    && s[i] == '(' && s[e - 1] == ')'
    && (forall q :: i <= q < e ==> s[q] != '\n')
    && exists a :: i < a < e - 1 && IsOcrDigit(s[a])
  }

  /** From the first `(` to the last `)`, provided a 1, 3 or 4 lies strictly between them. */
  function OcrSpan(s: string): (r: Option<Span>)
    ensures r.Some? ==> r.value.start + 3 <= r.value.end <= |s|
    ensures r.Some? ==> s[r.value.start] == '(' && s[r.value.end - 1] == ')'
    ensures r.Some? ==> exists a :: r.value.start < a < r.value.end - 1 && IsOcrDigit(s[a])
  {
    match IndexFrom(s, '(', 0)
    case None => None
    case Some(i) =>
      match LastIndex(s, ')')
      case None => None
      case Some(b) =>
        if i < b && exists a :: i < a < b && IsOcrDigit(s[a]) then Some(Span(i, b + 1)) else None
  }

  /**
   * On a line without newlines, OcrSpan is the match re.sub replaces: the
   * leftmost match, the longest one there, and every other match lies inside
   * it, so it is the only replacement.
   */
  lemma OcrSpanIsTheMatch(s: string)
    requires '\n' !in s
    ensures OcrSpan(s).Some? ==> OcrMatch(s, OcrSpan(s).value.start, OcrSpan(s).value.end)
    ensures OcrSpan(s).Some? ==> forall i: nat, e: nat :: OcrMatch(s, i, e) ==> OcrSpan(s).value.start <= i && e <= OcrSpan(s).value.end
    ensures OcrSpan(s).None? ==> forall i: nat, e: nat :: !OcrMatch(s, i, e)
  {
    forall i: nat, e: nat | OcrMatch(s, i, e)
      ensures OcrSpan(s).Some? && OcrSpan(s).value.start <= i && e <= OcrSpan(s).value.end
    {
      var a :| i < a < e - 1 && IsOcrDigit(s[a]);
      var first := IndexFrom(s, '(', 0);
      var last := LastIndex(s, ')');
      assert first.Some? && first.value <= i;
      assert last.Some? && e - 1 <= last.value;
      assert first.value < a < last.value;
    }
  }

  /** fix_ocr_mistakes on one line: the match is rewritten, the text around it is kept. */
  function FixLine(s: string): (r: string)
    ensures OcrSpan(s).None? ==> r == s
  {
    match OcrSpan(s)
    case None => s
    case Some(sp) => s[..sp.start] + RewriteDigits(s[sp.start..sp.end]) + s[sp.end..]
  }

  /**
   * When there is a match, the text before and after it is kept and each
   * character inside it is rewritten on its own.
   */
  lemma FixLineShape(s: string)
    requires OcrSpan(s).Some?
    ensures var sp := OcrSpan(s).value;
      var r := FixLine(s);
      && |r| >= |s| - (sp.end - sp.start)
      && r[..sp.start] == s[..sp.start]
      && r[|r| - (|s| - sp.end)..] == s[sp.end..]
      && r[sp.start..|r| - (|s| - sp.end)] == DigitsAsJ(s[sp.start..sp.end])
  {
    var sp := OcrSpan(s).value;
    RewriteDigitsPerCharacter(s[sp.start..sp.end]);
    var mid := RewriteDigits(s[sp.start..sp.end]);
    var r := s[..sp.start] + mid + s[sp.end..];
    assert r == FixLine(s);
    assert r[..sp.start] == s[..sp.start];
    assert r[sp.start..|r| - (|s| - sp.end)] == mid;
  }

  /**
   * `fix_ocr_mistakes`: `re.sub(r'\(.*[134].*\)', ...)`. Since `.` does not
   * match a newline, the text is rewritten line by line; this is how the model
   * is built, not a fact proved against the scanner. The page loop only hands
   * it lines without a newline (`Segment.ProcessPageOneLine`), and there it
   * is `FixLine`.
   */
  function FixOcrMistakes(s: string): (r: string)
    ensures '\n' !in s ==> r == FixLine(s)
    decreases |s|
  {
    match IndexFrom(s, '\n', 0)
    case None => FixLine(s)
    case Some(n) => FixLine(s[..n]) + "\n" + FixOcrMistakes(s[n + 1..])
  }

  /** No 1, 3 or 4 anywhere in s. */
  predicate DigitFree(s: string) {
    forall k :: 0 <= k < |s| ==> !IsOcrDigit(s[k])
  }

  /** A text without a 1, 3 or 4 comes back unchanged. */
  lemma {:induction false} FixOcrWithoutDigits(s: string)
    requires DigitFree(s)
    ensures FixOcrMistakes(s) == s
    decreases |s|
  {
    var nl := IndexFrom(s, '\n', 0);
    if nl.None? {
      DigitFreeLine(s);
    } else {
      var n := nl.value;
      DigitFreeParts(s, n);
      DigitFreeLine(s[..n]);
      FixOcrWithoutDigits(s[n + 1..]);
      UnfoldAtNewline(s, n);
      SplitAtNewline(s, n);
    }
  }

  lemma UnfoldAtNewline(s: string, n: nat)
    requires IndexFrom(s, '\n', 0) == Some(n)
    ensures FixOcrMistakes(s) == FixLine(s[..n]) + "\n" + FixOcrMistakes(s[n + 1..])
  {
  }

  lemma SplitAtNewline(s: string, n: nat)
    requires n < |s| && s[n] == '\n'
    ensures s == s[..n] + "\n" + s[n + 1..]
  {
  }

  lemma DigitFreeParts(s: string, n: nat)
    requires DigitFree(s) && n < |s|
    ensures DigitFree(s[..n]) && DigitFree(s[n + 1..])
  {
    var rest := s[n + 1..];
    forall k | 0 <= k < |rest| ensures !IsOcrDigit(rest[k]) {
      assert rest[k] == s[n + 1 + k];
    }
  }

  lemma DigitFreeLine(s: string)
    requires DigitFree(s)
    ensures FixLine(s) == s
  {
    NoDigitNoSpan(s);
  }

  /** Without a 1, 3 or 4 there is nothing to rewrite. */
  lemma NoDigitNoSpan(s: string)
    ensures (forall k :: 0 <= k < |s| ==> !IsOcrDigit(s[k])) ==> OcrSpan(s).None?
  {
  }

  /**
   * The match is greedy: it runs from the first `(` of a line to the last
   * `)`, so a digit between two parenthesised groups is rewritten as well.
   */
  lemma OcrMatchSpansGroups(s: string)
    requires s == "(A) 1 (B)"
    ensures FixOcrMistakes(s) == "(A) J. (B)"
  {
    OcrExampleSpan(s);
    WholeLineRewritten(s);
    OcrExampleRewrite("(A) ", " (B)");
    assert s == "(A) " + ("1" + " (B)");
  }

  /** A line that is one match from end to end is rewritten character by character. */
  lemma WholeLineRewritten(s: string)
    requires '\n' !in s && OcrSpan(s) == Some(Span(0, |s|))
    ensures FixOcrMistakes(s) == DigitsAsJ(s)
  {
    FixLineWhole(s);
    RewriteDigitsPerCharacter(s);
  }

  lemma FixLineWhole(s: string)
    requires OcrSpan(s) == Some(Span(0, |s|))
    ensures FixLine(s) == RewriteDigits(s)
  {
    assert s[0..|s|] == s && s[..0] == [] && s[|s|..] == [];
  }

  lemma OcrExampleSpan(s: string)
    requires s == "(A) 1 (B)"
    ensures '\n' !in s && OcrSpan(s) == Some(Span(0, 9))
  {
    assert IndexFrom(s, '(', 0) == Some(0);
    assert LastIndex(s, ')') == Some(8);
    assert IsOcrDigit(s[4]);
  }

  lemma OcrExampleRewrite(a: string, b: string)
    requires a == "(A) " && b == " (B)"
    ensures DigitsAsJ(a + ("1" + b)) == "(A) J. (B)"
  {
    DigitsAsJAppend(a, "1" + b);
    DigitsAsJAppend("1", b);
    DigitsAsJKeeps(a);
    DigitsAsJKeeps(b);
    assert DigitsAsJ("1") == "J.";
  }

  lemma {:induction false} DigitsAsJAppend(a: string, b: string)
    ensures DigitsAsJ(a + b) == DigitsAsJ(a) + DigitsAsJ(b)
    decreases |a|
  {
    if a != [] {
      assert (a + b)[0] == a[0] && (a + b)[1..] == a[1..] + b;
      DigitsAsJAppend(a[1..], b);
      var h := if a[0] == '1' then "J." else if IsOcrDigit(a[0]) then "J" else [a[0]];
      assert DigitsAsJ(a + b) == h + DigitsAsJ(a[1..] + b);
      assert DigitsAsJ(a) == h + DigitsAsJ(a[1..]);
    } else {
      assert a + b == b;
    }
  }

  lemma {:induction false} DigitsAsJKeeps(t: string)
    requires forall k :: 0 <= k < |t| ==> !IsOcrDigit(t[k])
    ensures DigitsAsJ(t) == t
    decreases |t|
  {
    if t != [] {
      DigitsAsJKeeps(t[1..]);
    }
  }

  // -------------------------------------------- format_initials_and_spacing

  /** Where `(?<=[.])(?=[^\s])` matches: after a `.` and before a character that is not whitespace. */
  predicate SpaceGoesAt(s: string, i: nat)
    requires i <= |s|
  {
    i > 0 && s[i - 1] == '.' && i < |s| && !IsSpace(s[i])
  }

  /**
   * `re.sub(r'(?<=[.])(?=[^\s])', ' ', s)` from position i: a space goes in
   * after each `.` that a non-space follows, so every dot that is followed by
   * anything is followed by whitespace.
   */
  function SpaceAfterDotsFrom(s: string, i: nat): (r: string)
    requires i <= |s|
    ensures |s| - i <= |r| <= 2 * (|s| - i)
    ensures i < |s| ==> r[0] == (if SpaceGoesAt(s, i) then ' ' else s[i])
    ensures DotsSpaced(r)
    decreases |s| - i
  {
    if i == |s| then []
    else
      var rest := SpaceAfterDotsFrom(s, i + 1);
      var r := (if SpaceGoesAt(s, i) then " " else "") + [s[i]] + rest;
      assert forall k :: |r| - |rest| <= k < |r| ==> r[k] == rest[k - (|r| - |rest|)];
      r
  }

  /** The space pass adds spaces and nothing else: every other character occurs as often as before. */
  lemma {:induction false} SpaceAfterDotsAddsSpaces(s: string, i: nat)
    requires i <= |s|
    ensures multiset(s[i..]) <= multiset(SpaceAfterDotsFrom(s, i))
    ensures forall c :: c != ' ' ==> multiset(SpaceAfterDotsFrom(s, i))[c] == multiset(s[i..])[c]
    decreases |s| - i
  {
    if i < |s| {
      SpaceAfterDotsUnfold(s, i);
      SpaceAfterDotsAddsSpaces(s, i + 1);
      InsertedCountsAt(s, i, if SpaceGoesAt(s, i) then " " else "", SpaceAfterDotsFrom(s, i + 1), SpaceAfterDotsFrom(s, i), ' ');
    }
  }

  /** Nothing is added after the last character. */
  lemma {:induction false} SpaceAfterDotsLast(s: string, i: nat)
    requires i < |s|
    ensures SpaceAfterDotsFrom(s, i) != [] && SpaceAfterDotsFrom(s, i)[|SpaceAfterDotsFrom(s, i)| - 1] == s[|s| - 1]
    decreases |s| - i
  {
    SpaceAfterDotsUnfold(s, i);
    if i + 1 < |s| {
      SpaceAfterDotsLast(s, i + 1);
    }
  }

  /** Every `.` that is followed by anything is followed by whitespace. */
  predicate DotsSpaced(r: string) {
    forall k :: 0 <= k < |r| - 1 && r[k] == '.' ==> IsSpace(r[k + 1])
  }

  /** The output from position i is its piece for position i followed by the output from i + 1. */
  lemma SpaceAfterDotsUnfold(s: string, i: nat)
    requires i < |s|
    ensures SpaceAfterDotsFrom(s, i) == (if SpaceGoesAt(s, i) then " " else "") + [s[i]] + SpaceAfterDotsFrom(s, i + 1)
  {
  }

  /** `re.sub(r'\s+', ' ', s)` */
  function CollapseSpaces(s: string): (r: string)
    ensures |r| <= |s|
    ensures forall c :: c in r ==> c == ' ' || (c in s && !IsSpace(c))
    decreases |s|
  {
    if s == [] then []
    else if IsSpace(s[0]) then " " + CollapseSpaces(TrimLeft(s))
    else [s[0]] + CollapseSpaces(s[1..])
  }

  /** Collapsing keeps every character that is not whitespace, as often as it occurs. */
  lemma {:induction false} CollapseKeepsCounts(s: string)
    ensures forall c :: !IsSpace(c) ==> multiset(CollapseSpaces(s))[c] == multiset(s)[c]
    decreases |s|
  {
    if s != [] {
      if IsSpace(s[0]) {
        var n := LeadingSpaces(s);
        CollapseKeepsCounts(TrimLeft(s));
        assert s == s[..n] + TrimLeft(s);
        forall c | !IsSpace(c)
          ensures multiset(s[..n])[c] == 0
        {
          assert c !in s[..n];
        }
      } else {
        CollapseKeepsCounts(s[1..]);
        assert s == [s[0]] + s[1..];
      }
    }
  }

  /** Where `(?<=[A-Z])(?!\.)\b` matches: after a capital, not before a `.`, at a word boundary. */
  predicate DotGoesAt(s: string, i: nat)
    requires i <= |s|
  {
    i > 0 && IsUpper(s[i - 1]) && !(i < |s| && s[i] == '.') && WordBoundary(s, i)
  }

  /** `re.sub(r'(?<=[A-Z])(?!\.)\b', '.', s)` from position i (the end of the text is a position too). */
  function DotsAfterInitialsFrom(s: string, i: nat): (r: string)
    requires i <= |s|
    ensures |s| - i <= |r| <= 2 * (|s| - i) + 1
    ensures forall c :: c in r ==> c == '.' || c in s[i..]
    decreases |s| - i
  {
    (if DotGoesAt(s, i) then "." else "")
    + (if i == |s| then [] else [s[i]] + DotsAfterInitialsFrom(s, i + 1))
  }

  /** Every whitespace character is a plain space and no two are adjacent. */
  predicate WellSpaced(r: string) {
    forall k :: 0 <= k < |r| && IsSpace(r[k]) ==> r[k] == ' ' && (k + 1 < |r| ==> !IsSpace(r[k + 1]))
  }

  /** Every capital is followed by a word character or a `.`. */
  predicate InitialsClosed(r: string) {
    forall k :: 0 <= k < |r| && IsUpper(r[k]) ==> k + 1 < |r| && (IsWord(r[k + 1]) || r[k + 1] == '.')
  }

  /** The text without its whitespace and dots. */
  function Erase(s: string): (r: string)
    ensures |r| <= |s|
  {
    if s == [] then []
    else (if IsSpace(s[0]) || s[0] == '.' then [] else [s[0]]) + Erase(s[1..])
  }

  lemma {:induction false} EraseAppend(a: string, b: string)
    ensures Erase(a + b) == Erase(a) + Erase(b)
    decreases |a|
  {
    if a != [] {
      assert (a + b)[0] == a[0] && (a + b)[1..] == a[1..] + b;
      EraseAppend(a[1..], b);
      var h := if IsSpace(a[0]) || a[0] == '.' then [] else [a[0]];
      assert Erase(a + b) == h + Erase(a[1..] + b);
      assert Erase(a) == h + Erase(a[1..]);
    } else {
      assert a + b == b;
    }
  }

  lemma {:induction false} SpaceAfterDotsErase(s: string, i: nat)
    requires i <= |s|
    ensures Erase(SpaceAfterDotsFrom(s, i)) == Erase(s[i..])
    decreases |s| - i
  {
    if i < |s| {
      var pre := if SpaceGoesAt(s, i) then " " else "";
      SpaceAfterDotsUnfold(s, i);
      SpaceAfterDotsErase(s, i + 1);
      EraseAppend(pre + [s[i]], SpaceAfterDotsFrom(s, i + 1));
      EraseAppend(pre, [s[i]]);
      assert s[i..] == [s[i]] + s[i + 1..];
      EraseAppend([s[i]], s[i + 1..]);
    }
  }

  /** A collapsed text starts with the first character of a text that does not start with whitespace. */
  lemma CollapseHead(s: string)
    requires s != [] && !IsSpace(s[0])
    ensures CollapseSpaces(s) != [] && CollapseSpaces(s)[0] == s[0]
  {
  }

  /** Collapsing whitespace runs leaves every whitespace a single plain space. */
  lemma {:induction false} CollapseSpacesWellSpaced(s: string)
    ensures WellSpaced(CollapseSpaces(s))
    decreases |s|
  {
    if s != [] {
      if IsSpace(s[0]) {
        var t := TrimLeft(s);
        CollapseSpacesWellSpaced(t);
        if t != [] {
          CollapseHead(t);
        }
        var c := CollapseSpaces(t);
        assert CollapseSpaces(s) == " " + c;
        assert forall k :: 0 < k < |c| + 1 ==> (" " + c)[k] == c[k - 1];
      } else {
        var c := CollapseSpaces(s[1..]);
        CollapseSpacesWellSpaced(s[1..]);
        assert CollapseSpaces(s) == [s[0]] + c;
        assert forall k :: 0 < k < |c| + 1 ==> ([s[0]] + c)[k] == c[k - 1];
      }
    }
  }

  /** A well-spaced text has nothing to collapse; so collapsing twice is collapsing once. */
  lemma {:induction false} CollapseKeepsWellSpaced(s: string)
    requires WellSpaced(s)
    ensures CollapseSpaces(s) == s
    decreases |s|
  {
    if s != [] {
      var t := s[1..];
      assert forall k :: 0 <= k < |t| ==> t[k] == s[k + 1];
      assert WellSpaced(t);
      CollapseKeepsWellSpaced(t);
      if IsSpace(s[0]) {
        TrimLeftStep(s);
        if t != [] {
          TrimLeftStep(t);
        }
        assert TrimLeft(s) == t;
      }
      assert s == [s[0]] + t;
    }
  }

  /** Collapsing whitespace twice changes nothing more. */
  lemma CollapseSpacesIdempotent(s: string)
    ensures CollapseSpaces(CollapseSpaces(s)) == CollapseSpaces(s)
  {
    CollapseSpacesWellSpaced(s);
    CollapseKeepsWellSpaced(CollapseSpaces(s));
  }

  /** Collapsing whitespace keeps the characters that are neither whitespace nor dots. */
  lemma {:induction false} CollapseSpacesErase(s: string)
    ensures Erase(CollapseSpaces(s)) == Erase(s)
    decreases |s|
  {
    if s != [] {
      if IsSpace(s[0]) {
        var t := TrimLeft(s);
        CollapseSpacesErase(t);
        EraseAppend(" ", CollapseSpaces(t));
        EraseLeadingSpaces(s);
      } else {
        CollapseSpacesErase(s[1..]);
        EraseAppend([s[0]], CollapseSpaces(s[1..]));
        assert s == [s[0]] + s[1..];
        EraseAppend([s[0]], s[1..]);
      }
    }
  }

  lemma {:induction false} EraseLeadingSpaces(s: string)
    ensures Erase(TrimLeft(s)) == Erase(s)
    decreases |s|
  {
    if s != [] && IsSpace(s[0]) {
      TrimLeftStep(s);
      EraseLeadingSpaces(s[1..]);
    } else if s != [] {
      TrimLeftStep(s);
    }
  }

  /** The head of the dot pass from position i. */
  lemma DotsHead(s: string, i: nat)
    requires i <= |s|
    ensures var r := DotsAfterInitialsFrom(s, i);
      && (DotGoesAt(s, i) ==> r != [] && r[0] == '.')
      && (!DotGoesAt(s, i) && i < |s| ==> r != [] && r[0] == s[i])
      && (!DotGoesAt(s, i) && i == |s| ==> r == [])
  {
  }

  /** A capital at position i is followed, after the dot pass, by a word character or a dot. */
  lemma CapitalFollowed(s: string, i: nat)
    requires i < |s| && IsUpper(s[i])
    ensures var rest := DotsAfterInitialsFrom(s, i + 1);
      rest != [] && (IsWord(rest[0]) || rest[0] == '.')
  {
    DotsHead(s, i + 1);
    if !DotGoesAt(s, i + 1) && i + 1 < |s| {
      assert s[i + 1] == '.' || !WordBoundary(s, i + 1);
    }
  }

  /** The output of the dot pass from i is its piece for position i followed by the pass from i + 1. */
  lemma DotsUnfold(s: string, i: nat)
    requires i < |s|
    ensures var pre := if DotGoesAt(s, i) then "." else "";
      DotsAfterInitialsFrom(s, i) == pre + [s[i]] + DotsAfterInitialsFrom(s, i + 1)
  {
  }

  /** A character in front of a well-spaced text keeps it well spaced, unless it makes a second space. */
  lemma SpacedCons(c: char, rest: string)
    requires WellSpaced(rest)
    requires IsSpace(c) ==> c == ' ' && (rest != [] ==> !IsSpace(rest[0]))
    ensures WellSpaced([c] + rest)
  {
    var r := [c] + rest;
    assert forall k :: 0 < k < |r| ==> r[k] == rest[k - 1];
  }

  /** The dot pass only adds dots, so a well-spaced text stays well spaced. */
  lemma {:induction false} DotsWellSpaced(s: string, i: nat)
    requires i <= |s|
    requires forall k :: i <= k < |s| && IsSpace(s[k]) ==> s[k] == ' ' && (k + 1 < |s| ==> !IsSpace(s[k + 1]))
    ensures WellSpaced(DotsAfterInitialsFrom(s, i))
    decreases |s| - i
  {
    if i < |s| {
      var rest := DotsAfterInitialsFrom(s, i + 1);
      DotsWellSpaced(s, i + 1);
      DotsHead(s, i + 1);
      DotsUnfold(s, i);
      SpacedCons(s[i], rest);
      if DotGoesAt(s, i) {
        SpacedCons('.', [s[i]] + rest);
        assert "." + [s[i]] + rest == "." + ([s[i]] + rest);
      } else {
        assert "" + [s[i]] + rest == [s[i]] + rest;
      }
    }
  }

  /** A character in front of a text whose capitals are closed keeps them closed, if it is not a capital left open. */
  lemma ClosedCons(c: char, rest: string)
    requires InitialsClosed(rest)
    requires IsUpper(c) ==> rest != [] && (IsWord(rest[0]) || rest[0] == '.')
    ensures InitialsClosed([c] + rest)
  {
    var r := [c] + rest;
    assert forall k :: 0 < k < |r| ==> r[k] == rest[k - 1];
  }

  /** After the dot pass every capital is followed by a word character or a dot. */
  lemma {:induction false} DotsInitialsClosed(s: string, i: nat)
    requires i <= |s|
    ensures InitialsClosed(DotsAfterInitialsFrom(s, i))
    decreases |s| - i
  {
    if i < |s| {
      var rest := DotsAfterInitialsFrom(s, i + 1);
      DotsInitialsClosed(s, i + 1);
      DotsUnfold(s, i);
      if IsUpper(s[i]) {
        CapitalFollowed(s, i);
      }
      ClosedCons(s[i], rest);
      if DotGoesAt(s, i) {
        ClosedCons('.', [s[i]] + rest);
        assert "." + [s[i]] + rest == "." + ([s[i]] + rest);
      } else {
        assert "" + [s[i]] + rest == [s[i]] + rest;
      }
    }
  }

  /** The dot pass adds nothing but dots. */
  lemma {:induction false} DotsErase(s: string, i: nat)
    requires i <= |s|
    ensures Erase(DotsAfterInitialsFrom(s, i)) == Erase(s[i..])
    decreases |s| - i
  {
    var pre := if DotGoesAt(s, i) then "." else "";
    if i == |s| {
      assert Erase(pre) == [];
    } else {
      var rest := DotsAfterInitialsFrom(s, i + 1);
      DotsErase(s, i + 1);
      DotsUnfold(s, i);
      EraseAppend(pre + [s[i]], rest);
      EraseAppend(pre, [s[i]]);
      assert s[i..] == [s[i]] + s[i + 1..];
      EraseAppend([s[i]], s[i + 1..]);
    }
  }

  /** The dot pass adds dots and nothing else: every other character occurs as often as before. */
  lemma {:induction false} DotsAddsDots(s: string, i: nat)
    requires i <= |s|
    ensures multiset(s[i..]) <= multiset(DotsAfterInitialsFrom(s, i))
    ensures forall c :: c != '.' ==> multiset(DotsAfterInitialsFrom(s, i))[c] == multiset(s[i..])[c]
    decreases |s| - i
  {
    var pre := if DotGoesAt(s, i) then "." else "";
    var r := DotsAfterInitialsFrom(s, i);
    if i == |s| {
      assert r == pre && s[i..] == [];
    } else {
      DotsUnfold(s, i);
      DotsAddsDots(s, i + 1);
      InsertedCountsAt(s, i, pre, DotsAfterInitialsFrom(s, i + 1), r, '.');
    }
  }

  /**
   * One step of a pass that only inserts copies of d: if r is the pieces for
   * position i in front of rest, the counts compare as they did for the rest.
   */
  lemma InsertedCountsAt(s: string, i: nat, pre: string, rest: string, r: string, d: char)
    requires i < |s| && r == pre + [s[i]] + rest
    requires forall x :: x in pre ==> x == d
    requires multiset(s[i + 1..]) <= multiset(rest)
    requires forall x :: x != d ==> multiset(rest)[x] == multiset(s[i + 1..])[x]
    ensures multiset(s[i..]) <= multiset(r)
    ensures forall x :: x != d ==> multiset(r)[x] == multiset(s[i..])[x]
  {
    assert s[i..] == [s[i]] + s[i + 1..];
    InsertedCounts(pre, s[i], rest, s[i + 1..], d);
  }

  lemma InsertedCounts(pre: string, c: char, rest: string, tail: string, d: char)
    requires forall x :: x in pre ==> x == d
    requires multiset(tail) <= multiset(rest)
    requires forall x :: x != d ==> multiset(rest)[x] == multiset(tail)[x]
    ensures multiset([c] + tail) <= multiset(pre + [c] + rest)
    ensures forall x :: x != d ==> multiset(pre + [c] + rest)[x] == multiset([c] + tail)[x]
  {
    assert multiset(pre + [c] + rest) == multiset(pre) + multiset([c]) + multiset(rest);
    assert multiset([c] + tail) == multiset([c]) + multiset(tail);
    forall x | x != d
      ensures multiset(pre)[x] == 0
    {
      assert x !in pre;
    }
  }

  // ---------------------------------------- the passes at a whitespace seam

  /** A non-empty run of whitespace. */
  predicate IsSpaceRun(w: string) {
    w != [] && forall k :: 0 <= k < |w| ==> IsSpace(w[k])
  }

  lemma {:induction false} SpaceAfterDotsShift(a: string, w: string, b: string, j: nat)
    requires IsSpaceRun(w) && j <= |b|
    ensures SpaceAfterDotsFrom(a + w + b, |a| + |w| + j) == SpaceAfterDotsFrom(b, j)
    decreases |b| - j
  {
    var s := a + w + b;
    var p := |a| + |w| + j;
    if j < |b| {
      assert s[p] == b[j];
      assert j > 0 ==> s[p - 1] == b[j - 1];
      assert j == 0 ==> s[p - 1] == w[|w| - 1];
      assert SpaceGoesAt(s, p) == SpaceGoesAt(b, j);
      SpaceAfterDotsUnfold(s, p);
      SpaceAfterDotsUnfold(b, j);
      SpaceAfterDotsShift(a, w, b, j + 1);
    }
  }

  lemma {:induction false} SpaceAfterDotsRun(a: string, w: string, b: string, q: nat)
    requires IsSpaceRun(w) && q <= |w|
    ensures SpaceAfterDotsFrom(a + w + b, |a| + q) == w[q..] + SpaceAfterDotsFrom(b, 0)
    decreases |w| - q
  {
    var s := a + w + b;
    if q == |w| {
      SpaceAfterDotsShift(a, w, b, 0);
      assert w[q..] == [] && |a| + q == |a| + |w| + 0;
    } else {
      assert s[|a| + q] == w[q];
      assert !SpaceGoesAt(s, |a| + q);
      SpaceAfterDotsUnfold(s, |a| + q);
      assert SpaceAfterDotsFrom(s, |a| + q) == [w[q]] + SpaceAfterDotsFrom(s, |a| + q + 1);
      SpaceAfterDotsRun(a, w, b, q + 1);
      assert w[q..] == [w[q]] + w[q + 1..];
      ConcatAssoc([w[q]], w[q + 1..], SpaceAfterDotsFrom(b, 0));
    }
  }

  lemma {:induction false} SpaceAfterDotsBefore(a: string, w: string, b: string, k: nat)
    requires IsSpaceRun(w) && k <= |a|
    ensures SpaceAfterDotsFrom(a + w + b, k) == SpaceAfterDotsFrom(a, k) + w + SpaceAfterDotsFrom(b, 0)
    decreases |a| - k
  {
    var s := a + w + b;
    if k == |a| {
      SpaceAfterDotsRun(a, w, b, 0);
      assert w[0..] == w;
    } else {
      assert s[k] == a[k] && (k > 0 ==> s[k - 1] == a[k - 1]);
      assert SpaceGoesAt(s, k) == SpaceGoesAt(a, k);
      SpaceAfterDotsUnfold(s, k);
      SpaceAfterDotsUnfold(a, k);
      SpaceAfterDotsBefore(a, w, b, k + 1);
      var x := (if SpaceGoesAt(a, k) then " " else "") + [a[k]];
      var y := SpaceAfterDotsFrom(a, k + 1);
      ConcatAssoc(x, y + w, SpaceAfterDotsFrom(b, 0));
      ConcatAssoc(x, y, w);
    }
  }

  /** A whitespace run is never touched by the space pass, and the text on either side is handled on its own. */
  lemma SpaceAfterDotsSeam(a: string, w: string, b: string)
    requires IsSpaceRun(w)
    ensures SpaceAfterDotsFrom(a + w + b, 0) == SpaceAfterDotsFrom(a, 0) + w + SpaceAfterDotsFrom(b, 0)
  {
    SpaceAfterDotsBefore(a, w, b, 0);
  }

  lemma {:induction false} LeadingSpacesAppend(a: string, t: string)
    requires LeadingSpaces(a) < |a|
    ensures LeadingSpaces(a + t) == LeadingSpaces(a)
    decreases |a|
  {
    assert (a + t)[0] == a[0];
    if IsSpace(a[0]) {
      assert (a + t)[1..] == a[1..] + t;
      LeadingSpacesAppend(a[1..], t);
    }
  }

  /** Collapsing works piece by piece when the first piece does not end in whitespace. */
  lemma {:induction false} CollapseAppend(a: string, t: string)
    requires a == [] || !IsSpace(a[|a| - 1])
    ensures CollapseSpaces(a + t) == CollapseSpaces(a) + CollapseSpaces(t)
    decreases |a|
  {
    if a == [] {
      assert a + t == t;
    } else if IsSpace(a[0]) {
      var n := LeadingSpaces(a);
      assert n < |a| by {
        assert !IsSpace(a[|a| - 1]);
      }
      LeadingSpacesAppend(a, t);
      assert (a + t)[0] == a[0];
      assert TrimLeft(a + t) == TrimLeft(a) + t by {
        assert (a + t)[n..] == a[n..] + t;
      }
      var a' := TrimLeft(a);
      assert a'[|a'| - 1] == a[|a| - 1];
      CollapseAppend(a', t);
      ConcatAssoc(" ", CollapseSpaces(a'), CollapseSpaces(t));
    } else {
      assert (a + t)[0] == a[0] && (a + t)[1..] == a[1..] + t;
      CollapseAppend(a[1..], t);
      ConcatAssoc([a[0]], CollapseSpaces(a[1..]), CollapseSpaces(t));
    }
  }

  /** A whitespace run becomes one space. */
  lemma CollapseRun(w: string, b: string)
    requires IsSpaceRun(w) && (b == [] || !IsSpace(b[0]))
    ensures CollapseSpaces(w + b) == " " + CollapseSpaces(b)
  {
    var s := w + b;
    assert s[0] == w[0];
    assert LeadingSpaces(s) == |w| by {
      LeadingRun(s, |w|);
    }
    assert TrimLeft(s) == b;
  }

  lemma {:induction false} LeadingRun(s: string, n: nat)
    requires n <= |s|
    requires forall k :: 0 <= k < n ==> IsSpace(s[k])
    requires n == |s| || !IsSpace(s[n])
    ensures LeadingSpaces(s) == n
    decreases n
  {
    if n > 0 {
      LeadingRun(s[1..], n - 1);
    }
  }

  /** A whitespace run between two non-whitespace characters becomes exactly one space; the rest collapses on its own. */
  lemma CollapseSeam(a: string, w: string, b: string)
    requires IsSpaceRun(w)
    requires a == [] || !IsSpace(a[|a| - 1])
    requires b == [] || !IsSpace(b[0])
    ensures CollapseSpaces(a + w + b) == CollapseSpaces(a) + " " + CollapseSpaces(b)
  {
    assert a + w + b == a + (w + b);
    CollapseAppend(a, w + b);
    CollapseRun(w, b);
    ConcatAssoc(CollapseSpaces(a), " ", CollapseSpaces(b));
  }

  lemma {:induction false} DotsShift(a: string, w: string, b: string, j: nat)
    requires IsSpaceRun(w) && j <= |b|
    ensures DotsAfterInitialsFrom(a + w + b, |a| + |w| + j) == DotsAfterInitialsFrom(b, j)
    decreases |b| - j
  {
    var s := a + w + b;
    var p := |a| + |w| + j;
    assert j < |b| ==> s[p] == b[j];
    assert j > 0 ==> s[p - 1] == b[j - 1];
    assert j == 0 ==> s[p - 1] == w[|w| - 1];
    assert DotGoesAt(s, p) == DotGoesAt(b, j);
    if j < |b| {
      DotsUnfold(s, p);
      DotsUnfold(b, j);
      DotsShift(a, w, b, j + 1);
    }
  }

  lemma {:induction false} DotsRun(a: string, w: string, b: string, q: nat)
    requires IsSpaceRun(w) && 0 < q <= |w|
    ensures DotsAfterInitialsFrom(a + w + b, |a| + q) == w[q..] + DotsAfterInitialsFrom(b, 0)
    decreases |w| - q
  {
    var s := a + w + b;
    if q == |w| {
      DotsShift(a, w, b, 0);
      assert w[q..] == [];
    } else {
      assert s[|a| + q] == w[q] && s[|a| + q - 1] == w[q - 1];
      assert !DotGoesAt(s, |a| + q);
      DotsUnfold(s, |a| + q);
      DotsRun(a, w, b, q + 1);
      assert w[q..] == [w[q]] + w[q + 1..];
      ConcatAssoc([w[q]], w[q + 1..], DotsAfterInitialsFrom(b, 0));
    }
  }

  lemma {:induction false} DotsBefore(a: string, w: string, b: string, k: nat)
    requires IsSpaceRun(w) && k <= |a|
    ensures DotsAfterInitialsFrom(a + w + b, k) == DotsAfterInitialsFrom(a, k) + w + DotsAfterInitialsFrom(b, 0)
    decreases |a| - k
  {
    var s := a + w + b;
    assert s[k] == if k < |a| then a[k] else w[0];
    assert k > 0 ==> s[k - 1] == a[k - 1];
    assert DotGoesAt(s, k) == DotGoesAt(a, k);
    DotsUnfold(s, k);
    if k == |a| {
      DotsRun(a, w, b, 1);
      assert w == [w[0]] + w[1..];
    } else {
      DotsUnfold(a, k);
      DotsBefore(a, w, b, k + 1);
    }
  }

  /** A whitespace run is never touched by the dot pass, and the text on either side is handled on its own. */
  lemma DotsSeam(a: string, w: string, b: string)
    requires IsSpaceRun(w)
    ensures DotsAfterInitialsFrom(a + w + b, 0) == DotsAfterInitialsFrom(a, 0) + w + DotsAfterInitialsFrom(b, 0)
  {
    DotsBefore(a, w, b, 0);
  }

  // ----------------------------------------- where the space pass puts spaces

  /** How many of the positions i until j (excluded) get a space. */
  function SpacesAdded(s: string, i: nat, j: nat): (n: nat)
    requires i <= j <= |s|
    ensures n <= j - i
    decreases j - i
  {
    if i == j then 0 else (if SpaceGoesAt(s, i) then 1 else 0) + SpacesAdded(s, i + 1, j)
  }

  /** Where character q of s lands in the output of the space pass from i. */
  function SpaceLanding(s: string, i: nat, q: nat): nat
    requires i <= q < |s|
  {
    q - i + SpacesAdded(s, i, q + 1)
  }

  lemma {:induction false} SpacesAddedLast(s: string, i: nat, j: nat)
    requires i <= j < |s|
    ensures SpacesAdded(s, i, j + 1) == SpacesAdded(s, i, j) + (if SpaceGoesAt(s, j) then 1 else 0)
    decreases j - i
  {
    if i < j {
      SpacesAddedLast(s, i + 1, j);
    }
  }

  /**
   * Consecutive characters land one apart, or two apart when a space goes in
   * between them, so the output holds nothing but the characters of s and
   * the spaces put in where SpaceGoesAt holds.
   */
  lemma SpaceLandingNext(s: string, i: nat, q: nat)
    requires i < q < |s|
    ensures SpaceLanding(s, i, q) == SpaceLanding(s, i, q - 1) + 1 + (if SpaceGoesAt(s, q) then 1 else 0)
  {
    SpacesAddedLast(s, i, q);
  }

  /**
   * The space pass is the text with a space put in at exactly the positions
   * where SpaceGoesAt holds: character q of s lands at q plus the number of
   * spaces put in up to and including position q, a space put in at q sits
   * just before where q lands, and the length counts one space per position.
   */
  lemma {:induction false} SpacePositions(s: string, i: nat)
    requires i <= |s|
    ensures |SpaceAfterDotsFrom(s, i)| == |s| - i + SpacesAdded(s, i, |s|)
    ensures forall q :: i <= q < |s| ==>
      SpaceLanding(s, i, q) < |SpaceAfterDotsFrom(s, i)| && SpaceAfterDotsFrom(s, i)[SpaceLanding(s, i, q)] == s[q]
    ensures forall q :: i <= q < |s| && SpaceGoesAt(s, q) ==>
      0 < SpaceLanding(s, i, q) && SpaceAfterDotsFrom(s, i)[SpaceLanding(s, i, q) - 1] == ' '
    decreases |s| - i
  {
    if i < |s| {
      var g := if SpaceGoesAt(s, i) then 1 else 0;
      assert SpaceLanding(s, i, i) == g;
      SpaceAfterDotsUnfold(s, i);
      SpacePositions(s, i + 1);
      forall q | i < q < |s| ensures SpaceLanding(s, i, q) == g + 1 + SpaceLanding(s, i + 1, q) {
      }
      SpacePositionsStep(s, i, g, SpaceAfterDotsFrom(s, i), SpaceAfterDotsFrom(s, i + 1));
    }
  }

  /** One step of SpacePositions: the output from i is its piece for i in front of the output from i + 1. */
  lemma SpacePositionsStep(s: string, i: nat, g: nat, r: string, rest: string)
    requires i < |s| && g == (if SpaceGoesAt(s, i) then 1 else 0)
    requires r == (if g == 1 then " " else "") + [s[i]] + rest
    requires |rest| == |s| - (i + 1) + SpacesAdded(s, i + 1, |s|)
    requires forall q :: i < q < |s| ==> SpaceLanding(s, i, q) == g + 1 + SpaceLanding(s, i + 1, q)
    requires forall q {:trigger SpaceLanding(s, i + 1, q)} :: i + 1 <= q < |s| ==>
      SpaceLanding(s, i + 1, q) < |rest| && rest[SpaceLanding(s, i + 1, q)] == s[q]
    requires forall q {:trigger SpaceLanding(s, i + 1, q)} :: i + 1 <= q < |s| && SpaceGoesAt(s, q) ==>
      0 < SpaceLanding(s, i + 1, q) && rest[SpaceLanding(s, i + 1, q) - 1] == ' '
    ensures |r| == |s| - i + SpacesAdded(s, i, |s|)
    ensures forall q :: i <= q < |s| ==> SpaceLanding(s, i, q) < |r| && r[SpaceLanding(s, i, q)] == s[q]
    ensures forall q :: i <= q < |s| && SpaceGoesAt(s, q) ==> 0 < SpaceLanding(s, i, q) && r[SpaceLanding(s, i, q) - 1] == ' '
  {
    assert SpaceLanding(s, i, i) == g;
    forall q | i < q < |s|
      ensures SpaceLanding(s, i, q) < |r| && r[SpaceLanding(s, i, q)] == s[q]
    {
      var p := SpaceLanding(s, i + 1, q);
      assert p < |rest| && rest[p] == s[q];
      assert SpaceLanding(s, i, q) == g + 1 + p && |r| == g + 1 + |rest|;
      assert r[g + 1 + p] == rest[p];
    }
    forall q | i < q < |s| && SpaceGoesAt(s, q)
      ensures 0 < SpaceLanding(s, i, q) && r[SpaceLanding(s, i, q) - 1] == ' '
    {
      var p := SpaceLanding(s, i + 1, q);
      assert 0 < p && rest[p - 1] == ' ';
      assert SpaceLanding(s, i, q) == g + 1 + p && |r| == g + 1 + |rest|;
      assert r[g + 1 + p - 1] == rest[p - 1];
    }
  }

  /** A space goes in after the dot, and none after the comma: the pattern looks only for a `.`. */
  lemma SpaceExample(s: string)
    requires s == "a.b,c"
    ensures SpaceAfterDotsFrom(s, 0) == "a. b,c"
  {
    assert !SpaceGoesAt(s, 0) && !SpaceGoesAt(s, 1) && SpaceGoesAt(s, 2);
    assert !SpaceGoesAt(s, 3) && !SpaceGoesAt(s, 4);
    SpaceAfterDotsUnfold(s, 4);
    SpaceAfterDotsUnfold(s, 3);
    SpaceAfterDotsUnfold(s, 2);
    SpaceAfterDotsUnfold(s, 1);
    SpaceAfterDotsUnfold(s, 0);
  }

  // ------------------------------------------- where the dot pass puts dots

  /** How many of the positions i until j (excluded) get a dot. */
  function DotsAdded(s: string, i: nat, j: nat): (n: nat)
    requires i <= j <= |s| + 1
    ensures n <= j - i
    decreases j - i
  {
    if i == j then 0 else (if DotGoesAt(s, i) then 1 else 0) + DotsAdded(s, i + 1, j)
  }

  /** Where character q of s lands in the output of the dot pass from i. */
  function Landing(s: string, i: nat, q: nat): nat
    requires i <= q <= |s|
  {
    q - i + DotsAdded(s, i, q + 1)
  }

  lemma {:induction false} DotsAddedMono(s: string, i: nat, j: nat, k: nat)
    requires i <= j <= k <= |s| + 1
    ensures DotsAdded(s, i, j) <= DotsAdded(s, i, k)
    ensures DotsAdded(s, i, k) - DotsAdded(s, i, j) <= k - j
    decreases j - i
  {
    if i < j {
      DotsAddedMono(s, i + 1, j, k);
    }
  }

  /**
   * The dot pass is the text with a `.` put in at exactly the positions where
   * DotGoesAt holds: character q of s lands at q plus the number of dots put
   * in up to and including position q, and a dot put in at q sits just before
   * where q lands. With the length, this accounts for every character of the
   * result.
   */
  lemma {:induction false} DotsPositions(s: string, i: nat)
    requires i <= |s|
    ensures |DotsAfterInitialsFrom(s, i)| == Landing(s, i, |s|)
    ensures forall q :: i <= q < |s| ==> Landing(s, i, q) < |DotsAfterInitialsFrom(s, i)|
    ensures forall q :: i <= q < |s| ==> DotsAfterInitialsFrom(s, i)[Landing(s, i, q)] == s[q]
    ensures forall q :: i <= q <= |s| && DotGoesAt(s, q) ==>
      0 < Landing(s, i, q) <= |DotsAfterInitialsFrom(s, i)| && DotsAfterInitialsFrom(s, i)[Landing(s, i, q) - 1] == '.'
    decreases |s| - i
  {
    var r := DotsAfterInitialsFrom(s, i);
    var g := if DotGoesAt(s, i) then 1 else 0;
    assert Landing(s, i, i) == g;
    if i < |s| {
      DotsUnfold(s, i);
      DotsPositions(s, i + 1);
      forall q | i < q <= |s| ensures Landing(s, i, q) == g + 1 + Landing(s, i + 1, q) {
      }
      DotsPositionsStep(s, i, g, r, DotsAfterInitialsFrom(s, i + 1));
    }
  }

  /** One step of DotsPositions: the output from i is its piece for i in front of the output from i + 1. */
  lemma DotsPositionsStep(s: string, i: nat, g: nat, r: string, rest: string)
    requires i < |s| && g == (if DotGoesAt(s, i) then 1 else 0)
    requires r == (if g == 1 then "." else "") + [s[i]] + rest
    requires |rest| == Landing(s, i + 1, |s|)
    requires forall q :: i < q <= |s| ==> Landing(s, i, q) == g + 1 + Landing(s, i + 1, q)
    requires forall q {:trigger Landing(s, i + 1, q)} :: i + 1 <= q < |s| ==> Landing(s, i + 1, q) < |rest| && rest[Landing(s, i + 1, q)] == s[q]
    requires forall q {:trigger Landing(s, i + 1, q)} :: i + 1 <= q <= |s| && DotGoesAt(s, q) ==> 0 < Landing(s, i + 1, q) <= |rest| && rest[Landing(s, i + 1, q) - 1] == '.'
    ensures forall q :: i <= q < |s| ==> Landing(s, i, q) < |r| && r[Landing(s, i, q)] == s[q]
    ensures forall q :: i <= q <= |s| && DotGoesAt(s, q) ==> 0 < Landing(s, i, q) <= |r| && r[Landing(s, i, q) - 1] == '.'
  {
    assert Landing(s, i, i) == g;
    forall q | i < q < |s|
      ensures Landing(s, i, q) < |r| && r[Landing(s, i, q)] == s[q]
    {
      var p := Landing(s, i + 1, q);
      assert p < |rest| && rest[p] == s[q];
      assert Landing(s, i, q) == g + 1 + p && |r| == g + 1 + |rest|;
      assert r[g + 1 + p] == rest[p];
    }
    forall q | i < q <= |s| && DotGoesAt(s, q)
      ensures 0 < Landing(s, i, q) <= |r| && r[Landing(s, i, q) - 1] == '.'
    {
      var p := Landing(s, i + 1, q);
      assert 0 < p <= |rest| && rest[p - 1] == '.';
      assert Landing(s, i, q) == g + 1 + p && |r| == g + 1 + |rest|;
      assert r[g + 1 + p - 1] == rest[p - 1];
    }
  }

  /**
   * `format_initials_and_spacing`: a space after each dot that lacks one,
   * whitespace runs collapsed to one space, a dot after each capital that ends
   * a word. Only spaces and dots change.
   */
  function FormatInitialsAndSpacing(text: string): (r: string)
    ensures WellSpaced(r)
    ensures InitialsClosed(r)
    ensures Erase(r) == Erase(text)
    ensures multiset(text)['.'] <= multiset(r)['.']
  {
    var a := SpaceAfterDotsFrom(text, 0);
    var b := CollapseSpaces(a);
    FormatKeepsDots(text);
    SpaceAfterDotsErase(text, 0);
    CollapseSpacesWellSpaced(a);
    CollapseSpacesErase(a);
    DotsWellSpaced(b, 0);
    DotsInitialsClosed(b, 0);
    DotsErase(b, 0);
    DotsAfterInitialsFrom(b, 0)
  }

  /** None of the three passes removes a dot. */
  lemma FormatKeepsDots(text: string)
    ensures multiset(text)['.'] <= multiset(DotsAfterInitialsFrom(CollapseSpaces(SpaceAfterDotsFrom(text, 0)), 0))['.']
  {
    var a := SpaceAfterDotsFrom(text, 0);
    var b := CollapseSpaces(a);
    var r := DotsAfterInitialsFrom(b, 0);
    SpaceAfterDotsAddsSpaces(text, 0);
    CollapseKeepsCounts(a);
    DotsAddsDots(b, 0);
    assert text[0..] == text && b[0..] == b;
    assert multiset(a)['.'] == multiset(text)['.'];
    assert multiset(b)['.'] == multiset(a)['.'];
    assert multiset(b)['.'] <= multiset(r)['.'];
  }

  /** `preprocess_line`: OCR digits first, then initials and spacing. */
  function PreprocessLine(line: string): (r: string)
    ensures WellSpaced(r) && InitialsClosed(r)
    ensures Erase(r) == Erase(FixOcrMistakes(line))
    ensures multiset(FixOcrMistakes(line))['.'] <= multiset(r)['.']
  {
    FormatInitialsAndSpacing(FixOcrMistakes(line))
  }

  /**
   * A whitespace run between two words comes out as one space, and the text on
   * either side is formatted on its own.
   */
  lemma FormatSeam(a: string, w: string, b: string)
    requires IsSpaceRun(w)
    requires a == [] || !IsSpace(a[|a| - 1])
    requires b == [] || !IsSpace(b[0])
    ensures FormatInitialsAndSpacing(a + w + b) == FormatInitialsAndSpacing(a) + " " + FormatInitialsAndSpacing(b)
  {
    var sa := SpaceAfterDotsFrom(a, 0);
    var sb := SpaceAfterDotsFrom(b, 0);
    SpaceAfterDotsSeam(a, w, b);
    if a != [] {
      SpaceAfterDotsLast(a, 0);
    }
    assert sb == [] || !IsSpace(sb[0]);
    CollapseSeam(sa, w, sb);
    assert IsSpaceRun(" ");
    DotsSeam(CollapseSpaces(sa), " ", CollapseSpaces(sb));
  }

  /** `"a.b,c"` becomes `"a. b,c"`: a space after the dot only, and no capital to close. */
  lemma FormatExample(s: string)
    requires s == "a.b,c"
    ensures FormatInitialsAndSpacing(s) == "a. b,c"
  {
    SpaceExample(s);
    ExampleCollapsed("a. b,c");
    ExampleNoDots("a. b,c");
  }

  lemma ExampleCollapsed(t: string)
    requires t == "a. b,c"
    ensures CollapseSpaces(t) == t
  {
    assert WellSpaced(t) by {
      assert forall k :: 0 <= k < |t| && IsSpace(t[k]) ==> k == 2;
    }
    CollapseKeepsWellSpaced(t);
  }

  lemma ExampleNoDots(t: string)
    requires t == "a. b,c"
    ensures DotsAfterInitialsFrom(t, 0) == t
  {
    forall k | 0 <= k <= |t| ensures !DotGoesAt(t, k) {
      assert k > 0 ==> !IsUpper(t[k - 1]);
    }
    NoDotGoesUnchanged(t, 0);
    assert t[0..] == t;
  }

  /** A text of letters only that does not end in a capital is left as it is: `\b` never matches between two letters. */
  lemma LettersOnlyUnchanged(s: string)
    requires forall k :: 0 <= k < |s| ==> IsAsciiLetter(s[k])
    requires s != [] ==> !IsUpper(s[|s| - 1])
    ensures FormatInitialsAndSpacing(s) == s
  {
    assert '.' !in s;
    NoDotNoSpace(s, 0);
    NoSpaceNoCollapse(s);
    forall i | 0 <= i <= |s| ensures !DotGoesAt(s, i) {
      if 0 < i < |s| {
        assert IsWord(s[i - 1]) && IsWord(s[i]);
      }
    }
    NoDotGoesUnchanged(s, 0);
  }

  /** Camel case gets no dots, whatever the docstring of the extraction script promises. */
  lemma CamelCaseUnchanged()
    ensures FormatInitialsAndSpacing("ThisIsAString") == "ThisIsAString"
  {
    var s := "ThisIsAString";
    assert forall k :: 0 <= k < |s| ==> IsAsciiLetter(s[k]);
    LettersOnlyUnchanged(s);
  }

  /** Initials written together get a space after the dot and a dot after the last capital. */
  lemma InitialsSeparated(s: string)
    requires s == "J.H"
    ensures FormatInitialsAndSpacing(s) == "J. H."
  {
    var t := "J. H";
    InitialsSpaced(s, t);
    InitialsCollapsed(t);
    InitialsDotted(t, "J. H.");
  }

  lemma InitialsSpaced(s: string, t: string)
    requires s == "J.H" && t == "J. H"
    ensures SpaceAfterDotsFrom(s, 0) == t
  {
    assert SpaceAfterDotsFrom(s, 3) == [];
    assert SpaceAfterDotsFrom(s, 2) == " H";
    assert SpaceAfterDotsFrom(s, 1) == ". H";
  }

  lemma InitialsCollapsed(t: string)
    requires t == "J. H"
    ensures CollapseSpaces(t) == t
  {
    assert forall k :: 0 <= k < |t| && IsSpace(t[k]) ==> k == 2;
    CollapseKeepsWellSpaced(t);
  }

  lemma InitialsDotted(t: string, r: string)
    requires t == "J. H" && r == "J. H."
    ensures DotsAfterInitialsFrom(t, 0) == r
  {
    assert !DotGoesAt(t, 0) && !DotGoesAt(t, 1) && !DotGoesAt(t, 2) && !DotGoesAt(t, 3) && DotGoesAt(t, 4);
    assert DotsAfterInitialsFrom(t, 4) == ".";
    assert DotsAfterInitialsFrom(t, 3) == "H.";
    assert DotsAfterInitialsFrom(t, 2) == " H.";
    assert DotsAfterInitialsFrom(t, 1) == ". H.";
  }

  lemma {:induction false} NoDotNoSpace(s: string, i: nat)
    requires i <= |s| && '.' !in s
    ensures SpaceAfterDotsFrom(s, i) == s[i..]
    decreases |s| - i
  {
    if i < |s| {
      NoDotNoSpace(s, i + 1);
      assert s[i..] == [s[i]] + s[i + 1..];
    }
  }

  lemma {:induction false} NoSpaceNoCollapse(s: string)
    requires forall k :: 0 <= k < |s| ==> !IsSpace(s[k])
    ensures CollapseSpaces(s) == s
    decreases |s|
  {
    if s != [] {
      NoSpaceNoCollapse(s[1..]);
    }
  }

  lemma {:induction false} NoDotGoesUnchanged(s: string, i: nat)
    requires i <= |s|
    requires forall k :: i <= k <= |s| ==> !DotGoesAt(s, k)
    ensures DotsAfterInitialsFrom(s, i) == s[i..]
    decreases |s| - i
  {
    if i < |s| {
      NoDotGoesUnchanged(s, i + 1);
      assert s[i..] == [s[i]] + s[i + 1..];
    }
  }
}
