/**
 * `strip_text` and `remove_phone_numbers`: the clean-up that turns one OCR'd
 * page into a single line of allowed characters.
 */
module Normalize {

  import opened Chars
  import opened Regex
  import opened Wrappers

  /** `re.sub(r'\n\n|\n', ' ', s)`: a newline pair, else a single newline, becomes one space. */
  function ReplaceNewlines(s: string): (r: string)
    ensures '\n' !in r
    ensures |r| <= |s|
    ensures '\n' !in s ==> r == s
    ensures forall c :: c in r && c != ' ' ==> c in s
    decreases |s|
  {
    if s == [] then []
    else if s[0] == '\n' then
      " " + ReplaceNewlines(if |s| >= 2 && s[1] == '\n' then s[2..] else s[1..])
    else [s[0]] + ReplaceNewlines(s[1..])
  }

  /** `re.sub(r'-\n', '', s)`: a hyphen directly before a newline is dropped together with it. */
  function RemoveHyphenBreaks(s: string): (r: string)
    ensures |r| <= |s| && (|s| - |r|) % 2 == 0
    ensures forall c :: c in r ==> c in s
    ensures '\n' !in s ==> r == s
    decreases |s|
  {
    if |s| >= 2 && s[0] == '-' && s[1] == '\n' then RemoveHyphenBreaks(s[2..])
    else if s == [] then []
    else [s[0]] + RemoveHyphenBreaks(s[1..])
  }

  /** `re.sub(r'{', '(', s)` */
  function BracesToParens(s: string): (r: string)
    ensures |r| == |s|
    ensures forall k :: 0 <= k < |s| ==> r[k] == (if s[k] == '{' then '(' else s[k])
    ensures forall c :: c in r ==> c != '{' && (c == '(' || c in s)
    ensures '{' !in s ==> r == s
  {
    if s == [] then [] else [if s[0] == '{' then '(' else s[0]] + BracesToParens(s[1..])
  }

  /** The characters `[a-zA-Z0-9\s,.\(\)\{\}'-]` that strip_text keeps. */
  predicate IsKept(c: char) {
    || IsAsciiLetter(c) || IsDigit(c) || IsSpace(c)
    || c == ',' || c == '.' || c == '(' || c == ')' || c == '{' || c == '}' || c == '\'' || c == '-'
  }

  /** `re.sub(r"[^a-zA-Z0-9\s,.\(\)\{\}'-]", '', s)` */
  function KeepAllowed(s: string): (r: string)
    ensures |r| <= |s| && multiset(r) <= multiset(s)
    ensures forall c :: c in r ==> c in s && IsKept(c)
    ensures forall c :: c in s && IsKept(c) ==> c in r
    ensures (forall c :: c in s ==> IsKept(c)) ==> r == s
  {
    if s == [] then []
    else
      assert s == [s[0]] + s[1..];
      (if IsKept(s[0]) then [s[0]] else []) + KeepAllowed(s[1..])
  }

  /** Text without newlines passes ReplaceNewlines unchanged, whatever follows it. */
  lemma {:induction false} ReplaceNewlinesKeeps(a: string, s: string)
    requires '\n' !in a
    ensures ReplaceNewlines(a + s) == a + ReplaceNewlines(s)
    decreases |a|
  {
    if a == [] {
      assert a + s == s;
    } else {
      assert (a + s)[0] == a[0] && (a + s)[1..] == a[1..] + s;
      ReplaceNewlinesKeeps(a[1..], s);
    }
  }

  /** A newline pair becomes one space. */
  lemma NewlinePairToSpace(s: string)
    ensures ReplaceNewlines("\n\n" + s) == " " + ReplaceNewlines(s)
  {
    assert ("\n\n" + s)[2..] == s;
  }

  /** A lone newline becomes one space. */
  lemma NewlineToSpace(s: string)
    requires s == [] || s[0] != '\n'
    ensures ReplaceNewlines("\n" + s) == " " + ReplaceNewlines(s)
  {
    assert ("\n" + s)[1..] == s;
  }

  /**
   * The newline rule works piece by piece: two texts are replaced separately
   * unless a newline pair straddles the seam.
   */
  lemma {:induction false} ReplaceNewlinesAppend(a: string, b: string)
    requires !(a != [] && a[|a| - 1] == '\n' && b != [] && b[0] == '\n')
    ensures ReplaceNewlines(a + b) == ReplaceNewlines(a) + ReplaceNewlines(b)
    decreases |a|
  {
    var s := a + b;
    if a == [] {
      assert s == b;
    } else {
      var n := if a[0] == '\n' && |a| >= 2 && a[1] == '\n' then 2 else 1;
      var hd := if a[0] == '\n' then " " else [a[0]];
      var a' := a[n..];
      assert s[0] == a[0] && (|a| >= 2 ==> s[1] == a[1]);
      assert |a| == 1 && a[0] == '\n' ==> !(|s| >= 2 && s[1] == '\n');
      assert s[n..] == a' + b;
      assert ReplaceNewlines(s) == hd + ReplaceNewlines(a' + b);
      assert ReplaceNewlines(a) == hd + ReplaceNewlines(a');
      assert a' == [] || a'[|a'| - 1] == a[|a| - 1];
      ReplaceNewlinesAppend(a', b);
      ConcatAssoc(hd, ReplaceNewlines(a'), ReplaceNewlines(b));
    }
  }

  /**
   * The `-\n` rule works piece by piece: two texts are handled separately
   * unless a `-` ending the first meets a newline starting the second.
   */
  lemma {:induction false} RemoveHyphenBreaksAppend(a: string, b: string)
    requires !(a != [] && a[|a| - 1] == '-' && b != [] && b[0] == '\n')
    ensures RemoveHyphenBreaks(a + b) == RemoveHyphenBreaks(a) + RemoveHyphenBreaks(b)
    decreases |a|
  {
    var s := a + b;
    if a == [] {
      assert s == b;
    } else {
      var cut := |a| >= 2 && a[0] == '-' && a[1] == '\n';
      var n := if cut then 2 else 1;
      var hd := if cut then "" else [a[0]];
      var a' := a[n..];
      assert s[0] == a[0] && (|a| >= 2 ==> s[1] == a[1]);
      assert |a| == 1 ==> !(|s| >= 2 && s[0] == '-' && s[1] == '\n');
      assert s[n..] == a' + b;
      assert RemoveHyphenBreaks(s) == hd + RemoveHyphenBreaks(a' + b);
      assert RemoveHyphenBreaks(a) == hd + RemoveHyphenBreaks(a');
      assert a' == [] || a'[|a'| - 1] == a[|a| - 1];
      RemoveHyphenBreaksAppend(a', b);
      ConcatAssoc(hd, RemoveHyphenBreaks(a'), RemoveHyphenBreaks(b));
    }
  }

  /** A hyphen directly before a newline is removed together with it, and the text around it is kept. */
  lemma HyphenBreakRemoved(a: string, b: string)
    ensures RemoveHyphenBreaks(a + "-\n" + b) == RemoveHyphenBreaks(a) + RemoveHyphenBreaks(b)
  {
    assert a + "-\n" + b == a + ("-\n" + b);
    RemoveHyphenBreaksAppend(a, "-\n" + b);
    assert ("-\n" + b)[2..] == b;
  }

  lemma {:induction false} BracesToParensAppend(a: string, b: string)
    ensures BracesToParens(a + b) == BracesToParens(a) + BracesToParens(b)
  {
  }

  /** The character class works one character at a time. */
  lemma {:induction false} KeepAllowedAppend(a: string, b: string)
    ensures KeepAllowed(a + b) == KeepAllowed(a) + KeepAllowed(b)
    decreases |a|
  {
    if a == [] {
      assert a + b == b;
    } else {
      assert (a + b)[0] == a[0] && (a + b)[1..] == a[1..] + b;
      KeepAllowedAppend(a[1..], b);
    }
  }

  /** One character survives exactly when the class allows it. */
  lemma KeepAllowedOne(c: char)
    ensures KeepAllowed([c]) == if IsKept(c) then [c] else []
  {
    assert [c][1..] == [];
  }

  /** The characters a page can still hold after strip_text. */
  predicate IsStripped(c: char) {
    IsKept(c) && c != '\n' && c != '{'
  }

  /** `strip_text` */
  function StripText(text: string): (r: string)
    ensures |r| <= |text|
    ensures forall c :: c in r ==> IsStripped(c)
    ensures (forall c :: c in text ==> IsStripped(c)) ==> r == text
  {
    var a := ReplaceNewlines(text);
    var b := RemoveHyphenBreaks(a);
    var c := BracesToParens(b);
    HyphenRuleIsDead(a);
    assert '\n' !in c;
    if forall c :: c in text ==> IsStripped(c) then
      CleanTextKept(text);
      KeepAllowed(c)
    else KeepAllowed(c)
  }

  /** With the dead `-\n` rule dropped, strip_text is three substitutions. */
  lemma StripTextSteps(text: string)
    ensures StripText(text) == KeepAllowed(BracesToParens(ReplaceNewlines(text)))
  {
    HyphenRuleIsDead(ReplaceNewlines(text));
  }

  /**
   * strip_text works piece by piece: two texts are cleaned separately unless
   * a newline pair straddles the seam.
   */
  lemma StripTextAppend(a: string, b: string)
    requires !(a != [] && a[|a| - 1] == '\n' && b != [] && b[0] == '\n')
    ensures StripText(a + b) == StripText(a) + StripText(b)
  {
    StripTextSteps(a + b);
    StripTextSteps(a);
    StripTextSteps(b);
    ReplaceNewlinesAppend(a, b);
    BracesToParensAppend(ReplaceNewlines(a), ReplaceNewlines(b));
    KeepAllowedAppend(BracesToParens(ReplaceNewlines(a)), BracesToParens(ReplaceNewlines(b)));
  }

  /** One character: a newline becomes a space, `{` becomes `(`, an allowed character stays and any other goes. */
  lemma StripTextOne(c: char)
    ensures StripText([c]) == if c == '\n' then " " else if c == '{' then "(" else if IsKept(c) then [c] else []
  {
    StripTextSteps([c]);
    var a := ReplaceNewlines([c]);
    assert a == (if c == '\n' then " " else [c]) by {
      assert [c][1..] == [];
    }
    KeepAllowedOne(BracesToParens(a)[0]);
  }

  /** A newline pair becomes a single space. */
  lemma StripTextNewlinePair(s: string)
    ensures StripText("\n\n" + s) == " " + StripText(s)
  {
    StripTextSteps("\n\n" + s);
    StripTextSteps(s);
    NewlinePairToSpace(s);
    BracesToParensAppend(" ", ReplaceNewlines(s));
    KeepAllowedAppend(" ", BracesToParens(ReplaceNewlines(s)));
    KeepAllowedOne(' ');
  }

  /** The `-\n` rule runs after every newline is gone, so it never changes anything. */
  lemma {:induction false} HyphenRuleIsDead(s: string)
    requires '\n' !in s
    ensures RemoveHyphenBreaks(s) == s
    decreases |s|
  {
    if s != [] {
      assert '\n' !in s[1..];
      HyphenRuleIsDead(s[1..]);
    }
  }

  /** A line break after a hyphen becomes a space; the hyphen stays. */
  lemma HyphenBreakBecomesSpace(s: string)
    requires s == "a-\nb"
    ensures StripText(s) == "a- b"
  {
    var t := "a- b";
    HyphenNewlineStep(s, t);
    HyphenRuleIsDead(t);
    ExampleStripped(t);
    CleanTextKept(t);
    assert StripText(s) == KeepAllowed(BracesToParens(RemoveHyphenBreaks(ReplaceNewlines(s))));
  }

  lemma ExampleStripped(t: string)
    requires t == "a- b"
    ensures forall c :: c in t ==> IsStripped(c)
  {
    assert forall c :: c in t ==> c == 'a' || c == '-' || c == ' ' || c == 'b';
  }

  lemma HyphenNewlineStep(s: string, t: string)
    requires s == "a-\nb" && t == "a- b"
    ensures ReplaceNewlines(s) == t
  {
    assert s[1..] == "-\nb" && s[1..][1..] == "\nb" && s[1..][1..][1..] == "b";
    assert ReplaceNewlines("b") == "b";
    assert ReplaceNewlines("\nb") == " b";
  }

  /** A text of kept characters without newlines or braces passes the last two steps unchanged. */
  lemma CleanTextKept(t: string)
    requires forall c :: c in t ==> IsStripped(c)
    ensures KeepAllowed(BracesToParens(t)) == t
  {
  }

  /** Cleaning cleaned text changes nothing. */
  lemma StripTextIdempotent(text: string)
    ensures StripText(StripText(text)) == StripText(text)
  {
    var s := StripText(text);
    assert '\n' !in s && '{' !in s;
    HyphenRuleIsDead(s);
  }

  /** `remove_phone_numbers`: every telephone reference the regex finds is deleted. */
  function RemovePhoneNumbers(text: string): (r: string)
    ensures r == Outside(text, Spans(TelephoneRef, text), 0, |text|)
    ensures multiset(r) <= multiset(text)
    ensures r == text <==> forall q :: 0 <= q < |text| ==> TelephoneAt(text, q).None?
  {
    var spans := Spans(TelephoneRef, text);
    DeleteSpansOutside(text, spans, 0);
    MatcherAdvances(TelephoneRef, text);
    SpansFromEmpty(MatcherOf(TelephoneRef), text, 0);
    NoMatchOf(TelephoneRef, text);
    assert spans == [] <==> forall q :: 0 <= q < |text| ==> MatchAt(TelephoneRef, text, q).None?;
    forall q | 0 <= q < |text| ensures MatchAt(TelephoneRef, text, q) == TelephoneAt(text, q) {
    }
    DeleteSpans(text, spans, 0)
  }

  /** A reference is deleted with its number; the text after it is kept, leading space included. */
  lemma PhoneNumberDeleted(s: string)
    requires s == "Tel. 12 x"
    ensures RemovePhoneNumbers(s) == " x"
  {
    PhoneExampleSpans(s);
    assert DeleteSpans(s, [Span(0, 7)], 0) == s[0..0] + s[7..];
  }

  lemma PhoneExampleSpans(s: string)
    requires s == "Tel. 12 x"
    ensures Spans(TelephoneRef, s) == [Span(0, 7)]
  {
    var m := MatcherOf(TelephoneRef);
    PhoneExampleMatch(s);
    PhoneExampleTail(s);
    assert SpansFrom(m, s, 9) == [];
    assert SpansFrom(m, s, 8) == [];
    assert SpansFrom(m, s, 7) == [];
    assert SpansFrom(m, s, 0) == [Span(0, 7)] + SpansFrom(m, s, 7);
  }

  lemma PhoneExampleMatch(s: string)
    requires s == "Tel. 12 x"
    ensures TelephoneAt(s, 0) == Some(7)
  {
    assert TelephoneStemEnd(s, 0) == Some(4) by {
      assert s[0..4] == "Tel.";
    }
    assert SkipRun(Spaces, s, 5) == 5;
    assert SkipRun(Spaces, s, 4) == 5;
    assert SkipRun(Digits, s, 7) == 7;
    assert SkipRun(Digits, s, 6) == 7;
    assert SkipRun(Digits, s, 5) == 7;
  }

  lemma PhoneExampleTail(s: string)
    requires s == "Tel. 12 x"
    ensures TelephoneAt(s, 7).None? && TelephoneAt(s, 8).None?
  {
    assert !HasAt(s, 7, "Tel.") && !HasAt(s, 7, "tel.") && !HasAt(s, 7, "Telef.") && !HasAt(s, 7, "telef.");
    assert !HasAt(s, 8, "Tel.") && !HasAt(s, 8, "tel.") && !HasAt(s, 8, "Telef.") && !HasAt(s, 8, "telef.");
  }

  /** Deleting telephone references keeps the text within the characters strip_text allows. */
  lemma RemovePhoneNumbersKeepsStripped(s: string)
    requires forall c :: c in s ==> IsStripped(c)
    ensures forall c :: c in RemovePhoneNumbers(s) ==> IsStripped(c)
  {
    var r := RemovePhoneNumbers(s);
    forall c | c in r ensures IsStripped(c) {
      assert c in multiset(r);
    }
  }

  /**
   * Line 359 of the extraction script: strip_text first, then
   * remove_phone_numbers on the cleaned text.
   */
  function NormalizePage(page: string): (r: string)
    ensures |r| <= |page|
    ensures forall c :: c in r ==> IsStripped(c)
    ensures r == Outside(StripText(page), Spans(TelephoneRef, StripText(page)), 0, |StripText(page)|)
    ensures (forall c :: c in page ==> IsStripped(c)) && (forall q :: 0 <= q < |page| ==> TelephoneAt(page, q).None?) ==> r == page
  {
    RemovePhoneNumbersKeepsStripped(StripText(page));
    var r := RemovePhoneNumbers(StripText(page));
    assert |r| == |multiset(r)| <= |multiset(StripText(page))|;
    r
  }
}
