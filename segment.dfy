/**
 * `split_text`, `strip_left_side` and `process_page`: a normalised page is
 * cut after every house number into candidate person lines, which are then
 * filtered and trimmed on the left.
 */
module Segment {

  import opened Chars
  import opened Regex
  import opened Normalize
  import opened JsonModel

  /** The house numbers of a text, as `re.split` finds them. */
  function HouseNumbers(text: string): (r: seq<Span>)
    ensures Ordered(r, 0, |text|)
  {
    Spans(HouseNumber, text)
  }

  /** A house-number match is one whitespace character followed by letters and digits only. */
  lemma HouseNumberShape(text: string, k: nat)
    requires k < |HouseNumbers(text)|
    ensures var sp := HouseNumbers(text)[k];
      && sp.start + 2 <= sp.end <= |text|
      && IsSpace(text[sp.start]) && IsDigit(text[sp.start + 1])
      && (forall q :: sp.start < q < sp.end ==> !IsSpace(text[q]))
  {
    var sp := HouseNumbers(text)[k];
    MatcherAdvances(HouseNumber, text);
    SpansFromIsScan(MatcherOf(HouseNumber), text, 0);
    ScanMatchAt(MatcherOf(HouseNumber), text, 0, HouseNumbers(text), k);
    HouseNumberAtExact(text, sp.start, sp.end);
  }

  /**
   * Line k of the split: the text after the previous house number (or from the
   * start) up to house number k, then that house number without its leading
   * whitespace, the whole trimmed. Text after the last house number is not part
   * of any line.
   */
  function LineAt(text: string, k: nat): (line: string)
    requires k < |HouseNumbers(text)|
  {
    var spans := HouseNumbers(text);
    var g := GapStart(spans, 0, k);
    OrderedAt(spans, 0, |text|, k);
    Trim(text[g..spans[k].start] + text[spans[k].start + 1..spans[k].end])
  }

  /** The lines split_text returns for a text, as a function. */
  function Fragments(text: string): (lines: seq<string>)
    ensures |lines| == |HouseNumbers(text)|
    ensures forall k :: 0 <= k < |lines| ==> lines[k] == LineAt(text, k)
  {
    seq(|HouseNumbers(text)|, k requires 0 <= k < |HouseNumbers(text)| => LineAt(text, k))
  }

  /** Each line ends with its house number and starts with the text before it, trimmed on the left. */
  lemma FragmentShape(text: string, k: nat)
    requires k < |HouseNumbers(text)|
    ensures var spans := HouseNumbers(text);
      GapStart(spans, 0, k) <= spans[k].start < spans[k].end <= |text|
    ensures var spans := HouseNumbers(text);
      && LineAt(text, k) == TrimLeft(text[GapStart(spans, 0, k)..spans[k].start]) + text[spans[k].start + 1..spans[k].end]
      && LineAt(text, k) != []
  {
    var spans := HouseNumbers(text);
    var sp := spans[k];
    OrderedAt(spans, 0, |text|, k);
    HouseNumberShape(text, k);
    var a := text[GapStart(spans, 0, k)..sp.start];
    var t := text[sp.start + 1..sp.end];
    forall q | 0 <= q < |t| ensures !IsSpace(t[q]) {
      assert t[q] == text[sp.start + 1 + q];
    }
    TrimKeepsSolidSuffix(a, t);
  }

  /** `[line.strip() for line in lines if line.strip()]` */
  function TrimmedNonBlank(lines: seq<string>): (r: seq<string>)
    ensures |r| <= |lines|
    ensures (forall k :: 0 <= k < |lines| ==> Trim(lines[k]) != []) ==>
              |r| == |lines| && forall k :: 0 <= k < |lines| ==> r[k] == Trim(lines[k])
    ensures forall x :: x in r ==> x != []
  {
    if lines == [] then []
    else
      var rest := TrimmedNonBlank(lines[1..]);
      if Trim(lines[0]) != [] then [Trim(lines[0])] + rest else rest
  }

  /** Stripping a house-number match leaves it without its leading whitespace character. */
  lemma TrimHouseNumber(text: string, k: nat)
    requires k < |HouseNumbers(text)|
    ensures HouseNumbers(text)[k].start < HouseNumbers(text)[k].end <= |text|
    ensures var sp := HouseNumbers(text)[k];
      Trim(text[sp.start..sp.end]) == text[sp.start + 1..sp.end]
  {
    var sp := HouseNumbers(text)[k];
    HouseNumberShape(text, k);
    var t := text[sp.start..sp.end];
    assert t[1..] == text[sp.start + 1..sp.end];
    TrimLeftStep(t);
    TrimNoSpaceEnds(t[1..]);
  }

  /** Piece 2k of a split followed by piece 2k + 1 stripped, as the loop of split_text builds it. */
  function Glued(parts: seq<string>, k: nat): string
    requires 2 * k + 1 < |parts|
  {
    parts[2 * k] + Trim(parts[2 * k + 1])
  }

  /** The loop of split_text: each even piece of the split, followed by the next piece stripped. */
  method GluePairs(parts: seq<string>) returns (combined: seq<string>)
    requires |parts| % 2 == 1
    ensures 2 * |combined| + 1 == |parts|
    ensures forall k :: 0 <= k < |combined| ==> combined[k] == Glued(parts, k)
  {
    combined := [];
    var i := 0;
    while i < |parts| - 1
      invariant 0 <= i <= |parts| - 1 && i == 2 * |combined|
      invariant forall k :: 0 <= k < |combined| ==> combined[k] == Glued(parts, k)
    {
      combined := combined + [Glued(parts, |combined|)];
      i := i + 2;
    }
  }

  /**
   * `split_text`: `re.split` on the house numbers, then an append loop over
   * the even indices that glues every house number (stripped) onto the text
   * before it, then the stripped, non-blank lines.
   */
  method SplitText(text: string) returns (lines: seq<string>)
    ensures lines == Fragments(text)
    ensures |lines| == |HouseNumbers(text)|
  {
    var parts := SplitAt(text, HouseNumbers(text), 0);
    var combined := GluePairs(parts);
    GluedLines(text, parts, combined);
    lines := TrimmedNonBlank(combined);
  }

  /** Stripping the glued pieces of the split gives the fragments, and none of them is blank. */
  lemma GluedLines(text: string, parts: seq<string>, combined: seq<string>)
    requires parts == SplitAt(text, HouseNumbers(text), 0)
    requires 2 * |combined| + 1 == |parts|
    requires forall k :: 0 <= k < |combined| ==> combined[k] == Glued(parts, k)
    ensures TrimmedNonBlank(combined) == Fragments(text)
  {
    forall k | 0 <= k < |combined|
      ensures Trim(combined[k]) == LineAt(text, k) && LineAt(text, k) != []
    {
      CombinedLine(text, parts, k, combined[k]);
    }
    StrippedLines(combined, Fragments(text));
  }

  /** Stripping the glued pieces gives the lines, and none of them is blank. */
  lemma StrippedLines(combined: seq<string>, lines: seq<string>)
    requires |combined| == |lines|
    requires forall k :: 0 <= k < |combined| ==> Trim(combined[k]) == lines[k] && lines[k] != []
    ensures TrimmedNonBlank(combined) == lines
  {
  }

  /** Piece 2k of the split, followed by piece 2k + 1 stripped, is line k before its final strip. */
  lemma CombinedLine(text: string, parts: seq<string>, k: nat, c: string)
    requires parts == SplitAt(text, HouseNumbers(text), 0) && k < |HouseNumbers(text)|
    requires c == Glued(parts, k)
    ensures Trim(c) == LineAt(text, k) && LineAt(text, k) != []
  {
    var spans := HouseNumbers(text);
    SplitAtIndex(text, spans, 0, k);
    TrimHouseNumber(text, k);
    FragmentShape(text, k);
  }

  /** How many non-letters s starts with. */
  function LeadingNonLetters(s: string): (n: nat)
    ensures n <= |s|
    ensures forall k :: 0 <= k < n ==> !IsAsciiLetter(s[k])
    ensures n == |s| || IsAsciiLetter(s[n])
  {
    if s == [] || IsAsciiLetter(s[0]) then 0 else 1 + LeadingNonLetters(s[1..])
  }

  /** `strip_left_side`: `re.sub(r'^[^a-zA-Z]+', '', s)`, the text from its first letter on. */
  function StripLeftSide(s: string): (r: string)
    ensures |r| == |s| - LeadingNonLetters(s)
    ensures forall k :: 0 <= k < |r| ==> r[k] == s[LeadingNonLetters(s) + k]
    ensures r == [] || IsAsciiLetter(r[0])
  {
    s[LeadingNonLetters(s)..]
  }

  /**
   * The condition of the comprehension at line 361. Python's `and` binds
   * tighter than `or`, so a line with `(` is kept whatever its length.
   */
  predicate IsCandidate(line: string): (b: bool)
    ensures '(' in line ==> b
    ensures !(15 < |line| < 150) ==> (b <==> '(' in line)
    ensures b ==> '(' in line || ')' in line
    ensures 15 < |line| < 150 ==> (b <==> '(' in line || ')' in line)
  {
    '(' in line || (')' in line && 15 < |line| < 150)
  }

  /** `[strip_left_side(line) for line in lines if <IsCandidate>]` */
  function Candidates(lines: seq<string>): (r: seq<string>)
    ensures |r| <= |lines|
    ensures forall x :: x in r ==> x == [] || IsAsciiLetter(x[0])
  {
    if lines == [] then []
    else
      var rest := Candidates(lines[1..]);
      if IsCandidate(lines[0]) then [StripLeftSide(lines[0])] + rest else rest
  }

  /** When every line passes, there is one kept line per line: the line stripped on the left. */
  lemma {:induction false} CandidatesAllPass(lines: seq<string>)
    requires forall k :: 0 <= k < |lines| ==> IsCandidate(lines[k])
    ensures |Candidates(lines)| == |lines|
    ensures forall k :: 0 <= k < |lines| ==> Candidates(lines)[k] == StripLeftSide(lines[k])
    decreases |lines|
  {
    if lines != [] {
      CandidatesAllPass(lines[1..]);
      var r := Candidates(lines);
      assert r == [StripLeftSide(lines[0])] + Candidates(lines[1..]);
      forall k | 0 < k < |lines| ensures r[k] == StripLeftSide(lines[k]) {
        assert r[k] == Candidates(lines[1..])[k - 1] && lines[k] == lines[1..][k - 1];
      }
    }
  }

  /** Every kept line is a passing line stripped on the left, and every passing line gives one. */
  lemma {:induction false} CandidatesMembers(lines: seq<string>)
    ensures forall x :: x in Candidates(lines) ==> exists l :: l in lines && IsCandidate(l) && x == StripLeftSide(l)
    ensures forall l :: l in lines && IsCandidate(l) ==> StripLeftSide(l) in Candidates(lines)
    decreases |lines|
  {
    if lines != [] {
      CandidatesMembers(lines[1..]);
      assert forall l :: l in lines[1..] ==> l in lines;
      assert forall l :: l in lines ==> l == lines[0] || l in lines[1..];
    }
  }

  /** A single line gives its left-stripped form when it passes the filter, and nothing otherwise. */
  lemma CandidatesOne(l: string)
    ensures Candidates([l]) == if IsCandidate(l) then [StripLeftSide(l)] else []
  {
    assert [l][1..] == [];
  }

  /**
   * The comprehension works line by line: the candidates of two runs of lines
   * are those of the first run followed by those of the second, so order and
   * repeated lines are kept.
   */
  lemma {:induction false} CandidatesAppend(x: seq<string>, y: seq<string>)
    ensures Candidates(x + y) == Candidates(x) + Candidates(y)
    decreases |x|
  {
    if x == [] {
      assert x + y == y;
    } else {
      var z := x + y;
      assert z[0] == x[0] && z[1..] == x[1..] + y;
      CandidatesAppend(x[1..], y);
    }
  }

  /**
   * `process_page`: an empty or missing page gives no lines, and so does a
   * non-string page (strip_text raises and the handler returns []). The lines
   * of a string page are the comprehension over the split of the cleaned page,
   * in fragment order (an empty page included, whose split is empty); with
   * CandidatesOne and CandidatesAppend this fixes them one fragment at a time.
   */
  function ProcessPage(page: Json): (lines: seq<string>)
    ensures !(page.JString? && page.str != []) ==> lines == []
    ensures page.JString? ==> |lines| <= |HouseNumbers(NormalizePage(page.str))|
    ensures page.JString? ==> lines == Candidates(Fragments(NormalizePage(page.str)))
    ensures forall l :: l in lines ==> l == [] || IsAsciiLetter(l[0])
  {
    if !Truthy(page) then
      if page.JString? then NoFragmentsOfEmpty(NormalizePage(page.str)); [] else []
    else match page
      case JString(s) => Candidates(Fragments(NormalizePage(s)))
      case _ => []
  }

  /** A fragment of a text without line breaks has no line break either. */
  lemma FragmentOneLine(text: string, k: nat)
    requires k < |HouseNumbers(text)| && '\n' !in text
    ensures '\n' !in LineAt(text, k)
  {
    FragmentShape(text, k);
    var spans := HouseNumbers(text);
    var gap := text[GapStart(spans, 0, k)..spans[k].start];
    var num := text[spans[k].start + 1..spans[k].end];
    assert '\n' !in gap && '\n' !in num;
    assert TrimLeft(gap) == gap[LeadingSpaces(gap)..];
    assert '\n' !in TrimLeft(gap);
  }

  /** No candidate line of a text without line breaks has one. */
  lemma CandidatesOneLine(text: string, j: nat)
    requires '\n' !in text && j < |Candidates(Fragments(text))|
    ensures '\n' !in Candidates(Fragments(text))[j]
  {
    var frags := Fragments(text);
    var l := Candidates(frags)[j];
    assert l in Candidates(frags);
    CandidatesMembers(frags);
    var f :| f in frags && IsCandidate(f) && l == StripLeftSide(f);
    var k :| 0 <= k < |frags| && frags[k] == f;
    FragmentOneLine(text, k);
  }

  /**
   * The cleaned page has no line breaks, so neither has any line process_page
   * returns: every line handed to preprocess_line is a single line.
   */
  lemma ProcessPageOneLine(page: Json, j: nat)
    requires j < |ProcessPage(page)|
    ensures '\n' !in ProcessPage(page)[j]
  {
    var text := NormalizePage(page.str);
    assert '\n' !in text by {
      assert forall c :: c in text ==> IsStripped(c);
    }
    assert ProcessPage(page) == Candidates(Fragments(text));
    CandidatesOneLine(text, j);
  }

  /** An empty text has no house numbers, hence no lines. */
  lemma NoFragmentsOfEmpty(t: string)
    requires |t| == 0
    ensures Fragments(t) == []
  {
  }
}
