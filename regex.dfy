/**
 * The three regular expressions of the extraction script that `re.sub`,
 * `re.split` and `re.findall` scan for, each as a matcher at one position,
 * and the left-to-right, leftmost, non-overlapping scan those calls share.
 *
 *   TelephoneRef  `\b(?:[Tt]el|[Tt]elef|[Tt]elefoon)\.\s*\d+\b`   (remove_phone_numbers)
 *   HouseNumber   `(\s\d+[a-zA-Z0-9]*)\b`                          (split_text)
 *   BracedText    `\{.*?\}` with re.DOTALL                          (process_line)
 */
module Regex {

  import opened Wrappers
  import opened Chars

  /** A match s[start..end]. */
  datatype Span = Span(start: nat, end: nat)

  datatype Pattern = TelephoneRef | HouseNumber | BracedText

  datatype CharClass = Spaces | Digits | Alnums

  predicate InClass(cl: CharClass, c: char) {
    match cl
    case Spaces => IsSpace(c)
    case Digits => IsDigit(c)
    case Alnums => IsAlnum(c)
  }

  /** End of the longest run of `cl` characters from j: a greedy `cl*`. */
  function SkipRun(cl: CharClass, s: string, j: nat): (k: nat)
    requires j <= |s|
    ensures j <= k <= |s|
    ensures forall q :: j <= q < k ==> InClass(cl, s[q])
    ensures k == |s| || !InClass(cl, s[k])
    decreases |s| - j
  {
    if j < |s| && InClass(cl, s[j]) then SkipRun(cl, s, j + 1) else j
  }

  // ---------------------------------------------------------------- matchers

  /** End of `(?:[Tt]el|[Tt]elef|[Tt]elefoon)\.` at i; the alternatives are tried in order. */
  function TelephoneStemEnd(s: string, i: nat): (r: Option<nat>)
    ensures r.Some? ==> i < r.value <= |s|
  {
    if HasAt(s, i, "Tel.") || HasAt(s, i, "tel.") then Some(i + 4)
    else if HasAt(s, i, "Telef.") || HasAt(s, i, "telef.") then Some(i + 6)
    else if HasAt(s, i, "Telefoon.") || HasAt(s, i, "telefoon.") then Some(i + 9)
    else None
  }

  function TelephoneAt(s: string, i: nat): (r: Option<nat>)
    requires i <= |s|
    ensures r.Some? ==> i < r.value <= |s|
  {
    if !WordBoundary(s, i) then None
    else match TelephoneStemEnd(s, i)
      case None => None
      case Some(j) =>
        var k := SkipRun(Spaces, s, j);
        var e := SkipRun(Digits, s, k);
        if k < e && WordBoundary(s, e) then Some(e) else None
  }

  function HouseNumberAt(s: string, i: nat): (r: Option<nat>)
    requires i <= |s|
    ensures r.Some? ==> i < r.value <= |s|
  {
    if i + 1 < |s| && IsSpace(s[i]) && IsDigit(s[i + 1]) then
      var e := SkipRun(Alnums, s, i + 1);
      if WordBoundary(s, e) then Some(e) else None
    else None
  }

  /** The lazy `.*?` stops at the first `}` after the `{`. */
  function BracedAt(s: string, i: nat): (r: Option<nat>)
    requires i <= |s|
    ensures r.Some? ==> i < r.value <= |s|
  {
    if i < |s| && s[i] == '{' then
      match IndexFrom(s, '}', i + 1)
      case Some(j) => Some(j + 1)
      case None => None
    else None
  }

  /** The end of the match of p that the regex engine reports at position i, if any. */
  function MatchAt(p: Pattern, s: string, i: nat): (r: Option<nat>)
    requires i <= |s|
    ensures r.Some? ==> i < r.value <= |s|
  {
    match p
    case TelephoneRef => TelephoneAt(s, i)
    case HouseNumber => HouseNumberAt(s, i)
    case BracedText => BracedAt(s, i)
  }

  // ------------------------------------------- what the regexes denote

  /** s[i..e] reads stem, whitespace s[j..k], digits s[k..e], between two word boundaries. */
  ghost predicate TelephoneSplit(s: string, i: nat, j: nat, k: nat, e: nat) {
    && i <= j <= k < e <= |s|
    && WordBoundary(s, i) && TelephoneStemEnd(s, i) == Some(j)
    && (forall q :: j <= q < k ==> IsSpace(s[q]))
    && (forall q :: k <= q < e ==> IsDigit(s[q]))
    && WordBoundary(s, e)
  }

  ghost predicate TelephoneMatch(s: string, i: nat, e: nat) {
    exists j, k :: TelephoneSplit(s, i, j, k, e)
  }

  /** s[i..e] reads one whitespace character, then `\d+[a-zA-Z0-9]*` (a digit, then letters or digits), up to a word boundary. */
  ghost predicate HouseNumberMatch(s: string, i: nat, e: nat) {
    && i + 2 <= e <= |s|
    && IsSpace(s[i]) && IsDigit(s[i + 1])
    && (forall q :: i + 1 < q < e ==> IsAlnum(s[q]))
    && WordBoundary(s, e)
  }

  /** s[i..e] is `{`, then anything but `}`, then `}`: the shortest match the lazy `.*?` allows. */
  ghost predicate BracedMatch(s: string, i: nat, e: nat) {
    && i + 2 <= e <= |s|
    && s[i] == '{' && s[e - 1] == '}'
    && forall q :: i < q < e - 1 ==> s[q] != '}'
  }

  /** The telephone matcher reports exactly the matches of its regex (there is at most one per position). */
  lemma TelephoneAtExact(s: string, i: nat, e: nat)
    requires i <= |s|
    ensures TelephoneAt(s, i) == Some(e) <==> TelephoneMatch(s, i, e)
  {
    if TelephoneMatch(s, i, e) {
      var j: nat, k: nat :| TelephoneSplit(s, i, j, k, e);
      var k' := SkipRun(Spaces, s, j);
      assert !IsSpace(s[k]);
      var e' := SkipRun(Digits, s, k);
      assert e' == e by {
        if e < e' { assert IsWord(s[e - 1]) && IsWord(s[e]); }
      }
    }
    if TelephoneAt(s, i) == Some(e) {
      var j := TelephoneStemEnd(s, i).value;
      var k := SkipRun(Spaces, s, j);
      assert TelephoneSplit(s, i, j, k, e);
    }
  }

  /** The house-number matcher reports exactly the matches of its regex. */
  lemma HouseNumberAtExact(s: string, i: nat, e: nat)
    requires i <= |s|
    ensures HouseNumberAt(s, i) == Some(e) <==> HouseNumberMatch(s, i, e)
  {
    if HouseNumberMatch(s, i, e) {
      var e' := SkipRun(Alnums, s, i + 1);
      assert e' == e by {
        if e < e' { assert IsWord(s[e - 1]) && IsWord(s[e]); }
      }
    }
  }

  /** The brace matcher reports exactly the shortest `{...}` at a position. */
  lemma BracedAtExact(s: string, i: nat, e: nat)
    requires i <= |s|
    ensures BracedAt(s, i) == Some(e) <==> BracedMatch(s, i, e)
  {
    if BracedMatch(s, i, e) {
      assert IndexFrom(s, '}', i + 1) == Some(e - 1);
    }
  }

  // ------------------------------------------------------- scanning

  /** Where gap k of the spans begins: `from`, or the end of span k-1. */
  function GapStart(spans: seq<Span>, from: nat, k: nat): nat
    requires k <= |spans|
  {
    if k == 0 then from else spans[k - 1].end
  }

  /** Spans in order, non-empty, non-overlapping, inside [from, n]. */
  predicate Ordered(spans: seq<Span>, from: nat, n: nat)
    decreases |spans|
  {
    if spans == [] then from <= n
    else from <= spans[0].start < spans[0].end <= n && Ordered(spans[1..], spans[0].end, n)
  }

  /** Span k lies after the gap before it and inside [from, n]. */
  lemma {:induction false} OrderedAt(spans: seq<Span>, from: nat, n: nat, k: nat)
    requires Ordered(spans, from, n) && k < |spans|
    ensures from <= GapStart(spans, from, k) <= spans[k].start < spans[k].end <= n
    decreases k
  {
    if k > 0 {
      OrderedAt(spans[1..], spans[0].end, n, k - 1);
      assert spans[1..][k - 1] == spans[k];
      assert GapStart(spans, from, k) == GapStart(spans[1..], spans[0].end, k - 1);
    }
  }

  /** An ordered list of spans stays inside [from, n]. */
  lemma {:induction false} OrderedWithin(spans: seq<Span>, from: nat, n: nat)
    requires Ordered(spans, from, n)
    ensures from <= n
    decreases |spans|
  {
    if spans != [] {
      OrderedWithin(spans[1..], spans[0].end, n);
    }
  }

  /**
   * What the engine tries at each position: the end of the match that starts
   * at position i of s, if there is one. The scan below is written once for
   * any matcher; MatcherOf gives the matcher of each pattern.
   */
  type Matcher = (string, nat) -> Option<nat>

  /** Every match the matcher reports is non-empty and ends inside s. */
  predicate Advances(m: Matcher, s: string) {
    forall q :: 0 <= q <= |s| && m(s, q).Some? ==> q < m(s, q).value <= |s|
  }

  /** The matcher of one of the three patterns. */
  function MatcherOf(p: Pattern): (m: Matcher)
    ensures forall s: string, i: nat :: i <= |s| ==> m(s, i) == MatchAt(p, s, i)
  {
    (s: string, i: nat) => if i <= |s| then MatchAt(p, s, i) else None
  }

  lemma MatcherAdvances(p: Pattern, s: string)
    ensures Advances(MatcherOf(p), s)
  {
  }

  /** Nothing matches at a position in [a, b). */
  ghost predicate NoMatchIn(m: Matcher, s: string, a: nat, b: nat) {
    forall q :: a <= q < b ==> m(s, q).None?
  }

  /** Pattern p matches nowhere in s. */
  lemma NoMatchOf(p: Pattern, s: string)
    ensures NoMatchIn(MatcherOf(p), s, 0, |s|) <==> forall q :: 0 <= q < |s| ==> MatchAt(p, s, q).None?
  {
  }

  /**
   * spans are what the regex engine finds in s[from..]: the leftmost match,
   * then the leftmost match from its end on, and so on; no match starts in a gap.
   */
  ghost predicate IsScan(m: Matcher, s: string, from: nat, spans: seq<Span>)
    requires from <= |s|
    decreases spans
  {
    if spans == [] then NoMatchIn(m, s, from, |s|)
    else
      && from <= spans[0].start <= |s|
      && NoMatchIn(m, s, from, spans[0].start)
      && m(s, spans[0].start) == Some(spans[0].end)
      && spans[0].start < spans[0].end <= |s|
      && IsScan(m, s, spans[0].end, spans[1..])
  }

  /** The matches in s[i..], left to right, as the regex engine finds them. */
  function SpansFrom(m: Matcher, s: string, i: nat): (r: seq<Span>)
    requires i <= |s| && Advances(m, s)
    ensures Ordered(r, i, |s|)
    decreases |s| - i
  {
    if i == |s| then []
    else match m(s, i)
      case Some(e) =>
        var rest := SpansFrom(m, s, e);
        var r := [Span(i, e)] + rest;
        assert r[0] == Span(i, e) && r[1..] == rest;
        r
      case None => SpansFrom(m, s, i + 1)
  }

  /** A position where nothing matches can be added in front of a scan. */
  lemma IsScanExtend(m: Matcher, s: string, i: nat, spans: seq<Span>)
    requires i < |s| && m(s, i).None? && IsScan(m, s, i + 1, spans)
    ensures IsScan(m, s, i, spans)
  {
    if spans == [] {
      assert NoMatchIn(m, s, i, |s|);
    } else {
      assert NoMatchIn(m, s, i, spans[0].start);
    }
  }

  /** The scanner finds what the regex engine finds. */
  lemma {:induction false} SpansFromIsScan(m: Matcher, s: string, i: nat)
    requires i <= |s| && Advances(m, s)
    ensures IsScan(m, s, i, SpansFrom(m, s, i))
    decreases |s| - i
  {
    if i < |s| {
      match m(s, i)
      case Some(e) =>
        var rest := SpansFrom(m, s, e);
        var r := SpansFrom(m, s, i);
        SpansFromIsScan(m, s, e);
        assert r == [Span(i, e)] + rest;
        assert r[0] == Span(i, e) && r[1..] == rest;
        assert NoMatchIn(m, s, i, i);
      case None =>
        SpansFromIsScan(m, s, i + 1);
        IsScanExtend(m, s, i, SpansFrom(m, s, i + 1));
    }
  }

  /** The scan is empty exactly when the pattern matches nowhere. */
  lemma SpansFromEmpty(m: Matcher, s: string, i: nat)
    requires i <= |s| && Advances(m, s)
    ensures SpansFrom(m, s, i) == [] <==> NoMatchIn(m, s, i, |s|)
  {
    var r := SpansFrom(m, s, i);
    SpansFromIsScan(m, s, i);
    if r != [] {
      assert m(s, r[0].start).Some?;
    }
  }

  /** The matches of pattern p in s. */
  function Spans(p: Pattern, s: string): (r: seq<Span>)
    ensures Ordered(r, 0, |s|)
  {
    MatcherAdvances(p, s);
    SpansFrom(MatcherOf(p), s, 0)
  }

  /** A scan starts no later than any position where the pattern matches. */
  lemma ScanLeftmost(m: Matcher, s: string, from: nat, spans: seq<Span>, q: nat)
    requires from <= q < |s| && IsScan(m, s, from, spans) && m(s, q).Some?
    ensures spans != [] && spans[0].start <= q
  {
  }

  /** The leftmost-scan description determines the spans: the scanner is the only one meeting it. */
  lemma {:induction false} ScanUnique(m: Matcher, s: string, from: nat, a: seq<Span>, b: seq<Span>)
    requires from <= |s| && Advances(m, s) && IsScan(m, s, from, a) && IsScan(m, s, from, b)
    ensures a == b
    decreases |a|
  {
    if a != [] && b != [] {
      ScanLeftmost(m, s, from, a, b[0].start);
      ScanLeftmost(m, s, from, b, a[0].start);
      assert a[0] == b[0];
      ScanUnique(m, s, a[0].end, a[1..], b[1..]);
      assert a == [a[0]] + a[1..] && b == [b[0]] + b[1..];
    } else if a != [] {
      assert false;
    } else if b != [] {
      assert false;
    }
  }

  /** Span k of a scan is a match, and nothing matches in the gap before it. */
  lemma {:induction false} ScanMatchAt(m: Matcher, s: string, from: nat, spans: seq<Span>, k: nat)
    requires from <= |s| && IsScan(m, s, from, spans) && k < |spans|
    ensures GapStart(spans, from, k) <= spans[k].start <= |s|
    ensures m(s, spans[k].start) == Some(spans[k].end)
    ensures NoMatchIn(m, s, GapStart(spans, from, k), spans[k].start)
    decreases k
  {
    if k > 0 {
      ScanMatchAt(m, s, spans[0].end, spans[1..], k - 1);
      assert spans[1..][k - 1] == spans[k];
      assert GapStart(spans, from, k) == GapStart(spans[1..], spans[0].end, k - 1);
    }
  }

  // ------------------------------------------------ sub, split, findall

  /** `re.sub(pattern, '', s[from..])`: the text between the spans. */
  function DeleteSpans(s: string, spans: seq<Span>, from: nat): (r: string)
    requires Ordered(spans, from, |s|)
    ensures multiset(r) <= multiset(s[from..])
    ensures spans != [] ==> |r| < |s| - from
    decreases spans
  {
    if spans == [] then s[from..]
    else
      var sp := spans[0];
      assert Ordered(spans[1..], sp.end, |s|);
      assert s[from..] == s[from..sp.start] + s[sp.start..sp.end] + s[sp.end..];
      s[from..sp.start] + DeleteSpans(s, spans[1..], sp.end)
  }

  /** Some span covers position q. */
  predicate Covered(spans: seq<Span>, q: nat) {
    exists k :: 0 <= k < |spans| && spans[k].start <= q < spans[k].end
  }

  /** The characters of s[i..j] at the positions no span covers, in order. */
  function Outside(s: string, spans: seq<Span>, i: nat, j: nat): (r: string)
    requires i <= j <= |s|
    ensures |r| <= j - i
    decreases j - i
  {
    if i == j then [] else (if Covered(spans, i) then [] else [s[i]]) + Outside(s, spans, i + 1, j)
  }

  lemma {:induction false} OutsideSplit(s: string, spans: seq<Span>, i: nat, j: nat, k: nat)
    requires i <= j <= k <= |s|
    ensures Outside(s, spans, i, k) == Outside(s, spans, i, j) + Outside(s, spans, j, k)
    decreases j - i
  {
    if i < j {
      OutsideSplit(s, spans, i + 1, j, k);
    }
  }

  lemma {:induction false} OutsideUncovered(s: string, spans: seq<Span>, i: nat, j: nat)
    requires i <= j <= |s|
    requires forall q :: i <= q < j ==> !Covered(spans, q)
    ensures Outside(s, spans, i, j) == s[i..j]
    decreases j - i
  {
    if i < j {
      OutsideUncovered(s, spans, i + 1, j);
      assert s[i..j] == [s[i]] + s[i + 1..j];
    }
  }

  lemma {:induction false} OutsideCovered(s: string, spans: seq<Span>, i: nat, j: nat)
    requires i <= j <= |s|
    requires forall q :: i <= q < j ==> Covered(spans, q)
    ensures Outside(s, spans, i, j) == []
    decreases j - i
  {
    if i < j {
      OutsideCovered(s, spans, i + 1, j);
    }
  }

  /** Two span lists that cover the same positions of s[i..j] leave the same characters outside. */
  lemma {:induction false} OutsideSame(s: string, a: seq<Span>, b: seq<Span>, i: nat, j: nat)
    requires i <= j <= |s|
    requires forall q :: i <= q < j ==> (Covered(a, q) <==> Covered(b, q))
    ensures Outside(s, a, i, j) == Outside(s, b, i, j)
    decreases j - i
  {
    if i < j {
      OutsideSame(s, a, b, i + 1, j);
    }
  }

  /** Every span of an ordered list starts at or after `from`. */
  lemma OrderedStarts(spans: seq<Span>, from: nat, n: nat)
    requires Ordered(spans, from, n)
    ensures forall k :: 0 <= k < |spans| ==> from <= spans[k].start
  {
    forall k | 0 <= k < |spans| ensures from <= spans[k].start {
      OrderedAt(spans, from, n, k);
    }
  }

  /** In an ordered list, the first span alone covers its own positions, and nothing covers the gap before it. */
  lemma FirstSpanCover(spans: seq<Span>, from: nat, n: nat)
    requires Ordered(spans, from, n) && spans != []
    ensures forall q :: from <= q < spans[0].start ==> !Covered(spans, q)
    ensures forall q :: spans[0].start <= q < spans[0].end ==> Covered(spans, q)
    ensures forall q :: spans[0].end <= q ==> (Covered(spans, q) <==> Covered(spans[1..], q))
  {
    var sp := spans[0];
    var rest := spans[1..];
    assert Ordered(rest, sp.end, n);
    OrderedStarts(rest, sp.end, n);
    forall q | from <= q < sp.start ensures !Covered(spans, q) {
      forall k | 0 <= k < |spans| ensures !(spans[k].start <= q < spans[k].end) {
        if k > 0 { assert spans[k] == rest[k - 1]; }
      }
    }
    forall q | sp.start <= q < sp.end ensures Covered(spans, q) {
      assert spans[0].start <= q < spans[0].end;
    }
    forall q | sp.end <= q ensures Covered(spans, q) <==> Covered(rest, q) {
      if Covered(spans, q) {
        var k :| 0 <= k < |spans| && spans[k].start <= q < spans[k].end;
        assert k > 0 && spans[k] == rest[k - 1];
      }
      if Covered(rest, q) {
        var k :| 0 <= k < |rest| && rest[k].start <= q < rest[k].end;
        assert spans[k + 1] == rest[k];
      }
    }
  }

  /**
   * `re.sub(pattern, '', s)` deletes exactly the matched text: what remains
   * is every character of s[from..] that no span covers, in order.
   */
  lemma {:induction false} DeleteSpansOutside(s: string, spans: seq<Span>, from: nat)
    requires Ordered(spans, from, |s|)
    ensures DeleteSpans(s, spans, from) == Outside(s, spans, from, |s|)
    decreases spans
  {
    if spans == [] {
      OrderedWithin(spans, from, |s|);
      OutsideUncovered(s, spans, from, |s|);
    } else {
      assert Ordered(spans[1..], spans[0].end, |s|);
      OutsideFirstSpan(s, spans, from);
      DeleteSpansOutside(s, spans[1..], spans[0].end);
    }
  }

  /** Outside the spans, the first span's gap is kept whole, the span itself goes, and the rest is outside the other spans. */
  lemma OutsideFirstSpan(s: string, spans: seq<Span>, from: nat)
    requires Ordered(spans, from, |s|) && spans != []
    ensures from <= spans[0].start <= spans[0].end <= |s|
    ensures Outside(s, spans, from, |s|) == s[from..spans[0].start] + Outside(s, spans[1..], spans[0].end, |s|)
  {
    OrderedWithin(spans, from, |s|);
    var sp := spans[0];
    var rest := spans[1..];
    assert Ordered(rest, sp.end, |s|);
    FirstSpanCover(spans, from, |s|);
    calc {
      Outside(s, spans, from, |s|);
    == { OutsideSplit(s, spans, from, sp.start, |s|); }
      Outside(s, spans, from, sp.start) + Outside(s, spans, sp.start, |s|);
    == { OutsideUncovered(s, spans, from, sp.start); }
      s[from..sp.start] + Outside(s, spans, sp.start, |s|);
    == { OutsideSplit(s, spans, sp.start, sp.end, |s|); OutsideCovered(s, spans, sp.start, sp.end); }
      s[from..sp.start] + Outside(s, spans, sp.end, |s|);
    == { OutsideSame(s, spans, rest, sp.end, |s|); }
      s[from..sp.start] + Outside(s, rest, sp.end, |s|);
    }
  }

  /**
   * `re.split(pattern, s[from..])` for a pattern that is one capturing group:
   * gap, match, gap, match, ..., final gap.
   */
  function SplitAt(s: string, spans: seq<Span>, from: nat): (parts: seq<string>)
    requires Ordered(spans, from, |s|)
    ensures |parts| == 2 * |spans| + 1
    decreases spans
  {
    if spans == [] then [s[from..]]
    else
      var sp := spans[0];
      assert Ordered(spans[1..], sp.end, |s|);
      [s[from..sp.start], s[sp.start..sp.end]] + SplitAt(s, spans[1..], sp.end)
  }

  /** Part 2k of the split is gap k, part 2k+1 is match k. */
  lemma {:induction false} SplitAtIndex(s: string, spans: seq<Span>, from: nat, k: nat)
    requires Ordered(spans, from, |s|) && k < |spans|
    ensures from <= GapStart(spans, from, k) <= spans[k].start < spans[k].end <= |s|
    ensures SplitAt(s, spans, from)[2 * k] == s[GapStart(spans, from, k)..spans[k].start]
    ensures SplitAt(s, spans, from)[2 * k + 1] == s[spans[k].start..spans[k].end]
    decreases k
  {
    var sp := spans[0];
    OrderedAt(spans, from, |s|, k);
    if k > 0 {
      SplitAtIndex(s, spans[1..], sp.end, k - 1);
      assert spans[1..][k - 1] == spans[k];
      assert GapStart(spans, from, k) == GapStart(spans[1..], sp.end, k - 1);
    }
  }

  /** `re.findall(pattern, s)` for a pattern without groups: the matched texts in order. */
  function SpanTexts(s: string, spans: seq<Span>, from: nat): (r: seq<string>)
    requires Ordered(spans, from, |s|)
    ensures |r| == |spans|
    decreases spans
  {
    if spans == [] then []
    else [s[spans[0].start..spans[0].end]] + SpanTexts(s, spans[1..], spans[0].end)
  }

  /** Text k that findall returns is the text of span k. */
  lemma {:induction false} SpanTextsAt(s: string, spans: seq<Span>, from: nat, k: nat)
    requires Ordered(spans, from, |s|) && k < |spans|
    ensures spans[k].start < spans[k].end <= |s|
    ensures SpanTexts(s, spans, from)[k] == s[spans[k].start..spans[k].end]
    decreases k
  {
    OrderedAt(spans, from, |s|, k);
    if k > 0 {
      SpanTextsAt(s, spans[1..], spans[0].end, k - 1);
      assert spans[1..][k - 1] == spans[k];
    }
  }
}
