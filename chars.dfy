/**
 * Character classes of Python's `re` and `str` methods, restricted to ASCII,
 * and the whitespace trimming of `str.strip()`.
 */
module Chars {

  import opened Wrappers

  /** `\s` and `str.isspace()` on ASCII: space, \t \n \v \f \r and the separators \x1c-\x1f. */
  predicate IsSpace(c: char) {
    c == ' ' || 9 <= c as int <= 13 || 28 <= c as int <= 31
  }

  /** `\d` on ASCII. */
  predicate IsDigit(c: char) { '0' <= c <= '9' }

  /** `[A-Z]` */
  predicate IsUpper(c: char) { 'A' <= c <= 'Z' }

  /** `[a-zA-Z]` */
  predicate IsAsciiLetter(c: char) { 'A' <= c <= 'Z' || 'a' <= c <= 'z' }

  /** `[a-zA-Z0-9]` */
  predicate IsAlnum(c: char) { IsAsciiLetter(c) || IsDigit(c) }

  /** `\w` on ASCII. */
  predicate IsWord(c: char) { IsAlnum(c) || c == '_' }

  /** `\b` at position i of s: exactly one of the neighbouring characters is a word character. */
  predicate WordBoundary(s: string, i: nat)
    requires i <= |s|
  {
    (i > 0 && IsWord(s[i - 1])) != (i < |s| && IsWord(s[i]))
  }

  /** Concatenation regroups (stated once, because the solver finds it slowly next to large string functions). */
  lemma ConcatAssoc(x: string, y: string, z: string)
    ensures x + (y + z) == (x + y) + z
  {
  }

  /** How many whitespace characters s starts with. */
  function LeadingSpaces(s: string): (n: nat)
    ensures n <= |s|
    ensures forall k :: 0 <= k < n ==> IsSpace(s[k])
    ensures n == |s| || !IsSpace(s[n])
  {
    if s == [] || !IsSpace(s[0]) then 0 else 1 + LeadingSpaces(s[1..])
  }

  /** How many whitespace characters s ends with. */
  function TrailingSpaces(s: string): (n: nat)
    ensures n <= |s|
    ensures forall k :: |s| - n <= k < |s| ==> IsSpace(s[k])
    ensures n == |s| || !IsSpace(s[|s| - n - 1])
  {
    if s == [] || !IsSpace(s[|s| - 1]) then 0 else 1 + TrailingSpaces(s[..|s| - 1])
  }

  /** Leading whitespace removed (`str.lstrip()`). */
  function TrimLeft(s: string): (r: string)
    ensures |r| <= |s|
    ensures r == [] || !IsSpace(r[0])
  {
    s[LeadingSpaces(s)..]
  }

  /** Trailing whitespace removed (`str.rstrip()`). */
  function TrimRight(s: string): (r: string)
    ensures |r| <= |s|
    ensures r == [] || !IsSpace(r[|r| - 1])
  {
    s[..|s| - TrailingSpaces(s)]
  }

  /** lstrip drops one leading whitespace character at a time and stops at the first other one. */
  lemma TrimLeftStep(s: string)
    requires s != []
    ensures TrimLeft(s) == if IsSpace(s[0]) then TrimLeft(s[1..]) else s
  {
    if IsSpace(s[0]) {
      assert s[1..][LeadingSpaces(s[1..])..] == s[1 + LeadingSpaces(s[1..])..];
    }
  }

  /** `str.strip()`: whitespace removed from both ends, and nothing else. */
  function Trim(s: string): (r: string)
    ensures |r| <= |s|
    ensures r == [] || (!IsSpace(r[0]) && !IsSpace(r[|r| - 1]))
    ensures forall k :: 0 <= k < |s| && !IsSpace(s[k]) ==> r != []
    ensures exists a, b ::
              && 0 <= a <= b <= |s| && r == s[a..b]
              && (forall k :: 0 <= k < a ==> IsSpace(s[k]))
              && (forall k :: b <= k < |s| ==> IsSpace(s[k]))
  {
    TrimNonBlank(s);
    TrimWindow(s);
    TrimRight(TrimLeft(s))
  }

  /** strip leaves something of a string that is not all whitespace. */
  lemma TrimNonBlank(s: string)
    ensures forall k :: 0 <= k < |s| && !IsSpace(s[k]) ==> TrimRight(TrimLeft(s)) != []
  {
    var t := TrimLeft(s);
    assert forall k :: 0 <= k < |s| && !IsSpace(s[k]) ==> t != [];
    assert t != [] ==> TrailingSpaces(t) < |t|;
  }

  /** strip keeps the window between the leading and the trailing whitespace. */
  lemma TrimWindow(s: string)
    ensures exists a, b ::
              && 0 <= a <= b <= |s| && TrimRight(TrimLeft(s)) == s[a..b]
              && (forall k :: 0 <= k < a ==> IsSpace(s[k]))
              && (forall k :: b <= k < |s| ==> IsSpace(s[k]))
  {
    var a := LeadingSpaces(s);
    var t := s[a..];
    var b := a + |t| - TrailingSpaces(t);
    assert TrimRight(t) == s[a..b];
    forall k | b <= k < |s|
      ensures IsSpace(s[k])
    {
      assert s[k] == t[k - a];
    }
  }

  /** Trimming leaves a string unchanged when it starts and ends with non-whitespace. */
  lemma TrimNoSpaceEnds(s: string)
    requires s != [] && !IsSpace(s[0]) && !IsSpace(s[|s| - 1])
    ensures Trim(s) == s
  {
    assert TrimLeft(s) == s;
  }

  /** lstrip of `a + t`, where t is non-empty and has no whitespace, only touches a. */
  lemma {:induction false} TrimLeftKeepsSolidSuffix(a: string, t: string)
    requires t != [] && forall k :: 0 <= k < |t| ==> !IsSpace(t[k])
    ensures TrimLeft(a + t) == TrimLeft(a) + t
    decreases |a|
  {
    if a == [] {
      assert a + t == t;
      assert LeadingSpaces(t) == 0;
    } else {
      TrimLeftStep(a + t);
      TrimLeftStep(a);
      assert (a + t)[0] == a[0];
      if IsSpace(a[0]) {
        assert (a + t)[1..] == a[1..] + t;
        TrimLeftKeepsSolidSuffix(a[1..], t);
      }
    }
  }

  /** Trimming `a + t`, where t is non-empty and has no whitespace, keeps t whole at the end. */
  lemma TrimKeepsSolidSuffix(a: string, t: string)
    requires t != [] && forall k :: 0 <= k < |t| ==> !IsSpace(t[k])
    ensures Trim(a + t) == TrimLeft(a) + t
  {
    TrimLeftKeepsSolidSuffix(a, t);
    var u := TrimLeft(a) + t;
    assert u[|u| - 1] == t[|t| - 1];
    TrimRightSolidEnd(u);
    assert Trim(a + t) == TrimRight(u);
  }

  /** rstrip leaves a string that ends with non-whitespace as it is. */
  lemma TrimRightSolidEnd(u: string)
    requires u != [] && !IsSpace(u[|u| - 1])
    ensures TrimRight(u) == u
  {
    assert TrailingSpaces(u) == 0;
  }

  /** s has the word w starting at position i. */
  predicate HasAt(s: string, i: nat, w: string) {
    i + |w| <= |s| && s[i..i + |w|] == w
  }

  /** The first index at or after `from` holding c. */
  function IndexFrom(s: string, c: char, from: nat): (r: Option<nat>)
    requires from <= |s|
    ensures r.Some? ==> from <= r.value < |s| && s[r.value] == c
    ensures forall q :: from <= q < (if r.Some? then r.value else |s|) ==> s[q] != c
    decreases |s| - from
  {
    if from == |s| then None
    else if s[from] == c then Some(from)
    else IndexFrom(s, c, from + 1)
  }

  /** The last index holding c. */
  function LastIndex(s: string, c: char): (r: Option<nat>)
    ensures r.Some? ==> r.value < |s| && s[r.value] == c
    ensures forall q :: (if r.Some? then r.value + 1 else 0) <= q < |s| ==> s[q] != c
  {
    if s == [] then None
    else if s[|s| - 1] == c then Some(|s| - 1)
    else LastIndex(s[..|s| - 1], c)
  }
}
