/**
 * Line helpers (Utils.h): whitespace trimming and the normalisation of
 * one tab-separated input line.
 */
module StringUtils {

  /** kTabsInLine: the number of tabs a well-formed line holds. */
  const TabsInLine: nat := 2

  /**
   * std::isspace in the C locale: the space character and the control
   * characters from horizontal tab to carriage return.
   */
  predicate IsSpace(c: char): (r: bool)
    ensures r <==> c == ' ' || '\t' <= c <= '\r'
  {
    c == ' ' || c == '\t' || c == '\n' || c == '\U{B}' || c == '\U{C}' || c == '\r'
  }

  /** Every character of `s` is whitespace (true of the empty string). */
  ghost predicate AllSpace(s: string) {
    forall i :: 0 <= i < |s| ==> IsSpace(s[i])
  }

  ghost predicate IsSuffix(r: string, s: string) {
    |r| <= |s| && s[|s| - |r|..] == r
  }

  /** The index of the first non-whitespace character, or |s| if there is none. */
  function LeadingSpaces(s: string): (n: nat)
    ensures n <= |s|
    ensures forall i :: 0 <= i < n ==> IsSpace(s[i])
    ensures n < |s| ==> !IsSpace(s[n])
  {
    if s == [] || !IsSpace(s[0]) then 0 else 1 + LeadingSpaces(s[1..])
  }

  /** The index just past the last non-whitespace character, or 0 if there is none. */
  function TrailingStart(s: string): (n: nat)
    ensures n <= |s|
    ensures forall i :: n <= i < |s| ==> IsSpace(s[i])
    ensures n > 0 ==> !IsSpace(s[n - 1])
  {
    if s == [] || !IsSpace(s[|s| - 1]) then |s| else TrailingStart(s[..|s| - 1])
  }

  /** What ltrim leaves: the erase is skipped when no non-whitespace character is found. */
  function LTrimmed(s: string): string {
    var n := LeadingSpaces(s);
    if n != |s| then s[n..] else s
  }

  /** What rtrim leaves. */
  function RTrimmed(s: string): string {
    var n := TrailingStart(s);
    if n != |s| then s[..n] else s
  }

  /** ltrim: find_if for the first non-whitespace character, then erase what precedes it. */
  method LTrim(s: string) returns (r: string)
    ensures r == LTrimmed(s)
  {
    var i := 0;
    while i < |s| && IsSpace(s[i])
      invariant i <= LeadingSpaces(s)
    {
      i := i + 1;
    }
    if i != |s| {
      r := s[i..];
    } else {
      r := s;
    }
  }

  /** rtrim: find_if from the back for the last non-whitespace character, then erase what follows it. */
  method RTrim(s: string) returns (r: string)
    ensures r == RTrimmed(s)
  {
    var i := |s|;
    while i > 0 && IsSpace(s[i - 1])
      invariant TrailingStart(s) <= i <= |s|
    {
      i := i - 1;
    }
    if i != |s| {
      r := s[..i];
    } else {
      r := s;
    }
  }

  /** trim: ltrim, then rtrim. */
  method Trim(s: string) returns (r: string)
    ensures r == RTrimmed(LTrimmed(s))
  {
    r := LTrim(s);
    r := RTrim(r);
  }

  /**
   * ltrim yields a suffix of its input. If the input holds a non-whitespace
   * character, the suffix starts at the first one and everything dropped is
   * whitespace; otherwise the input is left as it is.
   */
  lemma LTrimmedShape(s: string)
    ensures IsSuffix(LTrimmed(s), s)
    ensures AllSpace(s) ==> LTrimmed(s) == s
    ensures !AllSpace(s) ==> LTrimmed(s) == s[LeadingSpaces(s)..] && !IsSpace(LTrimmed(s)[0])
  {
  }

  /**
   * rtrim yields the longest prefix of its input that ends in a
   * non-whitespace character; what it drops is whitespace, and an
   * all-whitespace input becomes empty.
   */
  lemma RTrimmedShape(s: string)
    ensures RTrimmed(s) <= s
    ensures AllSpace(s[|RTrimmed(s)|..])
    ensures RTrimmed(s) != [] ==> !IsSpace(RTrimmed(s)[|RTrimmed(s)| - 1])
    ensures AllSpace(s) <==> RTrimmed(s) == []
  {
  }

  lemma LTrimIsIdempotent(s: string)
    ensures LTrimmed(LTrimmed(s)) == LTrimmed(s)
  {
  }

  lemma RTrimIsIdempotent(s: string)
    ensures RTrimmed(RTrimmed(s)) == RTrimmed(s)
  {
  }

  lemma SliceOfSuffix(s: string, i: nat, k: nat)
    requires i + k <= |s|
    ensures s[i..][..k] == s[i..i + k]
  {
  }

  /**
   * trim yields a contiguous part of its input that neither starts nor ends
   * with whitespace, and is empty exactly for an all-whitespace input.
   */
  lemma TrimmedShape(s: string)
    ensures var r := RTrimmed(LTrimmed(s));
      && (exists i, j :: 0 <= i <= j <= |s| && r == s[i..j])
      && (r != [] ==> !IsSpace(r[0]) && !IsSpace(r[|r| - 1]))
      && (AllSpace(s) <==> r == [])
  {
    var t := LTrimmed(s);
    var r := RTrimmed(t);
    LTrimmedShape(s);
    RTrimmedShape(t);
    var i := |s| - |t|;
    assert t == s[i..];
    SliceOfSuffix(s, i, |r|);
    assert r == s[i..i + |r|];
    if AllSpace(s) {
      assert t == s;
      assert r == [];
    } else {
      assert !IsSpace(t[0]);
      assert !AllSpace(t);
      assert r != [] && r[0] == t[0];
      assert !IsSpace(r[0]) && !IsSpace(r[|r| - 1]);
    }
  }

  /** The characters the remove_if lambda drops; each is whitespace. */
  predicate IsLineBreak(c: char): (r: bool)
    ensures r ==> IsSpace(c)
  {
    c == '\r' || c == '\n'
  }

  /** The line with every '\r' and '\n' removed and the other characters kept in order. */
  function WithoutLineBreaks(s: string): string {
    if s == [] then []
    else WithoutLineBreaks(s[..|s| - 1]) + (if IsLineBreak(s[|s| - 1]) then [] else [s[|s| - 1]])
  }

  /** The std::accumulate fold that counts tab characters: the number of occurrences of '\t'. */
  function CountTabs(s: string): (n: nat)
    ensures n == multiset(s)['\t']
  {
    if s == [] then 0
    else
      assert s == s[..|s| - 1] + [s[|s| - 1]];
      CountTabs(s[..|s| - 1]) + (if s[|s| - 1] == '\t' then 1 else 0)
  }

  /** Removing line breaks distributes over concatenation: the order of what is kept is the input's. */
  lemma {:induction false} WithoutLineBreaksAppend(a: string, b: string)
    ensures WithoutLineBreaks(a + b) == WithoutLineBreaks(a) + WithoutLineBreaks(b)
  {
    if b == [] {
      assert a + b == a;
    } else {
      var b' := b[..|b| - 1];
      assert (a + b)[..|a + b| - 1] == a + b';
      WithoutLineBreaksAppend(a, b');
    }
  }

  /** No line break is left, and every other character occurs as often as in the input. */
  lemma {:induction false} WithoutLineBreaksContents(s: string)
    ensures forall i :: 0 <= i < |WithoutLineBreaks(s)| ==> !IsLineBreak(WithoutLineBreaks(s)[i])
    ensures forall c :: !IsLineBreak(c) ==> multiset(WithoutLineBreaks(s))[c] == multiset(s)[c]
  {
    if s != [] {
      var s' := s[..|s| - 1];
      WithoutLineBreaksContents(s');
      assert s == s' + [s[|s| - 1]];
    }
  }

  /** A line without line breaks is left as it is; hence the removal is idempotent. */
  lemma {:induction false} WithoutLineBreaksKeepsCleanLine(s: string)
    requires forall i :: 0 <= i < |s| ==> !IsLineBreak(s[i])
    ensures WithoutLineBreaks(s) == s
  {
    if s != [] {
      WithoutLineBreaksKeepsCleanLine(s[..|s| - 1]);
      assert s == s[..|s| - 1] + [s[|s| - 1]];
    }
  }

  lemma WithoutLineBreaksIsIdempotent(s: string)
    ensures WithoutLineBreaks(WithoutLineBreaks(s)) == WithoutLineBreaks(s)
  {
    WithoutLineBreaksContents(s);
    WithoutLineBreaksKeepsCleanLine(WithoutLineBreaks(s));
  }

  /** Removing line breaks keeps every tab, so the check counts the tabs of the original line. */
  lemma {:induction false} WithoutLineBreaksKeepsTabs(s: string)
    ensures CountTabs(WithoutLineBreaks(s)) == CountTabs(s)
  {
    if s != [] {
      var s' := s[..|s| - 1];
      var w := WithoutLineBreaks(s');
      WithoutLineBreaksKeepsTabs(s');
      var last := if IsLineBreak(s[|s| - 1]) then [] else [s[|s| - 1]];
      if last != [] {
        assert (w + last)[..|w + last| - 1] == w;
      } else {
        assert w + last == w;
      }
    }
  }

  /**
   * std::remove_if over the line's buffer: shifts every character that is
   * not a line break to the front, in order, and returns the new end.
   */
  method RemoveLineBreaks(a: array<char>) returns (end: nat)
    modifies a
    ensures end <= a.Length
    ensures a[..end] == WithoutLineBreaks(old(a[..]))
  {
    ghost var s := a[..];
    end := 0;
    var i := 0;
    while i < a.Length
      invariant 0 <= end <= i <= a.Length
      invariant a[..end] == WithoutLineBreaks(s[..i])
      invariant forall k :: i <= k < a.Length ==> a[k] == s[k]
    {
      assert s[..i + 1][..i] == s[..i];
      assert a[i] == s[i];
      if !IsLineBreak(a[i]) {
        a[end] := a[i];
        end := end + 1;
      }
      i := i + 1;
    }
    assert s[..a.Length] == s;
  }

  /** The outcome of normalizeLine: it returns, or throws std::logic_error over the tab count. */
  datatype Outcome = Normalized | InvalidTabCount(expected: nat, found: nat)

  /**
   * normalizeLine: removes every line break from the line in place, then
   * fails unless the cleaned line holds exactly TabsInLine tabs. The line
   * is cleaned in both outcomes, as the edit precedes the throw.
   */
  method NormalizeLine(s: string) returns (line: string, outcome: Outcome)
    ensures line == WithoutLineBreaks(s)
    ensures outcome == if CountTabs(s) == TabsInLine then Normalized
                       else InvalidTabCount(TabsInLine, CountTabs(s))
  {
    var a := new char[|s|](i requires 0 <= i < |s| => s[i]);
    assert a[..] == s;
    var end := RemoveLineBreaks(a);
    line := a[..end];
    var countTab := CountTabs(line);
    WithoutLineBreaksKeepsTabs(s);
    if countTab != TabsInLine {
      outcome := InvalidTabCount(TabsInLine, countTab);
    } else {
      outcome := Normalized;
    }
  }
}
