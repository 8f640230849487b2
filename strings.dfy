/** The handful of Python string operations the search core relies on:
    `str.strip()`, `str.lower()`, `str.isdigit()`, `str.startswith()` and
    `str.find()`, restricted to ASCII text (see README, "Left out"). */
module Strings {

  /** Whitespace as `str.strip()` and `str.isspace()` see it, within ASCII:
      tab, line feed, vertical tab, form feed, carriage return, the four
      information separators 0x1C-0x1F, and the space. */
  predicate IsSpace(c: char): (b: bool)
    ensures b ==> c <= ' '
    ensures c == ' ' ==> b
  {
    c == ' ' || ('\U{9}' <= c <= '\U{D}') || ('\U{1C}' <= c <= '\U{1F}')
  }

  /** `str.strip()` from the left: how many whitespace characters `s`
      starts with. */
  function LeadingSpaces(s: string): (n: nat)
    ensures n <= |s|
    ensures forall i :: 0 <= i < n ==> IsSpace(s[i])
    ensures n < |s| ==> !IsSpace(s[n])
  {
    if s != [] && IsSpace(s[0]) then 1 + LeadingSpaces(s[1..]) else 0
  }

  /** `str.strip()` from the right: where the trailing run of whitespace of
      `s` begins. */
  function TrailingStart(s: string): (e: nat)
    ensures e <= |s|
    ensures forall i :: e <= i < |s| ==> IsSpace(s[i])
    ensures e > 0 ==> !IsSpace(s[e - 1])
  {
    if s != [] && IsSpace(s[|s| - 1]) then TrailingStart(s[..|s| - 1]) else |s|
  }

  /** `str.strip()`: `s` without its leading and trailing whitespace. It is
      empty exactly when `s` is all whitespace; otherwise it is the piece of
      `s` between the leading and the trailing whitespace, and it neither
      starts nor ends with whitespace. */
  function Strip(s: string): (r: string)
    ensures r == [] <==> forall i :: 0 <= i < |s| ==> IsSpace(s[i])
    ensures r != [] ==> !IsSpace(r[0]) && !IsSpace(r[|r| - 1])
    ensures r != [] ==> var a := LeadingSpaces(s);
      && a + |r| <= |s|
      && r == s[a..a + |r|]
      && (forall i :: a + |r| <= i < |s| ==> IsSpace(s[i]))
  {
    var a := LeadingSpaces(s);
    var e := TrailingStart(s);
    if a < e then s[a..e] else []
  }

  /** A string with no whitespace in it is its own `strip()`. */
  lemma StripNoSpace(s: string)
    requires forall i :: 0 <= i < |s| ==> !IsSpace(s[i])
    ensures Strip(s) == s
  {
    assert LeadingSpaces(s) == 0;
    assert TrailingStart(s) == |s|;
  }

  predicate IsUpper(c: char) {
    'A' <= c <= 'Z'
  }

  /** `str.lower()` on one ASCII character; every other character is kept. */
  function LowerChar(c: char): (d: char)
    ensures !IsUpper(d)
    ensures IsUpper(c) ==> d as int == c as int + 32
    ensures !IsUpper(c) ==> d == c
  {
    if IsUpper(c) then (c as int + 32) as char else c
  }

  /** `str.lower()`: the same length, character by character, and no
      upper-case letter is left. */
  function Lower(s: string): (r: string)
    ensures |r| == |s|
    ensures forall i :: 0 <= i < |s| ==> r[i] == LowerChar(s[i])
    ensures forall i :: 0 <= i < |r| ==> !IsUpper(r[i])
  {
    seq(|s|, i requires 0 <= i < |s| => LowerChar(s[i]))
  }

  /** Lower-casing twice is lower-casing once. */
  lemma LowerIdempotent(s: string)
    ensures Lower(Lower(s)) == Lower(s)
  {
    assert forall i :: 0 <= i < |s| ==> Lower(Lower(s))[i] == Lower(s)[i];
  }

  /** Lower-casing commutes with taking a slice, so an index found in the
      lower-cased text is an index into the original text as well. */
  lemma LowerSlice(s: string, a: nat, b: nat)
    requires a <= b <= |s|
    ensures Lower(s)[a..b] == Lower(s[a..b])
  {
    assert forall i :: 0 <= i < b - a ==> Lower(s)[a..b][i] == Lower(s[a..b])[i];
  }

  /** Lower-casing neither creates nor removes whitespace, so stripping
      before or after lower-casing gives the same result. */
  lemma StripLowerCommute(s: string)
    ensures Strip(Lower(s)) == Lower(Strip(s))
  {
    LowerLeadingSpaces(s);
    LowerTrailingStart(s);
    var a, e := LeadingSpaces(s), TrailingStart(s);
    if a < e { LowerSlice(s, a, e); }
  }

  lemma {:induction false} LowerLeadingSpaces(s: string)
    ensures LeadingSpaces(Lower(s)) == LeadingSpaces(s)
    decreases |s|
  {
    if s != [] {
      assert Lower(s)[1..] == Lower(s[1..]) by { LowerSlice(s, 1, |s|); }
      LowerLeadingSpaces(s[1..]);
    }
  }

  lemma {:induction false} LowerTrailingStart(s: string)
    ensures TrailingStart(Lower(s)) == TrailingStart(s)
    decreases |s|
  {
    if s != [] {
      assert Lower(s)[..|s| - 1] == Lower(s[..|s| - 1]) by { LowerSlice(s, 0, |s| - 1); }
      LowerTrailingStart(s[..|s| - 1]);
    }
  }

  /** `str.isdigit()` within ASCII: non-empty and every character a digit. */
  predicate IsDigits(s: string): (b: bool)
    ensures b ==> |s| > 0 && forall i :: 0 <= i < |s| ==> !IsSpace(s[i])
    ensures b ==> Lower(s) == s
  {
    |s| > 0 && forall i :: 0 <= i < |s| ==> '0' <= s[i] <= '9'
  }

  /** `str.startswith(prefix)`. */
  predicate StartsWith(s: string, prefix: string): (b: bool)
    ensures b <==> OccursAt(s, prefix, 0)
  {
    |prefix| <= |s| && s[..|prefix|] == prefix
  }

  /** `sub` occurs in `s` beginning at index `i`. */
  predicate OccursAt(s: string, sub: string, i: int) {
    0 <= i && i + |sub| <= |s| && s[i..i + |sub|] == sub
  }

  /** The scan behind `str.find`, starting at `from`. */
  function FindFrom(s: string, sub: string, from: nat): (r: int)
    ensures r == -1 || (from <= r && OccursAt(s, sub, r))
    ensures forall j :: from <= j && (r == -1 || j < r) ==> !OccursAt(s, sub, j)
    decreases |s| - from
  {
    if from + |sub| > |s| then -1
    else if s[from..from + |sub|] == sub then from
    else FindFrom(s, sub, from + 1)
  }

  /** `str.find(sub)`: the lowest index where `sub` occurs in `s`, or -1 when
      it occurs nowhere. The empty string occurs at 0. */
  function Find(s: string, sub: string): (r: int)
    ensures r >= 0 ==> OccursAt(s, sub, r) && forall j :: 0 <= j < r ==> !OccursAt(s, sub, j)
    ensures r == -1 <==> forall j :: !OccursAt(s, sub, j)
    ensures r >= -1
  {
    FindFrom(s, sub, 0)
  }

  /** `sub in s`, and equally `re.search(sub, s)` for a pattern without
      regular-expression metacharacters. */
  predicate Contains(s: string, sub: string): (b: bool)
    ensures b <==> exists i :: OccursAt(s, sub, i)
  {
    Find(s, sub) != -1
  }

  /** Characters that are special in a Python regular expression. */
  predicate IsRegexMeta(c: char) {
    c in {'.', '^', '$', '*', '+', '?', '{', '}', '[', ']', '\\', '|', '(', ')'}
  }

  /** Letters and digits are never regular-expression metacharacters. */
  lemma AlnumNotMeta(s: string)
    requires forall i :: 0 <= i < |s| ==> 'a' <= s[i] <= 'z' || 'A' <= s[i] <= 'Z' || '0' <= s[i] <= '9'
    ensures forall i :: 0 <= i < |s| ==> !IsRegexMeta(s[i])
  {
  }

  /** A non-empty string whose first character never appears in `s` is not
      contained in `s`. */
  lemma AbsentCharNotContained(s: string, sub: string)
    requires |sub| > 0 && forall i :: 0 <= i < |s| ==> s[i] != sub[0]
    ensures !Contains(s, sub)
  {
    forall j ensures !OccursAt(s, sub, j) {
      if 0 <= j && j + |sub| <= |s| {
        assert s[j..j + |sub|][0] == s[j];
      }
    }
  }
}
