/** The ASCII subset of Python's `str.strip()`, `str.lower()` and the substring test `t in s`. */
module AsciiText {

  /** Python's `str.isspace()` on ASCII: tab, line feed, vertical tab, form feed,
      carriage return (9..13), the four separators 28..31, and the space (32). */
  predicate IsSpace(c: char) {
    (9 <= c as int <= 13) || (28 <= c as int <= 32)
  }

  predicate IsUpper(c: char) {
    'A' <= c <= 'Z'
  }

  /** `c.lower()` for an ASCII character: upper-case letters map to lower case, all else is kept. */
  function LowerChar(c: char): (d: char)
    ensures IsUpper(c) ==> d as int == c as int + 32
    ensures !IsUpper(c) ==> d == c
    ensures !IsUpper(d)
  {
    if IsUpper(c) then (c as int + 32) as char else c
  }

  /** `s.lower()`, character by character. */
  function Lower(s: string): (r: string)
    ensures |r| == |s|
    ensures forall i :: 0 <= i < |s| ==> r[i] == LowerChar(s[i])
  {
    if s == [] then [] else [LowerChar(s[0])] + Lower(s[1..])
  }

  /** Lower-casing never turns a space into a non-space or back. */
  lemma LowerCharKeepsSpace(c: char)
    ensures IsSpace(LowerChar(c)) == IsSpace(c)
  {
  }

  /** Lower-casing commutes with slicing. */
  lemma LowerSlice(s: string, a: nat, b: nat)
    requires a <= b <= |s|
    ensures Lower(s)[a..b] == Lower(s[a..b])
  {
  }

  /** Lower-casing a concatenation lower-cases each part. */
  lemma LowerAppend(a: string, b: string)
    ensures Lower(a + b) == Lower(a) + Lower(b)
  {
  }

  /** Number of whitespace characters at the start of `s`. */
  function LeadingSpace(s: string): (n: nat)
    ensures n <= |s|
    ensures forall k :: 0 <= k < n ==> IsSpace(s[k])
    ensures n < |s| ==> !IsSpace(s[n])
  {
    if s != [] && IsSpace(s[0]) then 1 + LeadingSpace(s[1..]) else 0
  }

  /** Number of whitespace characters at the end of `s`. */
  function TrailingSpace(s: string): (n: nat)
    ensures n <= |s|
    ensures forall k :: |s| - n <= k < |s| ==> IsSpace(s[k])
    ensures n < |s| ==> !IsSpace(s[|s| - 1 - n])
  {
    if s != [] && IsSpace(s[|s| - 1]) then 1 + TrailingSpace(s[..|s| - 1]) else 0
  }

  /** `s.strip()`: `s` is made of leading whitespace, then the result, then trailing
      whitespace, and the result neither starts nor ends with whitespace. */
  function Strip(s: string): (r: string)
    ensures LeadingSpace(s) + |r| <= |s|
    ensures r == s[LeadingSpace(s)..LeadingSpace(s) + |r|]
    ensures forall k :: LeadingSpace(s) + |r| <= k < |s| ==> IsSpace(s[k])
    ensures r != [] ==> !IsSpace(r[0]) && !IsSpace(r[|r| - 1])
  {
    var a := LeadingSpace(s);
    var t := s[a..];
    t[..|t| - TrailingSpace(t)]
  }

  /** Two strings whose characters are whitespace at the same positions strip at the same positions. */
  lemma LeadingSpaceSamePattern(s: string, u: string)
    requires |s| == |u|
    requires forall k :: 0 <= k < |s| ==> IsSpace(s[k]) == IsSpace(u[k])
    ensures LeadingSpace(s) == LeadingSpace(u)
  {
  }

  /** Stripping and lower-casing may be done in either order: `s.strip().lower() == s.lower().strip()`. */
  lemma StripLowerCommute(s: string)
    ensures Lower(Strip(s)) == Strip(Lower(s))
  {
    var l := Lower(s);
    forall k | 0 <= k < |s| ensures IsSpace(s[k]) == IsSpace(l[k]) {
      LowerCharKeepsSpace(s[k]);
    }
    LeadingSpaceSamePattern(s, l);
    var a := LeadingSpace(s);
    var r, q := Strip(s), Strip(l);
    LowerSlice(s, a, a + |r|);
  }

  /** `t` occurs in `s` as a contiguous substring (Python's `t in s`). */
  ghost predicate OccursIn(t: string, s: string) {
    exists i :: OccursAt(t, s, i)
  }

  /** `t` occurs in `s` starting at position `i`. */
  ghost predicate OccursAt(t: string, s: string, i: int) {
    0 <= i && i + |t| <= |s| && s[i..i + |t|] == t
  }

  /** `s.startswith(t)`. */
  predicate StartsWith(s: string, t: string) {
    |t| <= |s| && s[..|t|] == t
  }

  /** The substring search, trying every starting position from the left. */
  function Contains(s: string, t: string): (b: bool)
    ensures b <==> OccursIn(t, s)
  {
    if StartsWith(s, t) then
      assert OccursAt(t, s, 0);
      true
    else if s == [] then
      false
    else
      OccursInTail(t, s);
      Contains(s[1..], t)
  }

  /** When `t` does not start `s`, it occurs in `s` exactly when it occurs in `s` without its first character. */
  lemma OccursInTail(t: string, s: string)
    requires s != [] && !StartsWith(s, t)
    ensures OccursIn(t, s) <==> OccursIn(t, s[1..])
  {
    if i :| OccursAt(t, s[1..], i) {
      assert s[i + 1..i + 1 + |t|] == s[1..][i..i + |t|];
      assert OccursAt(t, s, i + 1);
    }
    if j :| OccursAt(t, s, j) {
      assert s[1..][j - 1..j - 1 + |t|] == s[j..j + |t|];
      assert OccursAt(t, s[1..], j - 1);
    }
  }

  /** A substring of `s` whose first and last characters are not whitespace
      occurs in `s.strip()` exactly when it occurs in `s`. */
  lemma StripKeepsOccurrence(t: string, s: string)
    requires t != [] && !IsSpace(t[0]) && !IsSpace(t[|t| - 1])
    ensures OccursIn(t, Strip(s)) <==> OccursIn(t, s)
  {
    var a, r := LeadingSpace(s), Strip(s);
    if i :| OccursAt(t, r, i) {
      assert s[a + i..a + i + |t|] == r[i..i + |t|];
      assert OccursAt(t, s, a + i);
    }
    if i :| OccursAt(t, s, i) {
      OccurrenceInsideStrip(t, s, i);
    }
  }

  /** An occurrence at `i` of a string with non-whitespace ends lies inside the stripped part. */
  lemma OccurrenceInsideStrip(t: string, s: string, i: int)
    requires t != [] && !IsSpace(t[0]) && !IsSpace(t[|t| - 1])
    requires OccursAt(t, s, i)
    ensures OccursAt(t, Strip(s), i - LeadingSpace(s))
  {
    var a, r := LeadingSpace(s), Strip(s);
    assert s[i] == t[0];
    assert s[i + |t| - 1] == t[|t| - 1];
    assert a <= i;
    assert i + |t| <= a + |r|;
    assert r[i - a..i - a + |t|] == s[i..i + |t|];
  }

  /** An occurrence in `s` is an occurrence in any string that contains `s`. */
  lemma OccursInContext(t: string, pre: string, s: string, post: string)
    requires OccursIn(t, s)
    ensures OccursIn(t, pre + s + post)
  {
    var i :| OccursAt(t, s, i);
    assert (pre + s + post)[|pre| + i..|pre| + i + |t|] == s[i..i + |t|];
    assert OccursAt(t, pre + s + post, |pre| + i);
  }
}
