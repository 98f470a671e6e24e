/** Character classes and small string operations of Python's `str` that the pipeline relies on. */
module Chars {

  /** Python's `str.isspace()`; in a `str` pattern `\s` matches exactly these characters. */
  predicate IsSpace(c: char) {
    var n := c as int;
    n == 0x20 || 0x09 <= n <= 0x0d || 0x1c <= n <= 0x1f || n == 0x85 || n == 0xa0 || n == 0x1680
    || 0x2000 <= n <= 0x200a || n == 0x2028 || n == 0x2029 || n == 0x202f || n == 0x205f || n == 0x3000
  }

  predicate IsAscii(c: char) {
    c as int < 0x80
  }

  predicate AllSpace(s: string) {
    forall i :: 0 <= i < |s| ==> IsSpace(s[i])
  }

  /** Length of the longest prefix of `s` whose characters all satisfy `p`. */
  function LeadingRun(s: string, p: char -> bool): (k: nat)
    ensures k <= |s|
    ensures forall i :: 0 <= i < k ==> p(s[i])
    ensures k < |s| ==> !p(s[k])
  {
    if s != [] && p(s[0]) then 1 + LeadingRun(s[1..], p) else 0
  }

  /** The leading run of `a + b` reaches into `b` only when all of `a` satisfies `p`. */
  lemma {:induction false} LeadingRunConcat(a: string, b: string, p: char -> bool)
    ensures LeadingRun(a + b, p) == if LeadingRun(a, p) < |a| then LeadingRun(a, p) else |a| + LeadingRun(b, p)
    decreases |a|
  {
    if a == [] {
      assert a + b == b;
    } else if p(a[0]) {
      assert (a + b)[1..] == a[1..] + b;
      LeadingRunConcat(a[1..], b, p);
    }
  }

  /** When every character satisfies `p`, the leading run is the whole text. */
  lemma LeadingRunAll(s: string, p: char -> bool)
    requires forall i :: 0 <= i < |s| ==> p(s[i])
    ensures LeadingRun(s, p) == |s|
  {
  }

  /** When the first character fails `p`, the leading run is empty. */
  lemma LeadingRunStops(s: string, p: char -> bool)
    requires s == [] || !p(s[0])
    ensures LeadingRun(s, p) == 0
  {
  }

  /** A run over all of `a` that stops where `b` begins has the length of `a`. */
  lemma LeadingRunExact(a: string, b: string, p: char -> bool)
    requires forall i :: 0 <= i < |a| ==> p(a[i])
    requires b == [] || !p(b[0])
    ensures LeadingRun(a + b, p) == |a|
  {
    LeadingRunAll(a, p);
    LeadingRunStops(b, p);
    LeadingRunConcat(a, b, p);
  }

  /** Length of the longest suffix of `s` whose characters all satisfy `p`. */
  function TrailingRun(s: string, p: char -> bool): (k: nat)
    ensures k <= |s|
    ensures forall i :: |s| - k <= i < |s| ==> p(s[i])
    ensures k < |s| ==> !p(s[|s| - 1 - k])
  {
    if s != [] && p(s[|s| - 1]) then 1 + TrailingRun(s[..|s| - 1], p) else 0
  }

  /** `s.strip()`: `s` without its leading and trailing whitespace. */
  function Trim(s: string): (r: string)
    ensures |r| <= |s|
    ensures r == [] || (!IsSpace(r[0]) && !IsSpace(r[|r| - 1]))
  {
    var t := s[LeadingRun(s, IsSpace)..];
    t[..|t| - TrailingRun(t, IsSpace)]
  }

  /** Trimming keeps one contiguous piece of `s` and drops only whitespace around it. */
  lemma TrimDropsOnlyOuterSpace(s: string)
    ensures exists i :: 0 <= i <= |s| - |Trim(s)| && s[i..i + |Trim(s)|] == Trim(s)
                        && AllSpace(s[..i]) && AllSpace(s[i + |Trim(s)|..])
  {
    var k := LeadingRun(s, IsSpace);
    var t := s[k..];
    var n := TrailingRun(t, IsSpace);
    var r := Trim(s);
    assert r == t[..|t| - n];
    assert s[k..k + |r|] == r;
    assert AllSpace(s[..k]);
    assert AllSpace(s[k + |r|..]) by {
      assert s[k + |r|..] == t[|t| - n..];
    }
  }

  /** Trimming a second time changes nothing. */
  lemma TrimIdempotent(s: string)
    ensures Trim(Trim(s)) == Trim(s)
  {
    var r := Trim(s);
    assert LeadingRun(r, IsSpace) == 0;
    assert r[0..] == r;
    assert TrailingRun(r, IsSpace) == 0;
  }

  /** ASCII case folding of one character. */
  function LowerChar(c: char): char {
    if 'A' <= c <= 'Z' then (c as int + 32) as char else c
  }

  /** `s.lower()` on the ASCII letters, which is all the substring tests of the pipeline can observe. */
  function Lower(s: string): (r: string)
    ensures |r| == |s|
  {
    seq(|s|, i requires 0 <= i < |s| => LowerChar(s[i]))
  }

  /**
   * Lower-casing leaves no capital ASCII letter, turns each capital into its small letter and keeps
   * every other character.
   */
  lemma LowerFoldsOnlyCapitals(s: string)
    ensures forall i :: 0 <= i < |s| ==> !('A' <= Lower(s)[i] <= 'Z')
    ensures forall i :: 0 <= i < |s| ==>
              if 'A' <= s[i] <= 'Z' then Lower(s)[i] as int == s[i] as int + 32 else Lower(s)[i] == s[i]
  {
  }

  /** `needle` occurs in `hay` starting at position `i`. */
  ghost predicate OccursAt(needle: string, hay: string, i: int) {
    0 <= i <= |hay| - |needle| && hay[i..i + |needle|] == needle
  }

  /** Python's `needle in hay` for strings, stated as a search for a window. */
  ghost predicate OccursIn(needle: string, hay: string) {
    exists i :: OccursAt(needle, hay, i)
  }

  /** A left-to-right search for `needle` in `hay`. */
  function Contains(hay: string, needle: string): bool
    decreases |hay|
  {
    if |hay| < |needle| then false
    else if hay[..|needle|] == needle then true
    else Contains(hay[1..], needle)
  }

  /** The search answers yes exactly when some window of `hay` equals `needle`. */
  lemma ContainsIsOccurrence(hay: string, needle: string)
    ensures Contains(hay, needle) <==> OccursIn(needle, hay)
  {
    if Contains(hay, needle) {
      var i := ContainsWitness(hay, needle);
    }
    if OccursIn(needle, hay) {
      var i :| OccursAt(needle, hay, i);
      WindowIsFound(hay, needle, i);
    }
  }

  /** A search that answers yes has found a window equal to `needle`. */
  lemma {:induction false} ContainsWitness(hay: string, needle: string) returns (i: nat)
    requires Contains(hay, needle)
    ensures OccursAt(needle, hay, i)
    decreases |hay|
  {
    if hay[..|needle|] == needle {
      i := 0;
    } else {
      var j := ContainsWitness(hay[1..], needle);
      i := j + 1;
      assert hay[1..][j..j + |needle|] == hay[i..i + |needle|];
    }
  }

  /** A window equal to `needle` makes the search answer yes. */
  lemma {:induction false} WindowIsFound(hay: string, needle: string, i: nat)
    requires OccursAt(needle, hay, i)
    ensures Contains(hay, needle)
    decreases i
  {
    if hay[..|needle|] != needle {
      assert i != 0;
      assert hay[1..][i - 1..i - 1 + |needle|] == hay[i..i + |needle|];
      WindowIsFound(hay[1..], needle, i - 1);
    }
  }

  /** `s.endswith(suffix)`. */
  predicate EndsWith(s: string, suffix: string) {
    |suffix| <= |s| && s[|s| - |suffix|..] == suffix
  }

  /** `s[:n]`: the first `n` characters, or all of `s` when it is shorter. */
  function Take(s: string, n: nat): (r: string)
    ensures |r| <= n && |r| <= |s|
    ensures r == s[..|r|]
    ensures |s| <= n ==> r == s
    ensures n <= |s| ==> |r| == n
  {
    if |s| <= n then s else s[..n]
  }
}
