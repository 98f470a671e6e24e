/**
 * The DOI candidate extractor of `extract_doi_from_pdf` (doi_pipeline.py, lines 36-43): a hand-written
 * scanner for the matches `findall` reports for `10\.\d{4,9}/[^\s"<>]+`, the choice of the longest
 * match (the first one among equals, as Python's `max` keeps), and the strip of trailing `.,;:`.
 */
module DoiPattern {
  import opened Wrappers
  import opened Chars

  /** `\d` on the ASCII text the scanner sees. */
  predicate IsDigit(c: char) {
    '0' <= c <= '9'
  }

  /** `[^\s"<>]`: a character allowed in the suffix of a DOI. */
  predicate IsSuffixChar(c: char) {
    !IsSpace(c) && c != '"' && c != '<' && c != '>'
  }

  /** `m` is `10.`, then `d` digits with 4 <= d <= 9, then `/`, then at least one suffix character. */
  ghost predicate ShapedWith(m: string, d: nat) {
    && 4 <= d <= 9
    && |m| > d + 4
    && m[..3] == "10."
    && (forall k :: 3 <= k < 3 + d ==> IsDigit(m[k]))
    && m[3 + d] == '/'
    && (forall k :: 4 + d <= k < |m| ==> IsSuffixChar(m[k]))
  }

  /** `m` as a whole matches the DOI pattern. */
  ghost predicate LooksLikeDoi(m: string) {
    exists d :: ShapedWith(m, d)
  }

  /**
   * Where the match of the pattern that starts at position `i` ends, if one starts there. The digit
   * run must be 4 to 9 long and followed by `/`; the suffix is taken greedily.
   */
  function MatchEnd(s: string, i: nat): (e: Option<nat>)
    requires i <= |s|
    ensures e.Some? ==> i < e.value <= |s|
  {
    if i + 3 <= |s| && s[i..i + 3] == "10." then
      var d := LeadingRun(s[i + 3..], IsDigit);
      var slash := i + 3 + d;
      if 4 <= d <= 9 && slash < |s| && s[slash] == '/' then
        var t := LeadingRun(s[slash + 1..], IsSuffixChar);
        if t > 0 then Some(slash + 1 + t) else None
      else None
    else None
  }

  /** The spans `(start, end)` of the non-overlapping matches found scanning left to right from `p`. */
  function Spans(s: string, p: nat): (r: seq<(nat, nat)>)
    requires p <= |s|
    ensures forall k :: 0 <= k < |r| ==> p <= r[k].0 < r[k].1 <= |s| && MatchEnd(s, r[k].0) == Some(r[k].1)
    ensures forall k :: 0 <= k < |r| - 1 ==> r[k].1 <= r[k + 1].0
    decreases |s| - p
  {
    if p == |s| then []
    else
      match MatchEnd(s, p)
      case Some(e) => [(p, e)] + Spans(s, e)
      case None => Spans(s, p + 1)
  }

  /** Where no match starts, the scan moves on by one character. */
  lemma SpansSkip(s: string, p: nat)
    requires p < |s| && MatchEnd(s, p).None?
    ensures Spans(s, p) == Spans(s, p + 1)
  {
  }

  /** Where a match starts, the scan reports it and resumes at its end. */
  lemma SpansTake(s: string, p: nat, e: nat)
    requires p < |s| && MatchEnd(s, p) == Some(e)
    ensures Spans(s, p) == [(p, e)] + Spans(s, e)
  {
  }

  /** `doi_pattern.findall(text)`: the matched strings, left to right. */
  function Matches(s: string): (ms: seq<string>)
    ensures |ms| == |Spans(s, 0)|
    ensures forall k :: 0 <= k < |ms| ==> ms[k] == s[Spans(s, 0)[k].0..Spans(s, 0)[k].1]
  {
    var sp := Spans(s, 0);
    seq(|sp|, k requires 0 <= k < |sp| => s[sp[k].0..sp[k].1])
  }

  /** `max(matches, key=len)`: the index of the first match of greatest length. */
  function LongestIndex(ms: seq<string>): (k: nat)
    requires |ms| > 0
    ensures k < |ms|
    ensures forall j :: 0 <= j < |ms| ==> |ms[j]| <= |ms[k]|
    ensures forall j :: 0 <= j < k ==> |ms[j]| < |ms[k]|
  {
    if |ms| == 1 then 0
    else
      var k := LongestIndex(ms[..|ms| - 1]);
      if |ms[|ms| - 1]| > |ms[k]| then |ms| - 1 else k
  }

  predicate IsTrailingPunct(c: char) {
    c == '.' || c == ',' || c == ';' || c == ':'
  }

  /** `doi.rstrip('.,;:')`. */
  function StripTrailingPunct(s: string): (r: string)
    ensures |r| <= |s| && r == s[..|r|]
    ensures forall i :: |r| <= i < |s| ==> IsTrailingPunct(s[i])
    ensures r == [] || !IsTrailingPunct(r[|r| - 1])
  {
    if s != [] && IsTrailingPunct(s[|s| - 1]) then StripTrailingPunct(s[..|s| - 1]) else s
  }

  /** The DOI candidate of a normalised page text: the stripped longest match, if there is a match. */
  function Candidate(text: string): Option<string> {
    var ms := Matches(text);
    if |ms| == 0 then None else Some(StripTrailingPunct(ms[LongestIndex(ms)]))
  }

  // ----- the scanner against the pattern -----

  /** A match the scanner reports is a maximal piece of text of the DOI shape. */
  lemma MatchEndSound(s: string, i: nat)
    requires i <= |s| && MatchEnd(s, i).Some?
    ensures LooksLikeDoi(s[i..MatchEnd(s, i).value])
    ensures MatchEnd(s, i).value == |s| || !IsSuffixChar(s[MatchEnd(s, i).value])
  {
    var e := MatchEnd(s, i).value;
    var d := LeadingRun(s[i + 3..], IsDigit);
    var m := s[i..e];
    assert m[..3] == s[i..i + 3];
    forall k | 3 <= k < 3 + d ensures IsDigit(m[k]) {
      assert m[k] == s[i + 3..][k - 3];
    }
    forall k | 4 + d <= k < |m| ensures IsSuffixChar(m[k]) {
      assert m[k] == s[i + 4 + d..][k - 4 - d];
    }
    assert ShapedWith(m, d);
  }

  /** Every maximal piece of text of the DOI shape that starts at `i` is what the scanner reports there. */
  lemma MatchEndComplete(s: string, i: nat, e: nat, d: nat)
    requires i < e <= |s| && ShapedWith(s[i..e], d)
    requires e == |s| || !IsSuffixChar(s[e])
    ensures MatchEnd(s, i) == Some(e)
  {
    var m := s[i..e];
    assert s[i..i + 3] == m[..3];
    var tail := s[i + 3..];
    forall k | 0 <= k < d ensures IsDigit(tail[k]) {
      assert tail[k] == m[k + 3];
    }
    assert tail[d] == m[3 + d];
    DigitRunIs(tail, d);
    var slash := i + 3 + d;
    assert s[slash] == m[3 + d];
    var rest := s[slash + 1..];
    forall k | 0 <= k < e - (slash + 1) ensures IsSuffixChar(rest[k]) {
      assert rest[k] == m[k + 4 + d];
    }
    RunReaches(rest, e - (slash + 1));
    MatchEndFrom(s, i, d, e);
  }

  /** `MatchEnd` assembled from its pieces: the prefix, the digit run, the slash and the suffix run. */
  lemma MatchEndFrom(s: string, i: nat, d: nat, e: nat)
    requires i + 3 <= |s| && s[i..i + 3] == "10." && LeadingRun(s[i + 3..], IsDigit) == d && 4 <= d <= 9
    requires i + 3 + d < |s| && s[i + 3 + d] == '/'
    requires i + 3 + d + 1 < e && LeadingRun(s[i + 3 + d + 1..], IsSuffixChar) == e - (i + 3 + d + 1)
    ensures MatchEnd(s, i) == Some(e)
  {
  }

  lemma {:induction false} DigitRunIs(s: string, d: nat)
    requires d < |s| && (forall k :: 0 <= k < d ==> IsDigit(s[k])) && !IsDigit(s[d])
    ensures LeadingRun(s, IsDigit) == d
    decreases d
  {
    if d > 0 {
      DigitRunIs(s[1..], d - 1);
    }
  }

  lemma {:induction false} RunReaches(s: string, t: nat)
    requires t <= |s| && (forall k :: 0 <= k < t ==> IsSuffixChar(s[k])) && (t == |s| || !IsSuffixChar(s[t]))
    ensures LeadingRun(s, IsSuffixChar) == t
    decreases t
  {
    if t > 0 {
      RunReaches(s[1..], t - 1);
    }
  }

  /** The scan is leftmost: every position at which a match could start lies inside a reported span. */
  lemma {:induction false} SpansCoverEveryMatchStart(s: string, p: nat, i: nat)
    requires p <= i < |s| && MatchEnd(s, i).Some?
    ensures exists k :: 0 <= k < |Spans(s, p)| && Spans(s, p)[k].0 <= i < Spans(s, p)[k].1
    decreases |s| - p, 1
  {
    match MatchEnd(s, p)
    case Some(e) =>
      SpansCoverAfterMatch(s, p, e, i);
    case None =>
      assert i != p;
      assert Spans(s, p) == Spans(s, p + 1);
      SpansCoverEveryMatchStart(s, p + 1, i);
  }

  lemma {:induction false} SpansCoverAfterMatch(s: string, p: nat, e: nat, i: nat)
    requires p <= i < |s| && MatchEnd(s, i).Some? && MatchEnd(s, p) == Some(e)
    ensures exists k :: 0 <= k < |Spans(s, p)| && Spans(s, p)[k].0 <= i < Spans(s, p)[k].1
    decreases |s| - p, 0
  {
    var rest := Spans(s, e);
    assert Spans(s, p) == [(p, e)] + rest;
    if i < e {
      assert Spans(s, p)[0] == (p, e);
    } else {
      SpansCoverEveryMatchStart(s, e, i);
      CoveredBehindFirst((p, e), rest, i);
    }
  }

  lemma CoveredBehindFirst(first: (nat, nat), rest: seq<(nat, nat)>, i: nat)
    requires exists k :: 0 <= k < |rest| && rest[k].0 <= i < rest[k].1
    ensures exists k :: 0 <= k < |[first] + rest| && ([first] + rest)[k].0 <= i < ([first] + rest)[k].1
  {
    var k :| 0 <= k < |rest| && rest[k].0 <= i < rest[k].1;
    assert ([first] + rest)[k + 1] == rest[k];
  }

  /** A piece of DOI shape starting at `i`, maximal or not, means a match starts at `i`. */
  lemma ShapedStartsMatch(s: string, i: nat, e: nat, d: nat)
    requires i < e <= |s| && ShapedWith(s[i..e], d)
    ensures MatchEnd(s, i).Some?
  {
    var m := s[i..e];
    assert s[i..i + 3] == m[..3];
    var tail := s[i + 3..];
    forall k | 0 <= k < d ensures IsDigit(tail[k]) {
      assert tail[k] == m[k + 3];
    }
    assert tail[d] == m[3 + d];
    DigitRunIs(tail, d);
    assert s[i + 4 + d..][0] == m[4 + d];
  }

  /**
   * `findall` in full: the matches are maximal pieces of DOI shape, in order, without overlap, and
   * every piece of DOI shape anywhere in the text starts inside one of them.
   */
  lemma MatchesAreTheLeftmostDois(s: string)
    ensures forall k :: 0 <= k < |Matches(s)| ==> LooksLikeDoi(Matches(s)[k])
    ensures forall k :: 0 <= k < |Spans(s, 0)| ==>
              Spans(s, 0)[k].1 == |s| || !IsSuffixChar(s[Spans(s, 0)[k].1])
    ensures forall k :: 0 <= k < |Spans(s, 0)| - 1 ==> Spans(s, 0)[k].1 <= Spans(s, 0)[k + 1].0
    ensures forall i, e :: 0 <= i < e <= |s| && LooksLikeDoi(s[i..e]) ==>
              exists k :: 0 <= k < |Spans(s, 0)| && Spans(s, 0)[k].0 <= i < Spans(s, 0)[k].1
  {
    var sp := Spans(s, 0);
    forall k | 0 <= k < |sp|
      ensures LooksLikeDoi(Matches(s)[k])
      ensures sp[k].1 == |s| || !IsSuffixChar(s[sp[k].1])
    {
      MatchEndSound(s, sp[k].0);
    }
    forall i, e | 0 <= i < e <= |s| && LooksLikeDoi(s[i..e])
      ensures exists k :: 0 <= k < |sp| && sp[k].0 <= i < sp[k].1
    {
      var d: nat :| ShapedWith(s[i..e], d);
      ShapedStartsMatch(s, i, e, d);
      SpansCoverEveryMatchStart(s, 0, i);
    }
  }

  // ----- selection and strip -----

  /** A second strip changes nothing. */
  lemma StripTrailingPunctIdempotent(s: string)
    ensures StripTrailingPunct(StripTrailingPunct(s)) == StripTrailingPunct(s)
  {
  }

  /** `m` begins with `10.`, 4 to 9 digits and `/`. */
  ghost predicate HasDoiPrefix(m: string) {
    exists d :: PrefixWith(m, d)
  }

  ghost predicate PrefixWith(m: string, d: nat) {
    4 <= d <= 9 && |m| >= d + 4 && m[..3] == "10." && m[3 + d] == '/'
    && (forall k :: 3 <= k < 3 + d ==> IsDigit(m[k]))
  }

  /**
   * The candidate is the stripped form of a longest match, the first among matches of that length;
   * stripping never reaches into the `10.<digits>/` prefix. There is a candidate exactly when there is a match.
   */
  lemma CandidateIsLongestMatch(text: string)
    ensures Candidate(text).None? <==> |Matches(text)| == 0
    ensures Candidate(text).Some? ==>
              exists k :: 0 <= k < |Matches(text)|
                && Candidate(text).value == StripTrailingPunct(Matches(text)[k])
                && (forall j :: 0 <= j < |Matches(text)| ==> |Matches(text)[j]| <= |Matches(text)[k]|)
                && (forall j :: 0 <= j < k ==> |Matches(text)[j]| < |Matches(text)[k]|)
    ensures Candidate(text).Some? ==> HasDoiPrefix(Candidate(text).value)
  {
    var ms := Matches(text);
    if |ms| > 0 {
      var k := LongestIndex(ms);
      MatchEndSound(text, Spans(text, 0)[k].0);
      StripKeepsDoiPrefix(ms[k]);
    }
  }

  /** Stripping `.,;:` from a match never reaches into its `10.<digits>/` prefix. */
  lemma StripKeepsDoiPrefix(m: string)
    requires LooksLikeDoi(m)
    ensures HasDoiPrefix(StripTrailingPunct(m))
  {
    var d: nat :| ShapedWith(m, d);
    var c := StripTrailingPunct(m);
    assert !IsTrailingPunct(m[3 + d]);
    assert |c| > 3 + d;
    assert c[..3] == m[..3];
    assert PrefixWith(c, d);
  }

  // ----- worked examples -----

  /** Trailing punctuation after a DOI is not part of the candidate. */
  lemma TrailingDotIsStripped()
    ensures Candidate("10.1234/xyz.") == Some("10.1234/xyz")
  {
    var s := "10.1234/xyz.";
    DottedDoiShape();
    assert s[0..12] == s;
    MatchEndComplete(s, 0, 12, 4);
    SpansTake(s, 0, 12);
    assert Spans(s, 12) == [];
    assert Matches(s) == [s];
    DottedDoiStrip();
  }

  lemma DottedDoiShape()
    ensures ShapedWith("10.1234/xyz.", 4)
  {
  }

  lemma DottedDoiStrip()
    ensures StripTrailingPunct("10.1234/xyz.") == "10.1234/xyz"
  {
    assert "10.1234/xyz."[..11] == "10.1234/xyz";
  }
}
