/**
 * The page-text normaliser of `extract_doi_from_pdf` (doi_pipeline.py, lines 31-35 and again 56-60):
 * after Unicode decomposition, drop non-ASCII characters, turn newlines into spaces,
 * collapse whitespace runs to one space and rejoin `word- word` line-break hyphenation.
 */
module Normalizer {
  import opened Wrappers
  import opened Chars

  /** `\w` on the ASCII text that reaches the hyphenation step. */
  predicate IsWordChar(c: char) {
    'a' <= c <= 'z' || 'A' <= c <= 'Z' || '0' <= c <= '9' || c == '_'
  }

  predicate IsSpaceOrHyphen(c: char) {
    IsSpace(c) || c == '-'
  }

  /** No two whitespace characters stand next to each other. */
  predicate NoAdjacentSpaces(s: string) {
    forall i, j :: 0 <= i < |s| && 0 <= j < |s| && j == i + 1 ==> !(IsSpace(s[i]) && IsSpace(s[j]))
  }

  /** The characters of `s` that do not satisfy `p`, in order. */
  function Without(s: string, p: char -> bool): string {
    if s == [] then [] else (if p(s[0]) then [] else [s[0]]) + Without(s[1..], p)
  }

  /** `text.encode('ascii', 'ignore').decode('ascii')`. */
  function DropNonAscii(s: string): (r: string)
    ensures |r| <= |s|
    ensures forall i :: 0 <= i < |r| ==> IsAscii(r[i]) && r[i] in s
  {
    if s == [] then [] else (if IsAscii(s[0]) then [s[0]] else []) + DropNonAscii(s[1..])
  }

  /** `text.replace('\n', ' ')`. */
  function NewlinesToSpaces(s: string): (r: string)
    ensures |r| == |s| && '\n' !in r
    ensures forall i :: 0 <= i < |s| && s[i] != '\n' ==> r[i] == s[i]
  {
    seq(|s|, i requires 0 <= i < |s| => if s[i] == '\n' then ' ' else s[i])
  }

  /** `re.sub(r'\s+', ' ', text)`: every maximal whitespace run becomes one space. */
  function CollapseSpaces(s: string): (r: string)
    ensures |r| <= |s|
    ensures NoAdjacentSpaces(r)
    ensures forall i :: 0 <= i < |r| ==> r[i] in s || r[i] == ' '
    ensures forall i :: 0 <= i < |r| && IsSpace(r[i]) ==> r[i] == ' '
    ensures s != [] ==> r != [] && (IsSpace(r[0]) <==> IsSpace(s[0]))
    decreases |s|
  {
    if s == [] then []
    else if IsSpace(s[0]) then
      var rest := CollapseSpaces(s[LeadingRun(s, IsSpace)..]);
      NoAdjacentConcat([' '], rest);
      [' '] + rest
    else
      var rest := CollapseSpaces(s[1..]);
      NoAdjacentConcat([s[0]], rest);
      [s[0]] + rest
  }

  /**
   * When `s[..j]` is a maximal run of word characters, the second word of a match of
   * `(\w+)-\s+(\w+)` that starts at position 0, as the span `(m, n)`; otherwise no match starts there.
   */
  function SecondWord(s: string, j: nat): (w: Option<(nat, nat)>)
    requires 0 < j <= |s|
    ensures w.Some? ==> j + 1 < w.value.0 < w.value.1 <= |s|
  {
    if j < |s| && s[j] == '-' then
      var m := j + 1 + LeadingRun(s[j + 1..], IsSpace);
      var n := m + LeadingRun(s[m..], IsWordChar);
      if m > j + 1 && n > m then Some((m, n)) else None
    else None
  }

  /**
   * `re.sub(r'(\w+)-\s+(\w+)', r'\1\2', text)`: a left-to-right, non-overlapping pass that
   * deletes the hyphen and the whitespace of each `word- word` break.
   */
  function Dehyphenate(s: string): (r: string)
    ensures |r| <= |s|
    ensures s != [] ==> r != [] && r[0] == s[0]
    decreases |s|
  {
    if s == [] then []
    else
      var j := LeadingRun(s, IsWordChar);
      if j == 0 then [s[0]] + Dehyphenate(s[1..])
      else match SecondWord(s, j)
        case Some((m, n)) => s[..j] + s[m..n] + Dehyphenate(s[n..])
        case None => s[..j] + Dehyphenate(s[j..])
  }

  /** The whole normaliser, applied to a page text after its Unicode decomposition. */
  function Normalize(s: string): (r: string)
    ensures |r| <= |s|
    ensures forall i :: 0 <= i < |r| ==> IsAscii(r[i]) && r[i] != '\n' && (IsSpace(r[i]) ==> r[i] == ' ')
    ensures NoAdjacentSpaces(r)
  {
    var collapsed := CollapseSpaces(NewlinesToSpaces(DropNonAscii(s)));
    DehyphenateKeepsCharacters(collapsed);
    DehyphenateKeepsSpacing(collapsed);
    Dehyphenate(collapsed)
  }

  // ----- proofs -----

  lemma NoAdjacentConcat(a: string, b: string)
    requires NoAdjacentSpaces(a) && NoAdjacentSpaces(b)
    requires a == [] || b == [] || !IsSpace(a[|a| - 1]) || !IsSpace(b[0])
    ensures NoAdjacentSpaces(a + b)
  {
    var s := a + b;
    forall i | 0 <= i < |s| - 1
      ensures !(IsSpace(s[i]) && IsSpace(s[i + 1]))
    {
      if i + 1 < |a| {
        assert s[i] == a[i] && s[i + 1] == a[i + 1];
      } else if i >= |a| {
        assert s[i] == b[i - |a|] && s[i + 1] == b[i - |a| + 1];
      } else {
        assert s[i] == a[|a| - 1] && s[i + 1] == b[0];
      }
    }
  }

  lemma NoAdjacentSuffix(s: string, k: nat)
    requires k <= |s| && NoAdjacentSpaces(s)
    ensures NoAdjacentSpaces(s[k..])
  {
    var t := s[k..];
    forall i | 0 <= i < |t| - 1
      ensures !(IsSpace(t[i]) && IsSpace(t[i + 1]))
    {
      assert t[i] == s[k + i] && t[i + 1] == s[k + i + 1];
    }
  }

  lemma NoAdjacentWithoutSpaces(s: string)
    requires forall i :: 0 <= i < |s| ==> !IsSpace(s[i])
    ensures NoAdjacentSpaces(s)
  {
  }

  /** Dehyphenation only deletes characters, so it keeps within the character set of its input. */
  lemma {:induction false} DehyphenateKeepsCharacters(s: string)
    ensures forall i :: 0 <= i < |Dehyphenate(s)| ==> Dehyphenate(s)[i] in s
    decreases |s|
  {
    if s == [] {
      return;
    }
    var r := Dehyphenate(s);
    var j := LeadingRun(s, IsWordChar);
    if j == 0 {
      DehyphenateKeepsCharacters(s[1..]);
    } else {
      match SecondWord(s, j)
      case Some((m, n)) =>
        DehyphenateKeepsCharacters(s[n..]);
        var rest := Dehyphenate(s[n..]);
        assert r == s[..j] + s[m..n] + rest;
        forall c | c in r ensures c in s {
          if c in s[..j] {
          } else if c in s[m..n] {
          } else {
            assert c in rest;
          }
        }
      case None =>
        DehyphenateKeepsCharacters(s[j..]);
    }
  }

  /** Dehyphenation creates no new pair of adjacent whitespace characters. */
  lemma {:induction false} DehyphenateKeepsSpacing(s: string)
    requires NoAdjacentSpaces(s)
    ensures NoAdjacentSpaces(Dehyphenate(s))
    decreases |s|
  {
    if s == [] {
      return;
    }
    var j := LeadingRun(s, IsWordChar);
    if j == 0 {
      NoAdjacentSuffix(s, 1);
      DehyphenateKeepsSpacing(s[1..]);
      var rest := Dehyphenate(s[1..]);
      if rest != [] {
        assert rest[0] == s[1];
      }
      NoAdjacentConcat([s[0]], rest);
    } else {
      match SecondWord(s, j)
      case Some((m, n)) =>
        NoAdjacentSuffix(s, n);
        DehyphenateKeepsSpacing(s[n..]);
        JoinedWordsHaveNoSpace(s, j, m, n);
        NoAdjacentConcat(s[..j] + s[m..n], Dehyphenate(s[n..]));
      case None =>
        NoAdjacentSuffix(s, j);
        DehyphenateKeepsSpacing(s[j..]);
        NoAdjacentWithoutSpaces(s[..j]);
        NoAdjacentConcat(s[..j], Dehyphenate(s[j..]));
    }
  }

  /** The two words a hyphenation break joins hold no whitespace. */
  lemma JoinedWordsHaveNoSpace(s: string, j: nat, m: nat, n: nat)
    requires 0 < j <= |s| && j == LeadingRun(s, IsWordChar) && SecondWord(s, j) == Some((m, n))
    ensures NoAdjacentSpaces(s[..j] + s[m..n])
    ensures s[..j] + s[m..n] != [] && !IsSpace((s[..j] + s[m..n])[|s[..j] + s[m..n]| - 1])
  {
    var words := s[..j] + s[m..n];
    forall i | 0 <= i < |words| ensures IsWordChar(words[i]) {
      if i < j {
        assert words[i] == s[i];
      } else {
        assert words[i] == s[m..][i - j];
      }
    }
    NoAdjacentWithoutSpaces(words);
  }

  lemma {:induction false} WithoutConcat(a: string, b: string, p: char -> bool)
    ensures Without(a + b, p) == Without(a, p) + Without(b, p)
    decreases |a|
  {
    if a == [] {
      assert a + b == b;
    } else {
      assert (a + b)[1..] == a[1..] + b;
      WithoutConcat(a[1..], b, p);
    }
  }

  lemma {:induction false} WithoutAll(s: string, p: char -> bool)
    requires forall i :: 0 <= i < |s| ==> p(s[i])
    ensures Without(s, p) == []
    decreases |s|
  {
    if s != [] {
      WithoutAll(s[1..], p);
    }
  }

  /** Collapsing whitespace changes only whitespace: the other characters stay, in order. */
  lemma {:induction false} CollapseKeepsContent(s: string)
    ensures Without(CollapseSpaces(s), IsSpace) == Without(s, IsSpace)
    decreases |s|
  {
    if s != [] {
      if IsSpace(s[0]) {
        var k := LeadingRun(s, IsSpace);
        CollapseKeepsContent(s[k..]);
        assert s == s[..k] + s[k..];
        WithoutConcat(s[..k], s[k..], IsSpace);
        WithoutAll(s[..k], IsSpace);
        WithoutConcat([' '], CollapseSpaces(s[k..]), IsSpace);
      } else {
        CollapseKeepsContent(s[1..]);
      }
    }
  }

  /** Dehyphenation deletes only hyphens and whitespace: every other character stays, in order. */
  lemma {:induction false} DehyphenateKeepsContent(s: string)
    ensures Without(Dehyphenate(s), IsSpaceOrHyphen) == Without(s, IsSpaceOrHyphen)
    decreases |s|
  {
    if s == [] {
      return;
    }
    var j := LeadingRun(s, IsWordChar);
    if j == 0 {
      DehyphenateKeepsContent(s[1..]);
    } else {
      match SecondWord(s, j)
      case Some((m, n)) =>
        DehyphenateKeepsContent(s[n..]);
        JoinKeepsContent(s, j, m, n);
      case None =>
        DehyphenateKeepsContent(s[j..]);
        assert s == s[..j] + s[j..];
        WithoutConcat(s[..j], s[j..], IsSpaceOrHyphen);
        WithoutConcat(s[..j], Dehyphenate(s[j..]), IsSpaceOrHyphen);
    }
  }

  /** One rejoined break removes only a hyphen and whitespace. */
  lemma JoinKeepsContent(s: string, j: nat, m: nat, n: nat)
    requires 0 < j <= |s| && j == LeadingRun(s, IsWordChar) && SecondWord(s, j) == Some((m, n))
    requires Without(Dehyphenate(s[n..]), IsSpaceOrHyphen) == Without(s[n..], IsSpaceOrHyphen)
    ensures Without(Dehyphenate(s), IsSpaceOrHyphen) == Without(s, IsSpaceOrHyphen)
  {
    GapIsHyphenAndSpace(s, j, m, n);
    SplitAround(s, j, m, n);
    DehyphenateJoin(s, j, m, n);
    WithoutAll(s[j..m], IsSpaceOrHyphen);
    DropGapKeepsContent(s[..j], s[j..m], s[m..n], s[n..], Dehyphenate(s[n..]), IsSpaceOrHyphen);
  }

  lemma SplitAround(s: string, j: nat, m: nat, n: nat)
    requires j <= m <= n <= |s|
    ensures s == s[..j] + s[j..m] + s[m..n] + s[n..]
  {
  }

  /** Replacing `gap + b + tail` by `b + rest` keeps the content when the gap is hyphens and whitespace. */
  lemma DropGapKeepsContent(a: string, gap: string, b: string, tail: string, rest: string, p: char -> bool)
    requires Without(gap, p) == []
    requires Without(rest, p) == Without(tail, p)
    ensures Without(a + b + rest, p) == Without(a + gap + b + tail, p)
  {
    WithoutConcat4(a, gap, b, tail, p);
    WithoutConcat3(a, b, rest, p);
    assert Without(a, p) + Without(gap, p) == Without(a, p);
  }

  lemma WithoutConcat3(a: string, b: string, c: string, p: char -> bool)
    ensures Without(a + b + c, p) == Without(a, p) + Without(b, p) + Without(c, p)
  {
    WithoutConcat(a + b, c, p);
    WithoutConcat(a, b, p);
  }

  lemma WithoutConcat4(a: string, b: string, c: string, d: string, p: char -> bool)
    ensures Without(a + b + c + d, p) == Without(a, p) + Without(b, p) + Without(c, p) + Without(d, p)
  {
    WithoutConcat(a + b + c, d, p);
    WithoutConcat3(a, b, c, p);
  }

  /** What lies between the two joined words is the hyphen and whitespace. */
  lemma GapIsHyphenAndSpace(s: string, j: nat, m: nat, n: nat)
    requires 0 < j <= |s| && SecondWord(s, j) == Some((m, n))
    ensures forall i :: 0 <= i < |s[j..m]| ==> IsSpaceOrHyphen(s[j..m][i])
  {
    var gap := s[j..m];
    assert m == j + 1 + LeadingRun(s[j + 1..], IsSpace);
    forall i | 0 <= i < |gap| ensures IsSpaceOrHyphen(gap[i]) {
      if i > 0 {
        assert gap[i] == s[j + 1..][i - 1];
      }
    }
  }

  /** The unfolding of `Dehyphenate` at a rejoined break. */
  lemma DehyphenateJoin(s: string, j: nat, m: nat, n: nat)
    requires 0 < j <= |s| && j == LeadingRun(s, IsWordChar) && SecondWord(s, j) == Some((m, n))
    ensures Dehyphenate(s) == s[..j] + s[m..n] + Dehyphenate(s[n..])
  {
  }

  /** A hyphen, a whitespace run of length `g` and a word of length `w` after position `j` form a break. */
  lemma SecondWordAt(s: string, j: nat, g: nat, w: nat)
    requires 0 < j < |s| && s[j] == '-' && 0 < g && 0 < w && j + 1 + g <= |s|
    requires LeadingRun(s[j + 1..], IsSpace) == g && LeadingRun(s[j + 1 + g..], IsWordChar) == w
    ensures SecondWord(s, j).Some? && SecondWord(s, j).value.0 == j + 1 + g && SecondWord(s, j).value.1 == j + 1 + g + w
  {
  }

  /** A break's first word is the leading word of the text. */
  lemma BreakStartsWithWord(w1: string, gap: string, w2: string, t: string)
    requires forall i :: 0 <= i < |w1| ==> IsWordChar(w1[i])
    ensures LeadingRun(w1 + "-" + gap + w2 + t, IsWordChar) == |w1|
  {
    BreakPieces(w1, gap, w2, t);
    LeadingRunExact(w1, "-" + (gap + (w2 + t)), IsWordChar);
  }

  /** After a break's first word come the hyphen, the whitespace run and the second word. */
  lemma BreakSecondWord(s: string, j: nat, gap: string, w2: string, t: string)
    requires 0 < j < |s| && s[j] == '-' && s[j + 1..] == gap + (w2 + t) && s[j + 1 + |gap|..] == w2 + t
    requires gap != [] && AllSpace(gap)
    requires w2 != [] && forall i :: 0 <= i < |w2| ==> IsWordChar(w2[i])
    requires t == [] || !IsWordChar(t[0])
    ensures SecondWord(s, j).Some?
    ensures SecondWord(s, j).value.0 == j + 1 + |gap|
    ensures SecondWord(s, j).value.1 == j + 1 + |gap| + |w2|
  {
    LeadingRunExact(gap, w2 + t, IsSpace);
    LeadingRunExact(w2, t, IsWordChar);
    SecondWordAt(s, j, |gap|, |w2|);
  }

  /** The pieces of a break, and the suffixes of the text that start at each of them. */
  lemma BreakPieces(w1: string, gap: string, w2: string, t: string)
    ensures var s := w1 + "-" + gap + w2 + t;
            && s == w1 + ("-" + (gap + (w2 + t)))
            && s[|w1|] == '-'
            && s[|w1| + 1..] == gap + (w2 + t)
            && s[|w1| + 1 + |gap|..] == w2 + t
            && s[..|w1|] == w1
            && s[|w1| + 1 + |gap|..|w1| + 1 + |gap| + |w2|] == w2
            && s[|w1| + 1 + |gap| + |w2|..] == t
  {
    var s := w1 + "-" + gap + w2 + t;
    var tail2 := w2 + t;
    var tail1 := gap + tail2;
    var rest := "-" + tail1;
    assert s == w1 + rest;
    assert s[|w1| + 1..] == tail1;
    assert s[|w1| + 1 + |gap|..] == tail2;
  }

  /**
   * A break `w1- w2` at the start of the text is rejoined: the hyphen and the whitespace after it
   * are deleted, the two words are glued together, and the pass goes on after the whole second word.
   */
  lemma DehyphenateJoinsBreak(w1: string, gap: string, w2: string, t: string)
    requires w1 != [] && forall i :: 0 <= i < |w1| ==> IsWordChar(w1[i])
    requires gap != [] && AllSpace(gap)
    requires w2 != [] && forall i :: 0 <= i < |w2| ==> IsWordChar(w2[i])
    requires t == [] || !IsWordChar(t[0])
    ensures Dehyphenate(w1 + "-" + gap + w2 + t) == w1 + w2 + Dehyphenate(t)
  {
    var s := w1 + "-" + gap + w2 + t;
    var j: nat := |w1|;
    var m: nat := j + 1 + |gap|;
    var n: nat := m + |w2|;
    BreakStartsWithWord(w1, gap, w2, t);
    BreakPieces(w1, gap, w2, t);
    BreakSecondWord(s, j, gap, w2, t);
    assert SecondWord(s, j).value.0 == m;
    assert SecondWord(s, j).value.1 == n;
    DehyphenateJoin(s, j, m, n);
  }

  /** Text that is already ASCII passes the ASCII filter unchanged. */
  lemma {:induction false} DropNonAsciiKeepsAscii(s: string)
    requires forall i :: 0 <= i < |s| ==> IsAscii(s[i])
    ensures DropNonAscii(s) == s
    decreases |s|
  {
    if s != [] {
      DropNonAsciiKeepsAscii(s[1..]);
    }
  }

  /** Text without newlines is left alone by the newline replacement. */
  lemma NewlinesToSpacesKeepsLines(s: string)
    requires '\n' !in s
    ensures NewlinesToSpaces(s) == s
  {
  }

  /** Filtering out non-ASCII characters a second time changes nothing. */
  lemma DropNonAsciiIdempotent(s: string)
    ensures DropNonAscii(DropNonAscii(s)) == DropNonAscii(s)
  {
    DropNonAsciiKeepsAscii(DropNonAscii(s));
  }

  /** Replacing newlines a second time changes nothing. */
  lemma NewlinesToSpacesIdempotent(s: string)
    ensures NewlinesToSpaces(NewlinesToSpaces(s)) == NewlinesToSpaces(s)
  {
    NewlinesToSpacesKeepsLines(NewlinesToSpaces(s));
  }

  /** Text whose only whitespace is single spaces is a fixed point of the whitespace collapse. */
  lemma {:induction false} CollapseFixesSpacedText(s: string)
    requires NoAdjacentSpaces(s)
    requires forall i :: 0 <= i < |s| && IsSpace(s[i]) ==> s[i] == ' '
    ensures CollapseSpaces(s) == s
    decreases |s|
  {
    if s != [] {
      NoAdjacentSuffix(s, 1);
      CollapseFixesSpacedText(s[1..]);
      if IsSpace(s[0]) {
        assert LeadingRun(s, IsSpace) == 1 by {
          if |s| > 1 {
            assert !IsSpace(s[1]);
          }
        }
      }
    }
  }

  /** Collapsing whitespace a second time changes nothing. */
  lemma CollapseIdempotent(s: string)
    ensures CollapseSpaces(CollapseSpaces(s)) == CollapseSpaces(s)
  {
    var r := CollapseSpaces(s);
    assert forall i :: 0 <= i < |r| && IsSpace(r[i]) ==> r[i] == ' ' by {
      forall i | 0 <= i < |r| && IsSpace(r[i]) ensures r[i] == ' ' {
        assert r[i] in r;
      }
    }
    CollapseFixesSpacedText(r);
  }

  /**
   * Text in which no hyphen is followed by whitespace has no break to rejoin, so hyphenated
   * compounds such as `well-known` are kept.
   */
  lemma {:induction false} DehyphenateWithoutBreak(s: string)
    requires forall i :: 0 <= i < |s| - 1 && s[i] == '-' ==> !IsSpace(s[i + 1])
    ensures Dehyphenate(s) == s
    decreases |s|
  {
    if s != [] {
      var j := LeadingRun(s, IsWordChar);
      if j == 0 {
        DehyphenateWithoutBreak(s[1..]);
        assert s == [s[0]] + s[1..];
      } else {
        if j + 1 < |s| && s[j] == '-' {
          assert !IsSpace(s[j + 1..][0]);
        }
        assert SecondWord(s, j) == None;
        DehyphenateWithoutBreak(s[j..]);
        assert s == s[..j] + s[j..];
      }
    }
  }

  /** A hyphen inside a word is not a line break: `well-known` is left as it is. */
  lemma CompoundWordIsKept()
    ensures Dehyphenate("well-known") == "well-known"
  {
    DehyphenateWithoutBreak("well-known");
  }

  /** A whitespace run on its own collapses to one space. */
  lemma CollapseRun(w: string)
    requires w != [] && AllSpace(w)
    ensures CollapseSpaces(w) == " "
  {
    assert LeadingRun(w, IsSpace) == |w|;
    assert w[|w|..] == [];
  }

  /** The collapse works piece by piece wherever the cut does not fall inside a whitespace run. */
  lemma {:induction false} CollapseConcat(a: string, b: string)
    requires a == [] || b == [] || !IsSpace(a[|a| - 1]) || !IsSpace(b[0])
    ensures CollapseSpaces(a + b) == CollapseSpaces(a) + CollapseSpaces(b)
    decreases |a|
  {
    if a == [] {
      assert a + b == b;
    } else if IsSpace(a[0]) {
      var k := LeadingRun(a, IsSpace);
      if k < |a| {
        CollapseConcat(a[k..], b);
        CollapseConcatAtRun(a, b, k);
      } else {
        CollapseConcatAfterRun(a, b);
      }
    } else {
      CollapseConcat(a[1..], b);
      CollapseConcatAtChar(a, b);
    }
  }

  /** The step of `CollapseConcat` at a whitespace run that ends inside `a`. */
  lemma CollapseConcatAtRun(a: string, b: string, k: nat)
    requires a != [] && IsSpace(a[0]) && k == LeadingRun(a, IsSpace) && k < |a|
    requires CollapseSpaces(a[k..] + b) == CollapseSpaces(a[k..]) + CollapseSpaces(b)
    ensures CollapseSpaces(a + b) == CollapseSpaces(a) + CollapseSpaces(b)
  {
    LeadingRunConcat(a, b, IsSpace);
    ConcatDrop(a, b, k);
    CollapseAtSpace(a + b);
    CollapseAtSpace(a);
    ConsConcat(' ', CollapseSpaces(a[k..]), CollapseSpaces(b));
  }

  /** The step of `CollapseConcat` when all of `a` is whitespace. */
  lemma CollapseConcatAfterRun(a: string, b: string)
    requires a != [] && AllSpace(a)
    requires b == [] || !IsSpace(b[0])
    ensures CollapseSpaces(a + b) == CollapseSpaces(a) + CollapseSpaces(b)
  {
    LeadingRunExact(a, b, IsSpace);
    CollapseRun(a);
    ConcatDrop(a, b, |a|);
    CollapseAtSpace(a + b);
  }

  /** The step of `CollapseConcat` at a character of `a` that is not whitespace. */
  lemma CollapseConcatAtChar(a: string, b: string)
    requires a != [] && !IsSpace(a[0])
    requires CollapseSpaces(a[1..] + b) == CollapseSpaces(a[1..]) + CollapseSpaces(b)
    ensures CollapseSpaces(a + b) == CollapseSpaces(a) + CollapseSpaces(b)
  {
    ConcatDrop(a, b, 1);
    CollapseAtChar(a + b);
    CollapseAtChar(a);
    ConsConcat(a[0], CollapseSpaces(a[1..]), CollapseSpaces(b));
  }

  /** The unfolding of `CollapseSpaces` at a whitespace run. */
  lemma CollapseAtSpace(s: string)
    requires s != [] && IsSpace(s[0])
    ensures CollapseSpaces(s) == [' '] + CollapseSpaces(s[LeadingRun(s, IsSpace)..])
  {
  }

  /** The unfolding of `CollapseSpaces` at a character that is not whitespace. */
  lemma CollapseAtChar(s: string)
    requires s != [] && !IsSpace(s[0])
    ensures CollapseSpaces(s) == [s[0]] + CollapseSpaces(s[1..])
  {
  }

  /** Dropping a prefix that lies within `a` from `a + b`. */
  lemma ConcatDrop(a: string, b: string, k: nat)
    requires 0 < k <= |a|
    ensures (a + b)[k..] == a[k..] + b && (a + b)[0] == a[0]
  {
  }

  lemma ConsConcat(c: char, x: string, y: string)
    ensures [c] + (x + y) == [c] + x + y
  {
  }

  /** A whitespace run between two pieces of text that do not end or start with whitespace becomes one space. */
  lemma CollapseGap(u: string, w: string, v: string)
    requires u == [] || !IsSpace(u[|u| - 1])
    requires w != [] && AllSpace(w)
    requires v == [] || !IsSpace(v[0])
    ensures CollapseSpaces(u + w + v) == CollapseSpaces(u) + " " + CollapseSpaces(v)
  {
    CollapseConcat(u, w);
    CollapseConcat(u + w, v);
    CollapseRun(w);
  }

  /** The ASCII filter works piece by piece. */
  lemma {:induction false} DropNonAsciiConcat(a: string, b: string)
    ensures DropNonAscii(a + b) == DropNonAscii(a) + DropNonAscii(b)
    decreases |a|
  {
    if a == [] {
      assert a + b == b;
    } else {
      assert (a + b)[1..] == a[1..] + b;
      DropNonAsciiConcat(a[1..], b);
    }
  }

  /** One character passes the ASCII filter exactly when it is ASCII; with the previous lemma this fixes the filter. */
  lemma DropNonAsciiChar(c: char)
    ensures DropNonAscii([c]) == if IsAscii(c) then [c] else []
  {
    assert [c][1..] == [];
  }

  /** Every newline becomes a plain space. */
  lemma NewlineBecomesSpace(s: string)
    ensures forall i :: 0 <= i < |s| && s[i] == '\n' ==> NewlinesToSpaces(s)[i] == ' '
  {
  }

  /** Replacing newlines by spaces leaves the characters other than whitespace in place. */
  lemma {:induction false} NewlinesToSpacesKeepsContent(s: string)
    ensures Without(NewlinesToSpaces(s), IsSpace) == Without(s, IsSpace)
    decreases |s|
  {
    if s != [] {
      NewlinesToSpacesKeepsContent(s[1..]);
      assert NewlinesToSpaces(s)[1..] == NewlinesToSpaces(s[1..]);
    }
  }

  predicate IsHyphen(c: char) {
    c == '-'
  }

  /** Dropping whitespace and hyphens is dropping whitespace, then hyphens. */
  lemma {:induction false} WithoutInTwoSteps(s: string)
    ensures Without(s, IsSpaceOrHyphen) == Without(Without(s, IsSpace), IsHyphen)
    decreases |s|
  {
    if s != [] {
      WithoutInTwoSteps(s[1..]);
      WithoutConcat(if IsSpace(s[0]) then [] else [s[0]], Without(s[1..], IsSpace), IsHyphen);
    }
  }

  /**
   * Normalisation keeps every character of the ASCII-filtered text other than whitespace and hyphens,
   * in order: only the filter, the whitespace steps and the rejoined breaks remove anything.
   */
  lemma NormalizeKeepsContent(s: string)
    ensures Without(Normalize(s), IsSpaceOrHyphen) == Without(DropNonAscii(s), IsSpaceOrHyphen)
  {
    var ascii := DropNonAscii(s);
    var lines := NewlinesToSpaces(ascii);
    var collapsed := CollapseSpaces(lines);
    NewlinesToSpacesKeepsContent(ascii);
    CollapseKeepsContent(lines);
    DehyphenateKeepsContent(collapsed);
    WithoutInTwoSteps(collapsed);
    WithoutInTwoSteps(ascii);
  }

  /** Normalising text that is already ASCII, newline-free and singly spaced only dehyphenates it. */
  lemma NormalizeSpacedAscii(s: string)
    requires forall i :: 0 <= i < |s| ==> IsAscii(s[i]) && s[i] != '\n' && (IsSpace(s[i]) ==> s[i] == ' ')
    requires NoAdjacentSpaces(s)
    ensures Normalize(s) == Dehyphenate(s)
  {
    DropNonAsciiKeepsAscii(s);
    NewlinesToSpacesKeepsLines(s);
    CollapseFixesSpacedText(s);
  }

  /** The unfolding of `Dehyphenate` at a character that does not start a word. */
  lemma DehyphenateSkip(s: string)
    requires s != [] && !IsWordChar(s[0])
    ensures Dehyphenate(s) == [s[0]] + Dehyphenate(s[1..])
  {
    assert LeadingRun(s, IsWordChar) == 0;
  }

  /** The unfolding of `Dehyphenate` at a word that no break follows. */
  lemma DehyphenateKeepWord(s: string, j: nat)
    requires 0 < j <= |s| && j == LeadingRun(s, IsWordChar) && SecondWord(s, j).None?
    ensures Dehyphenate(s) == s[..j] + Dehyphenate(s[j..])
  {
  }

  /** `t` starts with a line break: a hyphen, a whitespace run and a word character. */
  predicate StartsWithBreak(t: string) {
    exists k :: 1 < k < |t| && t[0] == '-' && AllSpace(t[1..k]) && IsWordChar(t[k])
  }

  /** A second word found after position `j` of `s` means the rest of `s` starts with a break. */
  lemma SecondWordIsBreak(s: string, j: nat, t: string)
    requires 0 < j <= |s| && s[j..] == t
    ensures SecondWord(s, j).Some? ==> StartsWithBreak(t)
  {
    if SecondWord(s, j).Some? {
      var g := LeadingRun(s[j + 1..], IsSpace);
      var m := j + 1 + g;
      var k := 1 + g;
      assert t[0] == s[j] == '-';
      assert t[1..k] == s[j + 1..][..g];
      assert AllSpace(t[1..k]);
      assert IsWordChar(s[m..][0]);
      assert t[k] == s[m];
      assert 1 < k < |t|;
    }
  }

  /**
   * A whole word that no break follows is kept as it is, and the pass goes on after it. With
   * `DehyphenateSkip` and `DehyphenateJoinsBreak` this fixes the pass on every text.
   */
  lemma DehyphenateKeepsWord(w: string, t: string)
    requires w != [] && forall i :: 0 <= i < |w| ==> IsWordChar(w[i])
    requires t == [] || !IsWordChar(t[0])
    requires !StartsWithBreak(t)
    ensures Dehyphenate(w + t) == w + Dehyphenate(t)
  {
    var s := w + t;
    LeadingRunExact(w, t, IsWordChar);
    assert s[|w|..] == t && s[..|w|] == w;
    SecondWordIsBreak(s, |w|, t);
    DehyphenateKeepWord(s, |w|);
  }

  /** A break in the middle of the text is rejoined too, after the words before it are kept. */
  lemma BreakInMidTextIsJoined()
    ensures Dehyphenate("x a- b") == "x ab"
  {
    var t := " a- b";
    assert !StartsWithBreak(t);
    DehyphenateKeepsWord("x", t);
    BreakAfterSpace();
    assert "x" + t == "x a- b";
    assert "x" + " ab" == "x ab";
  }

  /** The space before the break of `a- b` is kept. */
  lemma BreakAfterSpace()
    ensures Dehyphenate(" a- b") == " ab"
  {
    var t := " a- b";
    DehyphenateSkip(t);
    assert t[1..] == "a- b";
    BreakAlone();
    assert [t[0]] + "ab" == " ab";
  }

  /** The break of `a- b` on its own. */
  lemma BreakAlone()
    ensures Dehyphenate("a- b") == "ab"
  {
    DehyphenateJoinsBreak("a", " ", "b", "");
    assert "a" + "-" + " " + "b" + "" == "a- b";
  }

  /** The rejoining pass consumes the second word of a break, so a break right after it is left alone. */
  lemma DehyphenateChain()
    ensures Dehyphenate("a- b- c") == "ab- c"
  {
    var s := "a- b- c";
    ChainBreaks();
    DehyphenateJoin(s, 1, 3, 4);
    assert s[..1] + s[3..4] + s[4..] == "ab" + "- c";
    DehyphenateSkip("- c");
    DehyphenateSkip(" c");
    assert "- c"[1..] == " c" && " c"[1..] == "c";
    DehyphenateKeepWord("c", 1);
    assert Dehyphenate("c") == "c";
  }

  /** The break in `a- b- c` joins `a` and `b` and ends after `b`. */
  lemma ChainBreaks()
    ensures LeadingRun("a- b- c", IsWordChar) == 1
    ensures SecondWord("a- b- c", 1) == Some((3, 4))
    ensures LeadingRun("c", IsWordChar) == 1 && SecondWord("c", 1).None?
  {
    var s := "a- b- c";
    assert s[2..] == " b- c" && LeadingRun(s[2..], IsSpace) == 1;
    assert s[3..] == "b- c" && LeadingRun(s[3..], IsWordChar) == 1;
  }

  /** Normalising two chained breaks rejoins only the first of them. */
  lemma NormalizeJoinsOneBreakOfAChain()
    ensures Normalize("a- b- c") == "ab- c"
  {
    var s := "a- b- c";
    assert forall i :: 0 <= i < |s| ==> IsAscii(s[i]) && s[i] != '\n' && (IsSpace(s[i]) ==> s[i] == ' ');
    assert NoAdjacentSpaces(s);
    NormalizeSpacedAscii(s);
    DehyphenateChain();
  }

  /**
   * Normalising that result rejoins the break that was left: with the previous lemma, normalising twice
   * differs from normalising once, so the normaliser is not idempotent.
   */
  lemma NormalizeJoinsTheLeftoverBreak()
    ensures Normalize("ab- c") == "abc"
  {
    var t := "ab- c";
    LeftoverBreak();
    DehyphenateJoin(t, 2, 4, 5);
    assert t[..2] + t[4..5] == "abc" && t[5..] == [];
    LeftoverShape();
    NormalizeSpacedAscii(t);
  }

  /** The break in `ab- c` joins `ab` and `c` and ends the text. */
  lemma LeftoverBreak()
    ensures LeadingRun("ab- c", IsWordChar) == 2
    ensures SecondWord("ab- c", 2) == Some((4, 5))
  {
    var t := "ab- c";
    assert t[1..] == "b- c";
    assert t[2..] == "- c";
    assert t[3..] == " c" && LeadingRun(" c", IsSpace) == 1;
    assert t[4..] == "c" && LeadingRun("c", IsWordChar) == 1;
  }

  lemma LeftoverShape()
    ensures forall i :: 0 <= i < |"ab- c"| ==> IsAscii("ab- c"[i]) && "ab- c"[i] != '\n' && (IsSpace("ab- c"[i]) ==> "ab- c"[i] == ' ')
    ensures NoAdjacentSpaces("ab- c")
  {
  }

}
