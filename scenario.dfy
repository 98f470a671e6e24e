/**
 * A worked run of the whole pipeline: a folder holding one two-page paper whose first page cites its
 * own DOI, a registry that knows that DOI, and a language model that echoes the registry's title.
 */
module Scenario {
  import opened Wrappers
  import opened Chars
  import opened Normalizer
  import opened DoiPattern
  import opened Oracles
  import opened Extraction
  import opened Pipeline

  const PageOne: string := "see 10.5555/test.001"
  const PaperDoi: string := "10.5555/test.001"
  const PaperTitle: string := "A Study of Things"

  /** The paper: the first page cites the DOI, the second page has no text. */
  const Paper: Pdf := Pages([Some(PageOne), None])

  /** A registry that knows the one DOI, a model that finds no DOI, echoes the title and says yes to equal titles. */
  const World: Services := Services(
    doi => if doi == PaperDoi then Some(PaperTitle) else None,
    text => None,
    text => Some(PaperTitle),
    (a, b) => if a == b then Some("Yes") else Some("No"))

  lemma PageOneIsAscii()
    ensures forall i :: 0 <= i < |PageOne| ==> IsAscii(PageOne[i]) && PageOne[i] != '\n'
  {
  }

  /** The one whitespace character of page one is the space after `see`. */
  lemma PageOneHasOneSpace()
    ensures forall i :: 0 <= i < |PageOne| && IsSpace(PageOne[i]) ==> i == 3
    ensures PageOne[3] == ' '
  {
  }

  lemma PageOneHasSingleSpaces()
    ensures forall i :: 0 <= i < |PageOne| && IsSpace(PageOne[i]) ==> PageOne[i] == ' '
    ensures NoAdjacentSpaces(PageOne)
  {
    PageOneHasOneSpace();
  }

  lemma PageOneHasNoHyphen()
    ensures forall i :: 0 <= i < |PageOne| ==> PageOne[i] != '-'
  {
  }

  lemma PageOneNormal()
    ensures Normalize(PageOne) == PageOne
  {
    PageOneIsAscii();
    PageOneHasSingleSpaces();
    PageOneHasNoHyphen();
    DehyphenateWithoutBreak(PageOne);
    NormalizeSpacedAscii(PageOne);
  }

  /** No match starts where the text does not read `1`. */
  lemma NoMatchAt(s: string, i: nat)
    requires i < |s| && s[i] != '1'
    ensures MatchEnd(s, i).None?
  {
    if i + 3 <= |s| {
      assert s[i..i + 3][0] == s[i];
    }
  }

  lemma PaperDoiShape()
    ensures ShapedWith(PaperDoi, 4)
  {
  }

  lemma DoiInPageOne()
    ensures |PageOne| == 20 && PageOne[4..20] == PaperDoi
  {
  }

  lemma PageOneMatch()
    ensures MatchEnd(PageOne, 4) == Some(20)
  {
    DoiInPageOne();
    PaperDoiShape();
    MatchEndComplete(PageOne, 4, 20, 4);
  }

  /** The text before the DOI on page one holds no `1`. */
  lemma PageOneLead()
    ensures PageOne[0] != '1' && PageOne[1] != '1' && PageOne[2] != '1' && PageOne[3] != '1'
  {
  }

  lemma PageOneSpans()
    ensures Spans(PageOne, 0) == [(4, 20)]
  {
    var s := PageOne;
    PageOneLead();
    NoMatchAt(s, 0);
    NoMatchAt(s, 1);
    NoMatchAt(s, 2);
    NoMatchAt(s, 3);
    PageOneMatch();
    SpansTake(s, 4, 20);
    SpansSkip(s, 3);
    SpansSkip(s, 2);
    SpansSkip(s, 1);
    SpansSkip(s, 0);
  }

  lemma PageOneMatches()
    ensures Matches(PageOne) == [PaperDoi]
  {
    PageOneSpans();
    DoiInPageOne();
  }

  lemma PaperDoiUnstripped()
    ensures StripTrailingPunct(PaperDoi) == PaperDoi
  {
  }

  lemma PageOneCandidate()
    ensures Candidate(PageOne) == Some(PaperDoi)
  {
    PageOneMatches();
    PaperDoiUnstripped();
  }

  lemma TitleIsTrimmed()
    ensures Trim(PaperTitle) == PaperTitle
  {
    var t := PaperTitle;
    assert LeadingRun(t, IsSpace) == 0;
    assert t[0..] == t;
    assert TrailingRun(t, IsSpace) == 0;
  }

  lemma FirstPageHasTheCandidate()
    ensures PageCandidate(Some(PageOne)) == Some(PaperDoi)
  {
    PageOneNormal();
    PageOneCandidate();
  }

  lemma ScanStopsAtFirstPage()
    ensures ScanHit(Paper.texts) == Some(0)
    ensures PageCandidates(Paper.texts)[0] == Some(PaperDoi)
  {
    FirstPageHasTheCandidate();
    assert PageCandidates(Paper.texts)[0] == PageCandidate(Some(PageOne));
  }

  lemma RegistryKnowsThePaper()
    ensures RegistryTitle(World, PaperDoi) == Some(PaperTitle)
  {
    TitleIsTrimmed();
  }

  lemma ScanFindsTheDoi()
    ensures DoiOutcome(Paper, World) == DoiResult(Some(PaperDoi), Some(PaperTitle), false)
  {
    ScanStopsAtFirstPage();
    RegistryKnowsThePaper();
    ConfirmedScanReturnsIt(Paper.texts, World, 0);
  }

  lemma JudgeSaysYes()
    ensures TitlesMatch(World, PaperTitle, PaperTitle)
  {
    AffirmativeReplyIsYes();
  }

  lemma AffirmativeReplyIsYes()
    ensures SameTitleFromReply(Some("Yes"))
  {
    var content := "Yes";
    assert LeadingRun(content, IsSpace) == 0;
    assert content[0..] == content;
    assert TrailingRun(content, IsSpace) == 0;
    assert Lower(content) == "yes";
    assert OccursAt("yes", Lower(content), 0);
  }

  lemma PaperFirstPage()
    ensures FirstPageText(Paper) == Some(PageOne)
  {
  }

  lemma ModelEchoesTheTitle()
    ensures ModelTitle(World, PageOne) == Some(PaperTitle)
  {
    assert Take(PageOne, PromptTextLimit) == PageOne;
    TitleIsTrimmed();
  }

  lemma PaperRecord()
    ensures FileRecord(FileEntry("paper.pdf", Paper), World)
            == ResultRecord("paper.pdf", PaperDoi, Some(PaperTitle), Some(PaperTitle), Success)
  {
    ScanFindsTheDoi();
    PaperFirstPage();
    ModelEchoesTheTitle();
    JudgeSaysYes();
  }

  lemma PaperIsPdf()
    ensures IsPdfName("paper.pdf")
  {
    assert Lower("paper.pdf")[5..] == ".pdf";
  }

  lemma OnePaperSummary()
    ensures Summarize([FileEntry("paper.pdf", Paper)], World)
            == Summary(1, 1, 0, 0, 0, [ResultRecord("paper.pdf", PaperDoi, Some(PaperTitle), Some(PaperTitle), Success)])
  {
    PaperIsPdf();
    PaperRecord();
    ScanFindsTheDoi();
    SingleFileFolder(FileEntry("paper.pdf", Paper), World);
  }

  /** The folder's only paper is a success, and the accuracy is 100 percent of one counted file. */
  lemma OnePaperFolder()
    ensures var s := Summarize([FileEntry("paper.pdf", Paper)], World);
            && s.results == [ResultRecord("paper.pdf", PaperDoi, Some(PaperTitle), Some(PaperTitle), Success)]
            && s.totalPdfs == 1 && s.successfulMatches == 1 && s.numFailedWithAllValuesExtracted == 0
            && s.numDoiNotFound == 0 && s.numUsedChatgptDoiExtraction == 0
            && Accuracy(s) == Some(100.0)
  {
    OnePaperSummary();
  }
}
