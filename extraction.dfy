/**
 * `extract_doi_from_pdf` (doi_pipeline.py, lines 22-78): scan the first pages for a DOI candidate,
 * confirm it with the registry, and otherwise fall back to asking the language model about the
 * collected text of the first pages.
 */
module Extraction {
  import opened Wrappers
  import opened Chars
  import opened Normalizer
  import opened DoiPattern
  import opened Oracles

  /** A PDF as the reader gives it: it cannot be opened, or it has pages whose text may be missing. */
  datatype Pdf = Unreadable | Pages(texts: seq<Option<string>>)

  /** `(doi, crossref_title, used_chatgpt_doi_extraction)`. */
  datatype DoiResult = DoiResult(doi: Option<string>, title: Option<string>, usedFallback: bool)

  /** At most this many pages are scanned for a DOI. */
  const ScanPageLimit: nat := 5

  /** At most this many pages feed the fallback. */
  const FallbackPageLimit: nat := 3

  function Min(a: nat, b: nat): nat {
    if a <= b then a else b
  }

  /** `not text`: no text, or empty text. */
  predicate Blank(text: Option<string>) {
    text.None? || text.value == []
  }

  /** The DOI candidate of one page: none for a blank page, else that of its normalised text. */
  function PageCandidate(text: Option<string>): Option<string> {
    if Blank(text) then None else Candidate(Normalize(text.value))
  }

  /** The DOI candidate of every page, in page order. */
  function PageCandidates(pages: seq<Option<string>>): (cands: seq<Option<string>>)
    ensures |cands| == |pages|
  {
    seq(|pages|, j requires 0 <= j < |pages| => PageCandidate(pages[j]))
  }

  /** The first position in `[i, n)` that holds a candidate. */
  function FirstFound(cands: seq<Option<string>>, i: nat, n: nat): (k: Option<nat>)
    requires i <= n <= |cands|
    ensures k.Some? ==> i <= k.value < n && cands[k.value].Some?
    ensures forall j :: i <= j < n && (k.None? || j < k.value) ==> cands[j].None?
    decreases n - i
  {
    if i == n then None
    else if cands[i].Some? then Some(i)
    else FirstFound(cands, i + 1, n)
  }

  /** The page the scan stops at: the first of the first five pages with a candidate. */
  function ScanHit(pages: seq<Option<string>>): (k: Option<nat>)
    ensures k.Some? ==> k.value < Min(ScanPageLimit, |pages|)
  {
    FirstFound(PageCandidates(pages), 0, Min(ScanPageLimit, |pages|))
  }

  /** The text of one page as the fallback collects it: its normal form and a space, or nothing if blank. */
  function CollectedPiece(text: Option<string>): string {
    if Blank(text) then [] else Normalize(text.value) + " "
  }

  /** The text collected from the first `n` pages, in page order. */
  function Collected(pages: seq<Option<string>>, n: nat): string
    requires n <= |pages|
  {
    if n == 0 then [] else Collected(pages, n - 1) + CollectedPiece(pages[n - 1])
  }

  /** What the fallback shows the language model: the collected first pages, cut to 3000 characters. */
  function FallbackText(pages: seq<Option<string>>): string {
    Take(Collected(pages, Min(FallbackPageLimit, |pages|)), PromptTextLimit)
  }

  /** The scan found a candidate on one of the first pages and the registry confirms it. */
  predicate ScanConfirmed(pages: seq<Option<string>>, svc: Services) {
    var k := ScanHit(pages);
    k.Some? && Truthy(RegistryTitle(svc, PageCandidates(pages)[k.value].value))
  }

  /** The fallback: ask the model for a DOI in `text` and confirm it with the registry. */
  function FallbackResult(text: string, svc: Services): DoiResult {
    var doi := ModelDoi(svc, text);
    if Truthy(doi) then
      var title := RegistryTitle(svc, doi.value);
      if Truthy(title) then DoiResult(doi, title, true) else DoiResult(None, None, true)
    else DoiResult(None, None, true)
  }

  /** What `extract_doi_from_pdf` returns for a document. */
  function DoiOutcome(pdf: Pdf, svc: Services): DoiResult {
    match pdf
    case Unreadable => DoiResult(None, None, false)
    case Pages(pages) =>
      if ScanConfirmed(pages, svc) then
        var doi := PageCandidates(pages)[ScanHit(pages).value].value;
        DoiResult(Some(doi), RegistryTitle(svc, doi), false)
      else FallbackResult(FallbackText(pages), svc)
  }

  /**
   * The scan loop of `extract_doi_from_pdf` (lines 26-49): it returns the DOI and its registry title
   * when the first page with a candidate has a confirmed one, and nothing otherwise.
   */
  method ScanPages(pages: seq<Option<string>>, svc: Services) returns (doi: Option<string>, title: Option<string>)
    ensures doi.Some? <==> ScanConfirmed(pages, svc)
    ensures doi.Some? ==> doi.value == PageCandidates(pages)[ScanHit(pages).value].value
                          && title == RegistryTitle(svc, doi.value)
  {
    var pagesToCheck := Min(ScanPageLimit, |pages|);
    ghost var cands := PageCandidates(pages);
    var pageNumber := 0;
    while pageNumber < pagesToCheck
      invariant pageNumber <= pagesToCheck
      invariant FirstFound(cands, pageNumber, pagesToCheck) == ScanHit(pages)
    {
      var text := pages[pageNumber];
      if Blank(text) {
        pageNumber := pageNumber + 1;
        continue;
      }
      var normalized := Normalize(text.value);
      var matches := Matches(normalized);
      if |matches| > 0 {
        var candidate := StripTrailingPunct(matches[LongestIndex(matches)]);
        var crossrefTitle := RegistryTitle(svc, candidate);
        if Truthy(crossrefTitle) {
          return Some(candidate), crossrefTitle;
        }
        break;
      }
      pageNumber := pageNumber + 1;
    }
    return None, None;
  }

  /** The collecting loop of `extract_doi_from_pdf` (lines 50-60): the text of the first three pages. */
  method CollectPages(pages: seq<Option<string>>) returns (collected: string)
    ensures collected == Collected(pages, Min(FallbackPageLimit, |pages|))
  {
    collected := "";
    var pagesToCollect := Min(FallbackPageLimit, |pages|);
    for i := 0 to pagesToCollect
      invariant collected == Collected(pages, i)
    {
      var text := pages[i];
      CollectedNext(pages, i);
      if !Blank(text) {
        var normalized := Normalize(text.value);
        collected := collected + (normalized + " ");
      }
    }
  }

  lemma CollectedNext(pages: seq<Option<string>>, i: nat)
    requires i < |pages|
    ensures Blank(pages[i]) ==> Collected(pages, i + 1) == Collected(pages, i)
    ensures !Blank(pages[i]) ==> Collected(pages, i + 1) == Collected(pages, i) + (Normalize(pages[i].value) + " ")
  {
    assert Collected(pages, i) + [] == Collected(pages, i);
  }

  /** `extract_doi_from_pdf`, step by step as the source runs it. */
  method ExtractDoiFromPdf(pdf: Pdf, svc: Services) returns (doi: Option<string>, title: Option<string>, usedFallback: bool)
    ensures DoiResult(doi, title, usedFallback) == DoiOutcome(pdf, svc)
  {
    if pdf.Unreadable? {
      return None, None, false;
    }
    var pages := pdf.texts;
    doi, title := ScanPages(pages, svc);
    if doi.Some? {
      return doi, title, false;
    }
    var collected := CollectPages(pages);
    collected := Take(collected, PromptTextLimit);
    usedFallback := true;
    doi := ModelDoi(svc, collected);
    if Truthy(doi) {
      title := RegistryTitle(svc, doi.value);
      if Truthy(title) {
        return;
      }
      return None, None, usedFallback;
    }
    return None, None, usedFallback;
  }

  // ----- properties of the extraction -----

  /** A DOI is returned only with the registry's non-empty title for it; without a DOI there is no title. */
  lemma ReturnedDoiIsConfirmed(pdf: Pdf, svc: Services)
    ensures var r := DoiOutcome(pdf, svc);
            && (r.doi.Some? ==> Truthy(r.doi) && Truthy(r.title) && r.title == RegistryTitle(svc, r.doi.value))
            && (r.doi.None? ==> r.title.None?)
  {
    match pdf
    case Unreadable =>
    case Pages(pages) =>
      if ScanConfirmed(pages, svc) {
        var k := ScanHit(pages).value;
        assert PageCandidates(pages)[k] == PageCandidate(pages[k]);
        CandidateIsLongestMatch(Normalize(pages[k].value));
      }
  }

  /**
   * A DOI found by the scan is the candidate of the first of the first five pages that has one, and has
   * the `10.<digits>/` prefix; the pages before it have no candidate.
   */
  lemma ScannedDoiComesFromFirstMatchingPage(pdf: Pdf, svc: Services)
    requires DoiOutcome(pdf, svc).doi.Some? && !DoiOutcome(pdf, svc).usedFallback
    ensures pdf.Pages?
    ensures exists k :: 0 <= k < Min(ScanPageLimit, |pdf.texts|)
              && PageCandidate(pdf.texts[k]) == DoiOutcome(pdf, svc).doi
              && forall j :: 0 <= j < k ==> PageCandidate(pdf.texts[j]).None?
    ensures HasDoiPrefix(DoiOutcome(pdf, svc).doi.value)
  {
    var pages := pdf.texts;
    assert ScanConfirmed(pages, svc);
    var k := ScanHit(pages).value;
    FirstCandidatePage(pages, k);
    assert PageCandidate(pages[k]) == DoiOutcome(pdf, svc).doi;
    CandidateIsLongestMatch(Normalize(pages[k].value));
  }

  lemma FirstCandidatePage(pages: seq<Option<string>>, k: nat)
    requires ScanHit(pages) == Some(k)
    ensures k < |pages| && PageCandidate(pages[k]) == PageCandidates(pages)[k] && PageCandidate(pages[k]).Some?
    ensures forall j :: 0 <= j < k ==> PageCandidate(pages[j]).None?
  {
    var cands := PageCandidates(pages);
    assert forall j :: 0 <= j < k ==> cands[j] == PageCandidate(pages[j]);
  }

  /**
   * `used_chatgpt_doi_extraction` is set exactly on the fallback paths: the document opened and the
   * scan did not end with a confirmed DOI. A confirmed scan never consults the model.
   */
  lemma FallbackFlagMeansFallback(pdf: Pdf, svc: Services, otherModel: string -> Option<string>)
    ensures DoiOutcome(pdf, svc).usedFallback <==> pdf.Pages? && !ScanConfirmed(pdf.texts, svc)
    ensures DoiOutcome(pdf, svc).usedFallback ==> DoiOutcome(pdf, svc) == FallbackResult(FallbackText(pdf.texts), svc)
    ensures !DoiOutcome(pdf, svc).usedFallback ==> DoiOutcome(pdf, svc) == DoiOutcome(pdf, svc.(doiModel := otherModel))
  {
  }

  /**
   * The fallback consults the model once, about the collected text only: two models that agree on that
   * text give the same outcome. That text has at most 3000 characters.
   */
  lemma FallbackSeesOnlyCollectedText(pages: seq<Option<string>>, svc: Services, otherModel: string -> Option<string>)
    requires !ScanConfirmed(pages, svc)
    requires otherModel(FallbackText(pages)) == svc.doiModel(FallbackText(pages))
    ensures DoiOutcome(Pages(pages), svc) == DoiOutcome(Pages(pages), svc.(doiModel := otherModel))
    ensures |FallbackText(pages)| <= PromptTextLimit
  {
    assert !ScanConfirmed(pages, svc.(doiModel := otherModel));
  }

  /** A scan whose first candidate the registry confirms returns that candidate, its title and a clear flag. */
  lemma ConfirmedScanReturnsIt(pages: seq<Option<string>>, svc: Services, k: nat)
    requires ScanHit(pages) == Some(k)
    requires Truthy(RegistryTitle(svc, PageCandidates(pages)[k].value))
    ensures DoiOutcome(Pages(pages), svc)
            == DoiResult(PageCandidates(pages)[k], RegistryTitle(svc, PageCandidates(pages)[k].value), false)
  {
  }

  /**
   * A scan whose first candidate the registry does not confirm goes straight to the fallback, whatever
   * the later pages hold.
   */
  lemma UnconfirmedScanGoesToFallback(pages: seq<Option<string>>, svc: Services, k: nat)
    requires ScanHit(pages) == Some(k)
    requires !Truthy(RegistryTitle(svc, PageCandidate(pages[k]).value))
    ensures DoiOutcome(Pages(pages), svc) == FallbackResult(FallbackText(pages), svc)
  {
    FirstCandidatePage(pages, k);
  }

  /**
   * Every exit of the fallback sets the flag, and a model DOI the registry does not confirm ends the
   * extraction with neither DOI nor title.
   */
  lemma FallbackExits(text: string, svc: Services)
    ensures FallbackResult(text, svc).usedFallback
    ensures !Truthy(ModelDoi(svc, text)) ==> FallbackResult(text, svc) == DoiResult(None, None, true)
    ensures Truthy(ModelDoi(svc, text)) && !Truthy(RegistryTitle(svc, ModelDoi(svc, text).value)) ==>
              FallbackResult(text, svc) == DoiResult(None, None, true)
    ensures FallbackResult(text, svc).doi.Some? ==>
              FallbackResult(text, svc).doi == ModelDoi(svc, text)
              && FallbackResult(text, svc).title == RegistryTitle(svc, ModelDoi(svc, text).value)
  {
  }

  lemma {:induction false} FirstFoundOnPrefix(c1: seq<Option<string>>, c2: seq<Option<string>>, i: nat, n: nat)
    requires i <= n <= |c1| && n <= |c2|
    requires forall j :: 0 <= j < n ==> c1[j] == c2[j]
    ensures FirstFound(c1, i, n) == FirstFound(c2, i, n)
    decreases n - i
  {
    if i < n {
      FirstFoundOnPrefix(c1, c2, i + 1, n);
    }
  }

  lemma {:induction false} CollectedOnPrefix(pages: seq<Option<string>>, m: nat, n: nat)
    requires n <= m <= |pages|
    ensures Collected(pages, n) == Collected(pages[..m], n)
    decreases n
  {
    if n > 0 {
      assert pages[..m][n - 1] == pages[n - 1];
      CollectedOnPrefix(pages, m, n - 1);
    }
  }

  /** Only the first five pages can influence the extraction: the rest of the document is never read. */
  lemma ExtractionReadsAtMostFivePages(pages: seq<Option<string>>, svc: Services)
    ensures DoiOutcome(Pages(pages), svc) == DoiOutcome(Pages(pages[..Min(ScanPageLimit, |pages|)]), svc)
  {
    var m := Min(ScanPageLimit, |pages|);
    var front := pages[..m];
    assert Min(ScanPageLimit, |front|) == m;
    var c1, c2 := PageCandidates(pages), PageCandidates(front);
    forall j | 0 <= j < m
      ensures c1[j] == c2[j]
    {
      assert front[j] == pages[j];
    }
    FirstFoundOnPrefix(c1, c2, 0, m);
    assert ScanHit(pages) == ScanHit(front);
    assert Min(FallbackPageLimit, |front|) == Min(FallbackPageLimit, |pages|);
    CollectedOnPrefix(pages, m, Min(FallbackPageLimit, |pages|));
  }
}
