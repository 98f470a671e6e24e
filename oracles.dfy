/**
 * The outside services of doi_pipeline.py as oracles, and how the pipeline reads their replies:
 * `get_title_crossref` (lines 106-125), `get_doi_from_chatgpt` (80-104), `get_title_chatgpt`
 * (127-149) and `compare_titles_with_chatgpt` (163-187).
 */
module Oracles {
  import opened Wrappers
  import opened Chars

  /**
   * Each service gives `None` where the source's call yields nothing (an exception, which the retry
   * wrapper turns into `None`, a non-200 status, a record without a title) and otherwise the raw text:
   * `registry` the first title the registry lists for a DOI, the other three the content of the
   * language model's reply to the DOI question, the title question and the title comparison.
   */
  datatype Services = Services(
    registry: string -> Option<string>,
    doiModel: string -> Option<string>,
    titleModel: string -> Option<string>,
    titleJudge: (string, string) -> Option<string>)

  /** How much text the language model is shown, `[:3000]`. */
  const PromptTextLimit: nat := 3000

  /** `get_title_crossref`: the registry's first title, trimmed. */
  function RegistryTitle(svc: Services, doi: string): Option<string> {
    match svc.registry(doi)
    case None => None
    case Some(title) => Some(Trim(title))
  }

  /**
   * The registry gives a title exactly when it lists one, and the title is the listed one with its
   * surrounding whitespace stripped, so stripping it again changes nothing.
   */
  lemma RegistryTitleIsStripped(svc: Services, doi: string)
    ensures RegistryTitle(svc, doi).Some? <==> svc.registry(doi).Some?
    ensures RegistryTitle(svc, doi).Some? ==>
              && RegistryTitle(svc, doi).value == Trim(svc.registry(doi).value)
              && Trim(RegistryTitle(svc, doi).value) == RegistryTitle(svc, doi).value
  {
    if svc.registry(doi).Some? {
      TrimIdempotent(svc.registry(doi).value);
    }
  }

  /** The reply handling of `get_doi_from_chatgpt`: a reply mentioning "doi not found" in any case means absence. */
  function DoiFromReply(reply: Option<string>): Option<string> {
    match reply
    case None => None
    case Some(content) =>
      var doi := Trim(content);
      if Contains(Lower(doi), "doi not found") then None else Some(doi)
  }

  /** A reply gives a DOI exactly when it exists and does not say "doi not found"; the DOI is the stripped reply. */
  lemma DoiFromReplyReadsAbsence(reply: Option<string>)
    ensures var d := DoiFromReply(reply);
            && (d.Some? <==> reply.Some? && !OccursIn("doi not found", Lower(Trim(reply.value))))
            && (d.Some? ==> d.value == Trim(reply.value))
  {
    if reply.Some? {
      ContainsIsOccurrence(Lower(Trim(reply.value)), "doi not found");
    }
  }

  /** The reply handling of `get_title_chatgpt`: the trimmed reply. */
  function TitleFromReply(reply: Option<string>): Option<string> {
    match reply
    case None => None
    case Some(content) => Some(Trim(content))
  }

  /** A title reply gives a title exactly when there is a reply, and the title is the stripped reply. */
  lemma TitleFromReplyIsStripped(reply: Option<string>)
    ensures TitleFromReply(reply).Some? <==> reply.Some?
    ensures TitleFromReply(reply).Some? ==>
              && TitleFromReply(reply).value == Trim(reply.value)
              && Trim(TitleFromReply(reply).value) == TitleFromReply(reply).value
  {
    if reply.Some? {
      TrimIdempotent(reply.value);
    }
  }

  /** The reply handling of `compare_titles_with_chatgpt`: yes exactly when the reply contains "yes" in any case. */
  function SameTitleFromReply(reply: Option<string>): bool {
    match reply
    case None => false
    case Some(content) => Contains(Lower(Trim(content)), "yes")
  }

  /** The titles match exactly when there is a reply whose stripped, lower-cased text contains "yes". */
  lemma SameTitleFromReplyReadsYes(reply: Option<string>)
    ensures SameTitleFromReply(reply) <==> reply.Some? && OccursIn("yes", Lower(Trim(reply.value)))
  {
    if reply.Some? {
      ContainsIsOccurrence(Lower(Trim(reply.value)), "yes");
    }
  }

  /** `get_doi_from_chatgpt(text)`. */
  function ModelDoi(svc: Services, text: string): Option<string> {
    DoiFromReply(svc.doiModel(text))
  }

  /** `get_title_chatgpt(text)`: the model sees at most the first 3000 characters. */
  function ModelTitle(svc: Services, text: string): Option<string> {
    TitleFromReply(svc.titleModel(Take(text, PromptTextLimit)))
  }

  /** The title model sees only the first 3000 characters: cutting the text there first changes nothing. */
  lemma ModelTitleSeesOnlyThePromptText(svc: Services, text: string)
    ensures |Take(text, PromptTextLimit)| <= PromptTextLimit
    ensures ModelTitle(svc, text) == ModelTitle(svc, Take(text, PromptTextLimit))
  {
    var shown := Take(text, PromptTextLimit);
    assert Take(shown, PromptTextLimit) == shown;
  }

  /** `compare_titles_with_chatgpt(title1, title2)`. */
  function TitlesMatch(svc: Services, title1: string, title2: string): bool {
    SameTitleFromReply(svc.titleJudge(title1, title2))
  }

  // ----- worked examples -----

  /** The comparison tests for a substring, so a longer affirmative reply counts as yes. */
  lemma AffirmativeSentenceIsYes()
    ensures SameTitleFromReply(Some("Yes, they match."))
  {
    var content := "Yes, they match.";
    assert LeadingRun(content, IsSpace) == 0;
    assert content[0..] == content;
    assert TrailingRun(content, IsSpace) == 0;
    assert Trim(content) == content;
    assert Lower(content)[..3] == "yes";
    assert OccursAt("yes", Lower(content), 0);
  }

  /** A reply without "yes" is a no. */
  lemma NegativeReplyIsNo()
    ensures !SameTitleFromReply(Some("No."))
  {
    var content := "No.";
    assert LeadingRun(content, IsSpace) == 0;
    assert content[0..] == content;
    assert TrailingRun(content, IsSpace) == 0;
    assert Lower(content) == "no.";
    assert "no."[..3] != "yes" by {
      assert "no."[..3][0] == 'n';
    }
    assert "no."[1..] == "o.";
    assert !Contains("no.", "yes");
    ContainsIsOccurrence("no.", "yes");
  }

  /** A missing comparison reply is a no. */
  lemma MissingReplyIsNo()
    ensures !SameTitleFromReply(None)
  {
  }

  /** A missing reply to the DOI question gives no DOI. */
  lemma MissingReplyIsNoDoi()
    ensures DoiFromReply(None) == None
  {
  }
}
