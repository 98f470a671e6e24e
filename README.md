# doi-bot pipeline, modelled in Dafny

`doi_pipeline.py` takes a folder of research papers in PDF form and finds each paper's DOI. It
first scans the normalised text of the first five pages for the DOI pattern. If that fails, it asks
a language model to read the first three pages. A DOI passes only if the Crossref registry knows it,
and the registry's title for it is kept. The pipeline then asks the model for the paper's title from
its first page, and asks the model whether the two titles name the same paper. Every `.pdf` file gets
one result record. At the end it prints five counters and an accuracy figure.

This project models the deterministic core of that pipeline:

- `Chars` holds the parts of Python's `str` the pipeline uses:
  - whitespace as `str.isspace` and `\s` see it;
  - `strip`, `lower`, `in`, `endswith` and slicing.
- `Normalizer` is the page-text normaliser. It:
  - drops non-ASCII characters;
  - turns newlines into spaces;
  - collapses whitespace runs to one space;
  - rejoins `word- word` hyphenation breaks.
- `DoiPattern` is a hand-written scanner. It finds the matches `findall` returns for
  `10\.\d{4,9}/[^\s"<>]+`, picks the longest match (the first among equals) and strips trailing
  `.,;:`.
- `Oracles` holds the outside services, modelled as functions, and the rules for reading their replies.
- `Extraction` models `extract_doi_from_pdf`:
  - a specification function `DoiOutcome`;
  - the method `ScanPages`, which loops over the first five pages as the source does and is proved
    against the first-hit functions `ScanHit` and `ScanConfirmed`;
  - the method `CollectPages`, which loops over the first three pages and is proved equal to `Collected`;
  - the method `ExtractDoiFromPdf`, which calls the two loops and the fallback and is proved equal to
    `DoiOutcome`.
- `Pipeline` models `main`:
  - the per-file classification `FileRecord`;
  - the method `ProcessFile`, one pass of the loop body, which carries `main`'s counters and result list as a `Summary` value;
  - the loop `ProcessFolder` with its counters, proved against `Summarize`;
  - the counting identities;
  - the accuracy line.
- `Scenario` is a worked run on one paper. The model judges it a success with 100% accuracy.

The normaliser is not idempotent, although it is sometimes described as if it were. The code
rejoins hyphenation breaks in one non-overlapping left-to-right pass. That pass turns `a- b- c` into
`ab- c`, and a second pass gives `abc`. The model follows the code, and
`NormalizeJoinsOneBreakOfAChain` and `NormalizeJoinsTheLeftoverBreak` show both steps. The rejoin
pass is the only step that is not idempotent. Each of the other steps is:
- the ASCII filter (`DropNonAsciiIdempotent`);
- the newline replacement (`NewlinesToSpacesIdempotent`);
- the whitespace collapse (`CollapseIdempotent`).

The punctuation strip (`StripTrailingPunctIdempotent`) and `strip()` (`TrimIdempotent`) are idempotent
too.

## Model

| member | source | states |
|---|---|---|
| Chars.Trim | doi_pipeline.py:94 | the stripped text is no longer than the input and neither starts nor ends with whitespace |
| Chars.TrimDropsOnlyOuterSpace | doi_pipeline.py:94 | stripping keeps one contiguous piece of the input and removes only whitespace before and after it |
| Chars.TrimIdempotent | doi_pipeline.py:94 | stripping twice is stripping once |
| Chars.ContainsIsOccurrence | doi_pipeline.py:96 | the substring search answers yes exactly when some window of the text equals the needle |
| Chars.Take | doi_pipeline.py:62 | `[:n]` gives at most `n` characters, a prefix of the text, all of it when the text is short, exactly `n` when it is long |
| Normalizer.DropNonAscii | doi_pipeline.py:32 | the ASCII filter never lengthens the text, and every character it leaves is ASCII and comes from the text |
| Normalizer.NewlinesToSpaces | doi_pipeline.py:33 | newline replacement keeps the length, leaves no newline and changes no other character |
| Normalizer.CollapseSpaces | doi_pipeline.py:34 | the collapse never lengthens the text and leaves no two adjacent whitespace characters; every whitespace character left is a plain space; every character left is a space or comes from the text; the result starts with whitespace exactly when the input does |
| Normalizer.CollapseKeepsContent | doi_pipeline.py:34 | the collapse changes only whitespace: the other characters stay, in order |
| Normalizer.CollapseIdempotent | doi_pipeline.py:34 | collapsing twice is collapsing once |
| Normalizer.CollapseFixesSpacedText | doi_pipeline.py:34 | text whose only whitespace is single spaces is left unchanged by the collapse |
| Normalizer.CollapseRun | doi_pipeline.py:34 | a non-empty whitespace run on its own becomes exactly one space |
| Normalizer.CollapseConcat | doi_pipeline.py:34 | the collapse works piece by piece wherever the cut does not fall inside a whitespace run |
| Normalizer.CollapseGap | doi_pipeline.py:34 | a whitespace run between two pieces of text that do not end or start with whitespace becomes one space, and the pieces are collapsed on their own |
| Normalizer.DropNonAsciiKeepsAscii | doi_pipeline.py:32 | ASCII text passes the filter unchanged |
| Normalizer.NewlinesToSpacesKeepsLines | doi_pipeline.py:33 | text without newlines passes the replacement unchanged |
| Normalizer.DropNonAsciiIdempotent | doi_pipeline.py:32 | filtering out non-ASCII characters twice is filtering once |
| Normalizer.NewlinesToSpacesIdempotent | doi_pipeline.py:33 | replacing newlines twice is replacing once |
| Normalizer.NewlineBecomesSpace | doi_pipeline.py:33 | every newline becomes a plain space |
| Normalizer.NewlinesToSpacesKeepsContent | doi_pipeline.py:33 | the replacement keeps every character other than whitespace, in order |
| Normalizer.DropNonAsciiConcat | doi_pipeline.py:32 | the ASCII filter works piece by piece: filtering `a + b` is filtering `a`, then `b` |
| Normalizer.DropNonAsciiChar | doi_pipeline.py:32 | a single character survives the filter exactly when it is ASCII; with the previous row this fixes the filter's result on every text |
| Normalizer.Dehyphenate | doi_pipeline.py:35 | rejoining breaks never lengthens the text and keeps its first character |
| Normalizer.DehyphenateKeepsCharacters | doi_pipeline.py:35 | rejoining breaks introduces no character the text did not have |
| Normalizer.DehyphenateKeepsSpacing | doi_pipeline.py:35 | rejoining breaks creates no pair of adjacent whitespace characters |
| Normalizer.DehyphenateKeepsContent | doi_pipeline.py:35 | rejoining breaks deletes only hyphens and whitespace: every other character stays, in order |
| Normalizer.DehyphenateJoinsBreak | doi_pipeline.py:35 | a text that starts with a word, a hyphen, a whitespace run and a second word, followed by nothing or by a character that is not a word character, loses the hyphen and the whitespace: the two words are glued together and the pass goes on after the second word |
| Normalizer.DehyphenateKeepsWord | doi_pipeline.py:35 | a text that starts with a whole word not followed by a break (a hyphen, whitespace and a word character) keeps that word unchanged, and the pass goes on after it |
| Normalizer.DehyphenateSkip | doi_pipeline.py:35 | a character that cannot start a word is kept, and the pass goes on after it; with the two lemmas above this fixes the pass on every text |
| Normalizer.BreakInMidTextIsJoined | doi_pipeline.py:35 | `x a- b` becomes `x ab`: a break after earlier words is rejoined too |
| Normalizer.DehyphenateWithoutBreak | doi_pipeline.py:35 | text in which no hyphen is followed by whitespace is left unchanged, so hyphens inside words stay |
| Normalizer.CompoundWordIsKept | doi_pipeline.py:35 | `well-known` is left as it is |
| Normalizer.DehyphenateChain | doi_pipeline.py:35 | `a- b- c` becomes `ab- c`: the pass does not look again at the word it consumed |
| Normalizer.Normalize | doi_pipeline.py:31-35 | normalised text is no longer than the page text, is all ASCII, has no newline, holds only plain spaces as whitespace and has no two adjacent whitespace characters |
| Normalizer.NormalizeSpacedAscii | doi_pipeline.py:31-35 | on ASCII text without newlines and with single spaces, the normaliser only rejoins breaks |
| Normalizer.NormalizeKeepsContent | doi_pipeline.py:31-35 | normalised text holds exactly the characters of the ASCII-filtered page text other than whitespace and hyphens, in order |
| Normalizer.NormalizeJoinsOneBreakOfAChain | doi_pipeline.py:31-35 | normalising `a- b- c` gives `ab- c` |
| Normalizer.NormalizeJoinsTheLeftoverBreak | doi_pipeline.py:31-35 | normalising `ab- c` gives `abc`, so normalising twice differs from normalising once |
| DoiPattern.MatchEndSound | doi_pipeline.py:36-39 | what the scanner reports at a position has the DOI shape and cannot be extended by another suffix character |
| DoiPattern.MatchEndComplete | doi_pipeline.py:36-39 | every maximal piece of text of the DOI shape is found by the scanner at its start |
| DoiPattern.Spans | doi_pipeline.py:40 | the spans are matches of the pattern, inside the text, left to right and not overlapping |
| DoiPattern.SpansCoverEveryMatchStart | doi_pipeline.py:40 | any position where a match could start lies inside a reported span |
| DoiPattern.MatchesAreTheLeftmostDois | doi_pipeline.py:36-40 | every match has the DOI shape, `10.`, 4 to 9 digits, `/`, and at least one character other than whitespace, `"`, `<` or `>`; every match is maximal; matches are ordered and disjoint; and every piece of text of that shape starts inside a match |
| DoiPattern.LongestIndex | doi_pipeline.py:42 | the chosen match is at least as long as every match and longer than every earlier one |
| DoiPattern.StripTrailingPunct | doi_pipeline.py:43 | the strip is a prefix of its input, removes only `.,;:` and leaves no trailing `.,;:` |
| DoiPattern.StripTrailingPunctIdempotent | doi_pipeline.py:43 | stripping twice is stripping once |
| DoiPattern.CandidateIsLongestMatch | doi_pipeline.py:40-43 | a page has a candidate exactly when it has a match; the candidate is the stripped first longest match and starts with `10.`, 4 to 9 digits and `/` |
| DoiPattern.TrailingDotIsStripped | doi_pipeline.py:40-43 | in `10.1234/xyz.` the candidate is `10.1234/xyz` |
| Oracles.RegistryTitleIsStripped | doi_pipeline.py:112-116 | the registry gives a title exactly when it lists one; the title is the listed one with its surrounding whitespace stripped, and stripping again changes nothing |
| Oracles.DoiFromReplyReadsAbsence | doi_pipeline.py:93-101 | a model reply gives a DOI exactly when there is a reply whose stripped, lower-cased text does not contain `doi not found`; the DOI is the stripped reply |
| Oracles.ModelTitleSeesOnlyThePromptText | doi_pipeline.py:127-129 | the title model is shown at most 3000 characters, and cutting the text to its first 3000 characters beforehand changes nothing |
| Oracles.TitleFromReplyIsStripped | doi_pipeline.py:140-145 | a title reply gives a title exactly when there is a reply; the title is the stripped reply |
| Oracles.SameTitleFromReplyReadsYes | doi_pipeline.py:176-184 | the titles match exactly when there is a reply whose stripped, lower-cased text contains `yes` |
| Oracles.AffirmativeSentenceIsYes | doi_pipeline.py:177-180 | `Yes, they match.` counts as yes |
| Oracles.NegativeReplyIsNo | doi_pipeline.py:177-182 | `No.` counts as no |
| Oracles.MissingReplyIsNo | doi_pipeline.py:183-184 | no comparison reply means the titles do not match |
| Oracles.MissingReplyIsNoDoi | doi_pipeline.py:100-101 | no reply to the DOI question means no DOI |
| Extraction.FirstFound | doi_pipeline.py:26-41 | the scan stops at the first position holding a candidate, and every position before it holds none |
| Extraction.ScanHit | doi_pipeline.py:25-26 | the page the scan stops at is one of the first `min(5, page count)` pages |
| Extraction.FirstCandidatePage | doi_pipeline.py:26-41 | the page the scan stops at has a candidate and the pages before it have none |
| Extraction.ScanPages | doi_pipeline.py:25-49 | the scan loop returns a DOI exactly when the first page with a candidate has one the registry confirms, and then returns that candidate with the registry's title |
| Extraction.CollectPages | doi_pipeline.py:50-61 | the collecting loop builds the normalised texts of the non-blank pages among the first three, each followed by a space |
| Extraction.ExtractDoiFromPdf | doi_pipeline.py:22-78 | the method returns exactly `DoiOutcome`: nothing for an unreadable document, the confirmed scan result, or the fallback's result on the first three pages' text cut to 3000 characters |
| Extraction.ConfirmedScanReturnsIt | doi_pipeline.py:41-47 | a confirmed first candidate is returned with its registry title and the flag clear |
| Extraction.UnconfirmedScanGoesToFallback | doi_pipeline.py:44-49 | an unconfirmed first candidate sends the extraction to the fallback, whatever later pages hold |
| Extraction.ReturnedDoiIsConfirmed | doi_pipeline.py:44-69 | a returned DOI is non-empty and comes with the registry's non-empty title for it; no DOI means no title |
| Extraction.ScannedDoiComesFromFirstMatchingPage | doi_pipeline.py:25-46 | a DOI found by the scan is the candidate of the first of the first five pages that has one, and has the DOI prefix |
| Extraction.FallbackFlagMeansFallback | doi_pipeline.py:44-75 | the fallback flag is set exactly when the document opened and the scan was not confirmed; a confirmed scan does not depend on the model at all |
| Extraction.FallbackSeesOnlyCollectedText | doi_pipeline.py:50-63 | the fallback consults the model only about the collected text, which has at most 3000 characters |
| Extraction.FallbackExits | doi_pipeline.py:62-75 | every fallback exit sets the flag; a missing or unconfirmed model DOI ends with neither DOI nor title; a returned DOI is the model's, with its registry title |
| Extraction.ExtractionReadsAtMostFivePages | doi_pipeline.py:25-61 | pages after the fifth never change the outcome |
| Chars.Lower | doi_pipeline.py:197 | `lower()` keeps the length; with `LowerFoldsOnlyCapitals` and `PdfNameIgnoresCase` its effect on the tests the pipeline makes is fixed |
| Chars.LowerFoldsOnlyCapitals | doi_pipeline.py:197 | lower-casing leaves no capital ASCII letter: each capital becomes its small letter and every other character is kept (non-ASCII letters are not folded; see "## Left out") |
| Pipeline.PdfNameIgnoresCase | doi_pipeline.py:197 | a file is taken as a paper exactly when its name ends in `.pdf` in any mix of upper and lower case |
| Pipeline.FirstPageText | doi_pipeline.py:151-161 | the first-page text exists exactly when the document opens, has a page, and that page has text; it is that text |
| Pipeline.FileRecordClassifies | doi_pipeline.py:200-256 | a file is not found exactly when extraction gives no DOI, and then holds the marker and no titles; otherwise it holds the DOI and the confirmed registry title; a model title is recorded only for the last two outcomes; success holds exactly when the first page has text, the model gives a title and the titles are judged the same |
| Pipeline.ProcessFolder | doi_pipeline.py:189-258 | the loop computes `Summarize`; records = not found + `total_pdfs`; successes + failures = `total_pdfs`; one record per `.pdf` file; the accuracy is the guarded one |
| Pipeline.ProcessFile | doi_pipeline.py:198-256 | processing one `.pdf` file appends its record, adds one to the fallback counter exactly when extraction used the model, and adds one to the not-found, `total_pdfs`, success and failure counters exactly when the record's status calls for it |
| Pipeline.TallyStep | doi_pipeline.py:196-256 | one `.pdf` file processed that way keeps every counter equal to the count of its status class over the records so far |
| Pipeline.CountInSnoc | doi_pipeline.py:207-256 | appending a record adds its share to every status count |
| Pipeline.SummaryCountsAddUp | doi_pipeline.py:196-256 | records = not found + `total_pdfs`, and successes + failures = `total_pdfs` |
| Pipeline.SummaryOfOneMoreFile | doi_pipeline.py:196-256 | an entry that is not a `.pdf` file changes nothing; a `.pdf` file appends its record; without a DOI it counts as not found and leaves `total_pdfs` alone; otherwise it adds one to `total_pdfs` and to exactly one of the successes and the failures; the fallback counter follows the flag |
| Pipeline.SingleFileFolder | doi_pipeline.py:196-256 | the counters of a folder holding one `.pdf` file |
| Pipeline.EveryPdfFileHasOneRecord | doi_pipeline.py:196-197 | there is one record per `.pdf` file, in directory order, with that file's name |
| Pipeline.FallbackCountBounded | doi_pipeline.py:201-202 | the fallback counter is at most the number of `.pdf` files |
| Pipeline.NotFoundMarkerIsUnambiguous | doi_pipeline.py:203-213 | a record's DOI field holds `DOI not found` exactly when its status is not found |
| Pipeline.OutcomeIsNeverTheMarker | doi_pipeline.py:25-101 | extraction never returns the text `DOI not found` as a DOI: the scanner's DOIs start with `10.`, and the model's reply `DOI not found` reads as no DOI |
| Pipeline.MarkerMentionsNotFound | doi_pipeline.py:96 | the marker, read as a model reply, says `doi not found` |
| Pipeline.AccuracyAsWritten | doi_pipeline.py:258 | the accuracy line divides by zero exactly when `total_pdfs` is 0 |
| Pipeline.NoDoiFoundFaults | doi_pipeline.py:258 | a folder in which no `.pdf` file yields a DOI makes the accuracy line divide by zero |
| Pipeline.EmptyFolderFaults | doi_pipeline.py:258 | an empty folder makes the accuracy line divide by zero |
| Pipeline.Accuracy | doi_pipeline.py:258 | the guarded accuracy is undefined exactly when `total_pdfs` is 0, else a percentage between 0 and 100, and 100 exactly when every counted file succeeded |
| Pipeline.AccuracyOfEveryFolder | doi_pipeline.py:258 | on every folder the guarded accuracy is defined exactly when the line as written does not fault, and then agrees with it |
| Scenario.OnePaperFolder | doi_pipeline.py:189-258 | a folder whose one paper cites `10.5555/test.001`, with a registry that knows it and a model that echoes its title, gives one success and 100% accuracy |

## Left out

- Unicode decomposition (`unicodedata.normalize('NFKD', …)`, lines 31 and 56) is not modelled, because the decomposition tables are out of reach. Each page text stands for its decomposed form, and the ASCII filter that follows is modelled. `extract_title_from_pdf` (lines 151-161) hands `get_title_chatgpt` the raw first page without decomposition, while the model gives the title oracle that same page text, so the model does not tell the raw first page from its decomposed form.
- PDF reading (pdfplumber, lines 24 and 153-158) is not modelled. A document is either unreadable or a sequence of page texts, each possibly missing. An exception raised while reading a single page is not modelled. Both readings of a file, in `extract_doi_from_pdf` and in `extract_title_from_pdf`, are assumed to see the same document.
- The Crossref request (lines 106-125) is an oracle that gives the raw first title or nothing. The status check, the JSON lookup and exceptions all give nothing. The model strips the title as line 116 does. Each service is a function, so it answers a repeated question the same way: the registry is asked about a candidate at line 45 and about the model's DOI at line 67, and two requests for the same DOI, which the source makes separately and which could differ, are one answer here.
- The language-model calls (lines 80-92, 127-149, 163-175) are oracles that give the reply text or nothing. The prompts, model name and token limits are not modelled.
- The retry wrapper (lines 11-20) makes at most one call and turns any exception into nothing, so it is folded into the oracles.
- Reading the API key from the environment (line 9), console output, `os.listdir`, `os.path.join`, the command line and `input` (lines 196, 198, 259-271) are not modelled. The folder is a sequence of entries in listing order.
- Chars.Lower: folds only ASCII letters. Python's `lower()` also folds other letters. Only two non-ASCII characters fold to ASCII: the Kelvin sign becomes `k`, and U+0130 becomes `i` plus U+0307. Neither can form `.pdf`, `yes` or `doi not found`, so the tests the pipeline makes with it are unaffected.
- Normalizer.IsWordChar and DoiPattern.IsDigit: `\w` and `\d` are taken on ASCII only, because the text reaching them has already passed the ASCII filter.
- Pipeline.Accuracy: computes the percentage in exact rationals, not floating point. The `.2f` formatting is left out.

## Findings

| source | as written | input that shows it | evidently intended | confidence | as-written member | corrected member |
|---|---|---|---|---|---|---|
| doi_pipeline.py:258 | the accuracy divides the successes by `total_pdfs` with no guard | an empty folder, or one where no `.pdf` file yields a DOI: `total_pdfs` is 0 and the division raises `ZeroDivisionError` after every file was processed | report the accuracy only when at least one DOI was found | high, not executed | Pipeline.AccuracyAsWritten (with Pipeline.NoDoiFoundFaults, Pipeline.EmptyFolderFaults) | Pipeline.Accuracy (with Pipeline.AccuracyOfEveryFolder) |
