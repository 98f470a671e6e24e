/**
 * `main` of doi_pipeline.py (lines 189-264): every file of the folder whose name ends in `.pdf` is
 * classified by a four-step check (DOI found, first page readable, title from the model, titles
 * agree), one record is appended per such file, and five counters are kept.
 */
module Pipeline {
  import opened Wrappers
  import opened Chars
  import opened Oracles
  import opened Extraction

  /** The status strings of the result records. */
  datatype Status = Success | DoiNotFound | PdfTextExtractionFailed | TitleExtractionFailed | TitlesDoNotMatch

  function StatusText(st: Status): string {
    match st
    case Success => "Success"
    case DoiNotFound => "DOI not found"
    case PdfTextExtractionFailed => "Fail (PDF text extraction failed)"
    case TitleExtractionFailed => "Fail (ChatGPT title extraction failed)"
    case TitlesDoNotMatch => "Fail (Titles do not match)"
  }

  /** The statuses of a file whose DOI was found, and among them those that are failures. */
  const FoundStatuses: set<Status> := {Success, PdfTextExtractionFailed, TitleExtractionFailed, TitlesDoNotMatch}
  const FailStatuses: set<Status> := {PdfTextExtractionFailed, TitleExtractionFailed, TitlesDoNotMatch}

  /** What the `doi` field holds when no DOI was found. */
  const NotFoundMarker: string := "DOI not found"

  /** One entry of `results`. */
  datatype ResultRecord = ResultRecord(
    filename: string,
    doi: string,
    crossrefTitle: Option<string>,
    chatgptTitle: Option<string>,
    status: Status)

  /** A directory entry: its name and the document behind it. */
  datatype FileEntry = FileEntry(name: string, pdf: Pdf)

  /** What `main` has computed when the loop ends. */
  datatype Summary = Summary(
    totalPdfs: nat,
    successfulMatches: nat,
    numUsedChatgptDoiExtraction: nat,
    numDoiNotFound: nat,
    numFailedWithAllValuesExtracted: nat,
    results: seq<ResultRecord>)

  /** `filename.lower().endswith('.pdf')`. */
  predicate IsPdfName(name: string) {
    EndsWith(Lower(name), ".pdf")
  }

  /**
   * A name is a `.pdf` name exactly when it ends in a dot followed by `p`, `d` and `f`, each in either
   * case.
   */
  lemma PdfNameIgnoresCase(name: string)
    ensures IsPdfName(name) <==>
              && |name| >= 4
              && name[|name| - 4] == '.'
              && (name[|name| - 3] == 'p' || name[|name| - 3] == 'P')
              && (name[|name| - 2] == 'd' || name[|name| - 2] == 'D')
              && (name[|name| - 1] == 'f' || name[|name| - 1] == 'F')
  {
    if |name| >= 4 {
      var n := |name|;
      var tail := Lower(name)[n - 4..];
      assert tail[0] == LowerChar(name[n - 4]) && tail[1] == LowerChar(name[n - 3]);
      assert tail[2] == LowerChar(name[n - 2]) && tail[3] == LowerChar(name[n - 1]);
      assert tail == ".pdf" <==> tail[0] == '.' && tail[1] == 'p' && tail[2] == 'd' && tail[3] == 'f';
    }
  }

  /**
   * `extract_title_from_pdf`: the text of the first page, or nothing when the document does not open,
   * has no page (the index error is caught) or its first page has no text.
   */
  function FirstPageText(pdf: Pdf): (t: Option<string>)
    ensures t.Some? <==> pdf.Pages? && |pdf.texts| > 0 && !Blank(pdf.texts[0])
    ensures t.Some? ==> Some(t.value) == pdf.texts[0]
  {
    if pdf.Unreadable? || |pdf.texts| == 0 || Blank(pdf.texts[0]) then None else pdf.texts[0]
  }

  /** The record `main` appends for a `.pdf` file, after the four steps of lines 200-256. */
  function FileRecord(entry: FileEntry, svc: Services): ResultRecord {
    var extracted := DoiOutcome(entry.pdf, svc);
    ReturnedDoiIsConfirmed(entry.pdf, svc);
    if !Truthy(extracted.doi) then
      ResultRecord(entry.name, NotFoundMarker, None, None, DoiNotFound)
    else
      var doi, crossrefTitle := extracted.doi.value, extracted.title;
      var pdfText := FirstPageText(entry.pdf);
      if !Truthy(pdfText) then
        ResultRecord(entry.name, doi, crossrefTitle, None, PdfTextExtractionFailed)
      else
        var chatgptTitle := ModelTitle(svc, pdfText.value);
        if !Truthy(chatgptTitle) then
          ResultRecord(entry.name, doi, crossrefTitle, None, TitleExtractionFailed)
        else if TitlesMatch(svc, crossrefTitle.value, chatgptTitle.value) then
          ResultRecord(entry.name, doi, crossrefTitle, chatgptTitle, Success)
        else
          ResultRecord(entry.name, doi, crossrefTitle, chatgptTitle, TitlesDoNotMatch)
  }

  /**
   * The classification of one file. A file without a DOI is recorded as not found, with the marker and
   * no titles; a file with one holds the DOI and its confirmed registry title, and reaches `Success`
   * exactly when its first page has text, the model gives a title for it and the model judges that title
   * the same as the registry's.
   */
  lemma FileRecordClassifies(entry: FileEntry, svc: Services)
    ensures var r, o := FileRecord(entry, svc), DoiOutcome(entry.pdf, svc);
            && r.filename == entry.name
            && (r.status == DoiNotFound <==> o.doi.None?)
            && (r.status == DoiNotFound ==> r.doi == NotFoundMarker && r.crossrefTitle.None? && r.chatgptTitle.None?)
            && (r.status != DoiNotFound ==>
                  && Some(r.doi) == o.doi && r.doi != []
                  && r.crossrefTitle == o.title && Truthy(r.crossrefTitle))
            && (r.chatgptTitle.Some? <==> r.status == Success || r.status == TitlesDoNotMatch)
            && (r.status == Success <==>
                  && r.status != DoiNotFound
                  && Truthy(FirstPageText(entry.pdf))
                  && Truthy(ModelTitle(svc, FirstPageText(entry.pdf).value))
                  && TitlesMatch(svc, r.crossrefTitle.value, ModelTitle(svc, FirstPageText(entry.pdf).value).value))
  {
    ReturnedDoiIsConfirmed(entry.pdf, svc);
  }

  /** The records `main` appends for the first `n` directory entries, in directory order. */
  function Records(files: seq<FileEntry>, n: nat, svc: Services): seq<ResultRecord>
    requires n <= |files|
  {
    if n == 0 then []
    else Records(files, n - 1, svc) + (if IsPdfName(files[n - 1].name) then [FileRecord(files[n - 1], svc)] else [])
  }

  /** The `.pdf` names among the first `n` directory entries, in directory order. */
  function PdfNames(files: seq<FileEntry>, n: nat): seq<string>
    requires n <= |files|
  {
    if n == 0 then []
    else PdfNames(files, n - 1) + (if IsPdfName(files[n - 1].name) then [files[n - 1].name] else [])
  }

  /** How many of the first `n` `.pdf` files went through the language-model fallback. */
  function FallbackCount(files: seq<FileEntry>, n: nat, svc: Services): nat
    requires n <= |files|
  {
    if n == 0 then 0
    else FallbackCount(files, n - 1, svc)
         + (if IsPdfName(files[n - 1].name) && DoiOutcome(files[n - 1].pdf, svc).usedFallback then 1 else 0)
  }

  /** How many records have a status in `sts`. */
  function CountIn(rs: seq<ResultRecord>, sts: set<Status>): nat {
    if rs == [] then 0
    else CountIn(rs[..|rs| - 1], sts) + (if rs[|rs| - 1].status in sts then 1 else 0)
  }

  /** The counters and records `main` holds after the whole folder. */
  function Summarize(files: seq<FileEntry>, svc: Services): Summary {
    var rs := Records(files, |files|, svc);
    Summary(
      CountIn(rs, FoundStatuses),
      CountIn(rs, {Success}),
      FallbackCount(files, |files|, svc),
      CountIn(rs, {DoiNotFound}),
      CountIn(rs, FailStatuses),
      rs)
  }

  /**
   * The body of `main`'s loop for one `.pdf` file (lines 198-256): extract the DOI, read the first page,
   * ask the model for the title, compare the titles. Each exit increments its counters and appends the
   * file's record, so the counters move exactly as the record's status says.
   */
  method ProcessFile(entry: FileEntry, svc: Services, before: Summary) returns (after: Summary)
    ensures var r := FileRecord(entry, svc);
            && after.results == before.results + [r]
            && after.numUsedChatgptDoiExtraction
               == before.numUsedChatgptDoiExtraction + (if DoiOutcome(entry.pdf, svc).usedFallback then 1 else 0)
            && after.numDoiNotFound == before.numDoiNotFound + (if r.status == DoiNotFound then 1 else 0)
            && after.totalPdfs == before.totalPdfs + (if r.status in FoundStatuses then 1 else 0)
            && after.successfulMatches == before.successfulMatches + (if r.status == Success then 1 else 0)
            && after.numFailedWithAllValuesExtracted
               == before.numFailedWithAllValuesExtracted + (if r.status in FailStatuses then 1 else 0)
  {
    after := before;
    var doi, crossrefTitle, usedChatgptDoiExtraction := ExtractDoiFromPdf(entry.pdf, svc);
    ReturnedDoiIsConfirmed(entry.pdf, svc);
    if usedChatgptDoiExtraction {
      after := after.(numUsedChatgptDoiExtraction := after.numUsedChatgptDoiExtraction + 1);
    }
    if !Truthy(doi) {
      after := after.(numDoiNotFound := after.numDoiNotFound + 1);
      after := after.(results := after.results + [ResultRecord(entry.name, NotFoundMarker, None, None, DoiNotFound)]);
      return;
    }
    after := after.(totalPdfs := after.totalPdfs + 1);
    var pdfText := FirstPageText(entry.pdf);
    if !Truthy(pdfText) {
      after := after.(numFailedWithAllValuesExtracted := after.numFailedWithAllValuesExtracted + 1);
      after := after.(results := after.results + [ResultRecord(entry.name, doi.value, crossrefTitle, None, PdfTextExtractionFailed)]);
      return;
    }
    var chatgptTitle := ModelTitle(svc, pdfText.value);
    if !Truthy(chatgptTitle) {
      after := after.(numFailedWithAllValuesExtracted := after.numFailedWithAllValuesExtracted + 1);
      after := after.(results := after.results + [ResultRecord(entry.name, doi.value, crossrefTitle, None, TitleExtractionFailed)]);
      return;
    }
    var titlesMatch := TitlesMatch(svc, crossrefTitle.value, chatgptTitle.value);
    var status;
    if titlesMatch {
      status := Success;
      after := after.(successfulMatches := after.successfulMatches + 1);
    } else {
      status := TitlesDoNotMatch;
      after := after.(numFailedWithAllValuesExtracted := after.numFailedWithAllValuesExtracted + 1);
    }
    after := after.(results := after.results + [ResultRecord(entry.name, doi.value, crossrefTitle, chatgptTitle, status)]);
  }

  /**
   * `main`: the loop over the directory entries with its five counters and the result list, then the
   * accuracy, which is left undefined when no DOI was found (see `AccuracyAsWritten`).
   */
  method ProcessFolder(files: seq<FileEntry>, svc: Services) returns (s: Summary, accuracy: Option<real>)
    ensures s == Summarize(files, svc)
    ensures |s.results| == s.numDoiNotFound + s.totalPdfs
    ensures s.successfulMatches + s.numFailedWithAllValuesExtracted == s.totalPdfs
    ensures |s.results| == |PdfNames(files, |files|)|
    ensures accuracy == Accuracy(s)
  {
    s := Summary(0, 0, 0, 0, 0, []);
    for i := 0 to |files|
      invariant Tallied(files, i, svc, s)
    {
      var entry := files[i];
      if IsPdfName(entry.name) {
        ghost var before := s;
        s := ProcessFile(entry, svc, s);
        TallyStep(files, i, svc, before, s);
      }
    }
    SummaryCountsAddUp(files, svc);
    EveryPdfFileHasOneRecord(files, |files|, svc);
    accuracy := Accuracy(s);
  }

  /** The loop invariant of `main`: after `n` entries, the records and counters are those of the `.pdf` files among them. */
  predicate Tallied(files: seq<FileEntry>, n: nat, svc: Services, s: Summary)
    requires n <= |files|
  {
    && s.results == Records(files, n, svc)
    && s.totalPdfs == CountIn(s.results, FoundStatuses)
    && s.successfulMatches == CountIn(s.results, {Success})
    && s.numUsedChatgptDoiExtraction == FallbackCount(files, n, svc)
    && s.numDoiNotFound == CountIn(s.results, {DoiNotFound})
    && s.numFailedWithAllValuesExtracted == CountIn(s.results, FailStatuses)
  }

  /** One `.pdf` entry processed as `ProcessFile` promises keeps the loop invariant. */
  lemma TallyStep(files: seq<FileEntry>, i: nat, svc: Services, before: Summary, after: Summary)
    requires i < |files| && IsPdfName(files[i].name) && Tallied(files, i, svc, before)
    requires var r := FileRecord(files[i], svc);
             && after.results == before.results + [r]
             && after.numUsedChatgptDoiExtraction
                == before.numUsedChatgptDoiExtraction + (if DoiOutcome(files[i].pdf, svc).usedFallback then 1 else 0)
             && after.numDoiNotFound == before.numDoiNotFound + (if r.status == DoiNotFound then 1 else 0)
             && after.totalPdfs == before.totalPdfs + (if r.status in FoundStatuses then 1 else 0)
             && after.successfulMatches == before.successfulMatches + (if r.status == Success then 1 else 0)
             && after.numFailedWithAllValuesExtracted
                == before.numFailedWithAllValuesExtracted + (if r.status in FailStatuses then 1 else 0)
    ensures Tallied(files, i + 1, svc, after)
  {
    var r := FileRecord(files[i], svc);
    CountInSnoc(before.results, r, FoundStatuses);
    CountInSnoc(before.results, r, {Success});
    CountInSnoc(before.results, r, {DoiNotFound});
    CountInSnoc(before.results, r, FailStatuses);
  }

  /** `results.append(record)`: counting over the longer list adds the new record's share. */
  lemma CountInSnoc(rs: seq<ResultRecord>, record: ResultRecord, sts: set<Status>)
    ensures CountIn(rs + [record], sts) == CountIn(rs, sts) + (if record.status in sts then 1 else 0)
  {
    assert (rs + [record])[..|rs|] == rs;
  }

  // ----- counting -----

  /** Counting over two disjoint sets of statuses adds up. */
  lemma {:induction false} CountInUnion(rs: seq<ResultRecord>, a: set<Status>, b: set<Status>)
    requires a !! b
    ensures CountIn(rs, a + b) == CountIn(rs, a) + CountIn(rs, b)
    decreases |rs|
  {
    if rs != [] {
      CountInUnion(rs[..|rs| - 1], a, b);
    }
  }

  /** Every record has some status, so counting over all of them counts every record. */
  lemma {:induction false} CountInAll(rs: seq<ResultRecord>)
    ensures CountIn(rs, {DoiNotFound} + FoundStatuses) == |rs|
    decreases |rs|
  {
    if rs != [] {
      CountInAll(rs[..|rs| - 1]);
      assert rs[|rs| - 1].status in {DoiNotFound} + FoundStatuses by {
        match rs[|rs| - 1].status
        case DoiNotFound =>
        case _ =>
      }
    }
  }

  /**
   * The two identities of the counters: every record is either a not-found one or one of `total_pdfs`,
   * and every counted file is either a success or a failure.
   */
  lemma SummaryCountsAddUp(files: seq<FileEntry>, svc: Services)
    ensures var s := Summarize(files, svc);
            && |s.results| == s.numDoiNotFound + s.totalPdfs
            && s.successfulMatches + s.numFailedWithAllValuesExtracted == s.totalPdfs
  {
    var rs := Records(files, |files|, svc);
    CountInAll(rs);
    CountInUnion(rs, {DoiNotFound}, FoundStatuses);
    assert FoundStatuses == {Success} + FailStatuses;
    CountInUnion(rs, {Success}, FailStatuses);
  }

  /** Each `.pdf` file gets exactly one record, in directory order, and no other file gets one. */
  lemma {:induction false} EveryPdfFileHasOneRecord(files: seq<FileEntry>, n: nat, svc: Services)
    requires n <= |files|
    ensures |Records(files, n, svc)| == |PdfNames(files, n)|
    ensures forall k :: 0 <= k < |Records(files, n, svc)| ==> Records(files, n, svc)[k].filename == PdfNames(files, n)[k]
    decreases n
  {
    if n > 0 {
      EveryPdfFileHasOneRecord(files, n - 1, svc);
    }
  }

  lemma {:induction false} RecordsOnPrefix(files: seq<FileEntry>, more: seq<FileEntry>, n: nat, svc: Services)
    requires n <= |files|
    ensures Records(files + more, n, svc) == Records(files, n, svc)
    ensures FallbackCount(files + more, n, svc) == FallbackCount(files, n, svc)
    decreases n
  {
    if n > 0 {
      assert (files + more)[n - 1] == files[n - 1];
      RecordsOnPrefix(files, more, n - 1, svc);
    }
  }

  /**
   * What one more directory entry does to the counters: a non-`.pdf` entry changes nothing; a `.pdf`
   * file appends its record; without a DOI it counts as not found and leaves `total_pdfs` alone,
   * otherwise it adds one to `total_pdfs` and to exactly one of the successes and the failures.
   */
  lemma SummaryOfOneMoreFile(files: seq<FileEntry>, entry: FileEntry, svc: Services)
    ensures var s, s' := Summarize(files, svc), Summarize(files + [entry], svc);
            var found := DoiOutcome(entry.pdf, svc).doi.Some?;
            var success := FileRecord(entry, svc).status == Success;
            && (!IsPdfName(entry.name) ==> s' == s)
            && (IsPdfName(entry.name) ==>
                 && s'.results == s.results + [FileRecord(entry, svc)]
                 && s'.numUsedChatgptDoiExtraction
                    == s.numUsedChatgptDoiExtraction + (if DoiOutcome(entry.pdf, svc).usedFallback then 1 else 0)
                 && s'.numDoiNotFound == s.numDoiNotFound + (if found then 0 else 1)
                 && s'.totalPdfs == s.totalPdfs + (if found then 1 else 0)
                 && s'.successfulMatches == s.successfulMatches + (if found && success then 1 else 0)
                 && s'.numFailedWithAllValuesExtracted
                    == s.numFailedWithAllValuesExtracted + (if found && !success then 1 else 0))
  {
    var all := files + [entry];
    RecordsOnPrefix(files, [entry], |files|, svc);
    assert all[|all| - 1] == entry;
    var rs := Records(files, |files|, svc);
    if IsPdfName(entry.name) {
      var r := FileRecord(entry, svc);
      FileRecordClassifies(entry, svc);
      assert Records(all, |all|, svc) == rs + [r];
      CountInSnoc(rs, r, FoundStatuses);
      CountInSnoc(rs, r, {Success});
      CountInSnoc(rs, r, {DoiNotFound});
      CountInSnoc(rs, r, FailStatuses);
    } else {
      assert Records(all, |all|, svc) == rs;
    }
  }

  /** A folder with a single `.pdf` file: its record and the counters it sets. */
  lemma SingleFileFolder(entry: FileEntry, svc: Services)
    requires IsPdfName(entry.name)
    ensures var r, o := FileRecord(entry, svc), DoiOutcome(entry.pdf, svc);
            Summarize([entry], svc) == Summary(
              if o.doi.Some? then 1 else 0,
              if r.status == Success then 1 else 0,
              if o.usedFallback then 1 else 0,
              if o.doi.Some? then 0 else 1,
              if o.doi.Some? && r.status != Success then 1 else 0,
              [r])
  {
    SummaryOfOneMoreFile([], entry, svc);
    assert [] + [entry] == [entry];
  }

  /** The fallback counter never exceeds the number of `.pdf` files. */
  lemma {:induction false} FallbackCountBounded(files: seq<FileEntry>, n: nat, svc: Services)
    requires n <= |files|
    ensures FallbackCount(files, n, svc) <= |PdfNames(files, n)|
    decreases n
  {
    if n > 0 {
      FallbackCountBounded(files, n - 1, svc);
    }
  }

  /** The not-found marker cannot be taken for a DOI: a record holds it exactly when its status is not found. */
  lemma NotFoundMarkerIsUnambiguous(entry: FileEntry, svc: Services)
    ensures FileRecord(entry, svc).doi == NotFoundMarker <==> FileRecord(entry, svc).status == DoiNotFound
  {
    FileRecordClassifies(entry, svc);
    OutcomeIsNeverTheMarker(entry.pdf, svc);
  }

  /** Neither the scanner nor the model's reply handling ever yields the marker itself as a DOI. */
  lemma OutcomeIsNeverTheMarker(pdf: Pdf, svc: Services)
    ensures DoiOutcome(pdf, svc).doi != Some(NotFoundMarker)
  {
    var o := DoiOutcome(pdf, svc);
    if o.doi == Some(NotFoundMarker) {
      if o.usedFallback {
        FallbackFlagMeansFallback(pdf, svc, svc.doiModel);
        MarkerMentionsNotFound();
        assert false;
      } else {
        ScannedDoiComesFromFirstMatchingPage(pdf, svc);
        MarkerHasNoDoiPrefix();
        assert false;
      }
    }
  }

  /** The marker read by the model's reply handling says "doi not found". */
  lemma MarkerMentionsNotFound()
    ensures Trim(NotFoundMarker) == NotFoundMarker
    ensures OccursIn("doi not found", Lower(Trim(NotFoundMarker)))
  {
    assert LeadingRun(NotFoundMarker, IsSpace) == 0;
    assert NotFoundMarker[0..] == NotFoundMarker;
    assert TrailingRun(NotFoundMarker, IsSpace) == 0;
    assert Lower(NotFoundMarker)[0..13] == "doi not found";
    assert OccursAt("doi not found", Lower(NotFoundMarker), 0);
  }

  /** The marker does not start with `10.`. */
  lemma MarkerHasNoDoiPrefix()
    ensures !DoiPattern.HasDoiPrefix(NotFoundMarker)
  {
    assert NotFoundMarker[..3] != "10." by {
      assert NotFoundMarker[..3][0] == 'D';
    }
  }

  // ----- the accuracy line -----

  /** The outcome of evaluating an arithmetic expression in Python: a value, or a division by zero. */
  datatype Evaluation = Value(v: real) | ZeroDivision

  /** `(successful_matches / total_pdfs) * 100` as written: it divides by zero when no DOI was found at all. */
  function AccuracyAsWritten(s: Summary): (e: Evaluation)
    ensures e.ZeroDivision? <==> s.totalPdfs == 0
  {
    if s.totalPdfs == 0 then ZeroDivision
    else Value((s.successfulMatches as real / s.totalPdfs as real) * 100.0)
  }

  /** A folder in which no `.pdf` file yields a DOI (an empty folder among them) makes `main` fail at the accuracy line. */
  lemma {:induction false} NoDoiFoundFaults(files: seq<FileEntry>, svc: Services)
    requires forall k :: 0 <= k < |files| && IsPdfName(files[k].name) ==> DoiOutcome(files[k].pdf, svc).doi.None?
    ensures AccuracyAsWritten(Summarize(files, svc)).ZeroDivision?
  {
    NoFoundRecords(files, |files|, svc);
  }

  lemma {:induction false} NoFoundRecords(files: seq<FileEntry>, n: nat, svc: Services)
    requires n <= |files|
    requires forall k :: 0 <= k < n && IsPdfName(files[k].name) ==> DoiOutcome(files[k].pdf, svc).doi.None?
    ensures CountIn(Records(files, n, svc), FoundStatuses) == 0
    decreases n
  {
    if n > 0 {
      NoFoundRecords(files, n - 1, svc);
      var rs := Records(files, n, svc);
      if IsPdfName(files[n - 1].name) {
        assert rs[..|rs| - 1] == Records(files, n - 1, svc);
      } else {
        assert rs == Records(files, n - 1, svc);
      }
    }
  }

  /** The empty folder is the smallest such case. */
  lemma EmptyFolderFaults(svc: Services)
    ensures AccuracyAsWritten(Summarize([], svc)) == ZeroDivision
  {
  }

  /** The accuracy as a percentage, reported only when some file had a DOI. */
  function Accuracy(s: Summary): (a: Option<real>)
    requires s.successfulMatches <= s.totalPdfs
    ensures a.None? <==> s.totalPdfs == 0
    ensures a.Some? ==> 0.0 <= a.value <= 100.0
    ensures a.Some? ==> (a.value == 100.0 <==> s.successfulMatches == s.totalPdfs)
  {
    if s.totalPdfs == 0 then None
    else
      var ratio := s.successfulMatches as real / s.totalPdfs as real;
      RatioBounds(s.successfulMatches, s.totalPdfs);
      Some(ratio * 100.0)
  }

  lemma RatioBounds(num: nat, den: nat)
    requires 0 < den && num <= den
    ensures 0.0 <= num as real / den as real <= 1.0
    ensures num as real / den as real == 1.0 <==> num == den
  {
  }

  /** On every folder the corrected accuracy is defined exactly when the source's does not fault, and agrees with it. */
  lemma AccuracyOfEveryFolder(files: seq<FileEntry>, svc: Services)
    ensures Summarize(files, svc).successfulMatches <= Summarize(files, svc).totalPdfs
    ensures var s := Summarize(files, svc);
            (Accuracy(s).Some? <==> AccuracyAsWritten(s).Value?)
            && (Accuracy(s).Some? ==> Accuracy(s).value == AccuracyAsWritten(s).v)
  {
    SummaryCountsAddUp(files, svc);
  }
}
