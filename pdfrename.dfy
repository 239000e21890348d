/** The newer script, src/pdf_rename/pdf_rename.py: for every PDF of the
    work list, find a DOI, ask CrossRef, fall back on a full-text search
    when that gave no year, then either move the file to
    `<output_dir>/<year> - <I>. <Family> - <title>.pdf` or send it to the
    failure branch. Opening the PDF, the HTTP request, the full-text search
    and the two `papers` name functions are foreign: the `World` gives
    their results. */
module PdfRename {
  import opened Wrappers
  import opened Errors
  import opened Text
  import opened Json
  import opened Crossref
  import opened Fulltext
  import opened WorkList
  import opened Seqs
  import Verbosity

  /** `LEVEL = [logging.INFO, logging.DEBUG]`. */
  const LEVEL: seq<int> := [Verbosity.INFO, Verbosity.DEBUG]

  /** The level `configure_logger` gives the handlers for `-v` repeated
      `verbosity` times. */
  function LogLevel(verbosity: nat): (level: int)
    ensures level in LEVEL
    ensures verbosity == 0 ==> level == Verbosity.INFO
    ensures verbosity >= 1 ==> level == Verbosity.DEBUG
  {
    LEVEL[Verbosity.ClampIndex(verbosity, |LEVEL|)]
  }

  /** What pymupdf gives for an opened PDF: its metadata dictionary, and
      the outcome of searching the first page's text for a DOI (a match, no
      match, or the exception reading a page that is not there). */
  datatype PdfInfo = PdfInfo(metadata: map<string, string>, pageSearch: Result<Option<string>, Failure>)

  /** The foreign collaborators, as functions of their arguments.
      `open` gives None when pymupdf cannot open the file; `crossref` None
      when `requests.get` raises; `fulltext` None when `extract_pdf_metadata`
      or `bibtexparser.loads` raises. */
  datatype World = World(
    open: string -> Option<PdfInfo>,
    crossref: string -> Option<Response>,
    fulltext: string -> Option<seq<Entry>>,
    standardName: string -> string,
    familyNames: string -> seq<string>)

  /** `extract_doi_from_pdf`: a "doi" metadata entry is taken as it is and
      the page text is not searched; otherwise the page search decides. */
  function ExtractDoi(doc: Option<PdfInfo>): (r: Result<Option<string>, Failure>)
    ensures doc.None? ==> r == Err(Unreadable)
    ensures doc.Some? && "doi" in doc.value.metadata ==> r == Ok(Some(doc.value.metadata["doi"]))
    ensures doc.Some? && "doi" !in doc.value.metadata ==> r == doc.value.pageSearch
  {
    match doc
    case None => Err(Unreadable)
    case Some(info) => if "doi" in info.metadata then Ok(Some(info.metadata["doi"])) else info.pageSearch
  }

  /** `get_metadata_from_crossref(doi)` including the request. */
  function AskCrossref(reply: Option<Response>): Result<Option<Record>, Failure> {
    match reply
    case None => Err(TransportError)
    case Some(resp) => FromCrossref(resp)
  }

  /** `"%s - %s. %s - %s.pdf" % (year, first_initial, last_name, title)`. */
  function FinalName(rec: Record): string {
    Render(rec.year) + " - " + Render(rec.initial) + ". " + Render(rec.family) + " - " + Render(rec.title) + PDF
  }

  /** The file name can be read back: it ends in ".pdf", and when the year
      prints without a space (an integer always does) the text before the
      first " - " is the year. */
  lemma FinalNameLayout(rec: Record)
    ensures EndsWith(FinalName(rec), PDF)
    ensures StartsWith(FinalName(rec), Render(rec.year) + " - ")
    ensures ' ' !in Render(rec.year) ==> Split(FinalName(rec), " - ")[0] == Render(rec.year)
  {
    var rest := Render(rec.initial) + ". " + Render(rec.family) + " - " + Render(rec.title);
    assert FinalName(rec) == Render(rec.year) + " - " + rest + PDF;
    LeadingFieldRecoverable(Render(rec.year), rest, PDF);
  }

  /** The sources consulted for one document, in order. */
  datatype Source = CrossrefLookup(doi: string) | FulltextSearch

  /** How the attempt on one document ends: renamed, the `year is None`
      branch, or an exception. */
  datatype Outcome = Renamed(name: string) | NotFound | Raised(error: Failure)

  /** The file operation done on the document, given as its destination. */
  datatype Action = MoveTo(dest: string) | Keep

  datatype Report = Report(consulted: seq<Source>, outcome: Outcome, action: Action)

  /** Failure branch: moved into the failure directory under its own base
      name when one was given, left in place otherwise. */
  function FailedAction(path: string, failedDir: Option<string>): Action {
    match failedDir
    case Some(dir) => MoveTo(PathJoin(dir, Basename(path)))
    case None => Keep
  }

  function Finish(consulted: seq<Source>, rec: Record, path: string, outputDir: string,
                  failedDir: Option<string>): Report {
    if rec.year == JNull then Report(consulted, NotFound, FailedAction(path, failedDir))
    else Report(consulted, Renamed(FinalName(rec)), MoveTo(PathJoin(outputDir, FinalName(rec))))
  }

  /** One turn of the main loop given what each source answers: `doi` is
      the outcome of the DOI extraction, `crossref` what CrossRef answers
      for the DOI found (read only when there is one) and `fulltext` what
      the full-text search gives (read only when it is run). */
  function Decide(doi: Result<Option<string>, Failure>, crossref: Result<Option<Record>, Failure>,
                  fulltext: Result<Record, Failure>, path: string, outputDir: string,
                  failedDir: Option<string>): Report {
    match doi
    case Err(e) => Report([], Raised(e), FailedAction(path, failedDir))
    case Ok(found) =>
      var asked := if found.Some? then [CrossrefLookup(found.value)] else [];
      var fromCrossref := if found.Some? then crossref else Ok(None);
      match fromCrossref
      case Err(e) => Report(asked, Raised(e), FailedAction(path, failedDir))
      case Ok(rec) =>
        if rec.Some? && rec.value.year != JNull then
          Finish(asked, rec.value, path, outputDir, failedDir)
        else
          match fulltext
          case Err(e) => Report(asked + [FulltextSearch], Raised(e), FailedAction(path, failedDir))
          case Ok(rec) => Finish(asked + [FulltextSearch], rec, path, outputDir, failedDir)
  }

  /** What CrossRef answers for the DOI extracted, if one was. */
  function CrossrefAnswer(doi: Result<Option<string>, Failure>, w: World): Result<Option<Record>, Failure> {
    if doi.Ok? && doi.value.Some? then AskCrossref(w.crossref(doi.value.value)) else Ok(None)
  }

  /** Specification of one turn of the main loop. */
  function Expected(path: string, w: World, outputDir: string, failedDir: Option<string>): Report {
    var doi := ExtractDoi(w.open(path));
    Decide(doi, CrossrefAnswer(doi, w), FromFulltext(w.fulltext(path), w.standardName, w.familyNames),
           path, outputDir, failedDir)
  }

  /** The turn ends at the DOI step when opening or reading the PDF raises. */
  lemma DoiFailed(path: string, w: World, outputDir: string, failedDir: Option<string>)
    requires ExtractDoi(w.open(path)).Err?
    ensures Expected(path, w, outputDir, failedDir) ==
              Report([], Raised(ExtractDoi(w.open(path)).error), FailedAction(path, failedDir))
  {
  }

  /** The turn ends at the CrossRef step when the request or the reading of
      the reply raises. */
  lemma CrossrefFailed(path: string, w: World, outputDir: string, failedDir: Option<string>, doi: string)
    requires ExtractDoi(w.open(path)) == Ok(Some(doi))
    requires AskCrossref(w.crossref(doi)).Err?
    ensures Expected(path, w, outputDir, failedDir) ==
              Report([CrossrefLookup(doi)], Raised(AskCrossref(w.crossref(doi)).error), FailedAction(path, failedDir))
  {
  }

  /** The turn ends at the CrossRef step when CrossRef gives a year. */
  lemma CrossrefAnswered(path: string, w: World, outputDir: string, failedDir: Option<string>, doi: string)
    requires ExtractDoi(w.open(path)) == Ok(Some(doi))
    requires AskCrossref(w.crossref(doi)).Ok? && AskCrossref(w.crossref(doi)).value.Some?
    requires AskCrossref(w.crossref(doi)).value.value.year != JNull
    ensures Expected(path, w, outputDir, failedDir) ==
              Finish([CrossrefLookup(doi)], AskCrossref(w.crossref(doi)).value.value, path, outputDir, failedDir)
  {
  }

  /** Otherwise the full-text search decides, after the sources in `asked`. */
  lemma FulltextDecides(path: string, w: World, outputDir: string, failedDir: Option<string>, asked: seq<Source>)
    requires ExtractDoi(w.open(path)).Ok?
    requires var doi := ExtractDoi(w.open(path)).value;
      asked == (if doi.Some? then [CrossrefLookup(doi.value)] else []) &&
      (doi.None? ||
       (var c := AskCrossref(w.crossref(doi.value)); c.Ok? && (c.value.None? || c.value.value.year == JNull)))
    ensures Expected(path, w, outputDir, failedDir) ==
              match FromFulltext(w.fulltext(path), w.standardName, w.familyNames)
              case Err(e) => Report(asked + [FulltextSearch], Raised(e), FailedAction(path, failedDir))
              case Ok(rec) => Finish(asked + [FulltextSearch], rec, path, outputDir, failedDir)
  {
  }

  /** One turn of the main loop: the four fields start as None and are
      reassigned by each source that answers. */
  method RenameOne(path: string, w: World, outputDir: string, failedDir: Option<string>)
    returns (report: Report)
    ensures report == Expected(path, w, outputDir, failedDir)
  {
    var consulted: seq<Source> := [];
    var doi := ExtractDoi(w.open(path));
    if doi.Err? {
      DoiFailed(path, w, outputDir, failedDir);
      return Report(consulted, Raised(doi.error), FailedAction(path, failedDir));
    }
    var year, initial, family, title := JNull, JNull, JNull, JNull;
    if doi.value.Some? {
      consulted := consulted + [CrossrefLookup(doi.value.value)];
      var metadata := AskCrossref(w.crossref(doi.value.value));
      if metadata.Err? {
        CrossrefFailed(path, w, outputDir, failedDir, doi.value.value);
        return Report(consulted, Raised(metadata.error), FailedAction(path, failedDir));
      }
      if metadata.value.Some? {
        var rec := metadata.value.value;
        year, initial, family, title := rec.year, rec.initial, rec.family, rec.title;
        if year != JNull {
          CrossrefAnswered(path, w, outputDir, failedDir, doi.value.value);
        }
      }
    }
    if year == JNull {
      FulltextDecides(path, w, outputDir, failedDir, consulted);
      consulted := consulted + [FulltextSearch];
      var metadata := FromFulltext(w.fulltext(path), w.standardName, w.familyNames);
      if metadata.Err? {
        return Report(consulted, Raised(metadata.error), FailedAction(path, failedDir));
      }
      var rec := metadata.value;
      year, initial, family, title := rec.year, rec.initial, rec.family, rec.title;
    }
    if year == JNull {
      return Report(consulted, NotFound, FailedAction(path, failedDir));
    }
    var finalName := FinalName(Record(year, initial, family, title));
    report := Report(consulted, Renamed(finalName), MoveTo(PathJoin(outputDir, finalName)));
  }

  /** The main loop: every PDF of the work list in turn; an exception on
      one document does not stop the others, whose reports are as they
      would be alone (Seqs.MapAt). */
  method RenameAll(pdfs: seq<string>, w: World, outputDir: string, failedDir: Option<string>)
    returns (reports: seq<Report>)
    ensures reports == Map(path => Expected(path, w, outputDir, failedDir), pdfs)
  {
    reports := [];
    for i := 0 to |pdfs|
      invariant reports == Map(path => Expected(path, w, outputDir, failedDir), pdfs[..i])
    {
      var report := RenameOne(pdfs[i], w, outputDir, failedDir);
      assert pdfs[..i + 1][..i] == pdfs[..i];
      reports := reports + [report];
    }
    assert pdfs[..|pdfs|] == pdfs;
  }

  /** CrossRef is asked exactly when a DOI was found, with that DOI, and
      always before the full-text search. */
  lemma CrossrefOnlyWithDoi(doi: Result<Option<string>, Failure>, crossref: Result<Option<Record>, Failure>,
                            fulltext: Result<Record, Failure>, path: string, outputDir: string,
                            failedDir: Option<string>)
    ensures var r := Decide(doi, crossref, fulltext, path, outputDir, failedDir);
      (doi.Ok? && doi.value.Some? <==> |r.consulted| >= 1 && r.consulted[0].CrossrefLookup?) &&
      (doi.Ok? && doi.value.Some? ==> r.consulted[0] == CrossrefLookup(doi.value.value)) &&
      (forall k :: 0 < k < |r.consulted| ==> r.consulted[k] == FulltextSearch) &&
      |r.consulted| <= 2
  {
  }

  /** The full-text search runs exactly when the DOI step did not fail and
      CrossRef was not asked, answered None, or gave a record whose year is
      None. */
  lemma FulltextOnlyWithoutYear(doi: Result<Option<string>, Failure>, crossref: Result<Option<Record>, Failure>,
                                fulltext: Result<Record, Failure>, path: string, outputDir: string,
                                failedDir: Option<string>)
    ensures FulltextSearch in Decide(doi, crossref, fulltext, path, outputDir, failedDir).consulted <==>
        doi.Ok? &&
        (doi.value.None? || (crossref.Ok? && (crossref.value.None? || crossref.value.value.year == JNull)))
  {
  }

  /** A CrossRef record that has a year is final: the full-text search is
      not run and the file gets the name built from that record. */
  lemma CrossrefNeverOverwritten(doi: string, rec: Record, fulltext: Result<Record, Failure>, path: string,
                                 outputDir: string, failedDir: Option<string>)
    requires rec.year != JNull
    ensures Decide(Ok(Some(doi)), Ok(Some(rec)), fulltext, path, outputDir, failedDir) ==
              Report([CrossrefLookup(doi)], Renamed(FinalName(rec)), MoveTo(PathJoin(outputDir, FinalName(rec))))
  {
  }

  /** The `year is None` branch is reached only through a full-text record
      without a year. */
  lemma NotFoundNeedsYearlessRecord(doi: Result<Option<string>, Failure>, crossref: Result<Option<Record>, Failure>,
                                    fulltext: Result<Record, Failure>, path: string, outputDir: string,
                                    failedDir: Option<string>)
    ensures Decide(doi, crossref, fulltext, path, outputDir, failedDir).outcome == NotFound ==>
              fulltext.Ok? && fulltext.value.year == JNull
  {
  }

  /** The `year is None` branch after the full-text search is never taken:
      that search either raises or gives a year read from the entry. */
  lemma NeverNotFound(path: string, w: World, outputDir: string, failedDir: Option<string>)
    ensures Expected(path, w, outputDir, failedDir).outcome != NotFound
  {
    var doi := ExtractDoi(w.open(path));
    NotFoundNeedsYearlessRecord(doi, CrossrefAnswer(doi, w),
                                FromFulltext(w.fulltext(path), w.standardName, w.familyNames),
                                path, outputDir, failedDir);
  }

  /** A renamed document is moved into the output directory under the name
      built from the record of the source that answered; any other ending
      takes the failure branch. */
  lemma RenamedMovesToOutput(doi: Result<Option<string>, Failure>, crossref: Result<Option<Record>, Failure>,
                             fulltext: Result<Record, Failure>, path: string, outputDir: string,
                             failedDir: Option<string>)
    ensures var r := Decide(doi, crossref, fulltext, path, outputDir, failedDir);
      (r.outcome.Renamed? ==> r.action == MoveTo(PathJoin(outputDir, r.outcome.name))) &&
      (!r.outcome.Renamed? ==> r.action == FailedAction(path, failedDir))
  {
  }

  /** When the full-text search runs and gives a record with a year (as
      FromFulltext always does), that record names the file. */
  lemma FulltextRecordUsed(doi: Result<Option<string>, Failure>, crossref: Result<Option<Record>, Failure>,
                           rec: Record, path: string, outputDir: string, failedDir: Option<string>)
    requires FulltextSearch in Decide(doi, crossref, Ok(rec), path, outputDir, failedDir).consulted
    requires rec.year != JNull
    ensures Decide(doi, crossref, Ok(rec), path, outputDir, failedDir).outcome == Renamed(FinalName(rec))
  {
  }
}
