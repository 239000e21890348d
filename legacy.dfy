/** The older script, pdf-rename.py: every PDF of the work list goes
    through one foreign call (`extract_pdf_metadata` with DOI, full-text and
    scholar search all enabled), and the first BibTeX entry it yields names
    the file `<year> - <C>. <Family> - <title>.pdf`. Any exception copies
    the file into the failure directory, when one is given. */
module LegacyRename {
  import opened Wrappers
  import opened Errors
  import opened Text
  import opened Names
  import opened Fulltext
  import opened WorkList
  import opened Seqs
  import Verbosity

  /** `LEVEL = [logging.WARNING, logging.INFO, logging.DEBUG]`. */
  const LEVEL: seq<int> := [Verbosity.WARNING, Verbosity.INFO, Verbosity.DEBUG]

  /** The `__main__` block's clamp: the index into LEVEL, and whether the
      "verbosity level is too high" warning is logged. */
  function LogLevelIndex(verbosity: nat): (r: (nat, bool))
    ensures r.0 < |LEVEL|
    ensures verbosity < |LEVEL| ==> r.0 == verbosity
    ensures r.1 <==> verbosity >= |LEVEL|
  {
    (Verbosity.ClampIndex(verbosity, |LEVEL|), verbosity >= |LEVEL|)
  }

  /** The foreign collaborators. `extract` is `extract_pdf_metadata`
      followed by `bibtexparser.loads`, None when either raises. */
  datatype LegacyWorld = LegacyWorld(
    extract: string -> Option<seq<Entry>>,
    standardName: string -> string,
    familyNames: string -> seq<string>)

  /** `"%s. %s" % (fir_names[0][0].capitalize(), fam_names[0].capitalize())`. */
  function FormattedName(given: seq<string>, families: seq<string>): (r: Result<string, Failure>)
    ensures r.Ok? <==> given != [] && given[0] != [] && families != []
    ensures r.Ok? ==> r.value == [UpperChar(given[0][0])] + ". " + Capitalize(families[0])
  {
    if given == [] || given[0] == [] then Err(IndexError)
    else if families == [] then Err(IndexError)
    else Ok(Capitalize([given[0][0]]) + ". " + Capitalize(families[0]))
  }

  /** `"%s - %s - %s.pdf" % (year, formatted_name, title)`. */
  function Layout(year: string, formatted: string, title: string): string {
    year + " - " + formatted + " - " + title + PDF
  }

  /** `first_names(...)` on the entry's author field, whose IndexError is
      not caught here. */
  function GivenNamesOf(entry: Entry, standardName: string -> string): (r: Result<seq<string>, Failure>)
    ensures r.Ok? <==> FirstNames(standardName, AuthorField(entry)).Some?
    ensures r.Ok? ==> r.value == FirstNames(standardName, AuthorField(entry)).value
    ensures r.Err? ==> r.error == IndexError
  {
    match FirstNames(standardName, AuthorField(entry))
    case None => Err(IndexError)
    case Some(g) => Ok(g)
  }

  /** The new name for one document, or the exception raised on the way. */
  function NewName(entries: Option<seq<Entry>>, w: LegacyWorld): (r: Result<string, Failure>)
    ensures r.Ok? ==> entries.Some? && entries.value != []
    ensures r.Ok? ==>
      var entry := entries.value[0];
      var given := FirstNames(w.standardName, AuthorField(entry));
      var families := w.familyNames(AuthorField(entry));
      given.Some? && given.value[0] != [] && families != [] &&
      "year" in entry && "title" in entry &&
      r.value == Layout(entry["year"], [UpperChar(given.value[0][0])] + ". " + Capitalize(families[0]),
                        entry["title"])
  {
    if entries.None? then Err(ExtractFailed)
    else if entries.value == [] then Err(IndexError)
    else
      var entry := entries.value[0];
      var families := w.familyNames(AuthorField(entry));
      var given :- GivenNamesOf(entry, w.standardName);
      var formatted :- FormattedName(given, families);
      var year :- Require(entry, "year");
      var title :- Require(entry, "title");
      Ok(Layout(year, formatted, title))
  }

  /** The name ends in ".pdf", and the year can be read back as the text
      before the first " - " whenever it holds no space. */
  lemma NameLayout(year: string, formatted: string, title: string)
    ensures EndsWith(Layout(year, formatted, title), PDF)
    ensures ' ' !in year ==> Split(Layout(year, formatted, title), " - ")[0] == year
  {
    var rest := formatted + " - " + title;
    assert Layout(year, formatted, title) == year + " - " + rest + PDF;
    LeadingFieldRecoverable(year, rest, PDF);
  }

  /** The converse of NewName's contract: an entry that has every piece
      the name needs (a comma in every author chunk, a non-empty first given
      name, a family name, a year, a title) is renamed, and to exactly that
      name. */
  lemma CompleteEntryNamed(entries: seq<Entry>, w: LegacyWorld)
    requires entries != []
    requires var entry := entries[0];
      var given := FirstNames(w.standardName, AuthorField(entry));
      given.Some? && given.value[0] != [] && w.familyNames(AuthorField(entry)) != [] &&
      "year" in entry && "title" in entry
    ensures var entry := entries[0];
      var given := FirstNames(w.standardName, AuthorField(entry)).value;
      var families := w.familyNames(AuthorField(entry));
      NewName(Some(entries), w) ==
        Ok(Layout(entry["year"], [UpperChar(given[0][0])] + ". " + Capitalize(families[0]), entry["title"]))
  {
  }

  /** What is done with one document: a move into the output directory, a
      copy into the failure directory, or nothing. */
  datatype LegacyAction = Moved(dest: string) | Copied(dest: string) | Untouched

  datatype LegacyReport = LegacyReport(outcome: Result<string, Failure>, action: LegacyAction)

  function LegacyExpected(path: string, w: LegacyWorld, outputDir: string,
                          failedDir: Option<string>): LegacyReport {
    var outcome := NewName(w.extract(path), w);
    var action :=
      if outcome.Ok? then Moved(PathJoin(outputDir, outcome.value))
      else if failedDir.Some? then Copied(PathJoin(failedDir.value, Basename(path)))
      else Untouched;
    LegacyReport(outcome, action)
  }

  /** The body of `main`'s loop for one document. */
  method RenameDocument(path: string, w: LegacyWorld, outputDir: string, failedDir: Option<string>)
    returns (report: LegacyReport)
    ensures report == LegacyExpected(path, w, outputDir, failedDir)
  {
    var outcome := NewName(w.extract(path), w);
    if outcome.Ok? {
      report := LegacyReport(outcome, Moved(PathJoin(outputDir, outcome.value)));
    } else if failedDir.Some? {
      report := LegacyReport(outcome, Copied(PathJoin(failedDir.value, Basename(path))));
    } else {
      report := LegacyReport(outcome, Untouched);
    }
  }

  /** `main`'s loop: every document of the work list in turn, one failure
      not stopping the rest (Seqs.MapAt). */
  method RenameEach(pdfs: seq<string>, w: LegacyWorld, outputDir: string, failedDir: Option<string>)
    returns (reports: seq<LegacyReport>)
    ensures reports == Map(path => LegacyExpected(path, w, outputDir, failedDir), pdfs)
  {
    reports := [];
    for i := 0 to |pdfs|
      invariant reports == Map(path => LegacyExpected(path, w, outputDir, failedDir), pdfs[..i])
    {
      var report := RenameDocument(pdfs[i], w, outputDir, failedDir);
      assert pdfs[..i + 1][..i] == pdfs[..i];
      reports := reports + [report];
    }
    assert pdfs[..|pdfs|] == pdfs;
  }

  /** `main`: build the work list, then process every document. */
  method RenameAll(input: string, recursive: bool, names: seq<string>, walk: seq<WalkStep>,
              w: LegacyWorld, outputDir: string, failedDir: Option<string>)
    returns (pdfs: seq<string>, reports: seq<LegacyReport>)
    ensures EndsWith(input, PDF) ==> pdfs == [input]
    ensures !EndsWith(input, PDF) && !recursive ==> pdfs == GlobPdfs(input, names)
    ensures !EndsWith(input, PDF) && recursive ==> pdfs == Walked(walk)
    ensures reports == Map(path => LegacyExpected(path, w, outputDir, failedDir), pdfs)
  {
    pdfs := CollectPdfs(input, recursive, names, walk);
    reports := RenameEach(pdfs, w, outputDir, failedDir);
  }
}
