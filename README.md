# pdf-rename, modelled in Dafny

pdf-rename renames scientific PDFs after their bibliographic metadata, to
`<year> - <I>. <Family> - <title>.pdf`. The repository has two scripts:

- `src/pdf_rename/pdf_rename.py`, the newer one. It takes a DOI from the
  PDF's metadata (or from its first page), asks the CrossRef works API for
  it, and falls back on a full-text search when that gives no year. The
  search's first BibTeX entry is validated: its authors must split into
  `family, given` chunks, and the first family name must exist and must not
  be `"unknown"`.
- `pdf-rename.py`, the older one. It makes one call to
  `papers.extract.extract_pdf_metadata` and builds the name from the first
  BibTeX entry that call returns.

Both scripts build a work list (one PDF, the PDFs in a directory, or every
PDF below it). Both process each file in turn; an exception on one file
sends that file to the failure branch, and the loop goes on.

The model covers the decision logic between the library calls:

- `Text`: the Python string operations the scripts rely on (`find`,
  `split`, `strip`, `lower`, `capitalize`, `str` of an integer).
- `Json`: Python subscripting, slicing and truth testing on decoded JSON.
- `Names`: `first_names`.
- `Crossref`: reading a CrossRef reply.
- `Fulltext`: validating a search entry.
- `WorkList`: the work list.
- `Verbosity`: the verbosity clamp.
- `PdfRename`: the newer script's per-document chain and main loop.
- `LegacyRename`: the older script.

Foreign code is passed in as function-typed values in `PdfRename.World` and
`LegacyRename.LegacyWorld`, so the model assumes nothing about it beyond its
type. This covers pymupdf, `requests`, `extract_pdf_metadata`,
`bibtexparser`, `standard_name` and `family_names`. Python exceptions are
the `Err` side of a `Result`.

The properties of one turn of the newer script's loop are stated over
`PdfRename.Decide`. It takes the answers of the DOI step, CrossRef and the
full-text search as parameters, so those properties hold whatever the
sources answer. `PdfRename.Expected` feeds it the answers the `World` gives
for a document.

Behaviour of the code that the model makes explicit:

- A BibTeX entry with no `author` field reads as `"unknown"`. When
  `standard_name` leaves that word without a comma (as the identity does),
  `first_names` raises before the `"unknown"` family-name test is reached,
  and the entry is reported as a malformed author, not as an unknown one
  (`Fulltext.MissingAuthorIsMalformed`). `standard_name` is foreign code,
  so whether it does is not settled here; one that turns `"unknown"` into
  a `family, given` form reaches the family-name test instead
  (`Fulltext.UnknownAuthorRejected`).
- In the newer script, the `year is None` branch after the full-text search
  (`src/pdf_rename/pdf_rename.py:266-271`) is never taken. That search
  either raises or returns a year read from the entry
  (`PdfRename.NeverNotFound`). Every failure therefore goes through the
  exception handler.
- A CrossRef record whose year is JSON `null` does not count as found. The
  full-text search then runs and replaces all four fields.
- An empty CrossRef author list gives the initial `"Unknown"`, so the name
  reads `... - Unknown. Unknown - ...`.
- `DOI_REGEXP` (`src/pdf_rename/pdf_rename.py:45`) is written with
  JavaScript delimiters. After the leading `/` it needs a start-of-string
  anchor, so it can never match. The page-text search stays an input of the
  model (`PdfInfo.pageSearch`); for the pattern as written it is always "no
  match".

## Model

| member | source | states |
|---|---|---|
| `Text.EndsWith` | src/pdf_rename/pdf_rename.py:232-240 | `str.endswith`: the text is at least as long as the suffix and ends in it. `WorkList.CollectPdfs` and `WorkList.GlobPdfs` use it for the `.pdf` tests. |
| `Text.Find` | src/pdf_rename/pdf_rename.py:153 | The result is the leftmost index where the separator occurs, and None exactly when it occurs nowhere. |
| `Text.Split` | src/pdf_rename/pdf_rename.py:153 | `str.split(sep)` always yields at least one piece, and the first piece is a prefix of the text. |
| `Text.SplitFound` | src/pdf_rename/pdf_rename.py:153 | Where the separator is first found at k, the text is `s[..k] + sep + rest`, and its pieces are `s[..k]` followed by the pieces of `rest`. |
| `Text.JoinSplit` | src/pdf_rename/pdf_rename.py:153 | Joining the pieces with the separator gives back the original text. |
| `Text.SplitLeftmost` | src/pdf_rename/pdf_rename.py:153 | Each separator between pieces is the leftmost occurrence in what remains, and the last piece holds none. With JoinSplit this fixes the pieces uniquely. |
| `Text.SplitAfterFirst` | src/pdf_rename/pdf_rename.py:154 | Once the first separator is at k, there is a second piece, and it is the first piece of the text after that separator. |
| `Text.FindCharAfter` | src/pdf_rename/pdf_rename.py:154 | A one-character separator that the text before it lacks is first found right after that text. |
| `Text.FindChar` | src/pdf_rename/pdf_rename.py:154 | A one-character separator is found in a text exactly when the text contains that character. |
| `Text.LeadingFieldRecoverable` | src/pdf_rename/pdf_rename.py:272 | `y + " - " + rest + ext` ends in `ext`, and its first `" - "` field is `y` when `y` has no space. |
| `Text.FirstSeparatorAfterWord` | src/pdf_rename/pdf_rename.py:272 | In `y + sep + rest`, where `sep` starts with a space and `y` has none, the first `sep` is right after `y`. |
| `Text.LeadingSpace` | src/pdf_rename/pdf_rename.py:154 | Counts exactly the whitespace run at the front. |
| `Text.TrailingSpaceStart` | src/pdf_rename/pdf_rename.py:154 | Marks exactly where the trailing whitespace run starts. |
| `Text.Strip` | src/pdf_rename/pdf_rename.py:154 | The result is no longer than the input, has no whitespace at either end, and is empty for an all-whitespace input. |
| `Text.StripSurrounded` | src/pdf_rename/pdf_rename.py:154 | Stripping `ws + t + ws'` gives back `t` whenever `t` has no whitespace at its ends: only the surrounding whitespace goes. |
| `Text.StripIdempotent` | src/pdf_rename/pdf_rename.py:154 | Stripping twice is the same as stripping once. |
| `Text.Lower` | src/pdf_rename/pdf_rename.py:206-208 | `.lower()` keeps the length, leaves no capital letter, and keeps every character up to case. |
| `Text.Capitalize` | src/pdf_rename/pdf_rename.py:217 | Keeps the length, upper-cases the first letter, and lower-cases every character after it. |
| `Text.CapitalizeIdempotent` | src/pdf_rename/pdf_rename.py:217 | Capitalizing twice is the same as capitalizing once. |
| `Text.NatToString` | src/pdf_rename/pdf_rename.py:272 | `str(n)` is a non-empty string of decimal digits whose value (`DigitsValue`) is n, with no leading zero: 0 is the single digit `"0"`. |
| `Text.IntToString` | src/pdf_rename/pdf_rename.py:272 | `str(i)` starts with `-` exactly when i is negative. The rest is non-empty decimal digits with no leading zero, whose value is the magnitude of i. It contains no space. |
| `Json.Lookup` | src/pdf_rename/pdf_rename.py:182 | A key is found exactly when the object has a member with that name. The value found is that of the last such member, as `json.loads` keeps for a repeated key. |
| `Json.GetKey` | src/pdf_rename/pdf_rename.py:182-189 | `j[key]` succeeds exactly on an object that has the key. It raises KeyError on an object without it and TypeError on any other value. |
| `Json.GetIndex` | src/pdf_rename/pdf_rename.py:184-187 | `j[n]` gives the n-th item or character. It raises IndexError past the end, KeyError on an object and TypeError on a scalar. |
| `Json.Follow` | src/pdf_rename/pdf_rename.py:184-185 | A chain of subscripts such as `item["published"]["date-parts"][0][0]`: the empty chain gives the value itself, and a one-step chain is that one subscript. |
| `Json.FollowAppend` | src/pdf_rename/pdf_rename.py:184-185 | Following `p + q` is following `p` and then `q` from where it led; an error raised along `p` is the result. |
| `Json.Truthy` | src/pdf_rename/pdf_rename.py:187-189 | The truth test of `if authors` and `if first_author`: None, False, 0 and empty strings, lists and objects are false; everything else is true. |
| `Json.SliceTo` | src/pdf_rename/pdf_rename.py:188 | `j[:n]` succeeds only on strings and lists. It gives the prefix of n characters or items, or the whole value when it is shorter. |
| `Json.Render` | src/pdf_rename/pdf_rename.py:272 | `"%s"` prints a string unchanged, an integer as its digits (no space) and None as `None`. |
| `Json.Keys` | src/pdf_rename/pdf_rename.py:181 | The keys of the dict `response.json()` builds from an object: exactly the member names, each once. |
| `Json.KeysInOrder` | src/pdf_rename/pdf_rename.py:181 | The keys come in order of first appearance: each key occurs in the object before the next key first does. |
| `Json.Dict` | src/pdf_rename/pdf_rename.py:181 | The dict `response.json()` builds from an object: one entry per key, in first-appearance order, bound to the value `Lookup` finds, which is the last one for a repeated key (`{"a": 1, "b": 2, "a": 3}` gives `{'a': 3, 'b': 2}`). |
| `Json.Repr` | src/pdf_rename/pdf_rename.py:272 | `repr()` of a value inside a list or an object, used when `%s` prints a year, initial, family name or title that is a list or an object. An object prints as its `Json.Dict`. It has no contract of its own; `Json.Render` states what `%s` prints for the scalar cases. |
| `Names.Chunks` | src/pdf_rename/pdf_rename.py:153 | There is at least one author chunk, and the chunks joined with `" and "` give back the normalised field. |
| `Names.GivenName` | src/pdf_rename/pdf_rename.py:154 | A chunk yields a name exactly when it contains a comma, and the name is already stripped. |
| `Names.GivenNameIsSecondField` | src/pdf_rename/pdf_rename.py:154 | For `front + "," + field + rest` (no comma in `front` or `field`; `rest` empty or starting with a comma), the name is `field`, stripped. |
| `Names.FirstPieceBeforeComma` | src/pdf_rename/pdf_rename.py:154 | The first comma-separated piece of `field + rest` is `field` when `field` has no comma and `rest` is empty or starts with one. |
| `Names.GivenNames` | src/pdf_rename/pdf_rename.py:154 | The comprehension succeeds exactly when every chunk has a comma. Then it gives one name per chunk, in order, each being that chunk's given name. |
| `Names.FirstNames` | src/pdf_rename/pdf_rename.py:151-154 | A successful result always holds at least one name. |
| `Names.FirstNamesChunks` | src/pdf_rename/pdf_rename.py:151-154 | `first_names` fails exactly when some `" and "` chunk of the normalised field has no comma. Otherwise it gives one name per chunk (at least one), in chunk order, each that chunk's given name and already stripped. |
| `Names.NoCommaFails` | src/pdf_rename/pdf_rename.py:153-154 | A normalised field with no comma at all makes `first_names` fail. |
| `Crossref.FirstAuthor` | src/pdf_rename/pdf_rename.py:187 | A false author list gives None (JNull). A true one gives its first element, or the error indexing raises. |
| `Crossref.Initial` | src/pdf_rename/pdf_rename.py:188 | Without a first author the initial is `"Unknown"`. With one whose `given` is found, it is exactly the `[:1]` slice of that value; it succeeds only when `given` is found. |
| `Crossref.Family` | src/pdf_rename/pdf_rename.py:189 | Without a first author the family name is `"Unknown"`. With one, it is the author's `family` value. |
| `Crossref.FromCrossref` | src/pdf_rename/pdf_rename.py:175-193 | The result is None exactly for statuses other than 200. A record only comes from a 200 reply whose author list can be read; `Crossref.RecordFields` says where each of its fields comes from. |
| `Crossref.RecordFields` | src/pdf_rename/pdf_rename.py:180-191 | A record read from any reply comes from a decoded body with a `message`. Its year and title are what `["published"]["date-parts"][0][0]` and `["title"][0]` give on that message. Its initial and family name are what `Initial` and `Family` give for the first author of the author list. |
| `Crossref.ReplyRead` | src/pdf_rename/pdf_rename.py:180-191 | The converse of `RecordFields`, for any 200 reply: when the message and every subscript the reader applies to it succeed, the result is the record of exactly those values, whatever else the message holds. |
| `Crossref.UnknownWithoutAuthors` | src/pdf_rename/pdf_rename.py:186-189 | An empty (false) author list gives `"Unknown"` as both the initial and the family name. |
| `Crossref.FirstAuthorFields` | src/pdf_rename/pdf_rename.py:186-189 | With a true first author (an author list such as `[null]` or `[{}]` gives `"Unknown"` instead), the family name is `author[0]["family"]`, and a string initial is a prefix of at most one character of `author[0]["given"]`. |
| `Crossref.WellFormedReply` | src/pdf_rename/pdf_rename.py:180-191 | A 200 reply whose message holds exactly `published`, `title` and `author`, whose first author holds `given` and `family`, yields the record of the year and title as sent, the first letter of the given name and the family name. `Crossref.ReplyRead` states the same for any reply. |
| `Crossref.MessageFields` | src/pdf_rename/pdf_rename.py:182-186 | In a well-formed message, the year chain `["published"]["date-parts"][0][0]`, the title chain `["title"][0]` and `["author"]` lead to the values sent. |
| `Crossref.PersonFields` | src/pdf_rename/pdf_rename.py:188-189 | In an author object, `given` and `family` are found with the values sent. |
| `Fulltext.AuthorField` | src/pdf_rename/pdf_rename.py:206-208 | `entry.get("author", "unknown").lower()`: the entry's author field, lower-cased, or `"unknown"` when there is none. |
| `Fulltext.Get` | src/pdf_rename/pdf_rename.py:206-211 | `entry.get(key, default)`: the field when the entry has it, the default otherwise. |
| `Fulltext.Require` | src/pdf_rename/pdf_rename.py:217 | `entry[key]` succeeds exactly when the key is present, and gives its value. |
| `Fulltext.CapitalInitial` | src/pdf_rename/pdf_rename.py:217 | `name[0].capitalize()` is the capitalised first letter, and raises IndexError exactly for an empty name. |
| `Fulltext.GivenOrMalformed` | src/pdf_rename/pdf_rename.py:207-212 | A `first_names` failure becomes MalformedAuthor, quoting the entry's author field as written. Success passes the non-empty name list on. |
| `Fulltext.FromFulltext` | src/pdf_rename/pdf_rename.py:196-217 | A record needs a non-empty entry list, and its year and title are always strings (so the year is never None). |
| `Fulltext.FulltextRecordFields` | src/pdf_rename/pdf_rename.py:196-217 | A record comes from a first family name that exists and is not `"unknown"`, capitalised; its initial is the first letter of the first given name, which is non-empty, as a capital; its year and title are the entry's `year` and `title` fields. |
| `Fulltext.ValidEntryAccepted` | src/pdf_rename/pdf_rename.py:202-217 | The converse of `FulltextRecordFields`: a first entry whose authors split, whose first given name is non-empty, whose first family name exists and is not `"unknown"`, and which has a year and a title, gives exactly the record of its year, the capital initial, the capitalised family name and its title. |
| `Fulltext.MalformedAuthorReported` | src/pdf_rename/pdf_rename.py:207-212 | An unsplittable author field is reported as MalformedAuthor, before any family-name check. |
| `Fulltext.UnknownAuthorRejected` | src/pdf_rename/pdf_rename.py:214-215 | Parsable authors with no family name, or with first family name `"unknown"`, are rejected with NoProperAuthor. |
| `Fulltext.MissingAuthorIsMalformed` | src/pdf_rename/pdf_rename.py:206-212 | An entry without an author field, whose `"unknown"` normalises to text without a comma, ends in MalformedAuthor. |
| `WorkList.Basename` | src/pdf_rename/pdf_rename.py:270 | `os.path.basename` gives a suffix of the path with no `/`, preceded by a `/` when it is not the whole path. |
| `WorkList.PathJoin` | src/pdf_rename/pdf_rename.py:241 | `"%s/%s" % (dir, name)`: the directory, a `/`, then the name. `WorkList.GlobPdfs` and `WorkList.WalkedMembers` state the paths built with it. |
| `WorkList.GlobPdfs` | src/pdf_rename/pdf_rename.py:235 | A path is listed exactly when it is the directory plus `/` plus a listed name that ends in `.pdf` and does not start with a dot. |
| `WorkList.StepPdfs` | src/pdf_rename/pdf_rename.py:239-241 | The inner loop for one walk step: its file names ending in `.pdf`, in order, each joined to the step's directory. `WorkList.StepPdfsMembers` characterises its members. |
| `WorkList.Walked` | src/pdf_rename/pdf_rename.py:238-241 | The outer loop: the step lists concatenated in walk order. `WorkList.WalkedMembers` characterises its members. |
| `WorkList.StepPdfsMembers` | src/pdf_rename/pdf_rename.py:239-241 | One walk step contributes exactly its files ending in `.pdf`, each joined to the step's directory. |
| `WorkList.WalkedMembers` | src/pdf_rename/pdf_rename.py:238-241 | Recursive mode collects a path exactly when it is `dirpath + "/" + name` for a walked file `name` ending in `.pdf`. |
| `WorkList.CollectPdfs` | src/pdf_rename/pdf_rename.py:231-241 | An input ending in `.pdf` gives the one-element list `[input]`. Otherwise the list is the glob result, or in recursive mode what the nested loops append, walk step by walk step. |
| `Verbosity.ClampIndex` | src/pdf_rename/pdf_rename.py:66-68 | The index is always valid. It equals the verbosity while that is below the number of levels, and the last index otherwise. |
| `Verbosity.MoreFlagsShowMore` | src/pdf_rename/pdf_rename.py:66-68 | One more `-v` never gives a less verbose level. |
| `PdfRename.LogLevel` | src/pdf_rename/pdf_rename.py:66-88 | The handlers' level is always in LEVEL: INFO without `-v`, DEBUG with one or more. |
| `PdfRename.ExtractDoi` | src/pdf_rename/pdf_rename.py:157-172 | A `doi` metadata entry is returned as it is, without searching the page. Otherwise the page search decides. A PDF that cannot be opened raises. |
| `PdfRename.AskCrossref` | src/pdf_rename/pdf_rename.py:175-193 | `get_metadata_from_crossref(doi)` with its request: a raising `requests.get` is TransportError, otherwise the reply is read by `Crossref.FromCrossref`. |
| `PdfRename.CrossrefAnswer` | src/pdf_rename/pdf_rename.py:251-253 | What CrossRef answers in one turn: asked with the DOI only when the DOI step found one, None otherwise. |
| `PdfRename.FinalName` | src/pdf_rename/pdf_rename.py:272 | `"%s - %s. %s - %s.pdf"` applied to the rendered year, initial, family name and title. `PdfRename.FinalNameLayout` states its layout. |
| `PdfRename.FinalNameLayout` | src/pdf_rename/pdf_rename.py:272 | The final name starts with the year and `" - "` and ends in `.pdf`. When the year prints without a space, the text before the first `" - "` is the year. |
| `PdfRename.FailedAction` | src/pdf_rename/pdf_rename.py:268-280 | The failure branch: a move into the failure directory under the document's base name when one was given, nothing otherwise. |
| `PdfRename.Finish` | src/pdf_rename/pdf_rename.py:266-275 | The end of a turn once a record is in: the `year is None` ending with the failure branch, or the rename into the output directory under `FinalName`. |
| `PdfRename.Decide` | src/pdf_rename/pdf_rename.py:249-283 | One turn of the loop given each source's answer: the DOI step, then CrossRef when a DOI was found, then the full-text search while the year is None, and the file operation that follows. The `Decide` lemmas below state its properties. |
| `PdfRename.Expected` | src/pdf_rename/pdf_rename.py:247-283 | The specification of one turn: `Decide` fed with what the PDF, CrossRef and the full-text search answer for the document. |
| `PdfRename.DoiFailed` | src/pdf_rename/pdf_rename.py:247-280 | When opening the PDF or reading its DOI raises, nothing is asked and the document takes the failure branch with that error. |
| `PdfRename.CrossrefFailed` | src/pdf_rename/pdf_rename.py:251-280 | When asking CrossRef for the DOI found raises, only CrossRef was asked and the document takes the failure branch with that error. |
| `PdfRename.CrossrefAnswered` | src/pdf_rename/pdf_rename.py:251-275 | When CrossRef gives a record with a year, the turn finishes with that record after asking CrossRef only. |
| `PdfRename.FulltextDecides` | src/pdf_rename/pdf_rename.py:259-280 | When no DOI was found, or CrossRef answered None or a record without a year, the full-text search's answer decides the turn, after the sources already asked. |
| `PdfRename.RenameOne` | src/pdf_rename/pdf_rename.py:247-283 | One turn of the main loop, with its step-by-step reassignment of the four fields. It yields exactly the specified report (sources asked, outcome, file operation), which the `Decide` lemmas below characterise. |
| `PdfRename.RenameAll` | src/pdf_rename/pdf_rename.py:243-283 | Every document of the work list gets its own report, in order; the i-th report is the one that document would get alone, whatever happened to the others. |
| `Seqs.MapAt` | src/pdf_rename/pdf_rename.py:243-247 | The i-th element of a mapped list is the function applied to the i-th element, so each report belongs to its own document. |
| `PdfRename.CrossrefOnlyWithDoi` | src/pdf_rename/pdf_rename.py:249-256 | CrossRef is asked exactly when a DOI was found, and with that DOI. It is asked before the full-text search. At most two sources are asked. |
| `PdfRename.FulltextOnlyWithoutYear` | src/pdf_rename/pdf_rename.py:258-264 | The full-text search runs exactly when the DOI step did not raise and CrossRef was not asked, answered None, or gave a record with a None year. |
| `PdfRename.CrossrefNeverOverwritten` | src/pdf_rename/pdf_rename.py:251-275 | A CrossRef record with a year is final. No search runs, and the file is moved to the output directory under that record's name. |
| `PdfRename.NotFoundNeedsYearlessRecord` | src/pdf_rename/pdf_rename.py:250-271 | Whatever the sources answer, the `year is None` ending needs a full-text record whose year is None. |
| `PdfRename.NeverNotFound` | src/pdf_rename/pdf_rename.py:259-271 | The `year is None` failure branch is never reached. |
| `PdfRename.RenamedMovesToOutput` | src/pdf_rename/pdf_rename.py:266-283 | A renamed document is moved to `output_dir/<name>`. Every other document takes the failure branch: moved into the failure directory under its base name, or left alone when there is none. |
| `PdfRename.FulltextRecordUsed` | src/pdf_rename/pdf_rename.py:259-275 | When the full-text search runs and gives a record, the file is named from that record. |
| `LegacyRename.LogLevelIndex` | pdf-rename.py:120-126 | The index into the three-entry LEVEL is always valid and equals the verbosity below 3. The too-high warning is logged exactly when the verbosity is 3 or more. |
| `LegacyRename.GivenNamesOf` | pdf-rename.py:39-41 | `first_names` as this script calls it. It succeeds exactly when `Names.FirstNames` does, and an uncaught IndexError is raised otherwise. |
| `LegacyRename.FormattedName` | pdf-rename.py:83 | `"C. F"` is built exactly when the first given name is non-empty and a family name exists. C is that name's first letter upper-cased, and F is the first family name capitalised. |
| `LegacyRename.NewName` | pdf-rename.py:70-84 | A name needs a first entry with splittable authors, a non-empty first given name, a family name, a year and a title. It is exactly `year + " - " + C + ". " + F + " - " + title + ".pdf"`. |
| `LegacyRename.Layout` | pdf-rename.py:84 | `"%s - %s - %s.pdf"` applied to the year, the formatted author and the title. `LegacyRename.NameLayout` states its layout. |
| `LegacyRename.NameLayout` | pdf-rename.py:84 | The name ends in `.pdf`, and the year is the text before the first `" - "` when it has no space. |
| `LegacyRename.CompleteEntryNamed` | pdf-rename.py:70-84 | The converse of NewName's contract: an entry with splittable authors, a non-empty first given name, a family name, a year and a title is renamed, to exactly that name. |
| `LegacyRename.LegacyExpected` | pdf-rename.py:70-91 | The specification of one document: the outcome of `NewName`, then a move to `output_dir/<name>` on success, otherwise a copy into the failure directory under the base name, or nothing. |
| `LegacyRename.RenameDocument` | pdf-rename.py:70-94 | One document: moved to `output_dir/<name>` exactly when a name is built, otherwise copied into the failure directory under its base name, or left alone when there is none. |
| `LegacyRename.RenameEach` | pdf-rename.py:66-94 | Every document of the work list gets its own report, in order, as it would alone. |
| `LegacyRename.RenameAll` | pdf-rename.py:48-94 | Builds the work list as the newer script does (one PDF, the glob, or the walk), then gives every listed document its own report, in order. |

## Left out

- Opening the PDF and reading its text with pymupdf. These are inputs
  (`PdfRename.World.open`). The page-text DOI search is an input too; the
  regular expression is not encoded.
- The HTTP request to CrossRef and `response.json()`. A reply is a status
  and an optional decoded body; a raising `requests.get` is TransportError.
- `extract_pdf_metadata`, `bibtexparser.loads`, `standard_name` and
  `family_names` are foreign code and are passed in as functions.
  `standard_name` and `family_names` are taken to return normally; an
  exception raised inside them is not modelled.
- Filesystem effects (`os.makedirs`, `shutil.move`, `shutil.copyfile`) are
  the destination path of the operation only. Failures of the move itself,
  and name clashes in the output directory, are not modelled.
- The two directory listings are inputs: the names `glob` sees, and the
  `(dirpath, filenames)` pairs of `os.walk` in its order. `glob`'s
  rewriting of the directory part of the pattern is not modelled, and
  neither are glob metacharacters inside the input path.
- Logging configuration, messages, `print`, argument parsing, timing and
  traceback printing. Only the consulted sources are kept, as
  `Report.consulted`.
- `Text.Lower` and `Text.Capitalize` change ASCII letters only. Python's
  Unicode case mapping of other letters is not modelled.
- JSON numbers with a fraction or exponent are not modelled.
- `Json.Repr` prints strings inside a list or an object between single
  quotes, without Python's escaping and quote choice. It is only used when
  a year, initial, family name or title is itself a list or an object.
