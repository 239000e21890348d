/** `get_metadata_from_google_scholar`: validating the first BibTeX entry
    that the full-text search finds for a document and turning it into a
    record. The search and the BibTeX parsing are foreign code: their
    outcome is an input. */
module Fulltext {
  import opened Wrappers
  import opened Errors
  import opened Text
  import opened Json
  import opened Names
  import Crossref

  /** One entry as bibtexparser gives it: field name to field text. */
  type Entry = map<string, string>

  /** `entry.get(key, default)`. */
  function Get(entry: Entry, key: string, default: string): string {
    if key in entry then entry[key] else default
  }

  /** `entry[key]`, which raises KeyError for a missing field. */
  function Require(entry: Entry, key: string): (r: Result<string, Failure>)
    ensures r.Ok? <==> key in entry
    ensures r.Ok? ==> r.value == entry[key]
  {
    if key in entry then Ok(entry[key]) else Err(KeyError)
  }

  /** The author field as the program reads it: lower-cased, "unknown" when
      the entry has none. */
  function AuthorField(entry: Entry): string {
    Lower(Get(entry, "author", "unknown"))
  }

  /** `name[0].capitalize()`: the first letter as a capital; IndexError for
      an empty name. */
  function CapitalInitial(name: string): (r: Result<string, Failure>)
    ensures r.Ok? <==> name != []
    ensures r.Ok? ==> r.value == [UpperChar(name[0])]
  {
    if name == [] then Err(IndexError) else Ok(Capitalize([name[0]]))
  }

  /** The given names, or the error `first_names` raising is turned into. */
  function GivenOrMalformed(entry: Entry, standardName: string -> string): (r: Result<seq<string>, Failure>)
    ensures r.Ok? <==> FirstNames(standardName, AuthorField(entry)).Some?
    ensures r.Ok? ==> r.value == FirstNames(standardName, AuthorField(entry)).value && r.value != []
    ensures r.Err? ==> r.error == MalformedAuthor(Get(entry, "author", "unknown"))
  {
    match FirstNames(standardName, AuthorField(entry))
    case None => Err(MalformedAuthor(Get(entry, "author", "unknown")))
    case Some(g) => Ok(g)
  }

  /** `get_metadata_from_google_scholar` after the search: `entries` is
      what `bibtexparser.loads(extract_pdf_metadata(...)).entries` gives,
      None when either of those raised. `family_names` and `standard_name`
      are foreign and passed in. */
  function FromFulltext(entries: Option<seq<Entry>>, standardName: string -> string,
                        familyNames: string -> seq<string>): (r: Result<Crossref.Record, Failure>)
    // a record always carries a year, so the caller never sees None
    ensures r.Ok? ==> r.value.year.JStr? && r.value.title.JStr?
    ensures r.Ok? ==> entries.Some? && entries.value != []
  {
    if entries.None? then Err(ExtractFailed)
    else if entries.value == [] then Err(IndexError)
    else
      var entry := entries.value[0];
      var author := AuthorField(entry);
      var families := familyNames(author);
      var given :- GivenOrMalformed(entry, standardName);
      if families == [] || families[0] == "unknown" then Err(NoProperAuthor(families))
      else
        var year :- Require(entry, "year");
        var initial :- CapitalInitial(given[0]);
        var title :- Require(entry, "title");
        Ok(Crossref.Record(JStr(year), JStr(initial), JStr(Capitalize(families[0])), JStr(title)))
  }

  /** Where each field of a record built from the full-text search comes
      from: year and title from the first entry, the initial from the first
      given name and the family name from the first family name, which is
      neither missing nor "unknown". */
  lemma FulltextRecordFields(entries: Option<seq<Entry>>, standardName: string -> string,
                             familyNames: string -> seq<string>)
    requires FromFulltext(entries, standardName, familyNames).Ok?
    ensures entries.Some? && entries.value != []
    ensures var entry := entries.value[0];
      var rec := FromFulltext(entries, standardName, familyNames).value;
      var families := familyNames(AuthorField(entry));
      var given := FirstNames(standardName, AuthorField(entry));
      // the family name is never taken from an empty list or from "unknown"
      families != [] && families[0] != "unknown" && rec.family == JStr(Capitalize(families[0])) &&
      // the initial is one capital letter: the first letter of the first given name
      given.Some? && given.value[0] != [] && rec.initial == JStr([UpperChar(given.value[0][0])]) &&
      "year" in entry && "title" in entry &&
      rec.year == JStr(entry["year"]) && rec.title == JStr(entry["title"])
  {
  }

  /** An author field with an unsplittable chunk is reported as such,
      quoting the field as the entry has it; this comes before any check on
      the family names. */
  lemma MalformedAuthorReported(entries: seq<Entry>, standardName: string -> string,
                                familyNames: string -> seq<string>)
    requires entries != []
    requires FirstNames(standardName, AuthorField(entries[0])).None?
    ensures FromFulltext(Some(entries), standardName, familyNames) ==
              Err(MalformedAuthor(Get(entries[0], "author", "unknown")))
  {
  }

  /** Parsable authors whose first family name is missing or "unknown" are
      rejected. */
  lemma UnknownAuthorRejected(entries: seq<Entry>, standardName: string -> string,
                              familyNames: string -> seq<string>)
    requires entries != []
    requires FirstNames(standardName, AuthorField(entries[0])).Some?
    requires var families := familyNames(AuthorField(entries[0]));
      families == [] || families[0] == "unknown"
    ensures FromFulltext(Some(entries), standardName, familyNames) ==
              Err(NoProperAuthor(familyNames(AuthorField(entries[0]))))
  {
  }

  /** The converse of FulltextRecordFields: a first entry whose authors
      split, whose first given name is non-empty, whose first family name
      exists and is not "unknown", and which has a year and a title, is
      accepted, and gives exactly the record built from those fields. */
  lemma ValidEntryAccepted(entries: seq<Entry>, standardName: string -> string,
                           familyNames: string -> seq<string>)
    requires entries != []
    requires var entry := entries[0];
      var given := FirstNames(standardName, AuthorField(entry));
      var families := familyNames(AuthorField(entry));
      given.Some? && given.value[0] != [] && families != [] && families[0] != "unknown" &&
      "year" in entry && "title" in entry
    ensures var entry := entries[0];
      var given := FirstNames(standardName, AuthorField(entry)).value;
      var families := familyNames(AuthorField(entry));
      FromFulltext(Some(entries), standardName, familyNames) ==
        Ok(Crossref.Record(JStr(entry["year"]), JStr([UpperChar(given[0][0])]),
                           JStr(Capitalize(families[0])), JStr(entry["title"])))
  {
  }

  /** An entry with no author field reads as "unknown". When normalising
      that word leaves it without a comma (as the identity does), the
      comma split fails first, so the entry is reported as a malformed
      author rather than as an unknown one. */
  lemma MissingAuthorIsMalformed(entries: seq<Entry>, standardName: string -> string,
                                 familyNames: string -> seq<string>)
    requires entries != [] && "author" !in entries[0]
    requires ',' !in standardName("unknown")
    ensures FromFulltext(Some(entries), standardName, familyNames) == Err(MalformedAuthor("unknown"))
  {
    assert Lower("unknown") == "unknown";
    NoCommaFails(standardName, "unknown");
  }
}
