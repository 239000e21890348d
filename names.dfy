/** `first_names`: the given names of every author in a BibTeX author
    field. The field is normalised by the foreign `standard_name`, cut at
    every " and ", and from each chunk the text after the first comma (up to
    the next comma) is kept, stripped of surrounding whitespace. A chunk with
    no comma makes Python raise IndexError, modelled as None. */
module Names {
  import opened Wrappers
  import opened Text

  const AND: string := " and "

  /** The author chunks of an already normalised author field. */
  function Chunks(normalised: string): (chunks: seq<string>)
    ensures |chunks| >= 1 && StartsWith(normalised, chunks[0])
    ensures Join(chunks, AND) == normalised
  {
    JoinSplit(normalised, AND);
    Split(normalised, AND)
  }

  /** `nm.split(",")[1].strip()` for one chunk. */
  function GivenName(chunk: string): (r: Option<string>)
    ensures r.Some? <==> ',' in chunk
    ensures r.Some? ==> Strip(r.value) == r.value
  {
    FindChar(chunk, ',');
    var parts := Split(chunk, ",");
    if |parts| < 2 then None
    else
      StripIdempotent(parts[1]);
      Some(Strip(parts[1]))
  }

  /** The name kept from a chunk is exactly its second comma-separated
      field, stripped: whatever precedes the first comma and whatever
      follows the second one play no part. */
  lemma GivenNameIsSecondField(front: string, field: string, rest: string)
    requires ',' !in front && ',' !in field
    requires rest == [] || rest[0] == ','
    ensures GivenName(front + "," + field + rest) == Some(Strip(field))
  {
    var chunk := front + "," + field + rest;
    FindCharAfter(front, ',', field + rest);
    assert chunk == front + [','] + (field + rest);
    assert chunk[|front| + |","|..] == field + rest;
    SplitAfterFirst(chunk, ",", |front|);
    FirstPieceBeforeComma(field, rest);
  }

  lemma FirstPieceBeforeComma(field: string, rest: string)
    requires ',' !in field
    requires rest == [] || rest[0] == ','
    ensures Split(field + rest, ",")[0] == field
  {
    if rest == [] {
      assert field + rest == field;
      FindChar(field, ',');
    } else {
      assert field + rest == field + [','] + rest[1..];
      FindCharAfter(field, ',', rest[1..]);
    }
  }

  /** The list comprehension over the chunks, in order; it raises at the
      first chunk that has no comma. */
  function GivenNames(chunks: seq<string>): (r: Option<seq<string>>)
    ensures r.Some? <==> forall i :: 0 <= i < |chunks| ==> ',' in chunks[i]
    ensures r.Some? ==> |r.value| == |chunks|
    ensures r.Some? ==> forall i :: 0 <= i < |chunks| ==> GivenName(chunks[i]) == Some(r.value[i])
    decreases |chunks|
  {
    if chunks == [] then Some([])
    else
      match GivenName(chunks[0])
      case None => None
      case Some(g) =>
        match GivenNames(chunks[1..])
        case None => None
        case Some(gs) => Some([g] + gs)
  }

  /** `first_names(author)`. One name per " and "-separated chunk, in the
      chunks' order, each one stripped; at least one, since splitting always
      yields a chunk. Fails exactly when some chunk has no comma. */
  function FirstNames(standardName: string -> string, author: string): (r: Option<seq<string>>)
    ensures r.Some? ==> r.value != []
  {
    GivenNames(Chunks(standardName(author)))
  }

  /** What `first_names` gives, chunk by chunk: a name for every chunk of
      the normalised field, in the chunks' order, each the chunk's given
      name already stripped; and nothing at all as soon as one chunk lacks
      its comma. */
  lemma FirstNamesChunks(standardName: string -> string, author: string)
    ensures var chunks := Chunks(standardName(author));
      var r := FirstNames(standardName, author);
      (r.Some? <==> forall i :: 0 <= i < |chunks| ==> ',' in chunks[i]) &&
      (r.Some? ==> |r.value| == |chunks| >= 1) &&
      (r.Some? ==> forall i :: 0 <= i < |chunks| ==>
                     GivenName(chunks[i]) == Some(r.value[i]) && Strip(r.value[i]) == r.value[i])
  {
  }

  /** A normalised field with no comma at all has no given name to offer:
      its first chunk already lacks the comma. */
  lemma NoCommaFails(standardName: string -> string, author: string)
    requires ',' !in standardName(author)
    ensures FirstNames(standardName, author) == None
  {
    var chunks := Chunks(standardName(author));
    assert chunks[0] == standardName(author)[..|chunks[0]|];
    assert ',' !in chunks[0];
  }
}
