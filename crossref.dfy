/** `get_metadata_from_crossref`: reading the publication year, the first
    author's initial and family name, and the title out of the reply the
    CrossRef works API gives for a DOI. The HTTP request itself is not part
    of the model: the reply is an input. */
module Crossref {
  import opened Wrappers
  import opened Errors
  import opened Json
  import Text

  /** The reply to `GET https://api.crossref.org/works/{doi}`: its status
      code and what `response.json()` decodes from its body (None when the
      body is not JSON, which makes `json()` raise). */
  datatype Response = Response(status: int, body: Option<Json>)

  /** The tuple `(year, first_initial, last_name, title)` the program
      passes around. The fields hold whatever JSON values the reply has at
      the places read; Python's None is JNull. */
  datatype Record = Record(year: Json, initial: Json, family: Json, title: Json)

  /** `["published"]["date-parts"][0][0]`: where an item holds its year. */
  const YEAR_PATH: seq<Step> := [Key("published"), Key("date-parts"), At(0), At(0)]

  /** `["title"][0]`: where an item holds its title. */
  const TITLE_PATH: seq<Step> := [Key("title"), At(0)]

  /** `response.json()["message"]["author"]`: the author list of a reply. */
  function Authors(resp: Response): Result<Json, Failure> {
    var data :- if resp.body.Some? then Ok(resp.body.value) else Err(DecodeError);
    var item :- GetKey(data, "message");
    GetKey(item, "author")
  }

  /** `authors[0] if authors else None`. */
  function FirstAuthor(authors: Json): (r: Result<Json, Failure>)
    ensures !Truthy(authors) ==> r == Ok(JNull)
    ensures Truthy(authors) ==> r == GetIndex(authors, 0)
  {
    if Truthy(authors) then GetIndex(authors, 0) else Ok(JNull)
  }

  /** `first_author["given"][:1] if first_author else "Unknown"`. */
  function Initial(firstAuthor: Json): (r: Result<Json, Failure>)
    ensures !Truthy(firstAuthor) ==> r == Ok(JStr("Unknown"))
    ensures Truthy(firstAuthor) && r.Ok? ==> GetKey(firstAuthor, "given").Ok?
    ensures Truthy(firstAuthor) && GetKey(firstAuthor, "given").Ok? ==>
      r == SliceTo(GetKey(firstAuthor, "given").value, 1)
  {
    if Truthy(firstAuthor) then
      var given :- GetKey(firstAuthor, "given");
      SliceTo(given, 1)
    else Ok(JStr("Unknown"))
  }

  /** `first_author["family"] if first_author else "Unknown"`. */
  function Family(firstAuthor: Json): (r: Result<Json, Failure>)
    ensures !Truthy(firstAuthor) ==> r == Ok(JStr("Unknown"))
    ensures Truthy(firstAuthor) ==> r == GetKey(firstAuthor, "family")
  {
    if Truthy(firstAuthor) then GetKey(firstAuthor, "family") else Ok(JStr("Unknown"))
  }

  /** `get_metadata_from_crossref` once the reply is in: None for any status
      but 200; for 200 the record, or the exception that a missing key, a
      short list or a value of the wrong type raises on the way. */
  function FromCrossref(resp: Response): (r: Result<Option<Record>, Failure>)
    // None exactly for the statuses other than 200
    ensures r == Ok(None) <==> resp.status != 200
    ensures r.Ok? && r.value.Some? ==> resp.status == 200 && Authors(resp).Ok?
  {
    if resp.status != 200 then Ok(None)
    else
      var data :- if resp.body.Some? then Ok(resp.body.value) else Err(DecodeError);
      var item :- GetKey(data, "message");
      var year :- Follow(item, YEAR_PATH);
      var title :- Follow(item, TITLE_PATH);
      var authors :- GetKey(item, "author");
      var firstAuthor :- FirstAuthor(authors);
      var initial :- Initial(firstAuthor);
      var family :- Family(firstAuthor);
      Ok(Some(Record(year, initial, family, title)))
  }

  /** A record read from a reply holds the year and the title found along
      their subscript chains, and the initial and family name read from the
      first author, when there is one. */
  lemma RecordFields(resp: Response, rec: Record)
    requires FromCrossref(resp) == Ok(Some(rec))
    ensures resp.body.Some? && GetKey(resp.body.value, "message").Ok?
    ensures var item := GetKey(resp.body.value, "message").value;
      Follow(item, YEAR_PATH) == Ok(rec.year) && Follow(item, TITLE_PATH) == Ok(rec.title)
    ensures Authors(resp).Ok? && FirstAuthor(Authors(resp).value).Ok?
    ensures var first := FirstAuthor(Authors(resp).value).value;
      Initial(first) == Ok(rec.initial) && Family(first) == Ok(rec.family)
  {
    RecordChains(resp, rec);
    RecordAuthor(resp, rec);
  }

  lemma RecordChains(resp: Response, rec: Record)
    requires FromCrossref(resp) == Ok(Some(rec))
    ensures resp.body.Some? && GetKey(resp.body.value, "message").Ok?
    ensures var item := GetKey(resp.body.value, "message").value;
      Follow(item, YEAR_PATH) == Ok(rec.year) && Follow(item, TITLE_PATH) == Ok(rec.title)
  {
    assert resp.status == 200 && resp.body.Some?;
    var item := GetKey(resp.body.value, "message");
    assert item.Ok?;
    var year := Follow(item.value, YEAR_PATH);
    var title := Follow(item.value, TITLE_PATH);
    assert year.Ok? && title.Ok?;
  }

  lemma RecordAuthor(resp: Response, rec: Record)
    requires FromCrossref(resp) == Ok(Some(rec))
    ensures Authors(resp).Ok? && FirstAuthor(Authors(resp).value).Ok?
    ensures var first := FirstAuthor(Authors(resp).value).value;
      Initial(first) == Ok(rec.initial) && Family(first) == Ok(rec.family)
  {
  }

  /** The converse of RecordFields, for any reply: a 200 reply whose body
      has a message on which every subscript the reader applies succeeds
      yields the record of those values, whatever else the message holds. */
  lemma ReplyRead(resp: Response, item: Json, year: Json, title: Json, authors: Json,
                  first: Json, initial: Json, family: Json)
    requires resp.status == 200 && resp.body.Some?
    requires GetKey(resp.body.value, "message") == Ok(item)
    requires Follow(item, YEAR_PATH) == Ok(year) && Follow(item, TITLE_PATH) == Ok(title)
    requires GetKey(item, "author") == Ok(authors) && FirstAuthor(authors) == Ok(first)
    requires Initial(first) == Ok(initial) && Family(first) == Ok(family)
    ensures FromCrossref(resp) == Ok(Some(Record(year, initial, family, title)))
  {
  }

  /** An empty (or otherwise false) author list gives the placeholder
      "Unknown" for both the initial and the family name. */
  lemma UnknownWithoutAuthors(resp: Response, rec: Record)
    requires FromCrossref(resp) == Ok(Some(rec))
    requires !Truthy(Authors(resp).value)
    ensures rec.initial == JStr("Unknown") && rec.family == JStr("Unknown")
  {
    RecordFields(resp, rec);
  }

  /** With at least one author, the initial is at most one character (or
      item) taken from the front of the first author's "given" value, and the
      family name is that author's "family" value. */
  lemma FirstAuthorFields(resp: Response, rec: Record)
    requires FromCrossref(resp) == Ok(Some(rec))
    requires Authors(resp).value.JArr? && Authors(resp).value.items != []
    ensures var first := Authors(resp).value.items[0];
      Truthy(first) ==>
        GetKey(first, "given").Ok? &&
        GetKey(first, "family") == Ok(rec.family) &&
        (rec.initial.JStr? || rec.initial.JArr?) &&
        (rec.initial.JStr? ==>
           GetKey(first, "given").value.JStr? && |rec.initial.s| <= 1 &&
           Text.StartsWith(GetKey(first, "given").value.s, rec.initial.s))
  {
    RecordFields(resp, rec);
    var first := Authors(resp).value.items[0];
    assert FirstAuthor(Authors(resp).value) == Ok(first);
  }

  /** The message member of a well-formed reply. */
  function Message(year: Json, title: string, authors: seq<Json>): Json {
    JObj([("published", JObj([("date-parts", JArr([JArr([year])]))])),
          ("title", JArr([JStr(title)])),
          ("author", JArr(authors))])
  }

  function Person(given: string, family: string): Json {
    JObj([("given", JStr(given)), ("family", JStr(family))])
  }

  /** A 200 reply that has every field the reader looks for always yields a
      record, with the year and title as sent, the first letter of the first
      author's given name and that author's family name. */
  lemma WellFormedReply(year: Json, title: string, given: string, family: string, others: seq<Json>)
    ensures var resp := Response(200, Some(JObj([("message", Message(year, title, [Person(given, family)] + others))])));
      FromCrossref(resp) ==
        Ok(Some(Record(year, JStr(if given == [] then [] else [given[0]]), JStr(family), JStr(title))))
  {
    var authors := [Person(given, family)] + others;
    var msg := Message(year, title, authors);
    MessageFields(year, title, authors);
    PersonFields(given, family);
    assert GetKey(JObj([("message", msg)]), "message") == Ok(msg);
    assert GetIndex(JArr(authors), 0) == Ok(Person(given, family));
    assert given != [] ==> given[..1] == [given[0]];
  }

  lemma MessageFields(year: Json, title: string, authors: seq<Json>)
    ensures Follow(Message(year, title, authors), YEAR_PATH) == Ok(year)
    ensures Follow(Message(year, title, authors), TITLE_PATH) == Ok(JStr(title))
    ensures GetKey(Message(year, title, authors), "author") == Ok(JArr(authors))
  {
    var msg := Message(year, title, authors);
    var ms := msg.members;
    assert ms[..2][..1] == ms[..1];
    assert Lookup(ms[..2], "title") == Some(JArr([JStr(title)]));
    assert Lookup(ms[..1], "published") == Some(ms[0].1);
    assert Lookup(ms[..2], "published") == Some(ms[0].1);
    var published := JObj([("date-parts", JArr([JArr([year])]))]);
    assert GetKey(msg, "published") == Ok(published);
    assert YEAR_PATH[1..] == [Key("date-parts"), At(0), At(0)];
    assert YEAR_PATH[1..][1..] == [At(0), At(0)];
    assert YEAR_PATH[1..][1..][1..] == [At(0)];
    assert Follow(JArr([year]), [At(0)]) == Ok(year);
    assert Follow(JArr([JArr([year])]), [At(0), At(0)]) == Ok(year);
    assert Follow(published, [Key("date-parts"), At(0), At(0)]) == Ok(year);
    assert TITLE_PATH[1..] == [At(0)];
    assert Follow(JArr([JStr(title)]), [At(0)]) == Ok(JStr(title));
  }

  lemma PersonFields(given: string, family: string)
    ensures GetKey(Person(given, family), "given") == Ok(JStr(given))
    ensures GetKey(Person(given, family), "family") == Ok(JStr(family))
  {
    var ms := Person(given, family).members;
    assert Lookup(ms[..1], "given") == Some(JStr(given));
  }
}
