/** The exceptions that end the processing of one document. Each one sends
    the document to the program's failure branch; the kinds differ only in
    what gets logged. */
module Errors {

  datatype Failure =
    | KeyError              // a missing dictionary key
    | IndexError            // an index past the end of a list or string
    | TypeError             // subscripting a value that does not support it
    | TransportError        // requests.get raised
    | DecodeError           // response.json() found no JSON in the body
    | Unreadable            // pymupdf.open raised
    | ExtractFailed         // extract_pdf_metadata or bibtexparser.loads raised
    | MalformedAuthor(field: string)            // an author chunk with no comma
    | NoProperAuthor(families: seq<string>)     // no family name, or "unknown"
}
