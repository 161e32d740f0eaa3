/** Responses as values: a status code and the JSON body `NextResponse.json`
    would carry. Transport and serialisation are not modelled. */
module Http {
  import opened Types

  /** The JSON bodies the route handlers send. */
  datatype Body =
    | EntryList(entries: seq<Entry>)   // an array of entries
    | Single(entry: Entry)             // one entry
    | Failure(error: string)           // `{ error: message }`

  datatype Response = Response(status: int, body: Body) {
    /** `response.ok` on the client: a status in 200..299. */
    predicate Ok() {
      200 <= status <= 299
    }
  }

  const InvalidBody := "Invalid request body"
  const FieldsRequired := "Title and description are required"
}
