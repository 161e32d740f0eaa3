/** The collection handlers (app/api/entries/route.ts): GET lists the store,
    POST validates the body and creates an entry. The artificial latency is
    left out; the parsed body is `None` when `request.json()` throws. */
module EntriesRoute {
  import opened Types
  import opened Store
  import opened Http

  /** JavaScript truthiness of an optional string property: an absent key
      and the empty string are falsy, every other string is truthy. */
  predicate Truthy(v: Option<string>) {
    v.Some? && v.value != ""
  }

  /** GET /api/entries. */
  function GetAll(s: seq<Entry>): (r: Step<Response>)
    ensures r.store == s
    ensures r.result.status == 200 && r.result.body.EntryList?
    ensures r.result.body.entries == Store.List(s).result
  {
    var listed := Store.List(s);
    Step(Response(200, EntryList(listed.result)), listed.store)
  }

  /** POST /api/entries. */
  function Post(s: seq<Entry>, parsed: Option<Patch>, stamps: Stamps): (r: Step<Response>)
    ensures r.result.status == 400 || r.result.status == 201
    ensures r.result.status == 201 <==>
      parsed.Some? && Truthy(parsed.value.title) && Truthy(parsed.value.description)
    ensures parsed.None? ==> r.result == Response(400, Failure(InvalidBody))
    ensures parsed.Some? && r.result.status == 400 ==> r.result == Response(400, Failure(FieldsRequired))
    ensures r.result.status == 400 ==> r.store == s
    ensures r.result.status == 201 ==>
      && |r.store| == |s| + 1
      && r.store[..|s|] == s
      && r.result.body == Single(r.store[|s|])
      && r.store[|s|].id == stamps.id
      && r.store[|s|].title == parsed.value.title.value
      && r.store[|s|].description == parsed.value.description.value
      && r.store[|s|].imageUrl == parsed.value.imageUrl
  {
    match parsed
    case None => Step(Response(400, Failure(InvalidBody)), s)
    case Some(body) =>
      if !Truthy(body.title) || !Truthy(body.description) then
        Step(Response(400, Failure(FieldsRequired)), s)
      else
        var created := Store.Create(s, body, stamps);
        Step(Response(201, Single(created.result)), created.store)
  }

  /** Validation is a truthiness test only: a title and description made of
      blanks are accepted and stored as they are. */
  lemma BlankFieldsPass(s: seq<Entry>, stamps: Stamps)
    ensures var r := Post(s, Some(CreateInput(" ", "\t", None).ToWire()), stamps);
      r.result.status == 201 && r.store[|s|].title == " " && r.store[|s|].description == "\t"
  {
  }

  /** Whatever id or timestamps an accepted body names, or leaves out, the
      stored entry gets the generated values. */
  lemma PostIgnoresClientIdentity(s: seq<Entry>, body: Patch, stamps: Stamps)
    requires Truthy(body.title) && Truthy(body.description)
    ensures var r := Post(s, Some(body), stamps);
      && r.result.body.Single?
      && r.result.body.entry.id == stamps.id
      && r.result.body.entry.createdAt == stamps.createdAt
      && r.result.body.entry.updatedAt == stamps.updatedAt
  {
  }
}
