/** The record shapes of the knowledge-capture app (lib/types.ts), and the
    JavaScript object spread through which the store and the client combine
    them. An optional property is an `Option`: `None` means the key is absent. */
module Types {

  datatype Option<+T> = None | Some(value: T) {

    /** The value, or `default` when absent. */
    function GetOr(default: T): T {
      match this
      case Some(v) => v
      case None => default
    }
  }

  /** A stored knowledge entry. Every field is required except `imageUrl`.
      Timestamps are ISO-8601 strings; the model never interprets them. */
  datatype Entry = Entry(
    id: string,
    title: string,
    description: string,
    imageUrl: Option<string>,
    createdAt: string,
    updatedAt: string)
  {
    /** The entry seen as a partial record: every key present. */
    function AsPatch(): (p: Patch)
      ensures p.Complete()
    {
      Patch(Some(id), Some(title), Some(description), imageUrl, Some(createdAt), Some(updatedAt))
    }
  }

  /** What a caller supplies to create an entry: no id, no timestamps. */
  datatype CreateInput = CreateInput(title: string, description: string, imageUrl: Option<string>)
  {
    /** The object the server reads back after the client sends this input
        through `JSON.stringify`: an absent `imageUrl` stays absent, and no
        id or timestamp key is ever present. */
    function ToWire(): (p: Patch)
      ensures p.id.None? && p.createdAt.None? && p.updatedAt.None?
      ensures p.title == Some(title) && p.description == Some(description)
      ensures p.imageUrl == imageUrl
    {
      Patch(None, Some(title), Some(description), imageUrl, None, None)
    }
  }

  /** The declared update payload: every field optional, and no id or
      timestamp among them. */
  datatype UpdateInput = UpdateInput(title: Option<string>, description: Option<string>, imageUrl: Option<string>)
  {
    function ToWire(): (p: Patch)
      ensures p.id.None? && p.createdAt.None? && p.updatedAt.None?
      ensures p.title == title && p.description == description && p.imageUrl == imageUrl
    {
      Patch(None, title, description, imageUrl, None, None)
    }
  }

  /** `Partial<KnowledgeEntry>`: a record in which every key may be absent.
      This is the shape the store's update accepts, and the shape of any
      JSON object a request body parses to. */
  datatype Patch = Patch(
    id: Option<string>,
    title: Option<string>,
    description: Option<string>,
    imageUrl: Option<string>,
    createdAt: Option<string>,
    updatedAt: Option<string>)
  {
    /** Every key a `KnowledgeEntry` requires is present. */
    predicate Complete() {
      id.Some? && title.Some? && description.Some? && createdAt.Some? && updatedAt.Some?
    }

    /** Reads a complete partial record as an entry. */
    function ToEntry(): (e: Entry)
      requires Complete()
    {
      Entry(id.value, title.value, description.value, imageUrl, createdAt.value, updatedAt.value)
    }
  }

  /** The record with no keys at all. */
  const NoKeys: Patch := Patch(None, None, None, None, None, None)

  /** One key of `{...base, ...over}`: the later object wins when it has the key. */
  function Later<T>(over: Option<T>, base: Option<T>): Option<T> {
    if over.Some? then over else base
  }

  /** `{...base, ...over}`: each key comes from `over` when present there,
      from `base` otherwise. */
  function Spread(base: Patch, over: Patch): Patch {
    Patch(
      Later(over.id, base.id),
      Later(over.title, base.title),
      Later(over.description, base.description),
      Later(over.imageUrl, base.imageUrl),
      Later(over.createdAt, base.createdAt),
      Later(over.updatedAt, base.updatedAt))
  }
}
