/** The list page (app/page.tsx): the client's copy of the entries, the
    handlers that update it after a response, the search filter, and the
    dialog state. Each handler takes the response it awaited; a fetch that
    rejects takes the same path as a non-ok response. */
module HomePage {
  import opened Types
  import opened Http
  import opened Seqs
  import opened Text
  import opened EntryForm

  /** The list a handler leaves behind and how its promise settled. */
  datatype Handled = Handled(entries: seq<Entry>, settled: Settled)

  // ---------------------------------------------------------------------
  // List reducers

  /** `entries.map(e => e.id === updated.id ? updated : e)`. */
  function ReplaceById(s: seq<Entry>, updated: Entry): (r: seq<Entry>)
    ensures |r| == |s|
    ensures forall i :: 0 <= i < |s| ==> r[i] == if s[i].id == updated.id then updated else s[i]
  {
    if |s| == 0 then []
    else [if s[0].id == updated.id then updated else s[0]] + ReplaceById(s[1..], updated)
  }

  /** `entries.filter(e => e.id !== id)`. */
  function RemoveById(s: seq<Entry>, id: string): seq<Entry> {
    Keep(s, (e: Entry) => e.id != id)
  }

  /** Removal by id keeps exactly the entries with another id, in order. */
  lemma RemoveByIdKeepsOthers(s: seq<Entry>, id: string) returns (idx: seq<nat>)
    ensures Embeds(idx, RemoveById(s, id), s)
    ensures forall i :: 0 <= i < |s| ==> (i in idx <==> s[i].id != id)
    ensures forall i :: 0 <= i < |RemoveById(s, id)| ==> RemoveById(s, id)[i].id != id
  {
    idx := KeepPositions(s, (e: Entry) => e.id != id);
  }

  // ---------------------------------------------------------------------
  // Handlers

  /** `fetchEntries`: an ok response replaces the list with its body;
      anything else leaves the list as it was. */
  function Load(entries: seq<Entry>, resp: Response): (r: seq<Entry>)
    requires resp.Ok() ==> resp.body.EntryList?
    ensures resp.Ok() ==> r == resp.body.entries
    ensures !resp.Ok() ==> r == entries
  {
    if resp.Ok() then resp.body.entries else entries
  }

  /** `handleCreate`: the created entry goes to the FRONT of the list,
      while the store appends at the back. A non-ok response rethrows. */
  function HandleCreate(entries: seq<Entry>, resp: Response): (r: Handled)
    requires resp.Ok() ==> resp.body.Single?
    ensures !resp.Ok() ==> r == Handled(entries, Rejected)
    ensures resp.Ok() ==>
      && r.settled == Resolved
      && |r.entries| == |entries| + 1
      && r.entries[0] == resp.body.entry
      && r.entries[1..] == entries
  {
    if !resp.Ok() then Handled(entries, Rejected)
    else Handled([resp.body.entry] + entries, Resolved)
  }

  /** `handleUpdate`: nothing at all happens without an entry being edited;
      otherwise an ok response replaces every entry with the returned id. */
  function HandleUpdate(entries: seq<Entry>, editing: Option<Entry>, resp: Response): (r: Handled)
    requires resp.Ok() ==> resp.body.Single?
    ensures editing.None? ==> r == Handled(entries, Resolved)
    ensures editing.Some? && !resp.Ok() ==> r == Handled(entries, Rejected)
    ensures editing.Some? && resp.Ok() ==>
      && r.settled == Resolved
      && |r.entries| == |entries|
      && forall i :: 0 <= i < |entries| ==>
           r.entries[i] == if entries[i].id == resp.body.entry.id then resp.body.entry else entries[i]
  {
    if editing.None? then Handled(entries, Resolved)
    else if !resp.Ok() then Handled(entries, Rejected)
    else Handled(ReplaceById(entries, resp.body.entry), Resolved)
  }

  /** `handleDelete`: only a confirmed delete sends a request, and only an
      ok response removes anything. Errors are not rethrown. */
  function HandleDelete(entries: seq<Entry>, id: string, confirmed: bool, resp: Response): (r: seq<Entry>)
    ensures !confirmed || !resp.Ok() ==> r == entries
    ensures confirmed && resp.Ok() ==>
      && (forall i :: 0 <= i < |r| ==> r[i].id != id && r[i] in entries)
      && (forall i :: 0 <= i < |entries| && entries[i].id != id ==> entries[i] in r)
      && (forall x :: multiset(r)[x] == if x.id != id then multiset(entries)[x] else 0)
  {
    if confirmed && resp.Ok() then
      KeepCounts(entries, (e: Entry) => e.id != id);
      RemoveById(entries, id)
    else entries
  }

  // ---------------------------------------------------------------------
  // Search

  /** The search predicate: the lowered query occurs in the lowered title
      or the lowered description. */
  predicate Matches(e: Entry, query: string) {
    Includes(Lower(e.title), Lower(query)) || Includes(Lower(e.description), Lower(query))
  }

  /** `filteredEntries`. */
  function Filtered(entries: seq<Entry>, query: string): seq<Entry> {
    Keep(entries, (e: Entry) => Matches(e, query))
  }

  /** An entry is shown exactly when the query occurs, ignoring ASCII case,
      in its title or its description; shown entries keep their order. */
  lemma FilteredShowsMatches(entries: seq<Entry>, query: string) returns (idx: seq<nat>)
    ensures Embeds(idx, Filtered(entries, query), entries)
    ensures forall i :: 0 <= i < |entries| ==>
      (i in idx <==> Occurs(Lower(query), Lower(entries[i].title)) || Occurs(Lower(query), Lower(entries[i].description)))
  {
    idx := KeepPositions(entries, (e: Entry) => Matches(e, query));
    forall i | 0 <= i < |entries|
      ensures Matches(entries[i], query) <==>
        Occurs(Lower(query), Lower(entries[i].title)) || Occurs(Lower(query), Lower(entries[i].description))
    {
      IncludesIff(Lower(entries[i].title), Lower(query));
      IncludesIff(Lower(entries[i].description), Lower(query));
    }
  }

  /** The empty query shows every entry. */
  lemma EmptyQueryShowsAll(entries: seq<Entry>)
    ensures Filtered(entries, "") == entries
  {
    forall i | 0 <= i < |entries| ensures Matches(entries[i], "") {
      IncludesEmpty(Lower(entries[i].title));
    }
    KeepEverything(entries, (e: Entry) => Matches(e, ""));
  }

  // ---------------------------------------------------------------------
  // Dialog state

  datatype Page = Page(entries: seq<Entry>, dialogOpen: bool, editing: Option<Entry>, query: string)

  /** The "Add Entry" button: open the dialog with nothing being edited. */
  function OpenForCreate(p: Page): (r: Page)
    ensures r.dialogOpen && r.editing.None?
    ensures r.entries == p.entries && r.query == p.query
  {
    p.(editing := None, dialogOpen := true)
  }

  /** `handleEdit`: open the dialog on an entry. */
  function Edit(p: Page, e: Entry): (r: Page)
    ensures r.dialogOpen && r.editing == Some(e)
    ensures r.entries == p.entries && r.query == p.query
  {
    p.(editing := Some(e), dialogOpen := true)
  }

  /** `handleDialogClose`: closing also forgets the entry being edited. */
  function DialogChange(p: Page, open: bool): (r: Page)
    ensures r.dialogOpen == open
    ensures r.editing == if open then p.editing else None
    ensures r.entries == p.entries && r.query == p.query
  {
    p.(dialogOpen := open, editing := if open then p.editing else None)
  }

  /** A closed dialog is never editing an entry. It holds on first render
      (closed, nothing edited). */
  ghost predicate ClosedMeansNotEditing(p: Page) {
    !p.dialogOpen ==> p.editing.None?
  }

  /** The page and the dialog's form together. */
  datatype Screen = Screen(page: Page, form: Form)

  /** A dialog submit: `onSubmit` is `handleUpdate` while an entry is being
      edited and `handleCreate` otherwise; a resolved submit asks the page
      to close the dialog. The form returned is the one at the moment the
      submit finishes: the dialog's prefill effect, which clears the fields
      once the dialog closes, is a separate later step (`Prefill`). */
  function Submit(p: Page, f: Form, resp: Response): (r: Screen)
    requires resp.Ok() ==> resp.body.Single?
    ensures !r.form.isSubmitting
    ensures Payload(r.form) == Payload(f)
    ensures resp.Ok() ==> !r.page.dialogOpen && r.page.editing.None?
    ensures !resp.Ok() ==> r.page == p
    ensures p.editing.None? && resp.Ok() ==> r.page.entries == [resp.body.entry] + p.entries
    ensures p.editing.Some? && resp.Ok() ==> r.page.entries == ReplaceById(p.entries, resp.body.entry)
  {
    var pending := BeginSubmit(f);
    var handled :=
      if p.editing.Some? then HandleUpdate(p.entries, p.editing, resp)
      else HandleCreate(p.entries, resp);
    var done := FinishSubmit(pending, handled.settled);
    var page := p.(entries := handled.entries);
    Screen(if done.closeRequested then DialogChange(page, false) else page, done.form)
  }

  /** Every dialog transition keeps a closed dialog free of an edited entry. */
  lemma DialogTransitionsKeepClosedMeansNotEditing(p: Page, e: Entry, open: bool, f: Form, resp: Response)
    requires ClosedMeansNotEditing(p)
    requires resp.Ok() ==> resp.body.Single?
    ensures ClosedMeansNotEditing(OpenForCreate(p))
    ensures ClosedMeansNotEditing(Edit(p, e))
    ensures ClosedMeansNotEditing(DialogChange(p, open))
    ensures ClosedMeansNotEditing(Submit(p, f, resp).page)
  {
  }
}
