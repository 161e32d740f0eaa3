# Knowledge-entry store, API and list page: a Dafny model

This project models the core of a small knowledge-capture app for
manufacturing technicians. Entries have a title, a description, an optional
image URL, an id and two timestamps. The model covers:

- the in-memory entry store (`lib/mock-data.ts`), with its seed data and
  its list, get, create, update and delete operations;
- the collection route on top of it (GET and POST);
- the list page's client logic (`app/page.tsx`). This covers the list
  reducers run after a successful create, update and delete, the guards
  for non-ok responses, the search filter and the dialog state;
- the create/edit dialog (`components/entry-form-dialog.tsx`). This covers
  prefilling the form, building the payload, and the `isSubmitting` flag
  and close-on-success logic.

Everything is functional. The store is a `seq<Entry>`, passed to each
operation. List, create, update and delete return `Step(result, store)`,
the result together with the store afterwards; a lookup returns only its
result. The id generator
(`Date.now()`) and the clock (`new Date()`) are parameters: `Stamps` for
the three reads in create, and `now` for update. An optional property is
an `Option` in which `None` means the key is absent. `Partial<KnowledgeEntry>`
is `Patch`, and JavaScript's object spread is `Types.Spread`.

Modules, one per source file: `Types` (lib/types.ts), `Store`
(lib/mock-data.ts), `Http` (response values), `EntriesRoute`
(app/api/entries/route.ts), `EntryForm` (components/entry-form-dialog.tsx) and `HomePage`
(app/page.tsx). Two helper modules serve the page: `Seqs` (Array filter)
and `Text` (lower-casing and substring search). `Sync` holds the
properties that span the page and the store.

The main cross-component result is in `Sync`. Suppose the page's list
holds the same entries as the store (as a multiset) and ids are unique.
Then a create, an edit or a delete applied to the store and answered to
the page keeps that true, provided, for a create, the generated id is not
already in the store (`Date.now()` ids can collide, and
`Store.CreateUnderTakenIdIsShadowed` shows what a collision does). The
page prepends what the store appends, replaces by id what the store
overwrites at the first match, and filters out by id what the store
splices out.

The code promises less than its names and types suggest; the model follows
the code:

- Ids come from `Date.now()`, so they are not guaranteed unique. Freshness
  is a precondition wherever a property needs it, and
  `Store.CreateUnderTakenIdIsShadowed` shows what happens without it.
- `createdAt` and `updatedAt` are two separate clock reads, so they need
  not be equal at creation.
- The store's update accepts any partial entry and spreads it over the old
  one. An update can therefore rewrite `id` and `createdAt`
  (`Store.UpdateMayRewriteIdentity`).
- `createdAt <= updatedAt` is not promised: timestamps are opaque strings.
- Nothing re-checks that titles are non-empty after an update.
- There is no reset operation: `resetMockData` is not defined in
  `lib/mock-data.ts`.

## Model

| member | source | states |
|---|---|---|
| Store.FindIndex | lib/mock-data.ts:52-53 | `findIndex` by id returns the first position whose entry has the id; the not-found result (-1) happens exactly when no entry has it. |
| Store.Seed | lib/mock-data.ts:4-30 | The initial store holds three entries with ids "1", "2", "3" in that order. Each has equal `createdAt` and `updatedAt`, a non-empty title and description, and distinct ids. Only the third has no image. |
| Store.List | lib/mock-data.ts:32-34 | The copy returned holds every stored entry in insertion order, and the store is unchanged. |
| Store.Get | lib/mock-data.ts:36-38 | Lookup returns the first entry with the id, and returns none exactly when no entry has the id. |
| Store.Create | lib/mock-data.ts:40-49 | Exactly one entry is appended at the end and earlier entries are unchanged. The new entry keeps the input's title, description and imageUrl. Its id and both timestamps are the generated values, whatever the input carried. |
| Store.Overlay | lib/mock-data.ts:55-59 | Key by key: a key the update carries replaces the stored value, an absent key keeps it, and `updatedAt` is always the clock. |
| Store.Update | lib/mock-data.ts:51-61 | An absent id gives none and leaves the store unchanged. Otherwise only the first match is replaced, in place, by the overlaid entry; the length and all other positions are kept. |
| Store.Delete | lib/mock-data.ts:63-69 | The result is true exactly when the id is present. Then exactly the first match is spliced out and the length drops by one. Otherwise the store is unchanged. |
| Store.FirstMatchExists | lib/mock-data.ts:52 | A store holding the id has a first entry with it. |
| Store.CreateThenGet | lib/mock-data.ts:36-47 | Round trip: after a create under an id not yet present, looking that id up returns the entry just created. |
| Store.CreateUnderTakenIdIsShadowed | lib/mock-data.ts:43 | If the generated id is already taken, looking it up after the create still returns the older entry. |
| Store.CreateKeepsIdsUnique | lib/mock-data.ts:40-49 | A create under a fresh id keeps ids unique. |
| Store.UpdateKeepsIdsUnique | lib/mock-data.ts:51-61 | An update carrying no id key keeps ids unique. |
| Store.EmptyUpdateOnlyTouchesUpdatedAt | lib/types.ts:16-20 | An update payload with no fields set is well-typed and changes only the matched entry's `updatedAt`. |
| Store.TypedUpdateKeepsIdentity | lib/types.ts:16-20 | An update built from the declared update type keeps the entry's id and `createdAt`, and sets `updatedAt` to the clock. |
| Store.UpdateMayRewriteIdentity | lib/mock-data.ts:51-59 | The update accepts a wider partial entry. On the seed, renaming "1" to "9" succeeds, after which "1" is not found and "9" returns the rewritten entry. |
| Store.DeleteRemovesId | lib/mock-data.ts:63-69 | With unique ids, no entry has the id after a delete, and ids stay unique. |
| Store.DeleteTwiceReportsFalse | lib/mock-data.ts:63-69 | With unique ids, a second delete of the same id returns false. |
| EntriesRoute.GetAll | app/api/entries/route.ts:6-11 | GET responds 200 with exactly the list the store returns, and the store is unchanged. |
| EntriesRoute.Post | app/api/entries/route.ts:14-32 | POST responds 400 or 201. An unparseable body gives "Invalid request body"; a missing or empty title or description gives "Title and description are required"; in both cases the store is unchanged. Otherwise (201 exactly then) the store grows by one and the response body is the appended entry. |
| EntriesRoute.BlankFieldsPass | app/api/entries/route.ts:20 | Validation is only a falsiness check: a whitespace-only title and description are accepted and stored. |
| EntriesRoute.PostIgnoresClientIdentity | app/api/entries/route.ts:27 | Passing the whole body to the store does not let a client choose the id or timestamps: for every accepted body, whether or not it carries those keys, the generated values win. |
| Seqs.Keep | app/page.tsx:140-144 | Filtering keeps an element exactly when it satisfies the predicate, and never lengthens the list. |
| Seqs.KeepPositions | app/page.tsx:140-144 | Filtering keeps exactly the positions where the predicate holds, in increasing order (an order-preserving subsequence). |
| Seqs.KeepCounts | app/page.tsx:113 | Filtering keeps every copy of a satisfying element and no copy of any other. |
| Seqs.KeepEverything | app/page.tsx:140-144 | A predicate true of every element keeps the whole list. |
| Text.Lower | app/page.tsx:142-143 | Lower-casing keeps the length, maps each character to its lower case and leaves no upper-case ASCII letter. |
| Text.IncludesIff | app/page.tsx:142-143 | `includes` is true exactly when the needle occurs at some offset of the haystack. |
| Text.IncludesEmpty | app/page.tsx:142-143 | The empty string is included in every string. |
| HomePage.ReplaceById | app/page.tsx:87 | Mapping by id keeps the length, replaces every entry with the returned id, and leaves the others unchanged. |
| HomePage.RemoveByIdKeepsOthers | app/page.tsx:113 | Removing by id drops every entry with that id and keeps all others in their relative order. |
| HomePage.Load | app/page.tsx:28-44 | An ok response replaces the list with its body; a non-ok response leaves the list unchanged. |
| HomePage.HandleCreate | app/page.tsx:47-72 | After an ok create, the list is the new entry prepended to the old one (the opposite end from the store's append), and the promise resolves. A non-ok response leaves the list unchanged and rejects. |
| HomePage.HandleUpdate | app/page.tsx:74-101 | With no entry being edited, nothing changes and the promise resolves. After an ok update, the length is kept and entries with the returned id are replaced. A non-ok response leaves the list unchanged and rejects. |
| HomePage.HandleDelete | app/page.tsx:103-126 | An unconfirmed delete or a non-ok response leaves the list unchanged. An ok delete keeps exactly the entries with another id, each as many times as before, and no copy of an entry with the id. |
| HomePage.FilteredShowsMatches | app/page.tsx:140-144 | An entry is shown exactly when the lower-cased query occurs in its lower-cased title or description; shown entries keep their order. |
| HomePage.EmptyQueryShowsAll | app/page.tsx:140-144 | The empty query shows every entry. |
| HomePage.OpenForCreate | app/page.tsx:167-170 | The add button opens the dialog with no entry being edited and keeps the list. |
| HomePage.Edit | app/page.tsx:128-131 | Editing opens the dialog on the chosen entry and keeps the list. |
| HomePage.DialogChange | app/page.tsx:133-138 | Closing the dialog also forgets the entry being edited; opening keeps it. |
| HomePage.Submit | app/page.tsx:248-253 | The submit uses `handleUpdate` while an entry is edited and `handleCreate` otherwise. Success closes the dialog and clears the edited entry; failure leaves the page as it was. `isSubmitting` ends false either way. |
| HomePage.DialogTransitionsKeepClosedMeansNotEditing | app/page.tsx:128-138 | Every dialog transition keeps the invariant that a closed dialog has no edited entry. |
| EntryForm.Prefill | components/entry-form-dialog.tsx:34-44 | Opening on an entry copies its title and description and shows its image URL, or "" when it has none. With no entry, all three fields become "". |
| EntryForm.Payload | components/entry-form-dialog.tsx:51-55 | The payload carries the form's title and description. Its imageUrl is absent exactly when the field is "", and otherwise equals the field. |
| EntryForm.BeginSubmit | components/entry-form-dialog.tsx:48 | Submitting sets `isSubmitting` and does not alter the payload. |
| EntryForm.FinishSubmit | components/entry-form-dialog.tsx:50-61 | The dialog asks to close exactly when `onSubmit` resolved, and `isSubmitting` is false afterwards either way. |
| EntryForm.PrefillThenSubmit | components/entry-form-dialog.tsx:36-55 | Round trip: prefill from an entry, then submit without edits, gives the entry's title and description, and its imageUrl with "" read as absent. |
| EntryForm.PayloadThenPrefill | components/entry-form-dialog.tsx:36-55 | Round trip: prefilling from an entry that carries a form's payload gives back the same three fields. |
| Sync.LoadShowsStore | app/page.tsx:28-34 | The initial fetch shows the store in the store's own order. |
| Sync.ReplaceKeepsSync | app/page.tsx:87 | With unique ids, replacing by id on the page and overwriting the match in the store keep the two holding the same entries. |
| Sync.CreateKeepsSync | app/page.tsx:47-58 | With unique ids and a fresh generated id, a POST followed by the page's prepend keeps page and store holding the same entries, and ids stay unique. |
| Sync.UpdateKeepsSync | app/page.tsx:74-87 | With unique ids, an edit from the form applied by the store's update, answered ok exactly when the entry was found and then carrying it, followed by the page's replace-by-id, keeps page and store holding the same entries, and ids stay unique. |
| Sync.DeleteKeepsSync | app/page.tsx:103-113 | With unique ids, a confirmed delete applied by the store, answered ok exactly when something was removed, followed by the page's remove-by-id, keeps page and store holding the same entries, and ids stay unique. |
| Sync.UnchangedEditOnlyTouchesUpdatedAt | components/entry-form-dialog.tsx:34-55 | Opening an entry for editing and saving it unchanged makes the store's update return the entry, differing only in `updatedAt`, written back at its own position. |
| Sync.ClearedImageIsKept | components/entry-form-dialog.tsx:54 | Clearing the image field while editing does not remove the stored image: the payload drops the key and the update keeps the old value. |
| Sync.CreatedEntryPrefillsSameForm | components/entry-form-dialog.tsx:34-55 | A form submitted for creation is stored as an entry that prefills the same three fields. |
| Sync.SeedScenarios | tests/knowledge-entries.spec.ts:13-87 | On the seed data: GET lists 3 entries. Creating "T"/"D" gives 201 and a fourth entry with no image, which a lookup of the fresh id returns. An empty title gives 400 and no change. Deleting "1" succeeds and leaves 2 entries, after which get and delete of "1" find nothing. |

## Left out

- The per-entry route (`app/api/entries/` with an id segment: GET, PATCH, DELETE by id) is not part of this model. The properties spanning page and store take the store's update and delete directly, and assume only that the page's response is ok exactly when the store's operation succeeded and, for an edit, carries the updated entry.
- Keys other than the six of `KnowledgeEntry` in a request body: the spreads in `lib/mock-data.ts` (lines 42 and 57) copy them into the stored entry and GET returns them; `Patch` drops them.
- Object identity: `getMockEntry`, `createMockEntry` and `updateMockEntry` return the stored object itself and `getMockEntries` a shallow copy. A value model cannot show that aliasing; the callers only serialise these objects.
- The artificial latency (`setTimeout`) in the route handlers: it affects timing only.
- HTTP transport, `fetch`, `NextResponse` and JSON parsing. A request body is a `Patch`, or `None` when parsing fails. A fetch that rejects takes the same path on the page as a non-ok response.
- JSON bodies that are not objects. A `null` POST body throws on property access and gets the same "Invalid request body" answer as an unparseable one. A `null` PATCH body spreads as no keys at all. Neither is distinguished here.
- Field values that are not strings (numbers, booleans, explicit `null`) in a request body: every present key holds a string.
- `toLowerCase` beyond ASCII: the search model lower-cases `A`-`Z` only.
- `Date.now()` and `new Date().toISOString()`: these are parameters. No ISO-8601 string is parsed or compared.
- The test-only reset route (`app/api/test-reset/route.ts`): it calls `resetMockData`, which `lib/mock-data.ts` does not define.
- React rendering, hook timing, stale closures over `entries`, toasts and `console.error`. Handlers are sequential state transitions. The `confirm()` prompt is a boolean parameter.
- The browser's `required` check on the title and description inputs: it belongs to the browser, not the code.
- `components/knowledge-entry-card.tsx` and `components/app-sidebar.tsx`: they are presentation only.
