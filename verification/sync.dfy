/** How the page's copy of the entries relates to the store behind the API.
    The page prepends what the store appends, replaces by id what the store
    replaces at the first match, and removes by id what the store splices
    out; with unique ids, both hold the same entries, in different orders. */
module Sync {
  import opened Types
  import opened Store
  import opened Http
  import EntriesRoute
  import opened HomePage
  import opened EntryForm
  import opened Seqs

  /** The page holds exactly the stored entries, each as often, in any order. */
  ghost predicate InSync(view: seq<Entry>, store: seq<Entry>) {
    multiset(view) == multiset(store)
  }

  // ---------------------------------------------------------------------
  // Counting facts

  /** With unique ids, the entry at `i` occurs once and is the only entry
      carrying its id. */
  lemma UniqueIdsCount(s: seq<Entry>, i: int)
    requires UniqueIds(s) && 0 <= i < |s|
    ensures multiset(s)[s[i]] == 1
    ensures forall y :: y in s && y.id == s[i].id ==> y == s[i]
  {
    var before, after := s[..i], s[i + 1..];
    assert s == before + [s[i]] + after;
    assert forall k :: 0 <= k < |before| ==> before[k] == s[k];
    assert forall k :: 0 <= k < |after| ==> after[k] == s[i + 1 + k];
    assert s[i] !in before;
    assert s[i] !in after;
    assert multiset(s) == multiset(before) + multiset{s[i]} + multiset(after);
  }

  /** A list with a head counts the head once more than its tail does. */
  lemma ConsCount(h: Entry, t: seq<Entry>, x: Entry)
    ensures multiset([h] + t)[x] == (if h == x then 1 else 0) + multiset(t)[x]
  {
  }

  /** Replacing by id, when every entry with that id is `prev`, trades all
      copies of `prev` for as many copies of the replacement. */
  lemma {:induction false} ReplaceCount(s: seq<Entry>, u: Entry, prev: Entry, x: Entry)
    requires prev.id == u.id
    requires forall y :: y in s && y.id == u.id ==> y == prev
    ensures multiset(ReplaceById(s, u))[x] ==
      if x.id == u.id then (if x == u then multiset(s)[prev] else 0) else multiset(s)[x]
  {
    if |s| > 0 {
      var head := if s[0].id == u.id then u else s[0];
      var tail := s[1..];
      assert s == [s[0]] + tail;
      ReplaceCount(tail, u, prev, x);
      assert ReplaceById(s, u) == [head] + ReplaceById(tail, u);
      ConsCount(head, ReplaceById(tail, u), x);
      ConsCount(s[0], tail, x);
      ConsCount(s[0], tail, prev);
      if s[0].id == u.id {
        assert s[0] == prev;
      } else {
        assert s[0] != prev && head == s[0];
      }
    }
  }

  /** Splicing out one position removes one copy of its entry. */
  lemma SpliceCount(s: seq<Entry>, i: int)
    requires 0 <= i < |s|
    ensures multiset(s[..i] + s[i + 1..]) == multiset(s) - multiset{s[i]}
  {
    assert s == s[..i] + [s[i]] + s[i + 1..];
  }

  /** Overwriting one position trades one copy of its entry for the new one. */
  lemma OverwriteCount(s: seq<Entry>, i: int, n: Entry)
    requires 0 <= i < |s|
    ensures multiset(s[i := n]) == multiset(s) - multiset{s[i]} + multiset{n}
  {
    assert s == s[..i] + [s[i]] + s[i + 1..];
    assert s[i := n] == s[..i] + [n] + s[i + 1..];
  }

  /** Sequences in step have the same members. */
  lemma SameMembers(view: seq<Entry>, store: seq<Entry>)
    requires InSync(view, store)
    ensures forall y :: y in view <==> y in store
  {
    forall y ensures y in view <==> y in store {
      assert multiset(view)[y] == multiset(store)[y];
    }
  }

  // ---------------------------------------------------------------------
  // Each handler keeps the page in step with the store

  /** The initial fetch shows the store in its own order. */
  lemma LoadShowsStore(view: seq<Entry>, store: seq<Entry>)
    ensures Load(view, EntriesRoute.GetAll(store).result) == store
  {
  }

  /** A create through the API, followed by the page's prepend, keeps the
      two in step, provided the generated id is new. */
  lemma CreateKeepsSync(view: seq<Entry>, store: seq<Entry>, payload: CreateInput, stamps: Stamps)
    requires InSync(view, store) && UniqueIds(store) && !HasId(store, stamps.id)
    ensures var srv := EntriesRoute.Post(store, Some(payload.ToWire()), stamps);
      var cli := HandleCreate(view, srv.result);
      InSync(cli.entries, srv.store) && UniqueIds(srv.store)
  {
    var srv := EntriesRoute.Post(store, Some(payload.ToWire()), stamps);
    if srv.result.status == 201 {
      var n := srv.store[|store|];
      assert srv.store == store + [n] by {
        assert srv.store == srv.store[..|store|] + [n];
      }
      assert [n] + view == HandleCreate(view, srv.result).entries;
      CreateKeepsIdsUnique(store, payload.ToWire(), stamps);
    }
  }

  /** Replacing by id on the page and at the matching position in the
      store keep the two in step, when ids are unique. */
  lemma ReplaceKeepsSync(view: seq<Entry>, store: seq<Entry>, i: int, n: Entry)
    requires InSync(view, store) && UniqueIds(store)
    requires 0 <= i < |store| && n.id == store[i].id
    ensures InSync(ReplaceById(view, n), store[i := n])
  {
    var prev := store[i];
    var cli := ReplaceById(view, n);
    UniqueIdsCount(store, i);
    SameMembers(view, store);
    OverwriteCount(store, i, n);
    forall x ensures multiset(cli)[x] == multiset(store[i := n])[x] {
      ReplaceCount(view, n, prev, x);
      if x.id == n.id && x != prev {
        assert multiset(store)[x] == 0;
      }
    }
    assert multiset(cli) == multiset(store[i := n]);
  }

  /** The page sees the store's answer to an update: the response is ok
      exactly when the update found its entry, and then carries it. The
      per-entry route that produces the response is outside this model;
      this is all the page relies on. */
  predicate ReportsUpdate(resp: Response, updated: Option<Entry>) {
    && (resp.Ok() <==> updated.Some?)
    && (resp.Ok() ==> resp.body == Single(updated.value))
  }

  /** An edit sent to the store, followed by the page's replace-by-id,
      keeps the two in step. The form never sends an id, so the entry keeps
      its own. */
  lemma UpdateKeepsSync(view: seq<Entry>, store: seq<Entry>, editing: Entry, payload: CreateInput, now: string, resp: Response)
    requires InSync(view, store) && UniqueIds(store)
    requires ReportsUpdate(resp, Store.Update(store, editing.id, payload.ToWire(), now).result)
    ensures var srv := Store.Update(store, editing.id, payload.ToWire(), now);
      var cli := HandleUpdate(view, Some(editing), resp);
      InSync(cli.entries, srv.store) && UniqueIds(srv.store)
  {
    var id := editing.id;
    var srv := Store.Update(store, id, payload.ToWire(), now);
    UpdateKeepsIdsUnique(store, id, payload.ToWire(), now);
    if HasId(store, id) {
      var i := FirstMatchExists(store, id);
      var n := srv.result.value;
      assert n.id == id && srv.store == store[i := n];
      assert HandleUpdate(view, Some(editing), resp).entries == ReplaceById(view, n);
      ReplaceKeepsSync(view, store, i, n);
    }
  }

  /** A confirmed delete sent to the store, followed by the page's
      remove-by-id, keeps the two in step, provided the response is ok
      exactly when the store removed something. */
  lemma DeleteKeepsSync(view: seq<Entry>, store: seq<Entry>, id: string, resp: Response)
    requires InSync(view, store) && UniqueIds(store)
    requires resp.Ok() <==> Store.Delete(store, id).result
    ensures var srv := Store.Delete(store, id);
      var cli := HandleDelete(view, id, true, resp);
      InSync(cli, srv.store) && UniqueIds(srv.store)
  {
    var srv := Store.Delete(store, id);
    DeleteRemovesId(store, id);
    if HasId(store, id) {
      var i := FirstMatchExists(store, id);
      var prev := store[i];
      UniqueIdsCount(store, i);
      SpliceCount(store, i);
      var cli := HandleDelete(view, id, true, resp);
      assert cli == RemoveById(view, id);
      KeepCounts(view, (e: Entry) => e.id != id);
      forall x ensures multiset(cli)[x] == multiset(srv.store)[x] {
        if x.id == id && x != prev {
          assert multiset(store)[x] == 0;
        }
      }
      assert multiset(cli) == multiset(srv.store);
    }
  }

  // ---------------------------------------------------------------------
  // Editing round trips

  /** Opening an entry for editing and saving it unchanged only refreshes
      its `updatedAt`: the form's "" image reads back as no image, and an
      absent image key keeps the stored one. */
  lemma UnchangedEditOnlyTouchesUpdatedAt(store: seq<Entry>, i: int, now: string)
    requires 0 <= i < |store| && FirstMatch(store, store[i].id, i)
    ensures var e := store[i];
      var payload := Payload(Prefill(Blank, Some(e)));
      var srv := Store.Update(store, e.id, payload.ToWire(), now);
      && srv.result == Some(e.(updatedAt := now))
      && srv.store == store[i := e.(updatedAt := now)]
  {
  }

  /** Clearing the image field while editing does not remove the stored
      image: the payload drops the key, and the store keeps what it has. */
  lemma ClearedImageIsKept(store: seq<Entry>, i: int, now: string)
    requires 0 <= i < |store| && FirstMatch(store, store[i].id, i)
    ensures var e := store[i];
      var payload := Payload(Prefill(Blank, Some(e)).(imageUrl := ""));
      var srv := Store.Update(store, e.id, payload.ToWire(), now);
      srv.result.Some? && srv.result.value.imageUrl == e.imageUrl
  {
  }

  /** A form submitted for creation comes back, once stored, as an entry
      that prefills the same three fields. */
  lemma CreatedEntryPrefillsSameForm(store: seq<Entry>, f: Form, stamps: Stamps)
    requires f.title != "" && f.description != ""
    ensures var srv := EntriesRoute.Post(store, Some(Payload(f).ToWire()), stamps);
      && srv.result.body.Single?
      && var g := Prefill(Blank, Some(srv.result.body.entry));
      g.title == f.title && g.description == f.description && g.imageUrl == f.imageUrl
  {
  }

  // ---------------------------------------------------------------------
  // Scenarios on the seed data

  /** The seed listing, a valid and an invalid create, and a delete of "1". */
  lemma SeedScenarios(stamps: Stamps)
    requires !HasId(Seed(), stamps.id)
    ensures var listed := EntriesRoute.GetAll(Seed()).result;
      listed.status == 200 && |listed.body.entries| == 3
    ensures var created := EntriesRoute.Post(Seed(), Some(CreateInput("T", "D", None).ToWire()), stamps);
      && created.result.status == 201
      && |created.store| == 4
      && created.store[3].title == "T" && created.store[3].description == "D"
      && created.store[3].imageUrl.None?
      && Get(created.store, stamps.id) == Some(created.store[3])
    ensures var rejected := EntriesRoute.Post(Seed(), Some(CreateInput("", "D", None).ToWire()), stamps);
      rejected.result == Response(400, Failure(FieldsRequired)) && rejected.store == Seed()
    ensures var deleted := Store.Delete(Seed(), "1");
      && deleted.result
      && |deleted.store| == 2
      && Store.Get(deleted.store, "1").None?
      && !Store.Delete(deleted.store, "1").result
  {
    CreateThenGet(Seed(), CreateInput("T", "D", None).ToWire(), stamps);
    assert FirstMatch(Seed(), "1", 0);
    DeleteRemovesId(Seed(), "1");
  }
}
