/** The in-memory entry store (lib/mock-data.ts). The module-level array is
    an explicit `seq<Entry>` threaded through every operation: each
    operation takes the current store and returns its result together with
    the store afterwards. The id generator and the clock are parameters. */
module Store {
  import opened Types

  /** A result and the store after the operation that produced it. */
  datatype Step<T> = Step(result: T, store: seq<Entry>)

  /** The three clock reads `createMockEntry` makes: `Date.now()` for the id
      and two separate `new Date()` reads for the timestamps. Nothing makes
      the id fresh or the two timestamps equal. */
  datatype Stamps = Stamps(id: string, createdAt: string, updatedAt: string)

  // ---------------------------------------------------------------------
  // Lookup vocabulary

  /** Some stored entry has this id. */
  ghost predicate HasId(s: seq<Entry>, id: string) {
    exists i :: 0 <= i < |s| && s[i].id == id
  }

  /** `i` is the position of the first entry with this id. */
  ghost predicate FirstMatch(s: seq<Entry>, id: string, i: int) {
    && 0 <= i < |s|
    && s[i].id == id
    && forall j :: 0 <= j < i ==> s[j].id != id
  }

  /** No two stored entries share an id. */
  ghost predicate UniqueIds(s: seq<Entry>) {
    forall i, j :: 0 <= i < |s| && 0 <= j < |s| && i != j ==> s[i].id != s[j].id
  }

  /** `Array.prototype.findIndex` with `entry.id === id`; `None` stands for -1. */
  function FindIndex(s: seq<Entry>, id: string): (r: Option<nat>)
    ensures r.Some? ==> FirstMatch(s, id, r.value)
    ensures r.None? <==> !HasId(s, id)
  {
    if |s| == 0 then None
    else if s[0].id == id then Some(0)
    else
      match FindIndex(s[1..], id)
      case None => None
      case Some(k) => Some(k + 1)
  }

  // ---------------------------------------------------------------------
  // The seed data

  const SafetyProtocol := Entry(
    "1",
    "Safety Protocol Update",
    "New safety procedures for handling hydraulic equipment. Always wear protective gear and follow lockout/tagout procedures.",
    Some("/assets/safetyGear.png"),
    "2025-03-01T00:00:00.000Z",
    "2025-03-01T00:00:00.000Z")

  const MachineCalibration := Entry(
    "2",
    "Machine Calibration Process",
    "Step-by-step guide for calibrating CNC machines. Check alignment every 100 hours of operation.",
    Some("/assets/cnc-machine.png"),
    "2025-03-02T00:00:00.000Z",
    "2025-03-02T00:00:00.000Z")

  const QualityControl := Entry(
    "3",
    "Quality Control Checklist",
    "Daily quality control procedures for production line. Inspect dimensions, surface finish, and material integrity.",
    None,
    "2025-03-03T00:00:00.000Z",
    "2025-03-03T00:00:00.000Z")

  /** The store's contents when the process starts. */
  function Seed(): (s: seq<Entry>)
    ensures |s| == 3
    ensures s[0].id == "1" && s[1].id == "2" && s[2].id == "3"
    ensures forall i :: 0 <= i < |s| ==> s[i].createdAt == s[i].updatedAt
    ensures forall i :: 0 <= i < |s| ==> s[i].title != "" && s[i].description != ""
    ensures s[2].imageUrl.None? && s[0].imageUrl.Some? && s[1].imageUrl.Some?
    ensures UniqueIds(s)
  {
    [SafetyProtocol, MachineCalibration, QualityControl]
  }

  // ---------------------------------------------------------------------
  // The five operations

  /** `getMockEntries`: a copy of the array. */
  function List(s: seq<Entry>): (r: Step<seq<Entry>>)
    ensures r.store == s
    ensures |r.result| == |s| && forall i :: 0 <= i < |s| ==> r.result[i] == s[i]
  {
    Step(s, s)
  }

  /** `getMockEntry`: `Array.prototype.find` on the id. */
  function Get(s: seq<Entry>, id: string): (r: Option<Entry>)
    ensures r.None? <==> !HasId(s, id)
    ensures forall i :: FirstMatch(s, id, i) ==> r == Some(s[i])
  {
    match FindIndex(s, id)
    case None => None
    case Some(i) => Some(s[i])
  }

  /** `createMockEntry`: `{...entry, id, createdAt, updatedAt}` appended at
      the end. `body` is the whole object the caller passes; at run time it
      may carry keys its declared type leaves out, which the generated
      values then override. The declared type demands a title and a
      description. */
  function Create(s: seq<Entry>, body: Patch, stamps: Stamps): (r: Step<Entry>)
    requires body.title.Some? && body.description.Some?
    ensures |r.store| == |s| + 1
    ensures r.store[..|s|] == s && r.store[|s|] == r.result
    ensures r.result.title == body.title.value
    ensures r.result.description == body.description.value
    ensures r.result.imageUrl == body.imageUrl
    ensures r.result.id == stamps.id
    ensures r.result.createdAt == stamps.createdAt && r.result.updatedAt == stamps.updatedAt
  {
    var generated := Patch(Some(stamps.id), None, None, None, Some(stamps.createdAt), Some(stamps.updatedAt));
    var e := Spread(body, generated).ToEntry();
    Step(e, s + [e])
  }

  /** What `{...prev, ...updates, updatedAt: now}` is, key by key: a key the
      update carries replaces the old value, an absent key keeps it, and
      `updatedAt` is always the clock. */
  ghost predicate Overlaid(prev: Entry, updates: Patch, now: string, e: Entry) {
    && e.id == updates.id.GetOr(prev.id)
    && e.title == updates.title.GetOr(prev.title)
    && e.description == updates.description.GetOr(prev.description)
    && e.imageUrl == (if updates.imageUrl.Some? then updates.imageUrl else prev.imageUrl)
    && e.createdAt == updates.createdAt.GetOr(prev.createdAt)
    && e.updatedAt == now
  }

  /** The entry `updateMockEntry` writes back. */
  function Overlay(prev: Entry, updates: Patch, now: string): (e: Entry)
    ensures Overlaid(prev, updates, now, e)
  {
    var forced := Patch(None, None, None, None, None, Some(now));
    Spread(Spread(prev.AsPatch(), updates), forced).ToEntry()
  }

  /** `updateMockEntry`: overlay the update onto the first entry with the
      id, in place. */
  function Update(s: seq<Entry>, id: string, updates: Patch, now: string): (r: Step<Option<Entry>>)
    ensures !HasId(s, id) ==> r.result.None? && r.store == s
    ensures forall i :: FirstMatch(s, id, i) ==>
      && r.result.Some?
      && Overlaid(s[i], updates, now, r.result.value)
      && r.store == s[i := r.result.value]
  {
    match FindIndex(s, id)
    case None => Step(None, s)
    case Some(i) =>
      var e := Overlay(s[i], updates, now);
      Step(Some(e), s[i := e])
  }

  /** `deleteMockEntry`: splice out the first entry with the id. */
  function Delete(s: seq<Entry>, id: string): (r: Step<bool>)
    ensures r.result <==> HasId(s, id)
    ensures !r.result ==> r.store == s
    ensures forall i :: FirstMatch(s, id, i) ==> r.store == s[..i] + s[i + 1..]
    ensures r.result ==> |r.store| == |s| - 1
  {
    match FindIndex(s, id)
    case None => Step(false, s)
    case Some(i) => Step(true, s[..i] + s[i + 1..])
  }

  // ---------------------------------------------------------------------
  // Properties relating the operations

  /** A store with an entry under `id` has a first such entry. */
  lemma FirstMatchExists(s: seq<Entry>, id: string) returns (i: nat)
    requires HasId(s, id)
    ensures FirstMatch(s, id, i)
  {
    i := FindIndex(s, id).value;
  }

  /** Creating under a fresh id and then looking that id up finds exactly
      the entry just created. */
  lemma CreateThenGet(s: seq<Entry>, body: Patch, stamps: Stamps)
    requires body.title.Some? && body.description.Some?
    requires !HasId(s, stamps.id)
    ensures var c := Create(s, body, stamps);
      Get(c.store, stamps.id) == Some(c.result)
  {
    var c := Create(s, body, stamps);
    assert FirstMatch(c.store, stamps.id, |s|) by {
      forall j | 0 <= j < |s| ensures c.store[j].id != stamps.id {
        assert c.store[j] == s[j];
      }
    }
  }

  /** Creating under an id already in use leaves lookups of that id on the
      older entry: the new one is unreachable through `Get`. */
  lemma CreateUnderTakenIdIsShadowed(s: seq<Entry>, body: Patch, stamps: Stamps)
    requires body.title.Some? && body.description.Some?
    requires HasId(s, stamps.id)
    ensures Get(Create(s, body, stamps).store, stamps.id) == Get(s, stamps.id)
  {
    var c := Create(s, body, stamps);
    var i := FirstMatchExists(s, stamps.id);
    assert FirstMatch(c.store, stamps.id, i) by {
      assert c.store[..|s|] == s;
      forall j | 0 <= j <= i ensures c.store[j] == s[j] {
        assert c.store[..|s|][j] == s[j];
      }
    }
  }

  /** Creating under a fresh id keeps ids unique. */
  lemma CreateKeepsIdsUnique(s: seq<Entry>, body: Patch, stamps: Stamps)
    requires body.title.Some? && body.description.Some?
    requires UniqueIds(s) && !HasId(s, stamps.id)
    ensures UniqueIds(Create(s, body, stamps).store)
  {
    var t := Create(s, body, stamps).store;
    forall i, j | 0 <= i < |t| && 0 <= j < |t| && i != j
      ensures t[i].id != t[j].id
    {
      assert t[..|s|] == s;
      if i < |s| { assert t[i] == s[i]; }
      if j < |s| { assert t[j] == s[j]; }
    }
  }

  /** An update that carries no `id` key keeps the entry's id, and so keeps
      ids unique. */
  lemma UpdateKeepsIdsUnique(s: seq<Entry>, id: string, updates: Patch, now: string)
    requires UniqueIds(s) && updates.id.None?
    ensures UniqueIds(Update(s, id, updates, now).store)
  {
    if HasId(s, id) {
      var i := FirstMatchExists(s, id);
      var t := Update(s, id, updates, now).store;
      assert t[i].id == s[i].id;
      forall a, b | 0 <= a < |t| && 0 <= b < |t| && a != b
        ensures t[a].id != t[b].id
      {
        assert t[a].id == s[a].id && t[b].id == s[b].id;
      }
    }
  }

  /** An update payload of the declared type with no fields set is
      well-typed, and changes nothing but `updatedAt`. */
  lemma EmptyUpdateOnlyTouchesUpdatedAt(s: seq<Entry>, id: string, now: string)
    requires HasId(s, id)
    ensures var r := Update(s, id, UpdateInput(None, None, None).ToWire(), now);
      var i := FindIndex(s, id).value;
      && r.result == Some(s[i].(updatedAt := now))
      && r.store == s[i := s[i].(updatedAt := now)]
  {
  }

  /** An update built from the declared update type never touches the id
      or `createdAt` of the entry it changes. */
  lemma TypedUpdateKeepsIdentity(s: seq<Entry>, id: string, u: UpdateInput, now: string)
    requires HasId(s, id)
    ensures var r := Update(s, id, u.ToWire(), now);
      var i := FindIndex(s, id).value;
      && r.result.Some?
      && r.result.value.id == s[i].id == id
      && r.result.value.createdAt == s[i].createdAt
      && r.result.value.updatedAt == now
  {
  }

  /** The update's record is spread over the stored one, so an update may
      rewrite even the id and `createdAt`: after renaming entry "1" to "9",
      "1" is gone and "9" answers. */
  lemma UpdateMayRewriteIdentity()
    ensures var r := Update(Seed(), "1", NoKeys.(id := Some("9"), createdAt := Some("then")), "now");
      && r.result.Some?
      && r.result.value.id == "9" && r.result.value.createdAt == "then"
      && Get(r.store, "1").None?
      && Get(r.store, "9") == r.result
  {
    var r := Update(Seed(), "1", NoKeys.(id := Some("9"), createdAt := Some("then")), "now");
    assert FirstMatch(Seed(), "1", 0);
    assert FirstMatch(r.store, "9", 0);
    assert !HasId(r.store, "1") by {
      assert r.store[0].id == "9" && r.store[1].id == "2" && r.store[2].id == "3";
    }
  }

  /** With unique ids, deleting leaves no entry under the deleted id. */
  lemma DeleteRemovesId(s: seq<Entry>, id: string)
    requires UniqueIds(s)
    ensures !HasId(Delete(s, id).store, id)
    ensures UniqueIds(Delete(s, id).store)
  {
    if HasId(s, id) {
      var i := FirstMatchExists(s, id);
      var t := Delete(s, id).store;
      assert t == s[..i] + s[i + 1..];
      assert forall k :: 0 <= k < |t| ==> t[k] == (if k < i then s[k] else s[k + 1]);
    }
  }

  /** With unique ids, a second delete of the same id reports false. */
  lemma DeleteTwiceReportsFalse(s: seq<Entry>, id: string)
    requires UniqueIds(s)
    ensures !Delete(Delete(s, id).store, id).result
  {
    DeleteRemovesId(s, id);
  }
}
