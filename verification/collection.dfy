/** A document collection held in memory, standing in for the hosted
    database: documents with an id and a map of fields, listed in a fixed
    order. `getDocument`, `saveDocument` (create or overwrite) and
    `removeDocument` act on it as on a map from id to fields, and the
    services' shared `update`, `delete` and `reorder` logic is built on them.

    Fields are kept as a key-to-value map because every service copies them
    wholesale with object spread; the key under which a document's id is
    returned is stripped before a write, as the write helper does. */
module Collection {
  import opened Wrappers
  import opened Seqs

  /** A stored field value. */
  datatype Value =
    | Text(s: string)
    | Number(n: int)
    | Boolean(b: bool)
    | Null
    | List(items: seq<Value>)
    | Record(entries: map<string, Value>)

  type Fields = map<string, Value>

  datatype Document = Document(id: string, fields: Fields)

  /** The documents of one collection, in listing order. */
  type Store = seq<Document>

  const IdKey: string := "id"
  const OrderKey: string := "order"
  const PublishedKey: string := "published"
  const FeaturedKey: string := "featured"
  const CreatedAtKey: string := "createdAt"
  const UpdatedAtKey: string := "updatedAt"

  /** `published !== false`: only an explicit false hides a document. */
  predicate Published(d: Document) {
    !(PublishedKey in d.fields && d.fields[PublishedKey] == Boolean(false))
  }

  /** `featured === true`: only an explicit true features a document. */
  predicate Featured(d: Document) {
    FeaturedKey in d.fields && d.fields[FeaturedKey] == Boolean(true)
  }

  /** Published and featured: what the featured views keep. */
  predicate PublishedAndFeatured(d: Document) {
    Published(d) && Featured(d)
  }

  /** `list.filter(p => p.published !== false)`: the published documents. */
  function PublishedOf(list: Store): (r: Store)
    ensures forall d :: d in r <==> d in list && Published(d)
    ensures |r| <= |list|
    ensures r == Filter(list, Published)
  {
    var r := Filter(list, Published);
    forall d ensures d in r <==> d in list && Published(d) {
      FilterMembers(list, Published, d);
    }
    r
  }

  /** `list.filter(p => p.featured === true)`: the featured documents. */
  function FeaturedOf(list: Store): (r: Store)
    ensures forall d :: d in r <==> d in list && Featured(d)
    ensures |r| <= |list|
    ensures r == Filter(list, Featured)
  {
    var r := Filter(list, Featured);
    forall d ensures d in r <==> d in list && Featured(d) {
      FilterMembers(list, Featured, d);
    }
    r
  }

  /** `data.published !== false`, stored as a boolean. */
  function PublishedFlag(data: Fields): (v: Value)
    ensures v.Boolean?
    ensures v.b <==> !(PublishedKey in data && data[PublishedKey] == Boolean(false))
  {
    Boolean(!(PublishedKey in data && data[PublishedKey] == Boolean(false)))
  }

  /** The fields a `create` writes before its own additions: the supplied
      ones, less the id key; the creation and update times are set last. */
  function Created(fields: Fields, now: string): (r: Fields)
    ensures IdKey !in r
    ensures CreatedAtKey in r && r[CreatedAtKey] == Text(now)
    ensures UpdatedAtKey in r && r[UpdatedAtKey] == Text(now)
    ensures forall k :: k != IdKey && k != CreatedAtKey && k != UpdatedAtKey ==>
      (k in r <==> k in fields) && (k in fields ==> r[k] == fields[k])
  {
    Stripped(fields)[CreatedAtKey := Text(now)][UpdatedAtKey := Text(now)]
  }

  /** No two documents share an id. */
  predicate UniqueIds(store: Store) {
    forall i, j :: 0 <= i < |store| && 0 <= j < |store| && store[i].id == store[j].id ==> i == j
  }

  /** The id of every document, in listing order. */
  function Ids(store: Store): (r: seq<string>)
    ensures |r| == |store| && forall i :: 0 <= i < |store| ==> r[i] == store[i].id
  {
    seq(|store|, i requires 0 <= i < |store| => store[i].id)
  }

  /** The position of the document with id `id`. */
  function Find(store: Store, id: string): (r: Option<nat>)
    ensures r.Some? ==> r.value < |store| && store[r.value].id == id
    ensures r.None? <==> forall i :: 0 <= i < |store| ==> store[i].id != id
  {
    if store == [] then None
    else if store[0].id == id then Some(0)
    else
      match Find(store[1..], id)
      case Some(k) => Some(k + 1)
      case None =>
        assert forall i :: 1 <= i < |store| ==> store[i] == store[1..][i - 1];
        None
  }

  /** `getDocument`: the document with id `id`, if any. */
  function Get(store: Store, id: string): (r: Option<Document>)
    ensures r.Some? ==> r.value in store && r.value.id == id
    ensures r.None? <==> forall d :: d in store ==> d.id != id
  {
    match Find(store, id)
    case Some(k) => Some(store[k])
    case None => None
  }

  /** With unique ids, the document `Get` finds is the only one with its id. */
  lemma GetUnique(store: Store, d: Document)
    requires UniqueIds(store)
    requires d in store
    ensures Get(store, d.id) == Some(d)
  {
    var i :| 0 <= i < |store| && store[i] == d;
    var k := Find(store, d.id).value;
    assert store[k].id == store[i].id;
  }

  /** The fields written for a document: everything but the id key. */
  function Stripped(f: Fields): (r: Fields)
    ensures IdKey !in r
    ensures forall k :: k != IdKey ==> (k in r <==> k in f) && (k in f ==> r[k] == f[k])
  {
    f - {IdKey}
  }

  /** `saveDocument`: overwrites the document with the same id in place, or
      adds a new one at the end. The store then reads as the old one with
      that id bound to the new document. */
  function Put(store: Store, d: Document): (r: Store)
    ensures Get(r, d.id) == Some(d)
    ensures forall x :: x != d.id ==> Get(r, x) == Get(store, x)
    ensures UniqueIds(store) ==> UniqueIds(r)
    ensures Ids(r) == if Find(store, d.id).Some? then Ids(store) else Ids(store) + [d.id]
    ensures forall e :: e in r ==> e in store || e == d
  {
    match Find(store, d.id)
    case Some(k) =>
      var r := store[k := d];
      PutAt(store, k, d);
      r
    case None =>
      var r := store + [d];
      FindAppend(store, d);
      r
  }

  lemma PutAt(store: Store, k: nat, d: Document)
    requires Find(store, d.id) == Some(k)
    ensures Get(store[k := d], d.id) == Some(d)
    ensures forall x :: x != d.id ==> Get(store[k := d], x) == Get(store, x)
    ensures UniqueIds(store) ==> UniqueIds(store[k := d])
    ensures Ids(store[k := d]) == Ids(store)
  {
    var r := store[k := d];
    FindSameIds(store, r);
  }

  /** `Find` only looks at the ids. */
  lemma {:induction false} FindSameIds(a: Store, b: Store)
    requires Ids(a) == Ids(b)
    ensures forall x :: Find(a, x) == Find(b, x)
    decreases |a|
  {
    if a != [] {
      assert Ids(a[1..]) == Ids(b[1..]) by {
        assert forall i :: 0 <= i < |a| - 1 ==> Ids(a[1..])[i] == Ids(a)[i + 1] == Ids(b)[i + 1] == Ids(b[1..])[i];
      }
      FindSameIds(a[1..], b[1..]);
    }
  }

  lemma FindAppend(store: Store, d: Document)
    requires Find(store, d.id).None?
    ensures Get(store + [d], d.id) == Some(d)
    ensures forall x :: x != d.id ==> Get(store + [d], x) == Get(store, x)
    ensures UniqueIds(store) ==> UniqueIds(store + [d])
    ensures Ids(store + [d]) == Ids(store) + [d.id]
  {
    forall x ensures Find(store + [d], x) == if Find(store, x).Some? then Find(store, x) else if x == d.id then Some(|store|) else None {
      FindSnoc(store, d, x);
    }
  }

  /** Finding in a store with one more document at the end. */
  lemma {:induction false} FindSnoc(a: Store, d: Document, x: string)
    ensures Find(a + [d], x) == if Find(a, x).Some? then Find(a, x) else if x == d.id then Some(|a|) else None
    decreases |a|
  {
    if a != [] {
      assert (a + [d])[1..] == a[1..] + [d];
      FindSnoc(a[1..], d, x);
    }
  }

  /** `removeDocument`: drops the document with id `id`. */
  function Remove(store: Store, id: string): (r: Store)
    ensures Get(r, id).None?
    ensures UniqueIds(store) ==> forall x :: x != id ==> Get(r, x) == Get(store, x)
    ensures UniqueIds(store) ==> UniqueIds(r)
    ensures forall d :: d in r <==> d in store && d.id != id
  {
    var r := Filter(store, (d: Document) => d.id != id);
    forall d ensures d in r <==> d in store && d.id != id {
      FilterMembers(store, (d: Document) => d.id != id, d);
    }
    RemoveKeepsOthers(store, id, r);
    r
  }

  lemma RemoveKeepsOthers(store: Store, id: string, r: Store)
    requires r == Filter(store, (d: Document) => d.id != id)
    requires forall d :: d in r <==> d in store && d.id != id
    ensures UniqueIds(store) ==> forall x :: x != id ==> Get(r, x) == Get(store, x)
    ensures UniqueIds(store) ==> UniqueIds(r)
  {
    if UniqueIds(store) {
      UniqueFilter(store, (d: Document) => d.id != id);
      forall x | x != id ensures Get(r, x) == Get(store, x) {
        match Get(store, x)
        case Some(d) => GetUnique(r, d);
        case None =>
      }
    }
  }

  /** Filtering keeps ids unique. */
  lemma {:induction false} UniqueFilter(store: Store, p: Document -> bool)
    requires UniqueIds(store)
    ensures UniqueIds(Filter(store, p))
    decreases |store|
  {
    if store != [] {
      var rest := store[1..];
      assert UniqueIds(rest) by {
        forall i, j | 0 <= i < |rest| && 0 <= j < |rest| && rest[i].id == rest[j].id ensures i == j {
          assert store[i + 1].id == store[j + 1].id;
        }
      }
      UniqueFilter(rest, p);
      var fr := Filter(rest, p);
      if p(store[0]) {
        HeadNotInRest(store, p);
        UniqueCons(store[0], fr);
      }
    }
  }

  lemma HeadNotInRest(store: Store, p: Document -> bool)
    requires UniqueIds(store) && store != []
    ensures forall e :: e in Filter(store[1..], p) ==> e.id != store[0].id
  {
    forall e | e in Filter(store[1..], p) ensures e.id != store[0].id {
      FilterMembers(store[1..], p, e);
      var j :| 0 <= j < |store[1..]| && store[1..][j] == e;
      assert store[j + 1] == e;
    }
  }

  lemma UniqueCons(d: Document, rest: Store)
    requires UniqueIds(rest)
    requires forall e :: e in rest ==> e.id != d.id
    ensures UniqueIds([d] + rest)
  {
    var r := [d] + rest;
    forall i, j | 0 <= i < |r| && 0 <= j < |r| && r[i].id == r[j].id ensures i == j {
      if i > 0 && j > 0 { assert r[i] == rest[i - 1] && r[j] == rest[j - 1]; }
    }
  }

  // ---------------------------------------------------------------------------
  // the services' shared operations

  /** `{ ...existing, ...data, updatedAt }` as written: every supplied field
      overrides, every other stored field persists, the update time is set
      and the id key is not stored. */
  function Merge(existing: Fields, data: Fields, now: string): (r: Fields)
    ensures UpdatedAtKey in r && r[UpdatedAtKey] == Text(now)
    ensures IdKey !in r
    ensures forall k :: k != IdKey && k != UpdatedAtKey && k in data ==> k in r && r[k] == data[k]
    ensures forall k :: k != IdKey && k != UpdatedAtKey && k !in data ==>
      (k in r <==> k in existing) && (k in existing ==> r[k] == existing[k])
  {
    Stripped(existing + data)[UpdatedAtKey := Text(now)]
  }

  /** `update`: an unknown id gives null and changes nothing; otherwise the
      merged document is written and returned, and no other document
      changes. */
  function Update(store: Store, id: string, data: Fields, now: string): (r: (Option<Document>, Store))
    ensures Get(store, id).None? ==> r == (None, store)
    ensures Get(store, id).Some? ==>
      && r.0 == Some(Document(id, Merge(Get(store, id).value.fields, data, now)))
      && Get(r.1, id) == r.0
      && (forall x :: x != id ==> Get(r.1, x) == Get(store, x))
      && Ids(r.1) == Ids(store)
    ensures UniqueIds(store) ==> UniqueIds(r.1)
  {
    match Get(store, id)
    case None => (None, store)
    case Some(existing) =>
      var d := Document(id, Merge(existing.fields, data, now));
      (Some(d), Put(store, d))
  }

  /** `delete`: an unknown id gives false and changes nothing; otherwise
      exactly that document goes. */
  function Delete(store: Store, id: string): (r: (bool, Store))
    ensures Get(store, id).None? ==> r == (false, store)
    ensures Get(store, id).Some? ==> r.0 && Get(r.1, id).None?
    ensures UniqueIds(store) ==> UniqueIds(r.1) && forall x :: x != id ==> Get(r.1, x) == Get(store, x)
  {
    match Get(store, id)
    case None => (false, store)
    case Some(_) => (true, Remove(store, id))
  }

  /** Adding a document and deleting it again restores every lookup. */
  lemma PutThenDelete(store: Store, d: Document)
    requires UniqueIds(store) && Get(store, d.id).None?
    ensures var (deleted, after) := Delete(Put(store, d), d.id);
      deleted && forall x :: Get(after, x) == Get(store, x)
  {
  }

  /** The last position at which `id` is listed. */
  function LastIndex(ids: seq<string>, id: string): (r: Option<nat>)
    ensures r.Some? ==> r.value < |ids| && ids[r.value] == id
    ensures r.Some? ==> forall k :: r.value < k < |ids| ==> ids[k] != id
    ensures r.None? <==> id !in ids
  {
    if ids == [] then None
    else if ids[|ids| - 1] == id then Some(|ids| - 1)
    else
      var r := LastIndex(ids[..|ids| - 1], id);
      assert ids == ids[..|ids| - 1] + [ids[|ids| - 1]];
      r
  }

  /** A document as `reorder` writes it at position `k` of the list. */
  function Placed(d: Document, k: nat, now: string): Document {
    d.(fields := d.fields[OrderKey := Number(k)][UpdatedAtKey := Text(now)])
  }

  /** `reorder` from position `k` of the list on: each listed id that
      exists gets its position as its order, one write after another. */
  function ReorderFrom(store: Store, ids: seq<string>, k: nat, now: string): (r: Store)
    requires k <= |ids|
    ensures Ids(r) == Ids(store)
    ensures UniqueIds(store) ==> UniqueIds(r)
    decreases |ids| - k
  {
    if k == |ids| then store
    else
      match Get(store, ids[k])
      case None => ReorderFrom(store, ids, k + 1, now)
      case Some(d) =>
        var s1 := Put(store, Placed(d, k, now));
        ReorderFrom(s1, ids, k + 1, now)
  }

  /** `reorder(ids)`: the same documents, with unique ids kept unique, and
      every document whose id is not listed read back unchanged. */
  function Reorder(store: Store, ids: seq<string>, now: string): (r: Store)
    ensures Ids(r) == Ids(store)
    ensures UniqueIds(store) ==> UniqueIds(r)
    ensures forall x :: x !in ids ==> Get(r, x) == Get(store, x)
  {
    var r := ReorderFrom(store, ids, 0, now);
    forall x | x !in ids ensures Get(r, x) == Get(store, x) {
      ReorderFromSpec(store, ids, 0, now, x);
    }
    r
  }

  /** A document after the writes `reorder` makes from position `k` of the
      list on: placed at the last position listing it, if that is not
      before `k`. */
  function Reordered(d: Document, ids: seq<string>, k: nat, now: string): Document {
    match LastIndex(ids, d.id)
    case Some(j) => if j >= k then Placed(d, j, now) else d
    case None => d
  }

  /** The lookup of `x` after the writes `reorder` makes from position `k`
      of the list on. */
  function AfterReorder(store: Store, ids: seq<string>, k: nat, now: string, x: string): Option<Document> {
    match Get(store, x)
    case None => None
    case Some(d) => Some(Reordered(d, ids, k, now))
  }

  /** What `reorder` leaves behind, from position `k` on. */
  lemma {:induction false} ReorderFromSpec(store: Store, ids: seq<string>, k: nat, now: string, x: string)
    requires k <= |ids|
    ensures Get(ReorderFrom(store, ids, k, now), x) == AfterReorder(store, ids, k, now, x)
    decreases |ids| - k
  {
    if k < |ids| {
      match Get(store, ids[k])
      case None =>
        assert ReorderFrom(store, ids, k, now) == ReorderFrom(store, ids, k + 1, now);
        ReorderFromSpec(store, ids, k + 1, now, x);
        SkipUnlisted(store, ids, k, now, x);
      case Some(d) =>
        var s1 := Put(store, Placed(d, k, now));
        assert ReorderFrom(store, ids, k, now) == ReorderFrom(s1, ids, k + 1, now);
        ReorderFromSpec(s1, ids, k + 1, now, x);
        StepWritten(store, ids, k, now, x, d);
    } else {
      assert ReorderFrom(store, ids, k, now) == store;
    }
  }

  lemma StepWritten(store: Store, ids: seq<string>, k: nat, now: string, x: string, d: Document)
    requires k < |ids| && Get(store, ids[k]) == Some(d)
    ensures AfterReorder(Put(store, Placed(d, k, now)), ids, k + 1, now, x) == AfterReorder(store, ids, k, now, x)
  {
    if x == ids[k] {
      StepListed(d, ids, k, now);
    } else if Get(store, x).Some? {
      StepOther(Get(store, x).value, ids, k, now);
    }
  }

  lemma SkipUnlisted(store: Store, ids: seq<string>, k: nat, now: string, x: string)
    requires k < |ids| && Get(store, ids[k]).None?
    ensures AfterReorder(store, ids, k + 1, now, x) == AfterReorder(store, ids, k, now, x)
  {
    if Get(store, x).Some? {
      StepOther(Get(store, x).value, ids, k, now);
    }
  }

  /** A document not listed at position `k` is unaffected by that step. */
  lemma StepOther(d: Document, ids: seq<string>, k: nat, now: string)
    requires k < |ids| && ids[k] != d.id
    ensures Reordered(d, ids, k + 1, now) == Reordered(d, ids, k, now)
  {
  }

  /** The document listed at position `k` ends up as `Reordered` says. */
  lemma StepListed(d: Document, ids: seq<string>, k: nat, now: string)
    requires k < |ids| && ids[k] == d.id
    ensures Reordered(Placed(d, k, now), ids, k + 1, now) == Reordered(d, ids, k, now)
  {
    PlacedTwice(d, k, now);
  }

  lemma PlacedTwice(d: Document, k: nat, now: string)
    ensures forall j: nat :: Placed(Placed(d, k, now), j, now) == Placed(d, j, now)
  {
    forall j: nat ensures Placed(Placed(d, k, now), j, now) == Placed(d, j, now) {
      assert Placed(Placed(d, k, now), j, now).fields == Placed(d, j, now).fields;
    }
  }

  /** `reorder` as a whole: listed documents take their (last) list position
      as their order, unlisted and unknown ones are untouched, and the set of
      ids does not change. */
  lemma ReorderSpec(store: Store, ids: seq<string>, now: string, x: string)
    requires UniqueIds(store)
    ensures Ids(Reorder(store, ids, now)) == Ids(store)
    ensures Get(store, x).Some? && LastIndex(ids, x).Some? ==>
      Get(Reorder(store, ids, now), x) == Some(Placed(Get(store, x).value, LastIndex(ids, x).value, now))
    ensures Get(store, x).Some? && x !in ids ==> Get(Reorder(store, ids, now), x) == Get(store, x)
    ensures Get(store, x).None? ==> Get(Reorder(store, ids, now), x).None?
  {
    ReorderFromSpec(store, ids, 0, now, x);
  }
}
