/** The project service: projects listed by their order, the published and
    featured views of that list, and `create`, which appends a project with
    the next order and an explicit published flag. `getById`, `update`,
    `delete` and `reorder` are the collection's own operations. */
module ProjectService {
  import opened Wrappers
  import opened Seqs
  import opened Ordering
  import opened Collection
  import opened OrderedCollection

  /** `getPublished`: the listing without the projects hidden by an explicit
      `published: false`, in the listing order of `getAll`. */
  function GetPublished(store: Store): (r: Store)
    ensures r == Filter(GetAllAsWritten(store), Published)
    ensures forall d :: d in r <==> d in store && Published(d)
    ensures InListingOrderAsWritten(r)
  {
    var all := GetAllAsWritten(store);
    ListedMembers(store);
    FilterInListingOrderAsWritten(all, Published);
    PublishedOf(all)
  }

  /** `getFeatured`: the published projects marked featured, in listing
      order. */
  function GetFeatured(store: Store): (r: Store)
    ensures r == Filter(GetAllAsWritten(store), PublishedAndFeatured)
    ensures forall d :: d in r <==> d in store && Published(d) && Featured(d)
    ensures InListingOrderAsWritten(r)
  {
    var published := GetPublished(store);
    FilterBoth(GetAllAsWritten(store), Published, Featured, PublishedAndFeatured);
    FilterInListingOrderAsWritten(published, Featured);
    FeaturedOf(published)
  }

  /** `create`: the supplied fields, with the order set to the number of
      projects, the published flag made explicit, and both times set; the
      project is written under `newId` and returned. */
  function Create(store: Store, data: Fields, newId: string, now: string): (r: (Document, Store))
    ensures r.0.id == newId
    ensures Get(r.1, newId) == Some(r.0)
    ensures forall x :: x != newId ==> Get(r.1, x) == Get(store, x)
    ensures OrderOf(r.0) == Some(|store|)
    ensures PublishedKey in r.0.fields && r.0.fields[PublishedKey] == PublishedFlag(data)
    ensures Published(r.0) <==> Published(Document(newId, data))
    ensures CreatedAtKey in r.0.fields && r.0.fields[CreatedAtKey] == Text(now)
    ensures UpdatedAtKey in r.0.fields && r.0.fields[UpdatedAtKey] == Text(now)
    ensures forall k :: k !in {IdKey, OrderKey, PublishedKey, CreatedAtKey, UpdatedAtKey} ==>
      (k in r.0.fields <==> k in data) && (k in data ==> r.0.fields[k] == data[k])
    ensures UniqueIds(store) ==> UniqueIds(r.1)
  {
    var d := Document(newId, Created(data, now)[OrderKey := NextOrder(store)][PublishedKey := PublishedFlag(data)]);
    (d, Put(store, d))
  }

  /** A project created over projects whose orders are all below their
      number (as `reorder` of every project and earlier `create`s leave them)
      is listed after every project with a non-zero order, and, as written,
      before one with order 0 while there are fewer than 999 projects. */
  lemma CreatedPosition(store: Store, data: Fields, newId: string, now: string)
    requires Get(store, newId).None?
    requires forall i :: 0 <= i < |store| ==> OrderOf(store[i]).Some? && OrderOf(store[i]).value < |store|
    ensures var (d, after) := Create(store, data, newId, now);
      var r := GetAllAsWritten(after);
      forall i, j :: 0 <= i < |r| && 0 <= j < |r| && r[i] == d && r[j] != d ==>
        && (OrderOf(r[j]) != Some(0) ==> j < i)
        && (OrderOf(r[j]) == Some(0) && |store| < 999 ==> i < j)
  {
    var (d, _) := Create(store, data, newId, now);
    AppendedListedAsWritten(store, d);
  }

  /** A new project is published unless the data hides it explicitly, and
      then it is featured exactly when the data says so. */
  lemma CreatedVisibility(store: Store, data: Fields, newId: string, now: string)
    requires UniqueIds(store) && Get(store, newId).None?
    ensures var (d, after) := Create(store, data, newId, now);
      && (d in GetPublished(after) <==> Published(Document(newId, data)))
      && (d in GetFeatured(after) <==> Published(Document(newId, data)) && Featured(Document(newId, data)))
  {
    var r := Create(store, data, newId, now);
    var d, after := r.0, r.1;
    assert d in after;
    assert Published(d) <==> Published(Document(newId, data));
    assert FeaturedKey !in {IdKey, OrderKey, PublishedKey, CreatedAtKey, UpdatedAtKey};
    assert Featured(d) <==> Featured(Document(newId, data));
  }
}
