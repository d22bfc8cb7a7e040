/** The blog post service: posts listed newest first by publish date, the
    published and featured views of that list, and `create`, which makes
    the published flag explicit. Posts carry no order. `getById`, `update`
    and `delete` are the collection's own operations.

    Reading a post's publish date as a time is a parameter, `time`. */
module BlogPostService {
  import opened Wrappers
  import opened Seqs
  import opened Ordering
  import opened Collection

  /** Posts by descending publish time. */
  predicate NewestFirst(r: Store, time: Document -> int) {
    forall i, j :: 0 <= i < j < |r| ==> time(r[i]) >= time(r[j])
  }

  /** The sort key of `(a, b) => time(b) - time(a)`. */
  function Age(time: Document -> int): Document -> int {
    (d: Document) => -time(d)
  }

  /** `getAll`: every post, newest first. */
  function GetAll(store: Store, time: Document -> int): (r: Store)
    ensures NewestFirst(r, time)
    ensures multiset(r) == multiset(store)
  {
    var r := SortByKey(store, Age(time));
    assert forall i, j :: 0 <= i < j < |r| ==> Age(time)(r[i]) <= Age(time)(r[j]);
    r
  }

  /** A filtered listing is still newest first. */
  lemma FilterNewestFirst(list: Store, p: Document -> bool, time: Document -> int)
    requires NewestFirst(list, time)
    ensures NewestFirst(Filter(list, p), time)
  {
    FilterKeepsSorted(list, p, Age(time));
    var r := Filter(list, p);
    assert forall i, j :: 0 <= i < j < |r| ==> Age(time)(r[i]) <= Age(time)(r[j]);
  }

  /** `getPublished`: the posts not hidden by an explicit `published:
      false`, newest first. */
  function GetPublished(store: Store, time: Document -> int): (r: Store)
    ensures r == Filter(GetAll(store, time), Published)
    ensures forall d :: d in r <==> d in store && Published(d)
    ensures NewestFirst(r, time)
  {
    var all := GetAll(store, time);
    forall d ensures d in all <==> d in store {
      assert d in all <==> d in multiset(all);
    }
    FilterNewestFirst(all, Published, time);
    PublishedOf(all)
  }

  /** `getFeatured`: the published posts marked featured, newest first. */
  function GetFeatured(store: Store, time: Document -> int): (r: Store)
    ensures r == Filter(GetAll(store, time), PublishedAndFeatured)
    ensures forall d :: d in r <==> d in store && Published(d) && Featured(d)
    ensures NewestFirst(r, time)
  {
    var published := GetPublished(store, time);
    FilterBoth(GetAll(store, time), Published, Featured, PublishedAndFeatured);
    FilterNewestFirst(published, Featured, time);
    FeaturedOf(published)
  }

  /** `create`: the supplied fields, with the published flag made explicit
      and both times set; the post is written under `newId` and returned. */
  function Create(store: Store, data: Fields, newId: string, now: string): (r: (Document, Store))
    ensures r.0.id == newId
    ensures Get(r.1, newId) == Some(r.0)
    ensures forall x :: x != newId ==> Get(r.1, x) == Get(store, x)
    ensures PublishedKey in r.0.fields && r.0.fields[PublishedKey] == PublishedFlag(data)
    ensures Published(r.0) <==> Published(Document(newId, data))
    ensures CreatedAtKey in r.0.fields && r.0.fields[CreatedAtKey] == Text(now)
    ensures UpdatedAtKey in r.0.fields && r.0.fields[UpdatedAtKey] == Text(now)
    ensures forall k :: k !in {IdKey, PublishedKey, CreatedAtKey, UpdatedAtKey} ==>
      (k in r.0.fields <==> k in data) && (k in data ==> r.0.fields[k] == data[k])
    ensures UniqueIds(store) ==> UniqueIds(r.1)
  {
    var d := Document(newId, Created(data, now)[PublishedKey := PublishedFlag(data)]);
    (d, Put(store, d))
  }

  /** A new post is listed as published unless its data hides it. */
  lemma CreatedVisibility(store: Store, data: Fields, newId: string, now: string, time: Document -> int)
    ensures var (d, after) := Create(store, data, newId, now);
      d in GetPublished(after, time) <==> Published(Document(newId, data))
  {
    var r := Create(store, data, newId, now);
    assert r.0 in r.1;
  }
}
