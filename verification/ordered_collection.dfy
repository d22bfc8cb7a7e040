/** The listing shared by the project and skill services: documents sorted
    by their `order` field, a new document placed after the existing ones,
    and `reorder` giving each listed document its list position.

    As written the sort key is `order || 999`, so an order of 0, the one
    `reorder` and the first `create` give, counts as 999 and sorts last.
    `GetAllAsWritten` is that listing, and the services' views are built on
    it. `GetAll`, with `order ?? 999`, is the evidently intended one; the
    lemmas about it state what the corrected listing would give. */
module OrderedCollection {
  import opened Wrappers
  import opened Seqs
  import opened Ordering
  import opened Collection

  /** The stored order of a document, when it is a number. */
  function OrderOf(d: Document): Option<int> {
    if OrderKey in d.fields && d.fields[OrderKey].Number? then Some(d.fields[OrderKey].n) else None
  }

  /** `order || 999`: a missing order and an order of 0 both count as 999. */
  function SortKeyAsWritten(d: Document): (k: int)
    ensures OrderOf(d).Some? && OrderOf(d).value != 0 ==> k == OrderOf(d).value
    ensures OrderOf(d).None? || OrderOf(d) == Some(0) ==> k == 999
  {
    match OrderOf(d)
    case Some(n) => if n != 0 then n else 999
    case None => 999
  }

  /** `order ?? 999`: only a missing order counts as 999. */
  function SortKey(d: Document): (k: int)
    ensures OrderOf(d).Some? ==> k == OrderOf(d).value
    ensures OrderOf(d).None? ==> k == 999
  {
    OrderOf(d).GetOr(999)
  }

  /** The two keys differ exactly on documents stored with order 0. */
  lemma SortKeysDiffer(d: Document)
    ensures SortKeyAsWritten(d) != SortKey(d) <==> OrderOf(d) == Some(0)
  {
  }

  /** Documents by ascending `order || 999`: the listing order of the
      source. */
  predicate InListingOrderAsWritten(r: Store) {
    forall i, j :: 0 <= i < j < |r| ==> SortKeyAsWritten(r[i]) <= SortKeyAsWritten(r[j])
  }

  /** `getAll` as written: every document, by ascending `order || 999`. */
  function GetAllAsWritten(store: Store): (r: Store)
    ensures InListingOrderAsWritten(r)
    ensures multiset(r) == multiset(store)
  {
    SortByKey(store, SortKeyAsWritten)
  }

  /** Documents by ascending `order ?? 999`, those without one last. */
  predicate InListingOrder(r: Store) {
    forall i, j :: 0 <= i < j < |r| ==> SortKey(r[i]) <= SortKey(r[j])
  }

  /** The corrected `getAll`: every document, by ascending `order ?? 999`. */
  function GetAll(store: Store): (r: Store)
    ensures InListingOrder(r)
    ensures multiset(r) == multiset(store)
  {
    SortByKey(store, SortKey)
  }

  /** A filtered listing is still in the source's listing order. */
  lemma FilterInListingOrderAsWritten(list: Store, p: Document -> bool)
    requires InListingOrderAsWritten(list)
    ensures InListingOrderAsWritten(Filter(list, p))
  {
    FilterKeepsSorted(list, p, SortKeyAsWritten);
  }

  /** A filtered listing is still in the corrected listing order. */
  lemma FilterInListingOrder(list: Store, p: Document -> bool)
    requires InListingOrder(list)
    ensures InListingOrder(Filter(list, p))
  {
    FilterKeepsSorted(list, p, SortKey);
  }

  /** Either listing holds exactly the stored documents. */
  lemma ListedMembers(store: Store)
    ensures forall d :: d in GetAllAsWritten(store) <==> d in store
    ensures forall d :: d in GetAll(store) <==> d in store
  {
    var w, r := GetAllAsWritten(store), GetAll(store);
    forall d ensures (d in w <==> d in store) && (d in r <==> d in store) {
      assert d in w <==> d in multiset(w);
      assert d in r <==> d in multiset(r);
      assert d in store <==> d in multiset(store);
    }
  }

  /** Either listing holds as many documents as the store. */
  lemma ListingSize(store: Store)
    ensures |GetAllAsWritten(store)| == |store| && |GetAll(store)| == |store|
  {
    assert |GetAllAsWritten(store)| == |multiset(GetAllAsWritten(store))|;
    assert |GetAll(store)| == |multiset(GetAll(store))|;
  }

  /** The order `create` gives a new document: the number of documents. */
  function NextOrder(store: Store): (r: Value)
    ensures r.Number? && r.n == |store| && r.n >= 0
  {
    Number(|store|)
  }

  /** As written, a document added with order equal to the number of
      documents, over documents whose orders are below that, is listed
      after every document with a non-zero order, and before every
      document with order 0 while there are fewer than 999 documents. */
  lemma AppendedListedAsWritten(store: Store, d: Document)
    requires Get(store, d.id).None?
    requires OrderOf(d) == Some(|store|)
    requires forall i :: 0 <= i < |store| ==> OrderOf(store[i]).Some? && OrderOf(store[i]).value < |store|
    ensures var r := GetAllAsWritten(Put(store, d));
      forall i, j :: 0 <= i < |r| && 0 <= j < |r| && r[i] == d && r[j] != d ==>
        && (OrderOf(r[j]) != Some(0) ==> j < i)
        && (OrderOf(r[j]) == Some(0) && |store| < 999 ==> i < j)
  {
    var s := Put(store, d);
    var r := GetAllAsWritten(s);
    forall j | 0 <= j < |r| && r[j] != d
      ensures OrderOf(r[j]) != Some(0) ==> SortKeyAsWritten(r[j]) < SortKeyAsWritten(d)
      ensures OrderOf(r[j]) == Some(0) && |store| < 999 ==> SortKeyAsWritten(d) < SortKeyAsWritten(r[j])
    {
      assert r[j] in multiset(r);
      assert r[j] in s;
      var m :| 0 <= m < |store| && store[m] == r[j];
    }
  }

  /** With the intended key, such a document is listed after all of them. */
  lemma AppendedListedLastCorrected(store: Store, d: Document)
    requires Get(store, d.id).None?
    requires OrderOf(d) == Some(|store|)
    requires forall i :: 0 <= i < |store| ==> OrderOf(store[i]).Some? && OrderOf(store[i]).value < |store|
    ensures var r := GetAll(Put(store, d));
      forall i, j :: 0 <= i < |r| && 0 <= j < |r| && r[i] == d && r[j] != d ==> j < i
  {
    var s := Put(store, d);
    var r := GetAll(s);
    forall j | 0 <= j < |r| && r[j] != d ensures SortKey(r[j]) < SortKey(d) {
      assert r[j] in multiset(r);
      assert r[j] in s;
      var m :| 0 <= m < |store| && store[m] == r[j];
    }
  }

  /** The last position listing `x`, or -1. */
  function Position(ids: seq<string>, x: string): (r: int)
    ensures x in ids ==> 0 <= r < |ids| && ids[r] == x
    ensures x !in ids ==> r == -1
  {
    match LastIndex(ids, x)
    case Some(j) => j
    case None => -1
  }

  /** Every stored id is in the list. */
  predicate AllListed(store: Store, ids: seq<string>) {
    forall i :: 0 <= i < |store| ==> store[i].id in ids
  }

  /** After `reorder` with every stored id listed, each document's order is
      its (last) position in the list. */
  lemma ReorderedOrders(store: Store, ids: seq<string>, now: string)
    requires UniqueIds(store) && AllListed(store, ids)
    ensures forall d :: d in Reorder(store, ids, now) ==> OrderOf(d) == Some(Position(ids, d.id))
  {
    forall d | d in Reorder(store, ids, now) ensures OrderOf(d) == Some(Position(ids, d.id)) {
      ReorderedOrder(store, ids, now, d);
    }
  }

  /** One document of the reordered collection. */
  lemma ReorderedOrder(store: Store, ids: seq<string>, now: string, d: Document)
    requires UniqueIds(store) && AllListed(store, ids)
    requires d in Reorder(store, ids, now)
    ensures OrderOf(d) == Some(Position(ids, d.id))
  {
    var r := Reorder(store, ids, now);
    ReorderSpec(store, ids, now, d.id);
    var i :| 0 <= i < |r| && r[i] == d;
    assert Ids(r)[i] == Ids(store)[i];
    assert store[i] in store;
    GetUnique(r, d);
    var j := LastIndex(ids, d.id).value;
    PlacedOrder(Get(store, d.id).value, j, now);
  }

  /** `reorder` writes the list position as the order. */
  lemma PlacedOrder(d: Document, k: nat, now: string)
    ensures OrderOf(Placed(d, k, now)) == Some(k)
  {
    assert OrderKey[0] != UpdatedAtKey[0];
  }

  /** With the intended key, `getAll` after `reorder` lists the documents in
      the order given. */
  lemma ReorderListsInOrder(store: Store, ids: seq<string>, now: string)
    requires UniqueIds(store) && AllListed(store, ids)
    ensures var r := GetAll(Reorder(store, ids, now));
      forall i, j :: 0 <= i < j < |r| ==> Position(ids, r[i].id) <= Position(ids, r[j].id)
  {
    var s := Reorder(store, ids, now);
    var r := GetAll(s);
    forall k | 0 <= k < |r| ensures SortKey(r[k]) == Position(ids, r[k].id) {
      assert r[k] in multiset(r);
      ReorderedOrder(store, ids, now, r[k]);
    }
  }

  /** As written, `getAll` after `reorder` lists the first document given
      after every other one, when the list is shorter than 1000. */
  lemma ReorderFirstSortsLast(store: Store, ids: seq<string>, now: string)
    requires UniqueIds(store) && AllListed(store, ids)
    requires 0 < |ids| <= 999 && ids[0] !in ids[1..]
    ensures var r := GetAllAsWritten(Reorder(store, ids, now));
      forall i, j :: 0 <= i < |r| && 0 <= j < |r| && r[i].id == ids[0] && r[j].id != ids[0] ==> j < i
  {
    var s := Reorder(store, ids, now);
    var r := GetAllAsWritten(s);
    forall k | 0 <= k < |r|
      ensures r[k].id == ids[0] ==> SortKeyAsWritten(r[k]) == 999
      ensures r[k].id != ids[0] ==> SortKeyAsWritten(r[k]) < 999
    {
      assert r[k] in multiset(r);
      FirstSortKeyAsWritten(store, ids, now, r[k]);
    }
  }

  /** As written, the first listed document's key is 999 and every other
      one's is below it. */
  lemma FirstSortKeyAsWritten(store: Store, ids: seq<string>, now: string, d: Document)
    requires UniqueIds(store) && AllListed(store, ids)
    requires 0 < |ids| <= 999 && ids[0] !in ids[1..]
    requires d in Reorder(store, ids, now)
    ensures d.id == ids[0] ==> SortKeyAsWritten(d) == 999
    ensures d.id != ids[0] ==> 0 < SortKeyAsWritten(d) < 999
  {
    ReorderedOrder(store, ids, now, d);
    if d.id == ids[0] {
      assert LastIndex(ids, d.id) == Some(0);
    } else {
      assert Position(ids, d.id) != 0;
    }
  }

  /** The positions in a list of two different ids. */
  lemma TwoPositions(x: string, y: string)
    requires x != y
    ensures Position([x, y], x) == 0 && Position([x, y], y) == 1
  {
    assert [x, y][..1] == [x];
  }

  /** The orders `reorder([a, b])` gives. */
  lemma TwoOrders(a: Document, b: Document, now: string)
    requires a.id != b.id
    ensures var s := Reorder([a, b], [a.id, b.id], now);
      |s| == 2 && s[0].id == a.id && s[1].id == b.id
      && OrderOf(s[0]) == Some(0) && OrderOf(s[1]) == Some(1)
  {
    var store, ids := [a, b], [a.id, b.id];
    var s := Reorder(store, ids, now);
    TwoDocuments(a, b, now);
    TwoPositions(a.id, b.id);
    ReorderedOrder(store, ids, now, s[0]);
    ReorderedOrder(store, ids, now, s[1]);
  }

  /** Two documents reordered as [a, b] are listed b first as written. */
  lemma TwoDocumentsAsWritten(a: Document, b: Document, now: string)
    requires a.id != b.id
    ensures GetAllAsWritten(Reorder([a, b], [a.id, b.id], now))[0].id == b.id
  {
    TwoOrders(a, b, now);
    PairListedAsWritten(Reorder([a, b], [a.id, b.id], now));
  }

  /** With the intended key they are listed a first. */
  lemma TwoDocumentsCorrected(a: Document, b: Document, now: string)
    requires a.id != b.id
    ensures GetAll(Reorder([a, b], [a.id, b.id], now))[0].id == a.id
  {
    TwoOrders(a, b, now);
    PairListed(Reorder([a, b], [a.id, b.id], now));
  }

  /** Two documents with orders 0 and 1, as `reorder` leaves them, are
      listed second first as written. */
  lemma PairListedAsWritten(s: Store)
    requires |s| == 2 && OrderOf(s[0]) == Some(0) && OrderOf(s[1]) == Some(1)
    ensures |GetAllAsWritten(s)| == 2 && GetAllAsWritten(s)[0] == s[1]
  {
    assert s == [s[0], s[1]];
    assert multiset(s) == multiset([s[1], s[0]]);
    SortedPairFirst(s[1], s[0], GetAllAsWritten(s), SortKeyAsWritten);
  }

  /** ... and first first with the intended key. */
  lemma PairListed(s: Store)
    requires |s| == 2 && OrderOf(s[0]) == Some(0) && OrderOf(s[1]) == Some(1)
    ensures |GetAll(s)| == 2 && GetAll(s)[0] == s[0]
  {
    assert s == [s[0], s[1]];
    SortedPairFirst(s[0], s[1], GetAll(s), SortKey);
  }

  /** Sorting two elements with different keys puts the smaller first. */
  lemma SortedPairFirst<T>(x: T, y: T, r: seq<T>, key: T -> int)
    requires key(x) < key(y)
    requires multiset(r) == multiset([x, y])
    requires forall i, j :: 0 <= i < j < |r| ==> key(r[i]) <= key(r[j])
    ensures |r| == 2 && r[0] == x
  {
    assert |r| == |multiset(r)| == 2;
    assert x in multiset(r) && y in multiset(r);
    var i :| 0 <= i < |r| && r[i] == x;
    var j :| 0 <= j < |r| && r[j] == y;
    assert i < j;
  }

  /** The store and list of the two-document example. */
  lemma TwoDocuments(a: Document, b: Document, now: string)
    requires a.id != b.id
    ensures UniqueIds([a, b]) && AllListed([a, b], [a.id, b.id])
    ensures var s := Reorder([a, b], [a.id, b.id], now);
      |s| == 2 && s[0].id == a.id && s[1].id == b.id
  {
    var s := Reorder([a, b], [a.id, b.id], now);
    ReorderSpec([a, b], [a.id, b.id], now, a.id);
    assert Ids(s) == Ids([a, b]);
    assert |s| == 2 && s[0].id == Ids(s)[0] && s[1].id == Ids(s)[1];
  }
}
