/** The skill service: skills listed by their order, the featured and
    per-category views of that list, and `create`, which appends a skill
    with the next order. Skills have no published flag. `getById`,
    `update`, `delete` and `reorder` are the collection's own operations. */
module SkillService {
  import opened Wrappers
  import opened Seqs
  import opened Collection
  import opened OrderedCollection

  const CategoryKey: string := "category"

  /** `s.category === category`. */
  predicate InCategory(d: Document, category: string) {
    CategoryKey in d.fields && d.fields[CategoryKey] == Text(category)
  }

  /** `getFeatured`: the skills marked featured, in the listing order of `getAll`. */
  function GetFeatured(store: Store): (r: Store)
    ensures r == Filter(GetAllAsWritten(store), Featured)
    ensures forall d :: d in r <==> d in store && Featured(d)
    ensures InListingOrderAsWritten(r)
  {
    var all := GetAllAsWritten(store);
    ListedMembers(store);
    FilterInListingOrderAsWritten(all, Featured);
    FeaturedOf(all)
  }

  /** `s => s.category === category`, as a condition to filter by. */
  function OfCategory(category: string): Document -> bool {
    d => InCategory(d, category)
  }

  /** `getByCategory`: the skills of one category, in the listing order of `getAll`. */
  function GetByCategory(store: Store, category: string): (r: Store)
    ensures r == Filter(GetAllAsWritten(store), OfCategory(category))
    ensures forall d :: d in r <==> d in store && InCategory(d, category)
    ensures InListingOrderAsWritten(r)
  {
    var all := GetAllAsWritten(store);
    var p := OfCategory(category);
    ListedMembers(store);
    FilterInListingOrderAsWritten(all, p);
    forall d ensures d in Filter(all, p) <==> d in all && p(d) {
      FilterMembers(all, p, d);
    }
    Filter(all, p)
  }

  /** Each skill is in exactly the category it names, so the per-category
      views of two different categories share no skill. */
  lemma CategoriesDisjoint(store: Store, a: string, b: string, d: Document)
    requires a != b
    ensures !(d in GetByCategory(store, a) && d in GetByCategory(store, b))
  {
  }

  /** `create`: the supplied fields, with the order set to the number of
      skills and both times set; the skill is written under `newId` and
      returned. */
  function Create(store: Store, data: Fields, newId: string, now: string): (r: (Document, Store))
    ensures r.0.id == newId
    ensures Get(r.1, newId) == Some(r.0)
    ensures forall x :: x != newId ==> Get(r.1, x) == Get(store, x)
    ensures OrderOf(r.0) == Some(|store|)
    ensures CreatedAtKey in r.0.fields && r.0.fields[CreatedAtKey] == Text(now)
    ensures UpdatedAtKey in r.0.fields && r.0.fields[UpdatedAtKey] == Text(now)
    ensures forall k :: k !in {IdKey, OrderKey, CreatedAtKey, UpdatedAtKey} ==>
      (k in r.0.fields <==> k in data) && (k in data ==> r.0.fields[k] == data[k])
    ensures UniqueIds(store) ==> UniqueIds(r.1)
  {
    var d := Document(newId, Created(data, now)[OrderKey := NextOrder(store)]);
    (d, Put(store, d))
  }

  /** A skill created over skills whose orders are all below their
      number (as `reorder` of every skill and earlier `create`s leave them)
      is listed after every skill with a non-zero order, and, as written,
      before one with order 0 while there are fewer than 999 skills. */
  lemma CreatedPosition(store: Store, data: Fields, newId: string, now: string)
    requires Get(store, newId).None?
    requires forall i :: 0 <= i < |store| ==> OrderOf(store[i]).Some? && OrderOf(store[i]).value < |store|
    ensures var (d, after) := Create(store, data, newId, now);
      var r := GetAllAsWritten(after);
      forall i, j :: 0 <= i < |r| && 0 <= j < |r| && r[i] == d && r[j] != d ==>
        && (OrderOf(r[j]) != Some(0) ==> j < i)
        && (OrderOf(r[j]) == Some(0) && |store| < 999 ==> i < j)
  {
    var (d, _) := Create(store, data, newId, now);
    AppendedListedAsWritten(store, d);
  }

  /** A new skill appears in the view of the category its data names. */
  lemma CreatedInCategory(store: Store, data: Fields, newId: string, now: string, category: string)
    requires CategoryKey in data && data[CategoryKey] == Text(category)
    ensures var (d, after) := Create(store, data, newId, now);
      d in GetByCategory(after, category)
  {
    var r := Create(store, data, newId, now);
    assert CategoryKey !in {IdKey, OrderKey, CreatedAtKey, UpdatedAtKey};
    assert r.0 in r.1;
  }
}
