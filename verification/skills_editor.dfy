/** The skills page: the proficiency level shown for a skill, the search
    and sort of the skill list, and the order a new skill is offered. */
module SkillsEditor {
  import opened Wrappers
  import opened Seqs
  import opened Text
  import opened Ordering
  import Collection
  import OrderedCollection
  import SkillService

  datatype Level = Beginner | Intermediate | Advanced | Expert

  function LevelName(l: Level): string {
    match l
    case Beginner => "Beginner"
    case Intermediate => "Intermediate"
    case Advanced => "Advanced"
    case Expert => "Expert"
  }

  function Rank(l: Level): nat {
    match l
    case Beginner => 0
    case Intermediate => 1
    case Advanced => 2
    case Expert => 3
  }

  /** `getProficiencyLevel`: 80 and up is expert, 60 advanced, 40
      intermediate, anything lower beginner. */
  function ProficiencyLevel(proficiency: int): (l: Level)
    ensures l == Expert <==> proficiency >= 80
    ensures l == Advanced <==> 60 <= proficiency < 80
    ensures l == Intermediate <==> 40 <= proficiency < 60
    ensures l == Beginner <==> proficiency < 40
  {
    if proficiency >= 80 then Expert
    else if proficiency >= 60 then Advanced
    else if proficiency >= 40 then Intermediate
    else Beginner
  }

  /** More proficiency never means a lower level. */
  lemma LevelMonotone(p: int, q: int)
    requires p <= q
    ensures Rank(ProficiencyLevel(p)) <= Rank(ProficiencyLevel(q))
  {
  }

  /** A skill as the page lists it. */
  datatype SkillRow = SkillRow(id: string, name: string, category: string, trend: string, order: int)

  /** The search of one skill for an already lower-cased query. */
  predicate Matches(s: SkillRow, query: string) {
    || Contains(ToLower(s.name), query)
    || Contains(ToLower(s.category), query)
    || Contains(ToLower(s.trend), query)
  }

  /** The comparator: by order, then by name. */
  predicate RowLe(a: SkillRow, b: SkillRow) {
    a.order < b.order || (a.order == b.order && LexLe(a.name, b.name))
  }

  lemma RowLeIsTotalPreorder()
    ensures IsTotalPreorder(RowLe)
  {
    forall a: SkillRow, b: SkillRow ensures RowLe(a, b) || RowLe(b, a) {
      LexTotal(a.name, b.name);
    }
    forall a: SkillRow, b: SkillRow, c: SkillRow | RowLe(a, b) && RowLe(b, c) ensures RowLe(a, c) {
      if a.order == b.order == c.order {
        LexTrans(a.name, b.name, c.name);
      }
    }
  }

  /** The rows whose name, category or trend contains the query, any case;
      an empty query keeps every row. */
  function Search(skills: seq<SkillRow>, query: string): (r: seq<SkillRow>)
    ensures query == "" ==> r == skills
    ensures query != "" ==> forall s :: multiset(r)[s] == if Matches(s, ToLower(query)) then multiset(skills)[s] else 0
  {
    if query == "" then skills
    else
      var keep := (s: SkillRow) => Matches(s, ToLower(query));
      FilterMultiset(skills, keep);
      Filter(skills, keep)
  }

  /** The query's case does not matter. */
  lemma SearchIgnoresCase(skills: seq<SkillRow>, query: string)
    ensures Search(skills, query) == Search(skills, ToLower(query))
  {
    LowerIdempotent(query);
    assert query == "" <==> ToLower(query) == "";
  }

  /** `filterSkills`: the search result sorted by order, then name. It is a
      permutation of the matching rows: nothing is added or repeated. */
  function FilterSkills(skills: seq<SkillRow>, query: string): (r: seq<SkillRow>)
    ensures forall i, j :: 0 <= i < j < |r| ==> RowLe(r[i], r[j])
    ensures multiset(r) == multiset(Search(skills, query))
    ensures query == "" ==> multiset(r) == multiset(skills)
    ensures forall s :: multiset(r)[s] <= multiset(skills)[s]
  {
    RowLeIsTotalPreorder();
    SearchKeepsAtMost(skills, query);
    var r := Sort(Search(skills, query), RowLe);
    assert SortedBy(r, RowLe);
    r
  }

  /** The search never returns more copies of a row than it was given. */
  lemma SearchKeepsAtMost(skills: seq<SkillRow>, query: string)
    ensures forall s :: multiset(Search(skills, query))[s] <= multiset(skills)[s]
  {
  }

  /** Sorting ignores where rows started: two sorted lists with the same
      rows are equal when no two rows share both order and name. */
  lemma {:induction false} SortedIsUnique(a: seq<SkillRow>, b: seq<SkillRow>)
    requires multiset(a) == multiset(b)
    requires Sorted(a) && Sorted(b) && KeysDistinct(a)
    ensures a == b
    decreases |a|
  {
    assert |a| == |multiset(a)| == |multiset(b)| == |b|;
    if a != [] {
      HeadsEqual(a, b);
      Tail(a);
      Tail(b);
      SortedIsUnique(a[1..], b[1..]);
      assert a == [a[0]] + a[1..] && b == [b[0]] + b[1..];
    }
  }

  /** What a non-empty list's tail keeps. */
  lemma Tail(a: seq<SkillRow>)
    requires a != []
    ensures multiset(a[1..]) == multiset(a) - multiset{a[0]}
    ensures Sorted(a) ==> Sorted(a[1..])
    ensures KeysDistinct(a) ==> KeysDistinct(a[1..])
  {
    assert a == [a[0]] + a[1..];
  }

  predicate Sorted(a: seq<SkillRow>) {
    forall i, j :: 0 <= i < j < |a| ==> RowLe(a[i], a[j])
  }

  function Key(s: SkillRow): (int, string) {
    (s.order, s.name)
  }

  predicate KeysDistinct(a: seq<SkillRow>) {
    forall i, j :: 0 <= i < |a| && 0 <= j < |a| && i != j ==> Key(a[i]) != Key(a[j])
  }

  lemma HeadsEqual(a: seq<SkillRow>, b: seq<SkillRow>)
    requires multiset(a) == multiset(b) && a != [] && b != []
    requires Sorted(a) && Sorted(b) && KeysDistinct(a)
    ensures a[0] == b[0]
  {
    assert a[0] in multiset(b);
    assert b[0] in multiset(a);
    var i :| 0 <= i < |b| && b[i] == a[0];
    var j :| 0 <= j < |a| && a[j] == b[0];
    if a[0] != b[0] {
      assert i != 0 && j != 0;
      assert RowLe(b[0], b[i]) && RowLe(a[0], a[j]);
      LexEqual(a[0], a[j]);
    }
  }

  /** When no two skills share both order and name, the listing does not
      depend on the order the skills were loaded in. */
  lemma FilterSkillsIgnoresLoadOrder(a: seq<SkillRow>, b: seq<SkillRow>, query: string)
    requires multiset(a) == multiset(b) && KeysDistinct(a)
    ensures FilterSkills(a, query) == FilterSkills(b, query)
  {
    var ra, rb := FilterSkills(a, query), FilterSkills(b, query);
    SearchSameRows(a, b, query);
    assert multiset(ra) == multiset(rb);
    assert Sorted(ra) && Sorted(rb);
    SubKeysDistinct(a, ra);
    SortedIsUnique(ra, rb);
  }

  lemma SearchSameRows(a: seq<SkillRow>, b: seq<SkillRow>, query: string)
    requires multiset(a) == multiset(b)
    ensures multiset(Search(a, query)) == multiset(Search(b, query))
  {
    if query != "" {
      var m, n := multiset(Search(a, query)), multiset(Search(b, query));
      forall s ensures m[s] == n[s] {
      }
    }
  }

  /** A list holding no row more often than a list with distinct keys has
      distinct keys too. */
  lemma SubKeysDistinct(a: seq<SkillRow>, r: seq<SkillRow>)
    requires KeysDistinct(a)
    requires forall s :: multiset(r)[s] <= multiset(a)[s]
    ensures KeysDistinct(r)
  {
    forall i, j | 0 <= i < |r| && 0 <= j < |r| && i != j ensures Key(r[i]) != Key(r[j]) {
      assert r[i] in multiset(r) && r[j] in multiset(r);
      assert r[i] in multiset(a) && r[j] in multiset(a);
      var x :| 0 <= x < |a| && a[x] == r[i];
      var y :| 0 <= y < |a| && a[y] == r[j];
      if r[i] == r[j] {
        Twice(r, i, j);
        Once(a, x);
      } else {
        assert x != y;
      }
    }
  }

  /** A row at two positions occurs at least twice. */
  lemma Twice(r: seq<SkillRow>, i: int, j: int)
    requires 0 <= i < |r| && 0 <= j < |r| && i != j && r[i] == r[j]
    ensures multiset(r)[r[i]] >= 2
  {
    var lo, hi := if i < j then i else j, if i < j then j else i;
    assert r == r[..lo] + [r[lo]] + r[lo + 1..hi] + [r[hi]] + r[hi + 1..];
  }

  /** In a list with distinct keys every row occurs once. */
  lemma Once(a: seq<SkillRow>, x: int)
    requires KeysDistinct(a) && 0 <= x < |a|
    ensures multiset(a)[a[x]] == 1
  {
    assert a == a[..x] + [a[x]] + a[x + 1..];
    assert a[x] !in a[..x] by {
      forall k | 0 <= k < x ensures a[..x][k] != a[x] {
        assert Key(a[k]) != Key(a[x]);
      }
    }
    assert a[x] !in a[x + 1..] by {
      forall k | x < k < |a| ensures a[k] != a[x] {
        assert Key(a[k]) != Key(a[x]);
      }
    }
  }

  /** Rows ordered both ways agree on order and name. */
  lemma LexEqual(x: SkillRow, y: SkillRow)
    requires RowLe(x, y) && RowLe(y, x)
    ensures x.order == y.order && x.name == y.name
  {
    if x.order == y.order {
      LexAntisymmetric(x.name, y.name);
    }
  }

  /** The form for a new skill: its fields start at their defaults and its
      order at the number of skills listed. */
  datatype SkillForm = SkillForm(name: string, category: string, proficiency: int, trend: string,
                                 yearsOfExperience: int, icon: string, order: int)

  function NewSkillForm(skills: seq<SkillRow>): (f: SkillForm)
    ensures f.order == |skills|
    ensures f.name == "" && f.icon == "" && f.category == "Frontend" && f.trend == "stable"
    ensures f.proficiency == 50 && f.yearsOfExperience == 0
  {
    SkillForm("", "Frontend", 50, "stable", 0, "", |skills|)
  }

  /** With the whole collection listed, the offered order is the one the
      service gives the skill when it is created. */
  lemma DefaultOrderAgrees(store: Collection.Store, rows: seq<SkillRow>, data: Collection.Fields, newId: string, now: string)
    requires |rows| == |OrderedCollection.GetAllAsWritten(store)|
    ensures Some(NewSkillForm(rows).order) == OrderedCollection.OrderOf(SkillService.Create(store, data, newId, now).0)
  {
    OrderedCollection.ListingSize(store);
  }
}
