/**
 * `TvProductController`: the whitelist check on the `category` query parameter, the choice of
 * the categories to list, the per-category counts and their total for the "TV sprejemniki"
 * page, and the plain television listing.
 *
 * Pages are the full ordered listing; slicing into pages of 20 is not modelled.
 */
module Controller {
  import opened Wrappers
  import opened Enums
  import opened ProductTable
  import opened Repository

  /** `resolveActiveCategory`: the raw parameter when it is strictly one of `allowed`, else null. */
  function ResolveActiveCategory(rawCategory: Option<string>, allowed: seq<string>): (r: Option<string>)
    ensures rawCategory.None? ==> r.None?
    ensures r.Some? <==> rawCategory.Some? && rawCategory.value in allowed
    ensures r.Some? ==> r == rawCategory
  {
    if rawCategory.None? then None
    else if rawCategory.value in allowed then rawCategory
    else None
  }

  /** Resolving an already resolved value returns it unchanged. */
  lemma ResolveIdempotent(rawCategory: Option<string>, allowed: seq<string>)
    ensures ResolveActiveCategory(ResolveActiveCategory(rawCategory, allowed), allowed)
         == ResolveActiveCategory(rawCategory, allowed)
  {
  }

  /** `getTvReceiverLeafCategories`: the leaf cases' values, in the leaf order. */
  function GetTvReceiverLeafCategories(): (vs: seq<string>)
    ensures |vs| == |TvReceiversLeaf()|
    ensures forall i :: 0 <= i < |vs| ==> vs[i] == TvReceiversLeaf()[i].Value()
  {
    Values(TvReceiversLeaf())
  }

  /** Every value of the leaf list names exactly one leaf case. */
  lemma LeafValueNamesOneCase(v: string)
    requires v in GetTvReceiverLeafCategories()
    ensures TryFrom(v).Some? && TryFrom(v).value in TvReceiversLeaf()
  {
    var i :| 0 <= i < |GetTvReceiverLeafCategories()| && GetTvReceiverLeafCategories()[i] == v;
    TryFromValue(TvReceiversLeaf()[i]);
  }

  /** `array_filter($leafCategoryEnums, fn ($c) => $c->value === $value)`: each matching case as often as it occurs. */
  function WithValue(categories: seq<TvCategory>, value: string): (r: seq<TvCategory>)
    ensures forall c :: c in r <==> c in categories && c.Value() == value
    ensures forall c :: multiset(r)[c] == if c.Value() == value then multiset(categories)[c] else 0
  {
    assert categories != [] ==> categories == [categories[0]] + categories[1..];
    if categories == [] then []
    else if categories[0].Value() == value then [categories[0]] + WithValue(categories[1..], value)
    else WithValue(categories[1..], value)
  }

  /** The categories `receivers` lists: every leaf without an active category, else the leaves with its value. */
  function CategoriesForListing(activeCategory: Option<string>): (r: seq<TvCategory>)
    ensures activeCategory.None? ==> r == TvReceiversLeaf()
    ensures activeCategory.Some? ==> forall c :: c in r <==> c in TvReceiversLeaf() && c.Value() == activeCategory.value
  {
    if activeCategory.None? then TvReceiversLeaf() else WithValue(TvReceiversLeaf(), activeCategory.value)
  }

  lemma {:induction false} WithValueOfDistinct(categories: seq<TvCategory>, c: TvCategory)
    requires forall i, j :: 0 <= i < j < |categories| ==> categories[i] != categories[j]
    requires c in categories
    ensures WithValue(categories, c.Value()) == [c]
    decreases |categories|
  {
    if categories[0] == c {
      assert c !in categories[1..];
      forall d | d in categories[1..] ensures d.Value() != c.Value() {
        ValueInjective(c, d);
      }
      WithNoValue(categories[1..], c.Value());
    } else {
      ValueInjective(categories[0], c);
      WithValueOfDistinct(categories[1..], c);
    }
  }

  lemma WithNoValue(categories: seq<TvCategory>, value: string)
    requires forall c :: c in categories ==> c.Value() != value
    ensures WithValue(categories, value) == []
  {
    if WithValue(categories, value) != [] {
      assert WithValue(categories, value)[0] in WithValue(categories, value);
    }
  }

  /** A resolved category is listed on its own: the filter yields exactly the one case carrying that value. */
  lemma ActiveListingIsSingleton(activeCategory: string)
    requires activeCategory in GetTvReceiverLeafCategories()
    ensures TryFrom(activeCategory).Some?
    ensures CategoriesForListing(Some(activeCategory)) == [TryFrom(activeCategory).value]
  {
    LeafValueNamesOneCase(activeCategory);
    WithValueOfDistinct(TvReceiversLeaf(), TryFrom(activeCategory).value);
  }

  // ---------------------------------------------------------------------------
  // The total count

  ghost function Pick(m: map<string, nat>): (k: string)
    requires m != map[]
    ensures k in m
  {
    var k :| k in m; k
  }

  /** `array_sum`: the sum of a map's values; no single value exceeds it, and it is 0 exactly when every value is. */
  ghost function ArraySum(m: map<string, nat>): (sum: nat)
    ensures forall k :: k in m ==> m[k] <= sum
    ensures sum == 0 <==> forall k :: k in m ==> m[k] == 0
    decreases |m.Keys|
  {
    if m == map[] then 0
    else
      var k := Pick(m);
      assert (m - {k}).Keys < m.Keys;
      assert forall j :: j in m - {k} ==> (m - {k})[j] == m[j];
      m[k] + ArraySum(m - {k})
  }

  /** The sum does not depend on which entry is taken out first. */
  lemma {:induction false} ArraySumRemove(m: map<string, nat>, k: string)
    requires k in m
    ensures ArraySum(m) == m[k] + ArraySum(m - {k})
    decreases |m.Keys|
  {
    var j := Pick(m);
    if j != k {
      assert (m - {j}).Keys < m.Keys;
      assert (m - {k}).Keys < m.Keys;
      ArraySumRemove(m - {j}, k);
      ArraySumRemove(m - {k}, j);
      assert m - {j} - {k} == m - {k} - {j};
    }
  }

  /** The sum of the values of `m` found under `keys`, walking the list; no value found exceeds it. */
  function SumOver(m: map<string, nat>, keys: seq<string>): (sum: nat)
    ensures forall i :: 0 <= i < |keys| && keys[i] in m ==> m[keys[i]] <= sum
  {
    if keys == [] then 0 else (if keys[0] in m then m[keys[0]] else 0) + SumOver(m, keys[1..])
  }

  predicate Distinct(vs: seq<string>) {
    forall i, j :: 0 <= i < j < |vs| ==> vs[i] != vs[j]
  }

  /** The number of rows of each of `vs`, added up. */
  function SumCounts(rows: seq<Row>, vs: seq<string>): nat {
    if vs == [] then 0 else CountWithCategory(rows, vs[0]) + SumCounts(rows, vs[1..])
  }

  /** For the counts of distinct values, `array_sum` adds up every value's number of rows once. */
  lemma {:induction false} ArraySumOfCounts(rows: seq<Row>, vs: seq<string>)
    requires Distinct(vs)
    ensures ArraySum(CountByValues(rows, vs)) == SumCounts(rows, vs)
    decreases |vs|
  {
    if vs != [] {
      var v, rest := vs[0], vs[1..];
      var m, m' := CountByValues(rows, vs), CountByValues(rows, rest);
      assert Distinct(rest);
      ArraySumOfCounts(rows, rest);
      assert v !in rest;
      assert m - {v} == m';
      if v in m {
        ArraySumRemove(m, v);
      } else {
        assert m == m';
      }
    }
  }

  /** Walking the values over their counts adds up every value's number of rows, a missing entry being 0. */
  lemma {:induction false} SumOverOfCounts(rows: seq<Row>, m: map<string, nat>, keys: seq<string>)
    requires forall k :: k in keys ==> (if k in m then m[k] else 0) == CountWithCategory(rows, k)
    ensures SumOver(m, keys) == SumCounts(rows, keys)
    decreases |keys|
  {
    if keys != [] {
      assert keys[0] in keys;
      SumOverOfCounts(rows, m, keys[1..]);
    }
  }

  /** The rows of distinct values add up to the size of their joint listing. */
  lemma {:induction false} SumCountsIsListingSize(rows: seq<Row>, vs: seq<string>)
    requires Distinct(vs)
    ensures SumCounts(rows, vs) == |WhereIn(rows, vs)|
    decreases |vs|
  {
    if vs != [] {
      assert Distinct(vs[1..]);
      SumCountsIsListingSize(rows, vs[1..]);
      CountIsListingSize(rows, vs[0]);
      assert vs[0] !in vs[1..];
      assert vs == [vs[0]] + vs[1..];
      WhereInSplit(rows, vs[0], vs[1..]);
    } else {
      var none := WhereIn(rows, vs);
      assert |none| > 0 ==> CategoryIn(none[0], vs);
    }
  }

  /** For the counts of distinct values, walking the values adds up every entry once, as `array_sum` does. */
  lemma SumOverCounts(rows: seq<Row>, vs: seq<string>)
    requires Distinct(vs)
    ensures SumOver(CountByValues(rows, vs), vs) == ArraySum(CountByValues(rows, vs))
    ensures SumOver(CountByValues(rows, vs), vs) == |WhereIn(rows, vs)|
  {
    ArraySumOfCounts(rows, vs);
    SumOverOfCounts(rows, CountByValues(rows, vs), vs);
    SumCountsIsListingSize(rows, vs);
  }

  /** The rows of `[v] + rest` are those of `v` and those of `rest`, when `v` is not in `rest`. */
  lemma {:induction false} WhereInSplit(rows: seq<Row>, v: string, rest: seq<string>)
    requires v !in rest
    ensures |WhereIn(rows, [v] + rest)| == |WhereEq(rows, v)| + |WhereIn(rows, rest)|
    decreases |rows|
  {
    if rows != [] {
      WhereInSplit(rows[1..], v, rest);
    }
  }

  // ---------------------------------------------------------------------------
  // The pages

  /** What `receivers` hands to its view (the listing before slicing into pages). */
  datatype ReceiversView = ReceiversView(
    products: seq<Row>,
    leafCategories: seq<string>,
    activeCategory: Option<string>,
    categoryCounts: map<string, nat>,
    allProductsCount: nat)

  /** `receivers`, for the table's rows and the `category` query parameter. */
  function Receivers(rows: seq<Row>, query: Option<string>): (view: ReceiversView)
    ensures view.leafCategories == GetTvReceiverLeafCategories()
    ensures view.activeCategory.Some? ==> view.activeCategory == query && query.value in view.leafCategories
    ensures view.activeCategory.None? ==> query.None? || query.value !in view.leafCategories
    ensures view.categoryCounts == CountByCategories(rows, TvReceiversLeaf())
  {
    var leafCategoryEnums := TvReceiversLeaf();
    var leafCategories := GetTvReceiverLeafCategories();
    var activeCategory := ResolveActiveCategory(query, leafCategories);
    var products := PaginateByCategories(rows, CategoriesForListing(activeCategory));
    var categoryCounts := CountByCategories(rows, leafCategoryEnums);
    ReceiversView(products, leafCategories, activeCategory, categoryCounts,
                  SumOver(categoryCounts, leafCategories))
  }

  /**
   * Without a valid category the page lists every leaf category; with one it lists the same rows
   * as that category's own listing. The total is the sum of the per-category counts and equals
   * the size of the all-leaves listing.
   */
  lemma ReceiversMeaning(rows: seq<Row>, query: Option<string>)
    ensures var view := Receivers(rows, query);
            view.activeCategory.None? ==> view.products == PaginateByCategories(rows, TvReceiversLeaf())
    ensures var view := Receivers(rows, query);
            view.activeCategory.Some? ==>
              TryFrom(view.activeCategory.value).Some?
              && view.products == PaginateByCategory(rows, TryFrom(view.activeCategory.value).value)
    ensures Receivers(rows, query).allProductsCount == ArraySum(Receivers(rows, query).categoryCounts)
    ensures Receivers(rows, query).allProductsCount == |PaginateByCategories(rows, TvReceiversLeaf())|
  {
    var view := Receivers(rows, query);
    if view.activeCategory.Some? {
      ActiveListingIsSingleton(view.activeCategory.value);
      SingleCategoryListing(rows, TryFrom(view.activeCategory.value).value);
    }
    LeafValuesDistinct();
    SumOverCounts(rows, GetTvReceiverLeafCategories());
  }

  /** `index`: the televisions, ordered by title. */
  function Index(rows: seq<Row>): (products: seq<Row>)
    ensures SortedByTitle(products)
    ensures forall i :: 0 <= i < |products| ==> products[i].category == Some("Televizorji")
    ensures forall row :: multiset(products)[row] == if row.category == Some("Televizorji") then multiset(rows)[row] else 0
  {
    PaginateByCategoryMeaning(rows, Televizorji);
    PaginateByCategory(rows, Televizorji)
  }
}
