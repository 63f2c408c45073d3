/**
 * `EloquentTvProductRepository`: the batch upsert (the same policy as the importer's, but over
 * an untyped PHP array whose non-DTO entries are skipped) and the read queries behind the
 * listing pages.
 *
 * The read queries take the table's rows as a sequence in scan order; `orderBy('title')` is
 * modelled as a stable sort by the lexicographic order of the titles' characters.
 */
module Repository {
  import opened Wrappers
  import opened Enums
  import opened Dto
  import opened ProductTable

  /** An element of the untyped `$products` array. */
  datatype Entry = Product(dto: TvProductData) | NotProduct

  /** The DTOs of the array, in order: what survives the `instanceof` check. */
  function Products(entries: seq<Entry>): (ds: seq<TvProductData>)
    ensures |ds| <= |entries|
    ensures forall d :: d in ds <==> Product(d) in entries
    decreases |entries|
  {
    if entries == [] then []
    else
      var init := Products(entries[..|entries| - 1]);
      match entries[|entries| - 1]
      case Product(dto) => init + [dto]
      case NotProduct => init
  }

  class EloquentTvProductRepository {
    /** The database table `TvProduct::updateOrCreate` writes to. */
    const table: TvProductTable

    constructor(table: TvProductTable)
      ensures this.table == table
    {
      this.table := table;
    }

    /**
     * `upsertMany`: skip the entries that are not DTOs, `updateOrCreate` the others in order
     * and count the distinct `$touched` slots of those that created or changed a row.
     */
    method UpsertMany(products: seq<Entry>) returns (count: nat)
      modifies table
      ensures table.rows == ApplyAll(old(table.rows), Products(products))
      ensures count == |TouchedSlots(old(table.rows), Products(products))|
    {
      var touched: set<string> := {};
      var i := 0;
      while i < |products|
        invariant 0 <= i <= |products|
        invariant table.rows == ApplyAll(old(table.rows), Products(products[..i]))
        invariant touched == TouchedSlots(old(table.rows), Products(products[..i]))
      {
        ProductsSnoc(products, i);
        if products[i].NotProduct? {
          i := i + 1;
          continue;
        }
        var dto := products[i].dto;
        BatchSnoc(old(table.rows), Products(products[..i]), dto);
        var wasRecentlyCreated, wasChanged := table.UpdateOrCreate(dto.externalId, RowOf(dto));
        if wasRecentlyCreated || wasChanged {
          touched := touched + {Slot(dto.externalId)};
        }
        i := i + 1;
      }
      assert products[..i] == products;
      count := |touched|;
    }
  }

  /** One more entry adds its DTO, if it is one. */
  lemma ProductsSnoc(entries: seq<Entry>, i: nat)
    requires i < |entries|
    ensures Products(entries[..i + 1])
         == if entries[i].Product? then Products(entries[..i]) + [entries[i].dto] else Products(entries[..i])
  {
    assert entries[..i + 1][..i] == entries[..i];
  }

  lemma {:induction false} ProductsConcat(a: seq<Entry>, b: seq<Entry>)
    ensures Products(a + b) == Products(a) + Products(b)
    decreases |b|
  {
    if b != [] {
      var b' := b[..|b| - 1];
      assert (a + b)[..|a + b| - 1] == a + b';
      assert (a + b)[|a + b| - 1] == b[|b| - 1];
      ProductsConcat(a, b');
    } else {
      assert a + b == a;
    }
  }

  /**
   * An entry that is not a DTO is skipped: the batch with it inserted anywhere applies the same
   * DTOs, so it leaves the same table and returns the same count.
   */
  lemma NotProductSkipped(a: seq<Entry>, b: seq<Entry>)
    ensures Products(a + [NotProduct] + b) == Products(a + b)
  {
    ProductsConcat(a + [NotProduct], b);
    ProductsConcat(a, [NotProduct]);
    ProductsConcat(a, b);
    assert Products([NotProduct]) == Products([]) by {
      assert [NotProduct][..0] == [];
    }
  }

  /** A batch of DTOs only, handed over as entries. */
  function Wrap(ds: seq<TvProductData>): (entries: seq<Entry>)
    ensures |entries| == |ds|
    ensures forall i :: 0 <= i < |ds| ==> entries[i] == Product(ds[i])
  {
    seq(|ds|, i requires 0 <= i < |ds| => Product(ds[i]))
  }

  /** For an array holding only DTOs, `upsertMany` applies exactly them, as the importer does. */
  lemma {:induction false} ProductsOfWrap(ds: seq<TvProductData>)
    ensures Products(Wrap(ds)) == ds
    decreases |ds|
  {
    if ds != [] {
      var init := ds[..|ds| - 1];
      assert Wrap(ds)[..|ds| - 1] == Wrap(init);
      ProductsOfWrap(init);
    }
  }

  // ---------------------------------------------------------------------------
  // Read queries

  /** The order `orderBy('title')` uses: lexicographic by character code. */
  predicate TitleLe(a: string, b: string)
    decreases |a|
  {
    a == [] || (b != [] && (a[0] < b[0] || (a[0] == b[0] && TitleLe(a[1..], b[1..]))))
  }

  lemma {:induction false} TitleLeTotal(a: string, b: string)
    ensures TitleLe(a, b) || TitleLe(b, a)
    decreases |a|
  {
    if a != [] && b != [] && a[0] == b[0] {
      TitleLeTotal(a[1..], b[1..]);
    }
  }

  lemma {:induction false} TitleLeTransitive(a: string, b: string, c: string)
    requires TitleLe(a, b) && TitleLe(b, c)
    ensures TitleLe(a, c)
    decreases |a|
  {
    if a != [] && a[0] == b[0] && b[0] == c[0] {
      TitleLeTransitive(a[1..], b[1..], c[1..]);
    }
  }

  lemma {:induction false} TitleLeAntisymmetric(a: string, b: string)
    requires TitleLe(a, b) && TitleLe(b, a)
    ensures a == b
    decreases |a|
  {
    if a != [] {
      TitleLeAntisymmetric(a[1..], b[1..]);
    }
  }

  predicate SortedByTitle(rows: seq<Row>) {
    forall i, j :: 0 <= i < j < |rows| ==> TitleLe(rows[i].title, rows[j].title)
  }

  /** Place `row` before the first row whose title is not below its own. */
  function Insert(row: Row, sorted: seq<Row>): (r: seq<Row>)
    ensures multiset(r) == multiset(sorted) + multiset{row}
  {
    if sorted == [] || TitleLe(row.title, sorted[0].title) then [row] + sorted
    else
      assert sorted == [sorted[0]] + sorted[1..];
      [sorted[0]] + Insert(row, sorted[1..])
  }

  lemma {:induction false} InsertSorted(row: Row, sorted: seq<Row>)
    requires SortedByTitle(sorted)
    ensures SortedByTitle(Insert(row, sorted))
    decreases |sorted|
  {
    if sorted == [] {
    } else if TitleLe(row.title, sorted[0].title) {
      var r := Insert(row, sorted);
      forall j | 1 <= j < |r| ensures TitleLe(row.title, r[j].title) {
        if j > 1 {
          TitleLeTransitive(row.title, sorted[0].title, sorted[j - 1].title);
        }
      }
    } else {
      var head, tail := sorted[0], sorted[1..];
      InsertSorted(row, tail);
      TitleLeTotal(row.title, head.title);
      var rest := Insert(row, tail);
      var r := Insert(row, sorted);
      assert r == [head] + rest;
      forall j | 0 <= j < |rest| ensures TitleLe(head.title, rest[j].title) {
        var x := rest[j];
        assert x in multiset(rest);
        if x != row {
          assert x in multiset(tail);
          var k :| 0 <= k < |tail| && tail[k] == x;
          assert sorted[k + 1] == x;
        }
      }
    }
  }

  /** `orderBy('title')`. */
  function SortByTitle(rows: seq<Row>): (r: seq<Row>)
    ensures multiset(r) == multiset(rows)
    ensures |r| == |rows|
  {
    if rows == [] then []
    else
      assert rows == [rows[0]] + rows[1..];
      Insert(rows[0], SortByTitle(rows[1..]))
  }

  lemma {:induction false} SortByTitleSorted(rows: seq<Row>)
    ensures SortedByTitle(SortByTitle(rows))
    decreases |rows|
  {
    if rows != [] {
      SortByTitleSorted(rows[1..]);
      InsertSorted(rows[0], SortByTitle(rows[1..]));
    }
  }

  /** The category values of a list of cases, in order (`array_map(fn ($c) => $c->value, ...)`). */
  function Values(categories: seq<TvCategory>): (vs: seq<string>)
    ensures |vs| == |categories|
    ensures forall i :: 0 <= i < |categories| ==> vs[i] == categories[i].Value()
  {
    seq(|categories|, i requires 0 <= i < |categories| => categories[i].Value())
  }

  /** A row whose `category` column is one of `values`; a null category matches nothing. */
  predicate CategoryIn(row: Row, values: seq<string>) {
    row.category.Some? && row.category.value in values
  }

  /** `whereIn('category', $values)`, in scan order. */
  function WhereIn(rows: seq<Row>, values: seq<string>): (r: seq<Row>)
    ensures forall i :: 0 <= i < |r| ==> CategoryIn(r[i], values)
  {
    if rows == [] then []
    else if CategoryIn(rows[0], values) then [rows[0]] + WhereIn(rows[1..], values)
    else WhereIn(rows[1..], values)
  }

  /** `whereIn` keeps every matching row as often as it occurs, and drops every other row. */
  lemma {:induction false} WhereInRows(rows: seq<Row>, values: seq<string>)
    ensures forall row :: multiset(WhereIn(rows, values))[row] == if CategoryIn(row, values) then multiset(rows)[row] else 0
    decreases |rows|
  {
    if rows != [] {
      WhereInRows(rows[1..], values);
      assert rows == [rows[0]] + rows[1..];
    }
  }

  /** `where('category', $value)`, in scan order. */
  function WhereEq(rows: seq<Row>, value: string): (r: seq<Row>)
    ensures forall i :: 0 <= i < |r| ==> r[i].category == Some(value)
  {
    if rows == [] then []
    else if rows[0].category == Some(value) then [rows[0]] + WhereEq(rows[1..], value)
    else WhereEq(rows[1..], value)
  }

  lemma {:induction false} WhereEqIsWhereIn(rows: seq<Row>, value: string)
    ensures WhereEq(rows, value) == WhereIn(rows, [value])
    decreases |rows|
  {
    if rows != [] {
      WhereEqIsWhereIn(rows[1..], value);
    }
  }

  /** `paginateByCategories` before slicing: the rows of the requested categories, ordered by title. */
  function PaginateByCategories(rows: seq<Row>, categories: seq<TvCategory>): seq<Row> {
    SortByTitle(WhereIn(rows, Values(categories)))
  }

  /** `paginateByCategory` before slicing: the rows of one category, ordered by title. */
  function PaginateByCategory(rows: seq<Row>, category: TvCategory): seq<Row> {
    SortByTitle(WhereEq(rows, category.Value()))
  }

  /** The listing holds exactly the rows of the requested categories, each as often as in the table, sorted by title. */
  lemma PaginateByCategoriesMeaning(rows: seq<Row>, categories: seq<TvCategory>)
    ensures SortedByTitle(PaginateByCategories(rows, categories))
    ensures forall row :: multiset(PaginateByCategories(rows, categories))[row]
                        == if CategoryIn(row, Values(categories)) then multiset(rows)[row] else 0
  {
    SortByTitleSorted(WhereIn(rows, Values(categories)));
    WhereInRows(rows, Values(categories));
  }

  /** The one-category listing holds exactly the rows of that category, each as often as in the table, sorted by title. */
  lemma PaginateByCategoryMeaning(rows: seq<Row>, category: TvCategory)
    ensures SortedByTitle(PaginateByCategory(rows, category))
    ensures forall i :: 0 <= i < |PaginateByCategory(rows, category)| ==>
              PaginateByCategory(rows, category)[i].category == Some(category.Value())
    ensures forall row :: multiset(PaginateByCategory(rows, category))[row]
                        == if row.category == Some(category.Value()) then multiset(rows)[row] else 0
  {
    var selected := WhereEq(rows, category.Value());
    SortByTitleSorted(selected);
    WhereEqIsWhereIn(rows, category.Value());
    WhereInRows(rows, [category.Value()]);
    forall i | 0 <= i < |PaginateByCategory(rows, category)|
      ensures PaginateByCategory(rows, category)[i].category == Some(category.Value())
    {
      var row := PaginateByCategory(rows, category)[i];
      assert row in multiset(selected);
    }
  }

  /** One category on its own lists the same rows in the same order as the one-element list of it. */
  lemma SingleCategoryListing(rows: seq<Row>, category: TvCategory)
    ensures PaginateByCategory(rows, category) == PaginateByCategories(rows, [category])
  {
    WhereEqIsWhereIn(rows, category.Value());
    assert Values([category]) == [category.Value()];
  }

  /** The number of rows whose category is `value` (`COUNT(*)` of one group). */
  function CountWithCategory(rows: seq<Row>, value: string): nat {
    if rows == [] then 0
    else (if rows[0].category == Some(value) then 1 else 0) + CountWithCategory(rows[1..], value)
  }

  lemma {:induction false} CountIsListingSize(rows: seq<Row>, value: string)
    ensures CountWithCategory(rows, value) == |WhereEq(rows, value)|
    decreases |rows|
  {
    if rows != [] {
      CountIsListingSize(rows[1..], value);
    }
  }

  /**
   * `GROUP BY category` over the rows whose category is one of `values`, plucked into a
   * value => count array; a value without rows has no group and so no entry.
   */
  function CountByValues(rows: seq<Row>, values: seq<string>): (counts: map<string, nat>)
    ensures forall v :: v in counts ==> v in values && counts[v] > 0
  {
    map v | v in values && CountWithCategory(rows, v) > 0 :: CountWithCategory(rows, v)
  }

  /** `countByCategories`: the counts of the requested categories' values. */
  function CountByCategories(rows: seq<Row>, categories: seq<TvCategory>): (counts: map<string, nat>)
    ensures forall v :: v in counts ==> v in Values(categories)
    ensures forall v :: v in counts ==> counts[v] > 0
  {
    CountByValues(rows, Values(categories))
  }

  /** Each requested value with rows maps to its number of rows, which is the size of its listing. */
  lemma CountByCategoriesMeaning(rows: seq<Row>, categories: seq<TvCategory>, c: TvCategory)
    requires c in categories
    ensures c.Value() in CountByCategories(rows, categories) <==> |PaginateByCategory(rows, c)| > 0
    ensures c.Value() in CountByCategories(rows, categories) ==>
              CountByCategories(rows, categories)[c.Value()] == |PaginateByCategory(rows, c)|
  {
    CountIsListingSize(rows, c.Value());
    var i :| 0 <= i < |categories| && categories[i] == c;
    assert Values(categories)[i] == c.Value();
  }
}
