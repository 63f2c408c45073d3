/**
 * `ShoptokTvImportService`: fetch a page's HTML, let the scraper turn it into product DTOs and
 * upsert them into the `tv_products` table, returning how many distinct external ids were
 * created or changed.
 *
 * The HTML source and the scraper are collaborators whose code is not part of this model: the
 * source is a function from a URL or fixture path to the HTML or the message of the exception
 * it throws, and the scraper's `parseHtml(html, categoryValue, currentUrl)` is an
 * uninterpreted function.
 */
module ImportService {
  import opened Wrappers
  import opened Enums
  import opened Dto
  import opened ProductTable

  class ShoptokTvImportService {
    /** `ShoptokHtmlSource::fetch`: the HTML, or the message of the exception it throws. */
    const htmlSource: string -> Result<string, string>
    /** `parseHtml($html, $category->value, $currentUrl)`. */
    const scraper: (string, string, Option<string>) -> ShoptokPageResult
    /** The database table `TvProduct::updateOrCreate` writes to. */
    const table: TvProductTable

    constructor(htmlSource: string -> Result<string, string>,
                scraper: (string, string, Option<string>) -> ShoptokPageResult,
                table: TvProductTable)
      ensures this.htmlSource == htmlSource && this.scraper == scraper && this.table == table
    {
      this.htmlSource := htmlSource;
      this.scraper := scraper;
      this.table := table;
    }

    /**
     * Live import: the page's own URL is passed to the scraper as the current URL. A failed
     * fetch propagates and leaves the table alone; otherwise the result is the upsert count.
     */
    method ImportFromUrl(url: string, category: TvCategory) returns (r: Result<nat, string>)
      modifies table
      ensures htmlSource(url).Failure? ==>
                r == Failure(htmlSource(url).error) && table.rows == old(table.rows)
      ensures htmlSource(url).Success? ==>
                var products := scraper(htmlSource(url).value, category.Value(), Some(url)).products;
                table.rows == ApplyAll(old(table.rows), products)
                && r == Success(|TouchedSlots(old(table.rows), products)|)
    {
      var html := htmlSource(url);
      if html.Failure? {
        return Failure(html.error);
      }
      var result := scraper(html.value, category.Value(), Some(url));
      var count := UpsertProducts(result.products);
      return Success(count);
    }

    /** Import from a fixture file: as `ImportFromUrl`, but no current URL is passed to the scraper. */
    method ImportFromFixture(relativePath: string, category: TvCategory) returns (r: Result<nat, string>)
      modifies table
      ensures htmlSource(relativePath).Failure? ==>
                r == Failure(htmlSource(relativePath).error) && table.rows == old(table.rows)
      ensures htmlSource(relativePath).Success? ==>
                var products := scraper(htmlSource(relativePath).value, category.Value(), None).products;
                table.rows == ApplyAll(old(table.rows), products)
                && r == Success(|TouchedSlots(old(table.rows), products)|)
    {
      var html := htmlSource(relativePath);
      if html.Failure? {
        return Failure(html.error);
      }
      var result := scraper(html.value, category.Value(), None);
      var count := UpsertProducts(result.products);
      return Success(count);
    }

    /**
     * `updateOrCreate` every DTO in order, keyed by its external id, and count the distinct
     * `$touched` slots of the DTOs whose row was just created or had an attribute changed.
     */
    method UpsertProducts(dtos: seq<TvProductData>) returns (count: nat)
      modifies table
      ensures table.rows == ApplyAll(old(table.rows), dtos)
      ensures count == |TouchedSlots(old(table.rows), dtos)|
      ensures count <= |KeysOf(dtos)| <= |dtos|
    {
      var touched: set<string> := {};
      var i := 0;
      while i < |dtos|
        invariant 0 <= i <= |dtos|
        invariant table.rows == ApplyAll(old(table.rows), dtos[..i])
        invariant touched == TouchedSlots(old(table.rows), dtos[..i])
      {
        var dto := dtos[i];
        assert dtos[..i + 1] == dtos[..i] + [dto];
        BatchSnoc(old(table.rows), dtos[..i], dto);
        var wasRecentlyCreated, wasChanged := table.UpdateOrCreate(dto.externalId, RowOf(dto));
        if wasRecentlyCreated || wasChanged {
          touched := touched + {Slot(dto.externalId)};
        }
        i := i + 1;
      }
      assert dtos[..i] == dtos;
      count := |touched|;
      TouchedCountBound(old(table.rows), dtos);
    }
  }
}
