/** The plain data carriers passed between the scraper, the importer and the repository. */
module Dto {
  import opened Wrappers
  import opened ValueObjects

  /** One scraped product card; every nullable PHP property is an `Option`. */
  datatype TvProductData = TvProductData(
    title: string,
    brand: Option<string>,
    shop: Option<string>,
    productUrl: string,
    imageUrl: Option<string>,
    price: Option<Money>,
    category: Option<string>,
    externalId: Option<string>)

  /** The products of one listing page and the URL of the next page, if there is one. */
  datatype ShoptokPageResult = ShoptokPageResult(products: seq<TvProductData>, nextPageUrl: Option<string>)
  {
    /** `hasNextPage`: true exactly when the page links to a next one. */
    predicate HasNextPage(): (b: bool)
      ensures b <==> nextPageUrl != None
    {
      nextPageUrl.Some?
    }
  }
}
