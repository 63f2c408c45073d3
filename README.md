# shoptok-tv in Dafny

A model of the core of shoptok-tv, a small Laravel application. It imports TV products from
Shoptok listing pages into a `tv_products` table and shows them on two pages: the
televisions (`index`) and the "TV sprejemniki" group with a category filter (`receivers`).

The model covers six parts of that core.

- **`Money`** (module `ValueObjects`, pure). Prices are stored as non-negative integer cents
  plus an upper-cased currency.
  - `fromLocalizedString` trims the text and keeps only digits, commas and periods. A comma
    switches to comma-decimal mode, in which periods are dropped and the comma becomes the
    decimal point. The text is then cast to a float and rounded to cents.
  - PHP's `(float)` cast is modelled as an exact decimal read from the longest
    `digits[.digits]` prefix. `round` is modelled as half away from zero.
  - `formatted()` renders `"1.499,00 EUR"`.
  - The accessors `amountInCents()` and `currency()` are the fields of the `Money` datatype.
    Because the PHP constructor is private and upper-cases its currency, the field has the
    type `Currency`: a string with no ASCII lower-case letter.
- **`TvCategory`** (module `Enums`). The two string-backed cases and the leaf list of the
  receivers group.
- **`TvProductData` and `ShoptokPageResult`** (module `Dto`). Plain datatypes;
  `HasNextPage` holds when there is a next-page URL.
- **The upsert policy** (modules `ProductTable`, `ImportService` and `Repository`).
  - The table is a class whose `rows` map goes from the nullable `external_id` to the eight
    stored attributes. `UpdateOrCreate` overwrites one row and reports `wasRecentlyCreated`
    and `wasChanged()`.
  - `ShoptokTvImportService.upsertProducts` and `EloquentTvProductRepository.upsertMany`
    are loops over that table. They are proved against the batch specification
    `ApplyAll`/`TouchedSlots`, and the lemmas about the batch are proved on that
    specification.
  - A null id and the id `""` share one `$touched` slot, because PHP turns a null array key
    into `""`.
- **The read side** (modules `Repository` and `Controller`).
  - `whereIn`/`where` on the category column, `orderBy('title')` and the `GROUP BY` count.
  - The whitelist check on the `category` query parameter, the listing filter and
    `allProductsCount`.
  - The queries take the table's rows as a sequence in scan order.
  - `allProductsCount` is computed by walking the leaf values over the count map.
    `ReceiversMeaning` proves that this equals `array_sum` of the map and the size of the
    all-leaves listing.
- **`FixtureShoptokHtmlSource::fetch`** (module `FixtureSource`). The path join
  `rtrim(base,'/') . '/' . ltrim(rel,'/')` and a lookup in a read-only file map.

The HTML source and the scraper are collaborators whose code is not part of this model.
`ShoptokTvImportService` holds them as functions:
- the source maps a URL or path to the HTML, or to the message of the exception it throws;
- `parseHtml(html, categoryValue, currentUrl)` maps to a `ShoptokPageResult`.

The comment at app/ValueObjects/Money.php:46 gives `"€1,499.00"` as an example input. Under
the comma rule the code reads it as 1.49900, which is 150 cents (`ParseExampleCommaThenPeriod`).
The model follows the code.

`EloquentTvProductRepository` has no constructor and no state of its own: it writes through the
static `TvProduct` model. Its `table` field in the model is only a modelling device that names
the table those static calls reach. The same holds for `ShoptokTvImportService`: its PHP
constructor (app/Services/Shoptok/ShoptokTvImportService.php:16-18) takes only the HTML source
and the scraper, and the model's extra `table` parameter and field stand for the static
`TvProduct` table it writes through.

## Model

| member | source | states |
|---|---|---|
| ValueObjects.NewMoney | app/ValueObjects/Money.php:26-34 | fails with the negative-amount error exactly when the amount is negative; otherwise keeps the amount and stores the currency upper-cased |
| ValueObjects.FromCents | app/ValueObjects/Money.php:75-78 | fails exactly when n < 0; otherwise `amountInCents == n` and the currency is the upper-cased argument ("EUR" by default) |
| ValueObjects.CurrencyIsUpperCase | app/ValueObjects/Money.php:33 | a stored currency has no ASCII lower-case letter, and upper-casing it again changes nothing |
| ValueObjects.StrToUpper | app/ValueObjects/Money.php:33 | `strtoupper` keeps the length and maps each character on its own, changing only ASCII lower-case letters |
| ValueObjects.FromLocalizedString | app/ValueObjects/Money.php:44-66 | fails exactly when the input holds no digit, comma or period, and then with "cannot parse" naming the raw input; on success the currency is the upper-cased argument |
| ValueObjects.KeptArePriceChars | app/ValueObjects/Money.php:50 | the filter leaves only digits, commas and periods |
| ValueObjects.KeepEmpty | app/ValueObjects/Money.php:50-54 | the filtered string is empty exactly when the input has no digit, comma or period |
| ValueObjects.KeepPriceCharsCounts | app/ValueObjects/Money.php:50 | the filter keeps every digit, comma and period as often as it occurs and drops every other character (their order: `KeepConcat`) |
| ValueObjects.KeepConcat | app/ValueObjects/Money.php:50 | the filter keeps the order of what it keeps: filtering a concatenation concatenates the filtered parts |
| ValueObjects.TrimShape | app/ValueObjects/Money.php:47 | `trim()` cuts only at the two ends: the result is a contiguous slice of the input, everything cut before and after it is whitespace or NUL, no such character is left at either end, and every other character is kept as often as it occurs |
| ValueObjects.TrimKeepsPriceChars | app/ValueObjects/Money.php:47-50 | trimming before the filter does not change what the filter keeps |
| ValueObjects.UnparsableExamples | app/ValueObjects/Money.php:52-54 | "", "abc" and "€" are all rejected |
| ValueObjects.DecimalStringMeaning | app/ValueObjects/Money.php:56-60 | without a comma the string is unchanged; with one, the result is the string without its periods in which each comma became a period where it stood, so no comma is left, there are as many periods as there were commas, and every other character is kept in order |
| ValueObjects.RemoveConcat | app/ValueObjects/Money.php:58 | dropping the periods keeps the order of the rest: it distributes over concatenation |
| ValueObjects.ReplaceConcat | app/ValueObjects/Money.php:59 | the comma-to-period replacement keeps the order: it distributes over concatenation |
| ValueObjects.ReplaceCharInPlace | app/ValueObjects/Money.php:59 | the replacement keeps the length, and each comma becomes a period at its own position while every other character stays |
| ValueObjects.ParsedAmountNeverNegative | app/ValueObjects/Money.php:28-30 | parsing never fails with the negative-amount error, because '-' is filtered out |
| ValueObjects.CastOfDecimal | app/ValueObjects/Money.php:62 | the cast of "<digits>.<digits>" is the exact decimal those digits spell |
| ValueObjects.CastStopsAtNonDigit | app/ValueObjects/Money.php:62 | the cast stops at the first character after the fraction digits that is not a digit |
| ValueObjects.CastOfWhole | app/ValueObjects/Money.php:62 | the cast of a digits-only string is exactly the number those digits spell |
| ValueObjects.FloatCastWholePart | app/ValueObjects/Money.php:62 | the cast's whole part is the value of the leading digits and the fraction adds less than one |
| ValueObjects.RoundHalfAwayFromZero | app/ValueObjects/Money.php:63 | the result is within one half of x; a tie rounds away from zero |
| ValueObjects.CentsOfTwoDecimals | app/ValueObjects/Money.php:62-63 | a decimal with two fraction digits becomes exactly its cents |
| ValueObjects.CentsOfThreeDecimals | app/ValueObjects/Money.php:62-63 | a third fraction digit of 5 to 9 rounds the cents up by one |
| ValueObjects.PeriodModeParse | app/ValueObjects/Money.php:44-66 | without a comma, filtered text "<digits>.<two digits>" gives digits * 100 + fraction |
| ValueObjects.WholeModeParse | app/ValueObjects/Money.php:44-66 | filtered text of digits only gives digits * 100 |
| ValueObjects.ParseExampleWhole | app/ValueObjects/Money.php:44-66 | "€329" parses to 32900 cents in EUR |
| ValueObjects.ParseExamplePeriod | app/ValueObjects/Money.php:44-66 | "€329.00" parses to 32900 cents in EUR |
| ValueObjects.ParseExampleTrailingWords | app/ValueObjects/Money.php:44-66 | "€719.10 in shoptok" parses to 71910 cents in EUR |
| ValueObjects.ParseExampleCommaThenPeriod | app/ValueObjects/Money.php:44-66 | "€1,499.00" parses to 150 cents in EUR, because the comma turns on comma mode |
| ValueObjects.CommaModeParse | app/ValueObjects/Money.php:57-63 | with a comma, the periods are thousands separators and the comma is the decimal point ("1.499,00" gives 149900) |
| ValueObjects.GroupThousandsChars | app/ValueObjects/Money.php:108 | the integer part of `formatted()` holds only digits and '.' separators |
| ValueObjects.GroupThousandsDigits | app/ValueObjects/Money.php:108 | dropping the separators from the integer part leaves the digits of the amount |
| ValueObjects.GroupThousandsLayout | app/ValueObjects/Money.php:108 | a '.' stands exactly where a multiple of four characters follows, the first group has one to three digits, and it starts with '0' only for 0, which is written "0" |
| ValueObjects.GroupThousandsExample | app/ValueObjects/Money.php:108 | 1499 is grouped as "1.499" |
| ValueObjects.FormattedExample | app/ValueObjects/Money.php:106-109 | 32900 cents in EUR is formatted as "329,00 EUR" |
| ValueObjects.FormattedThousandsExample | app/ValueObjects/Money.php:106-109 | 149900 cents in EUR is formatted as "1.499,00 EUR" |
| ValueObjects.FormattedCentsOnlyExample | app/ValueObjects/Money.php:106-109 | 50 cents in EUR is formatted as "0,50 EUR" |
| ValueObjects.FormattedParts | app/ValueObjects/Money.php:106-109 | `formatted()` is the thousands-grouped whole units (laid out as `GroupThousandsLayout` states), ',', two cent digits worth the amount modulo 100, ' ' and the currency; its digits spell the amount in cents |
| ValueObjects.ParseFormatted | app/ValueObjects/Money.php:44-66 | parsing `formatted()` of a Money whose currency has no digit, comma or period gives back its amount |
| ValueObjects.FormattedRoundTrip | app/ValueObjects/Money.php:75-109 | for n >= 0 and such a currency, `fromLocalizedString(fromCents(n, c).formatted(), c) == fromCents(n, c)` |
| ValueObjects.DigitCurrencyBreaksRoundTrip | app/ValueObjects/Money.php:50-63 | with a one-digit currency "5" to "9" the round trip returns one cent more, so the currency restriction is needed |
| Enums.TvCategory.Value | app/Enums/TvCategory.php:7-10 | TELEVIZORJI has value "Televizorji" and TV_DODATKI has value "TV dodatki", both directions |
| Enums.ValueInjective | app/Enums/TvCategory.php:9-10 | distinct cases have distinct values |
| Enums.TryFrom | app/Enums/TvCategory.php:7-10 | value-to-case lookup finds a case with that value, and finds none exactly when no case has it |
| Enums.TryFromValue | app/Enums/TvCategory.php:7-10 | looking up a case's own value returns that case |
| Enums.TvReceiversLeaf | app/Enums/TvCategory.php:17-23 | the leaf list holds every case once, televisions first |
| Enums.LeafValuesDistinct | app/Enums/TvCategory.php:17-23 | the leaf values are pairwise distinct |
| Dto.ShoptokPageResult.HasNextPage | app/Services/Shoptok/ShoptokPageResult.php:16-19 | there is a next page exactly when the next-page URL is not null |
| ProductTable.TvProductTable.UpdateOrCreate | app/Services/Shoptok/ShoptokTvImportService.php:71-85 | the row for the key is overwritten and nothing else changes; "recently created" holds exactly for a new key, and "changed" exactly for an existing row with different attributes |
| ProductTable.RowOfColumns | app/Services/Shoptok/ShoptokTvImportService.php:73-82 | `RowOf` copies the six plain attributes; no price stores a null amount and "EUR", a price stores its cents and its currency |
| ProductTable.RowOfInjective | app/Services/Shoptok/ShoptokTvImportService.php:73-85 | two DTOs give the same stored row exactly when they agree on every field but the external id |
| ProductTable.SlotsCollide | app/Services/Shoptok/ShoptokTvImportService.php:86 | `Slot` gives two ids one `$touched` slot exactly when they are equal or are null and "" |
| ProductTable.BatchSnoc | app/Services/Shoptok/ShoptokTvImportService.php:70-87 | for the batch specifications `ApplyAll` and `TouchedSlots`: one more DTO applies one more `updateOrCreate` and adds its slot exactly when it creates or changes the row |
| ProductTable.ApplyAllKeys | app/Services/Shoptok/ShoptokTvImportService.php:70-83 | `ApplyAll`: after a batch the table holds its old keys plus the batch's keys, and no others |
| ProductTable.OutsideBatchUnchanged | app/Services/Shoptok/ShoptokTvImportService.php:71-72 | a row whose key is not in the batch is unchanged, and no such row appears |
| ProductTable.LastWins | app/Services/Shoptok/ShoptokTvImportService.php:70-83 | each key of the batch maps to the attributes of the last DTO carrying it |
| ProductTable.TouchedSlotsMeaning | app/Services/Shoptok/ShoptokTvImportService.php:85-87 | `TouchedSlots`: a slot is counted exactly when some DTO with that id created or changed its row when it was applied |
| ProductTable.TouchedCountBound | app/Services/Shoptok/ShoptokTvImportService.php:68-91 | the count is at most the number of distinct ids in the batch, hence at most the batch length |
| ProductTable.DistinctBatchTouches | app/Services/Shoptok/ShoptokTvImportService.php:85-86 | with distinct ids the counted slots are those of the DTOs that differ from the table they started from |
| ProductTable.ReimportTouchesNothing | app/Services/Shoptok/ShoptokTvImportService.php:85-86 | re-applying a batch with distinct ids right after it counts 0 |
| ProductTable.RepeatedIdReimportTouches | app/Services/Shoptok/ShoptokTvImportService.php:71-86 | two DTOs with the same id and different attributes are counted again when re-imported right after, so idempotence needs distinct ids |
| ProductTable.OnePriceChanged | app/Services/Shoptok/ShoptokTvImportService.php:79-86 | for a batch with distinct ids, re-importing with only one price altered counts exactly that product's slot (1), and its row holds the new price |
| ProductTable.RepeatedIdOnePriceCountsTwo | app/Services/Shoptok/ShoptokTvImportService.php:71-86 | when two DTOs share an id and store different rows, re-importing with only a third DTO's price altered counts two slots |
| ProductTable.RepeatedIdPriceOverwritten | app/Services/Shoptok/ShoptokTvImportService.php:71-83 | when two DTOs share an id, altering the first one's price leaves the second one's row, without the new price, in the table |
| ImportService.ShoptokTvImportService.constructor | app/Services/Shoptok/ShoptokTvImportService.php:16-18 | the service keeps its HTML source and its scraper, plus the table that stands for the static `TvProduct` model |
| ImportService.ShoptokTvImportService.ImportFromUrl | app/Services/Shoptok/ShoptokTvImportService.php:30-41 | a failed fetch propagates and leaves the table alone; otherwise the scraper gets the category value and the URL, and the result is the upsert count of its products |
| ImportService.ShoptokTvImportService.ImportFromFixture | app/Services/Shoptok/ShoptokTvImportService.php:50-61 | the same with no current URL |
| ImportService.ShoptokTvImportService.UpsertProducts | app/Services/Shoptok/ShoptokTvImportService.php:66-92 | the table becomes the batch applied in order; the result is the number of distinct touched slots, at most the number of distinct ids and at most the batch length |
| Repository.EloquentTvProductRepository.UpsertMany | app/Repositories/TvProduct/EloquentTvProductRepository.php:14-44 | the table becomes the array's DTOs applied in order; the result is the number of distinct touched slots |
| Repository.Products | app/Repositories/TvProduct/EloquentTvProductRepository.php:18-21 | the DTOs that pass the `instanceof` check are exactly the array's DTO entries |
| Repository.NotProductSkipped | app/Repositories/TvProduct/EloquentTvProductRepository.php:19-21 | an entry that is not a DTO changes neither the table nor the count, wherever it stands |
| Repository.ProductsOfWrap | app/Repositories/TvProduct/EloquentTvProductRepository.php:18-35 | an array of DTOs only is applied exactly as the importer applies it |
| Repository.TitleLeTotal | app/Repositories/TvProduct/EloquentTvProductRepository.php:52 | any two titles are comparable |
| Repository.TitleLeTransitive | app/Repositories/TvProduct/EloquentTvProductRepository.php:52 | the title order is transitive |
| Repository.TitleLeAntisymmetric | app/Repositories/TvProduct/EloquentTvProductRepository.php:52 | titles ordered both ways are equal |
| Repository.SortByTitle | app/Repositories/TvProduct/EloquentTvProductRepository.php:68 | the ordered rows are a permutation of the selected rows |
| Repository.SortByTitleSorted | app/Repositories/TvProduct/EloquentTvProductRepository.php:68 | the ordered rows are sorted by title |
| Repository.Values | app/Repositories/TvProduct/EloquentTvProductRepository.php:61-64 | the values are the cases' values, in order |
| Repository.WhereIn | app/Repositories/TvProduct/EloquentTvProductRepository.php:67 | every selected row has one of the requested categories |
| Repository.WhereInRows | app/Repositories/TvProduct/EloquentTvProductRepository.php:67 | `whereIn` keeps each row whose category is requested as often as it occurs, and drops every other row |
| Repository.WhereEq | app/Repositories/TvProduct/EloquentTvProductRepository.php:51 | every selected row has exactly the given category |
| Repository.WhereEqIsWhereIn | app/Repositories/TvProduct/EloquentTvProductRepository.php:51 | `where(col, v)` selects what `whereIn(col, [v])` selects |
| Repository.PaginateByCategoriesMeaning | app/Repositories/TvProduct/EloquentTvProductRepository.php:57-71 | `PaginateByCategories`: the listing is sorted by title and holds exactly the rows of the requested categories, each as often as in the table |
| Repository.PaginateByCategoryMeaning | app/Repositories/TvProduct/EloquentTvProductRepository.php:46-55 | `PaginateByCategory`: the listing is sorted by title and holds exactly the rows of that category, each as often as in the table |
| Repository.SingleCategoryListing | app/Repositories/TvProduct/EloquentTvProductRepository.php:46-71 | `paginateByCategory(c)` lists the same rows in the same order as `paginateByCategories([c])` |
| Repository.CountIsListingSize | app/Repositories/TvProduct/EloquentTvProductRepository.php:82-85 | `CountWithCategory`: a category's count is the size of its `where` selection |
| Repository.CountByValues | app/Repositories/TvProduct/EloquentTvProductRepository.php:81-86 | only requested values appear, each with a positive count |
| Repository.CountByCategories | app/Repositories/TvProduct/EloquentTvProductRepository.php:73-89 | never reports a category outside the requested list, and every reported count is positive |
| Repository.CountByCategoriesMeaning | app/Repositories/TvProduct/EloquentTvProductRepository.php:73-89 | a requested category is present exactly when it has rows, and then maps to the size of its listing |
| Controller.ResolveActiveCategory | app/Http/Controllers/TvProductController.php:85-94 | null stays null; the result is the raw value exactly when it is strictly in the allowed list, else null |
| Controller.ResolveIdempotent | app/Http/Controllers/TvProductController.php:85-94 | resolving a resolved value returns it unchanged |
| Controller.GetTvReceiverLeafCategories | app/Http/Controllers/TvProductController.php:72-78 | the leaf list mapped to values, order kept |
| Controller.WithValue | app/Http/Controllers/TvProductController.php:44-47 | the filter keeps exactly the cases with the given value, each as often as it occurs |
| Controller.CategoriesForListing | app/Http/Controllers/TvProductController.php:41-48 | with no active category all leaves are listed; otherwise exactly the leaves whose value equals it |
| Controller.ActiveListingIsSingleton | app/Http/Controllers/TvProductController.php:41-48 | a resolved category lists exactly the one case carrying that value |
| Controller.ArraySum | app/Http/Controllers/TvProductController.php:58 | `array_sum` is at least every value of the map, and 0 exactly when every value is 0 |
| Controller.SumOver | app/Http/Controllers/TvProductController.php:58 | the walk over the leaf values is at least each value it finds |
| Controller.ArraySumRemove | app/Http/Controllers/TvProductController.php:58 | `array_sum` does not depend on the order of the entries |
| Controller.ArraySumOfCounts | app/Http/Controllers/TvProductController.php:57-58 | `array_sum` of the counts of distinct values adds up each value's number of rows |
| Controller.SumCountsIsListingSize | app/Http/Controllers/TvProductController.php:57-58 | the rows of distinct values add up to the size of their joint listing |
| Controller.SumOverCounts | app/Http/Controllers/TvProductController.php:57-58 | walking the values over their counts gives `array_sum` of the counts and the size of the joint listing |
| Controller.Receivers | app/Http/Controllers/TvProductController.php:26-67 | the page gets the leaf values, an active category that is the query value when allowed and null otherwise, and the leaf counts |
| Controller.ReceiversMeaning | app/Http/Controllers/TvProductController.php:26-67 | with no active category it lists every leaf; with one it lists that category's own listing; the total is `array_sum` of the counts and the size of the all-leaves listing |
| Controller.Index | app/Http/Controllers/TvProductController.php:19-24 | sorted by title, holding every television row as often as it is in the table and no other row |
| FixtureSource.RTrimSlashes | app/Services/Shoptok/FixtureShoptokHtmlSource.php:14 | the result is a prefix that does not end in '/', and only slashes were cut |
| FixtureSource.LTrimSlashes | app/Services/Shoptok/FixtureShoptokHtmlSource.php:16 | the result is a suffix that does not start with '/', and only slashes were cut |
| FixtureSource.AbsolutePath | app/Services/Shoptok/FixtureShoptokHtmlSource.php:14-16 | the two parts meet at exactly one '/' |
| FixtureSource.ExtraSlashesIgnored | app/Services/Shoptok/FixtureShoptokHtmlSource.php:14-16 | extra trailing slashes on the base or leading slashes on the relative path leave the path unchanged |
| FixtureSource.OnlySlashesTrimmed | app/Services/Shoptok/FixtureShoptokHtmlSource.php:14-16 | every character other than '/' of both parts is kept, in order |
| FixtureSource.FixtureShoptokHtmlSource.Fetch | app/Services/Shoptok/FixtureShoptokHtmlSource.php:12-23 | a missing file fails with "Fixture not found: " and the path; a present one returns its content unchanged |
| FixtureSource.FetchIgnoresExtraSlashes | app/Services/Shoptok/FixtureShoptokHtmlSource.php:12-22 | fetching with extra slashes at the seam reads the same file or fails the same way |

## Left out

- The HTML pipeline is not modelled. `ShoptokTvPageScraper::scrape` is an empty stub, and the
  `parseHtml` method the importer calls is not defined in the repository. The scraper is
  therefore an uninterpreted function.
- `HttpShoptokHtmlSource` is left out: it is network I/O through an HTTP client. The importer
  takes its HTML source as a function.
- The fixture file system is a map from path to content. `File::exists` on a directory is not
  modelled.
- The CLI commands, the Blade views, the service provider and the migration are left out.
  They are plumbing, rendering, wiring and schema.
- Floating point is not modelled. `(float)`, `round` and `number_format` are exact decimal
  arithmetic, and `formatted()` is modelled only with its default of two decimals.
- Integer width is not modelled: `(int)` on a huge float and PHP's integer limits are outside
  the model.
- `preg_replace` returning null on invalid UTF-8 is not modelled, because strings here are
  sequences of characters.
- `strtoupper` changes only ASCII letters, as PHP 8 does. No locale or Unicode case mapping
  is modelled.
- Eloquent internals are left out: timestamps, attribute casts, column widths (currency is
  `string(3)`) and duplicate rows under one key.
- `orderBy('title')` is modelled as a lexicographic order by character code, sorted stably.
  The database's collation and its order among equal titles are not modelled.
- Pagination is left out. A page is the full ordered listing; the slice of 20 and
  `withQueryString` are library calls.
- A `category` query parameter given as an array is not modelled.
- The read queries take the table's rows as a sequence. How that sequence relates to the
  `rows` map the upserts write is not stated.
- ReimportTouchesNothing: holds only for batches with distinct ids. With a repeated id (two
  products without an external id, say) an immediate re-import counts again
  (`RepeatedIdReimportTouches`), so a second import run is not always 0.
- OnePriceChanged: holds only for batches with distinct ids. With a repeated id, one altered
  price can count two slots (`RepeatedIdOnePriceCountsTwo`), and the altered price can be
  overwritten by a later DTO with the same id (`RepeatedIdPriceOverwritten`).
- FormattedRoundTrip: requires a currency with no digit, comma or period. This restriction is
  sufficient, not necessary: a currency "0" to "4" or a lone "," or "." would still round-trip,
  and those cases are not proved. Some restriction is needed, because a one-digit currency
  "5" to "9" comes back one cent higher (`DigitCurrencyBreaksRoundTrip`).
