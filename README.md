# musinsa catalog core in Dafny

This project models the two services of the musinsa catalog, `ProductService` and
`BrandService`, over an in-memory copy of the four tables they use:

- `BRAND(ID)`;
- `CATEGORY(ID)`;
- `PRODUCT(ID, BRAND_ID, CATEGORY_ID, PRICE)`;
- `BRAND_CATEGORY(BRAND_ID, CATEGORY_ID, COUNT)`.

`BRAND_CATEGORY.COUNT` is derived data. The write operations keep it equal to the number
of products of each (brand, category) pair, and they never let it fall below 1.

The files are:

- `catalog.dfy`: the tables as the class `Catalog.Database`, with a `Snapshot` value for
  transaction rollback. The central invariant `Consistent` holds the foreign keys, the
  brand-id check constraint, fresh product ids, and "every count is at least 1 and equals
  the number of products with that pair". It also holds the lemmas showing that inserting,
  moving, repricing and removing a product keep the invariant, and the PRODUCT table
  scanned in primary-key order (`Rows`). The lemmas for renaming and deleting a brand
  (`ConsistentAfterRename`, `ConsistentAfterBrandDelete`) are in `brand_service.dfy`.
- `product_service.dfy`: these are imperative methods on the `Database`:
  - the guarded count UPDATE;
  - `createProduct`, `updateProduct` and `deleteProduct`.

  The three read queries are pure functions of the PRODUCT table. Each one's own
  `ensures` ties its answer to an independent description of that answer:
  - the cheapest offer per category;
  - the single brand with the cheapest full outfit;
  - the cheapest and dearest products of a category.

  `listProducts` is also a pure function here.
- `brand_service.dfy`: `list`, `createBrand` (its validation loop and its insert loop are
  both methods with loop invariants), `updateBrand` and `deleteBrand`.
- `string_order.dfy`: the lexicographic order used for `MIN(BRAND_ID)`,
  `ORDER BY BRAND.ID` and `BRAND.ID > after`, and a proof that it is a total order.
- `sequences.dfy`: the SQL building blocks the reads use: WHERE (`Filter`), GROUP BY key
  order (`Distinct`) and ORDER BY ... LIMIT (`Page`).

`CreateProduct`, `UpdateProduct`, `DeleteProduct`, `CreateBrand`, `UpdateBrand` and
`DeleteBrand` require `db.Valid()` and ensure it again. On each error they leave the
tables exactly as they were. The helpers `UpdateBrandCategoryCount`, `MoveCount` and
`InsertBrandProducts` make no such promise and leave the rollback to their caller:
`MoveCount` and `InsertBrandProducts` can fail after a partial write.

Where the intended behaviour and the code differ, the model follows the code, except for
the paging cursor of the two listings (see "## Findings"):

- An entry of `createBrand` that names an unknown category breaks a foreign key in the
  middle of the insert loop. That exception is not caught, so the call fails with a
  server error (`Internal`), not a bad request.
- `createBrand` only checks that every existing category is named at least once.
  Duplicated categories are accepted, and each one raises its pair's count.
- `updateBrand` catches only the duplicate-key exception. A new id that breaks the brand-id
  check constraint is therefore a server error (`Internal`). `updateBrand` never checks
  that `id` exists. Renaming an id that does not exist to itself returns it but leaves no
  such brand, because the brand is inserted and then deleted.
- `findMinPriceProductsWithOneBrand` on an empty PRODUCT table fails with a null
  dereference (`Internal`).

## Model

| member | source | states |
|---|---|---|
| Catalog.ConsistentAfterInsert | src/main/kotlin/myhan/musinsa/ProductService.kt:141-157 | inserting a product under the next id for an existing brand and category, while raising (or creating with 1) its pair's count, keeps the whole database consistent |
| Catalog.ConsistentAfterMove | src/main/kotlin/myhan/musinsa/ProductService.kt:166-199 | moving a product to another existing pair, with the old pair's count at least 2, one count down and one up, keeps the database consistent |
| Catalog.ConsistentAfterReprice | src/main/kotlin/myhan/musinsa/ProductService.kt:194-199 | changing only a product's price keeps the database consistent |
| Catalog.CountsAfterInsert | src/main/kotlin/myhan/musinsa/BrandService.kt:67-81 | a fresh product plus a +1 (or a new row of 1) on its pair keeps every count equal to its number of products |
| Catalog.CountsAfterRemove | src/main/kotlin/myhan/musinsa/ProductService.kt:208-222 | removing a product whose pair count is at least 2, with a -1 on that count, keeps every count right |
| Catalog.CountsAfterMove | src/main/kotlin/myhan/musinsa/ProductService.kt:166-199 | a -1 on the old pair and a +1 on the new pair keeps every count right after the product changes pair |
| Catalog.CountsAfterReprice | src/main/kotlin/myhan/musinsa/ProductService.kt:194-199 | an update that keeps the pair needs no count change |
| Catalog.LinkOfProduct | src/main/kotlin/myhan/musinsa/ProductService.kt:208-220 | under the invariant, a stored product's pair always has a count row of at least 1, so the decrement never affects 0 rows |
| Catalog.SortedIds | src/main/kotlin/myhan/musinsa/ProductService.kt:132 | the ids of a set, each once, strictly ascending |
| Catalog.Rows | src/main/kotlin/myhan/musinsa/ProductService.kt:132 | the PRODUCT scan holds exactly the stored products, in strictly ascending id order |
| Catalog.Database.Rollback | src/main/kotlin/myhan/musinsa/ProductService.kt:161 | `@Transactional`: an aborted call puts all four tables and the id counter back exactly as they were |
| StringOrder.Least | src/main/kotlin/myhan/musinsa/ProductService.kt:30 | `MIN(BRAND_ID)`: a member of the column that no other member precedes |
| ProductService.UpdateBrandCategoryCount | src/main/kotlin/myhan/musinsa/ProductService.kt:225-231 | no row for the pair: 0 rows and no change; a result below 1: refused and no change; otherwise 1 row and only that count moves by the increment |
| ProductService.CreateProduct | src/main/kotlin/myhan/musinsa/ProductService.kt:139-159 | no count row for the pair: bad request, nothing changes; otherwise the product gets the next id, its pair's count rises by one, nothing else changes, and the database stays consistent |
| ProductService.UpdateProduct | src/main/kotlin/myhan/musinsa/ProductService.kt:161-202 | unknown id: bad request; same pair: only the row changes; old pair at 1: conflict; new pair without a row: bad request with everything rolled back; otherwise the row changes and the two counts move; consistent in every case |
| ProductService.MoveCount | src/main/kotlin/myhan/musinsa/ProductService.kt:166-192 | the decrement is refused at count 1 with nothing changed; a missing new-pair row gives a bad request; otherwise both counts move; no other table changes |
| ProductService.DeleteProduct | src/main/kotlin/myhan/musinsa/ProductService.kt:204-223 | unknown id: bad request; last product of its pair: conflict, nothing changes; otherwise the row goes and its pair's count drops by one, consistently |
| ProductService.MinPrice | src/main/kotlin/myhan/musinsa/ProductService.kt:98-102 | the result is some row's price and no row is cheaper |
| ProductService.MaxPrice | src/main/kotlin/myhan/musinsa/ProductService.kt:112-116 | the result is some row's price and no row is dearer |
| ProductService.CheapestInCategoryUnique | src/main/kotlin/myhan/musinsa/ProductService.kt:29-41 | for a category there is at most one cheapest offer, meaning the minimum price together with the least brand id at that price |
| ProductService.CheapestInRows | src/main/kotlin/myhan/musinsa/ProductService.kt:29-41 | the joined row matches a real row of the category; no row of the category is cheaper; no row at that price has a smaller brand id |
| ProductService.CheapestInIsCheapest | src/main/kotlin/myhan/musinsa/ProductService.kt:29-41 | the joined row is the category's cheapest offer over the stored products |
| ProductService.CheapestItemsAreCheapest | src/main/kotlin/myhan/musinsa/ProductService.kt:29-41 | every row of the result is its category's cheapest offer |
| ProductService.CheapestItemsCategories | src/main/kotlin/myhan/musinsa/ProductService.kt:40 | the result names exactly the listed categories |
| ProductService.CategoryIdsOfRows | src/main/kotlin/myhan/musinsa/ProductService.kt:27 | the categories of the scan are exactly the categories that have products |
| ProductService.ListMinPriceProductPerCategory | src/main/kotlin/myhan/musinsa/ProductService.kt:19-57 | exactly one row for each category that has products, none for the others; each row is that category's cheapest offer, with ties going to the least brand id; `totalPrice` is the sum of the row prices |
| ProductService.PairMinimumUnique | src/main/kotlin/myhan/musinsa/ProductService.kt:60-68 | a brand has at most one cheapest price per category |
| ProductService.PairItemIsMinimum | src/main/kotlin/myhan/musinsa/ProductService.kt:60-68 | each group row is its brand's cheapest price in that category |
| ProductService.PairMinimaArePairMinima | src/main/kotlin/myhan/musinsa/ProductService.kt:60-68 | every row of the grouped query is a pair minimum |
| ProductService.PairKeysOfRows | src/main/kotlin/myhan/musinsa/ProductService.kt:67 | the pairs of the scan are exactly the pairs that have products |
| ProductService.PairItemsKeys | src/main/kotlin/myhan/musinsa/ProductService.kt:67 | the group rows name exactly the listed pairs, in order |
| ProductService.PairMinimaKeys | src/main/kotlin/myhan/musinsa/ProductService.kt:60-68 | the grouped query has one row for each pair with products, and no pair twice |
| ProductService.OfBrand | src/main/kotlin/myhan/musinsa/ProductService.kt:82 | keeps exactly the rows of the given brand, without introducing duplicates |
| ProductService.SumPricesConcat | src/main/kotlin/myhan/musinsa/ProductService.kt:72-75 | the sum of the prices of two lists joined together is the sum of their separate sums |
| ProductService.SameItemsSameSum | src/main/kotlin/myhan/musinsa/ProductService.kt:72-75 | two duplicate-free lists of the same items have the same total, whatever their order |
| ProductService.BrandMinimaSumUnique | src/main/kotlin/myhan/musinsa/ProductService.kt:70-78 | any two descriptions of a brand's per-category minima have the same total |
| ProductService.CheapestBrand | src/main/kotlin/myhan/musinsa/ProductService.kt:77 | `minByOrNull`: the chosen brand is a candidate, and no candidate's total is smaller |
| ProductService.OfBrandCategories | src/main/kotlin/myhan/musinsa/ProductService.kt:82 | a brand's group rows cover exactly the categories the brand has products in |
| ProductService.OfBrandDistinct | src/main/kotlin/myhan/musinsa/ProductService.kt:82 | a brand's group rows name each category once |
| ProductService.OfBrandIsBrandMinima | src/main/kotlin/myhan/musinsa/ProductService.kt:82-88 | a brand's group rows are its cheapest price in each of its categories, each category once |
| ProductService.ItemBrandsOfKeys | src/main/kotlin/myhan/musinsa/ProductService.kt:70-75 | the brands of the grouped query are exactly the brands that have products |
| ProductService.BrandCandidates | src/main/kotlin/myhan/musinsa/ProductService.kt:70-77 | the brands whose totals are compared are exactly the brands with products, and there are none exactly when PRODUCT is empty (so `minByOrNull` returns null and `!!` fails) |
| ProductService.CheapestBrandIsCheapest | src/main/kotlin/myhan/musinsa/ProductService.kt:77-82 | a brand whose total is no larger than any other brand's gets back its minima, and no brand's minima, however listed, add up to less |
| ProductService.FindMinPriceProductsWithOneBrand | src/main/kotlin/myhan/musinsa/ProductService.kt:59-91 | fails (server error) exactly when there are no products; otherwise the brand has products, the rows are its cheapest price in each of its categories, each category once, the cost is their sum, and no brand's minima add up to less |
| ProductService.AtMinPrice | src/main/kotlin/myhan/musinsa/ProductService.kt:96-107 | the rows at the minimum price are exactly those that no row undercuts |
| ProductService.AtMaxPrice | src/main/kotlin/myhan/musinsa/ProductService.kt:110-121 | the rows at the maximum price are exactly those that no row exceeds |
| ProductService.InCategoryOfRows | src/main/kotlin/myhan/musinsa/ProductService.kt:106 | the category's rows of the scan are exactly its stored products |
| ProductService.MinListCorrect | src/main/kotlin/myhan/musinsa/ProductService.kt:96-108 | the min list holds exactly the category's products that no product of the category undercuts |
| ProductService.MaxListCorrect | src/main/kotlin/myhan/musinsa/ProductService.kt:110-122 | the max list holds exactly the category's products that no product of the category exceeds |
| ProductService.MinMaxEmpty | src/main/kotlin/myhan/musinsa/ProductService.kt:93-129 | a category without products gets two empty lists |
| ProductService.MinMaxFound | src/main/kotlin/myhan/musinsa/ProductService.kt:96-122 | for a category with products, the rows at its lowest and at its highest price are exactly its cheapest and its dearest products, non-empty and in ascending id order |
| ProductService.FindMinMaxPriceProductByCategory | src/main/kotlin/myhan/musinsa/ProductService.kt:93-129 | echoes the category; the min and max lists hold exactly the cheapest and the dearest products of the category, each in ascending id order with no product twice; every product of the category is priced between them; both lists are empty exactly when the category has no products |
| ProductService.ListProducts | src/main/kotlin/myhan/musinsa/ProductService.kt:131-137 | at most `first` stored products, all after the cursor, strictly ascending by id; any qualifying product left out means the page is full and comes after every listed one |
| ProductService.ListProductsAsWritten | src/main/kotlin/myhan/musinsa/ProductService.kt:131-137 | the code as written: the cursor is dropped, so the page is the first `first` products by id whatever the cursor |
| ProductService.ListProductsIgnoresCursor | src/main/kotlin/myhan/musinsa/ProductService.kt:133-135 | with the cursor set to the smallest stored id, the code as written returns that product and the intended listing does not |
| BrandService.List | src/main/kotlin/myhan/musinsa/BrandService.kt:23-33 | at most `first` existing brands, all after the cursor, strictly ascending; any qualifying brand left out means the page is full and comes after every listed one |
| BrandService.ListAsWritten | src/main/kotlin/myhan/musinsa/BrandService.kt:23-33 | the code as written: the cursor is dropped, so the page is the first `first` brands in ascending order whatever the cursor |
| BrandService.ListIgnoresCursor | src/main/kotlin/myhan/musinsa/BrandService.kt:28-30 | with the cursor set to the least brand id, the code as written returns that brand and the intended listing does not |
| BrandService.NewProductsFollowRequest | src/main/kotlin/myhan/musinsa/BrandService.kt:66-84 | the created products follow the request, entry `i` becoming product `start + i` with its category and price |
| BrandService.NewRowsFollowRequest | src/main/kotlin/myhan/musinsa/BrandService.kt:66-84 | the inserted rows take exactly the ids `start` to `start + n - 1`, entry `i` under id `start + i` |
| BrandService.CoversAllCategories | src/main/kotlin/myhan/musinsa/BrandService.kt:43-53 | true exactly when every existing category is named by some entry |
| BrandService.CreateBrand | src/main/kotlin/myhan/musinsa/BrandService.kt:35-90 | a known id: conflict; a missed category or a lower-case id: bad request; an unknown category: server error with everything rolled back; otherwise the brand and one product per entry are added with consecutive ids, each new pair's count is its number of entries, other brands' counts are untouched, and the database stays consistent |
| BrandService.InsertBrandProducts | src/main/kotlin/myhan/musinsa/BrandService.kt:66-84 | the insert loop fails exactly when some entry names an unknown category; otherwise it returns the created products and leaves the tables as the request dictates, consistent throughout |
| BrandService.InsertNext | src/main/kotlin/myhan/musinsa/BrandService.kt:67-83 | one loop step keeps the loop invariant and appends the product it created |
| BrandService.InsertEntry | src/main/kotlin/myhan/musinsa/BrandService.kt:67-81 | one product insert and one count upsert, keeping the database consistent |
| BrandService.InsertedStep | src/main/kotlin/myhan/musinsa/BrandService.kt:66-84 | the loop invariant (the rows, ids and counts of the first `i` entries) survives one insert and upsert |
| BrandService.UpsertStep | src/main/kotlin/myhan/musinsa/BrandService.kt:75-81 | after the upsert, the new brand's count for each category is its number of entries so far, and other brands' counts are untouched |
| BrandService.InsertedAll | src/main/kotlin/myhan/musinsa/BrandService.kt:66-84 | after the whole loop, every requested category existed and the tables hold exactly the request's rows and counts |
| BrandService.RenameLinkCounts | src/main/kotlin/myhan/musinsa/BrandService.kt:110-113 | the new id takes over the old id's counts, the old id keeps none, other brands are untouched, and counts stay at least 1 |
| BrandService.RenameProductsWith | src/main/kotlin/myhan/musinsa/BrandService.kt:105-108 | the new id's products per category are exactly the old id's, and other brands keep theirs |
| BrandService.RenameKeepsCounts | src/main/kotlin/myhan/musinsa/BrandService.kt:105-113 | renaming both tables keeps every count equal to its number of products |
| BrandService.RenameKeepsForeignKeys | src/main/kotlin/myhan/musinsa/BrandService.kt:96-115 | after the rename every product and count row points to an existing brand and category |
| BrandService.ConsistentAfterRename | src/main/kotlin/myhan/musinsa/BrandService.kt:96-115 | renaming a brand to an unused allowed id keeps the database consistent and moves every count of the old id to the new id |
| BrandService.UpdateBrand | src/main/kotlin/myhan/musinsa/BrandService.kt:92-118 | an existing new id: conflict; a lower-case new id: server error; otherwise the new id replaces the old one in all three tables (category and price unchanged, exactly the old brand's products moved), counts move with it, and the database stays consistent |
| BrandService.ConsistentAfterBrandDelete | src/main/kotlin/myhan/musinsa/BrandService.kt:124-126 | removing a brand with all its products and count rows keeps the database consistent |
| BrandService.DeleteBrand | src/main/kotlin/myhan/musinsa/BrandService.kt:120-127 | an unknown id: not found, with nothing changed; otherwise exactly that brand's products and count rows go, with the brand, and every other row stays |

## Findings

| source | as written | input that shows it | evidently intended | confidence | as-written member | corrected member |
|---|---|---|---|---|---|---|
| src/main/kotlin/myhan/musinsa/ProductService.kt:133-135 | ``query.`$where`(PRODUCT.ID.gt(after))`` builds a changed copy of the query and throws it away (jOOQ's `$`-prefixed model setters do not mutate), so `after` is ignored | products with ids 1, 2, 3 and `listProducts(1, 10)`: ids 1, 2, 3 come back | only ids above `after`: 2, 3 | medium, not executed; rests on the documented behaviour of jOOQ 3.19's query object model | ProductService.ListProductsAsWritten, ProductService.ListProductsIgnoresCursor | ProductService.ListProducts |
| src/main/kotlin/myhan/musinsa/BrandService.kt:28-30 | ``query.`$where`(BRAND.ID.gt(after))`` is dropped in the same way, so `after` is ignored | brands A, B and `list("A", 10)`: A, B come back | only brands after `after`: B | medium, not executed; rests on the documented behaviour of jOOQ 3.19's query object model | BrandService.ListAsWritten, BrandService.ListIgnoresCursor | BrandService.List |

## Left out

- The HTTP layer is not part of this model: controllers, request bodies and their
  validation, and the mapping of errors to status codes. `Internal` stands for any
  uncaught database exception.
- Concurrency is not modelled. Each call runs alone, as one transaction. The race safety
  of the single conditional UPDATE is therefore not captured.
- Not all transactional writes are modelled exactly:
  - A rolled-back transaction restores `nextId` too. A real auto-increment sequence
    would not give the id back.
  - The product id after an insert comes from `nextId`, not from reading the row back.
- Ordering is simplified:
  - Strings compare by code point. The database collation, which may fold case or
    accents, is not modelled.
  - SQL leaves the order of grouped and joined results open. The model fixes it to the
    order of first appearance in the primary-key scan. This also decides which brand
    `minByOrNull` picks on a tie in the single-brand query: the first brand with the
    least total in that order.
- Prices are nat hundredths. The scale and rounding of `BigDecimal`, and negative
  prices, are not modelled.
- `first` is a `nat`. A negative LIMIT is not modelled.
- The database constraints are taken as given, because the schema is not part of this
  model:
  - `COUNT >= 1`. A decrement that would break it reports `FloorViolated`.
  - Brand ids contain no lower-case Latin letter.
  - Foreign keys.
- Categories are seeded when the `Database` is constructed. There is no operation that
  creates or deletes a category.
- The test fixtures and the sample data are not modelled.
