/** ProductService: creating, moving, repricing and deleting products while
    keeping the BRAND_CATEGORY counts in step, and the read-only pricing
    queries over the PRODUCT table. */
module ProductService {
  import opened StringOrder
  import opened Catalog
  import opened Sequences

  /** What the guarded `count + increment` UPDATE reports: the number of
      rows it changed, or a violation of the count's lower bound. */
  datatype CountUpdate = RowsAffected(rows: nat) | FloorViolated

  /** The single conditional UPDATE of BRAND_CATEGORY: no row for the pair
      changes nothing and affects 0 rows; a result below 1 is refused by the
      table's constraint; otherwise the count moves by `increment`. */
  method UpdateBrandCategoryCount(db: Database, brandId: BrandId, categoryId: CategoryId, increment: int)
    returns (r: CountUpdate)
    modifies db
    ensures
      var k := BrandCategory(brandId, categoryId);
      && (k !in old(db.links) ==> r == RowsAffected(0) && db.Current() == old(db.Current()))
      && (k in old(db.links) && old(db.links)[k] + increment < 1 ==> r == FloorViolated && db.Current() == old(db.Current()))
      && (k in old(db.links) && old(db.links)[k] + increment >= 1 ==>
            && r == RowsAffected(1)
            && db.Current() == old(db.Current()).(links := old(db.links)[k := old(db.links)[k] + increment]))
  {
    var k := BrandCategory(brandId, categoryId);
    if k !in db.links {
      return RowsAffected(0);
    }
    if db.links[k] + increment < 1 {
      return FloorViolated;
    }
    db.links := db.links[k := db.links[k] + increment];
    return RowsAffected(1);
  }

  /** createProduct: the increment doubles as the existence check for the
      (brand, category) pair; only then is the product inserted. */
  method CreateProduct(db: Database, brandId: BrandId, categoryId: CategoryId, price: Price)
    returns (r: Result<Product>)
    requires db.Valid()
    modifies db
    ensures db.Valid()
    ensures
      var k := BrandCategory(brandId, categoryId);
      && (k !in old(db.links) ==> r == Err(BadRequest) && db.Current() == old(db.Current()))
      && (k in old(db.links) ==>
            && r == Ok(Product(old(db.nextId), brandId, categoryId, price))
            && db.products == old(db.products)[old(db.nextId) := ProductRow(brandId, categoryId, price)]
            && db.links == old(db.links)[k := old(db.links)[k] + 1]
            && db.nextId == old(db.nextId) + 1
            && db.brands == old(db.brands) && db.categories == old(db.categories))
  {
    var updateCount := UpdateBrandCategoryCount(db, brandId, categoryId, 1);
    if updateCount == RowsAffected(0) {
      return Err(BadRequest);
    }
    var row := ProductRow(brandId, categoryId, price);
    CountsAfterInsert(old(db.products), old(db.links), db.nextId, row, db.links);
    var id := db.nextId;
    db.products := db.products[id := row];
    db.nextId := db.nextId + 1;
    return Ok(Product(id, brandId, categoryId, price));
  }

  /** updateProduct: an unknown id is a bad request; a changed pair first
      gives up a product of the old pair (refused when it is the last one),
      then takes one for the new pair (refused when that pair has no row);
      any failure rolls the whole call back. */
  method UpdateProduct(db: Database, id: int, brandId: BrandId, categoryId: CategoryId, price: Price)
    returns (r: Result<Product>)
    requires db.Valid()
    modifies db
    ensures db.Valid()
    ensures id !in old(db.products) ==> r == Err(BadRequest) && db.Current() == old(db.Current())
    ensures id in old(db.products) ==>
      var from, to := KeyOf(old(db.products)[id]), BrandCategory(brandId, categoryId);
      var row := ProductRow(brandId, categoryId, price);
      && (from == to ==>
            && r == Ok(Product(id, brandId, categoryId, price))
            && db.Current() == old(db.Current()).(products := old(db.products)[id := row]))
      && (from != to && LinkCount(old(db.links), from) == 1 ==> r == Err(Conflict) && db.Current() == old(db.Current()))
      && (from != to && LinkCount(old(db.links), from) >= 2 && to !in old(db.links) ==>
            r == Err(BadRequest) && db.Current() == old(db.Current()))
      && (from != to && LinkCount(old(db.links), from) >= 2 && to in old(db.links) ==>
            && r == Ok(Product(id, brandId, categoryId, price))
            && db.Current() == old(db.Current()).(
                 products := old(db.products)[id := row],
                 links := old(db.links)[from := old(db.links)[from] - 1][to := old(db.links)[to] + 1]))
  {
    if id !in db.products {
      return Err(BadRequest);
    }
    var original := db.products[id];
    var saved := db.Current();
    var row := ProductRow(brandId, categoryId, price);
    LinkOfProduct(db.products, db.links, id);
    if original.brandId != brandId || original.categoryId != categoryId {
      var moved := MoveCount(db, KeyOf(original), KeyOf(row));
      if moved.Err? {
        db.Rollback(saved);
        return Err(moved.error);
      }
      ConsistentAfterMove(saved, id, row);
    } else {
      ConsistentAfterReprice(saved, id, row);
    }
    db.products := db.products[id := row];
    return Ok(Product(id, brandId, categoryId, price));
  }

  /** The count half of updateProduct when the pair changes: the old pair
      gives up one product (refused when that would leave it below 1), then
      the new pair takes one (refused when it has no row). Only the counts
      change; a refusal after the first update leaves the caller to roll
      back. */
  method MoveCount(db: Database, from: BrandCategory, to: BrandCategory) returns (r: Result<()>)
    requires from in db.links && from != to
    requires forall k :: k in db.links ==> db.links[k] >= 1
    modifies db
    ensures db.brands == old(db.brands) && db.categories == old(db.categories)
    ensures db.products == old(db.products) && db.nextId == old(db.nextId)
    ensures old(db.links)[from] < 2 ==> r == Err(Conflict) && db.links == old(db.links)
    ensures old(db.links)[from] >= 2 && to !in old(db.links) ==> r == Err(BadRequest)
    ensures old(db.links)[from] >= 2 && to in old(db.links) ==>
      r == Ok(()) && db.links == old(db.links)[from := old(db.links)[from] - 1][to := old(db.links)[to] + 1]
  {
    var decremented := UpdateBrandCategoryCount(db, from.brandId, from.categoryId, -1);
    if decremented == FloorViolated {
      return Err(Conflict);
    }
    var updateCount := UpdateBrandCategoryCount(db, to.brandId, to.categoryId, 1);
    if updateCount == RowsAffected(0) {
      return Err(BadRequest);
    }
    return Ok(());
  }

  /** deleteProduct: an unknown id is a bad request; removing the last
      product of its pair is a conflict; otherwise the pair's count drops by
      one and the product row goes. */
  method DeleteProduct(db: Database, id: int) returns (r: Result<()>)
    requires db.Valid()
    modifies db
    ensures db.Valid()
    ensures id !in old(db.products) ==> r == Err(BadRequest) && db.Current() == old(db.Current())
    ensures id in old(db.products) ==>
      var k := KeyOf(old(db.products)[id]);
      && (LinkCount(old(db.links), k) == 1 ==> r == Err(Conflict) && db.Current() == old(db.Current()))
      && (LinkCount(old(db.links), k) >= 2 ==>
            && r == Ok(())
            && db.Current() == old(db.Current()).(
                 products := old(db.products) - {id},
                 links := old(db.links)[k := old(db.links)[k] - 1]))
  {
    if id !in db.products {
      return Err(BadRequest);
    }
    var product := db.products[id];
    LinkOfProduct(db.products, db.links, id);
    var decremented := UpdateBrandCategoryCount(db, product.brandId, product.categoryId, -1);
    if decremented == FloorViolated {
      return Err(Conflict);
    }
    CountsAfterRemove(old(db.products), old(db.links), id, db.links);
    db.products := db.products - {id};
    return Ok(());
  }

  // ---------------------------------------------------------------------
  // Read queries. Each is a pure function of the PRODUCT table, scanned in
  // primary-key order (`Rows`); SQL leaves the order of grouped results
  // open, and the model fixes it to the order of first appearance in that
  // scan.
  // ---------------------------------------------------------------------

  /** A (brand, category, price) row of a query result
      (ListMinPriceProductPerCategoryResultItem and
      FindMinPriceProductsWithOneBrandResultCategoryItem). */
  datatype PriceItem = PriceItem(brandId: BrandId, categoryId: CategoryId, price: Price)

  datatype MinPricePerCategory = MinPricePerCategory(totalPrice: nat, items: seq<PriceItem>)

  datatype OneBrandResult = OneBrandResult(brand: BrandId, category: seq<PriceItem>, totalCost: nat)

  datatype MinMaxResult = MinMaxResult(categoryId: CategoryId, minPriceProductList: seq<Product>, maxPriceProductList: seq<Product>)

  /** The fold that adds up the prices of a result. */
  function SumPrices(items: seq<PriceItem>): nat
  {
    if items == [] then 0 else items[0].price + SumPrices(items[1..])
  }

  /** SQL `MIN(PRICE)` over non-empty rows. */
  function MinPrice(rows: seq<Product>): (m: Price)
    requires rows != []
    ensures exists p :: p in rows && p.price == m
    ensures forall p :: p in rows ==> m <= p.price
  {
    if |rows| == 1 then rows[0].price
    else
      var rest := MinPrice(rows[1..]);
      assert forall p :: p in rows ==> p == rows[0] || p in rows[1..];
      if rows[0].price <= rest then rows[0].price else rest
  }

  /** SQL `MAX(PRICE)` over non-empty rows (`ORDER BY PRICE DESC LIMIT 1`). */
  function MaxPrice(rows: seq<Product>): (m: Price)
    requires rows != []
    ensures exists p :: p in rows && p.price == m
    ensures forall p :: p in rows ==> p.price <= m
  {
    if |rows| == 1 then rows[0].price
    else
      var rest := MaxPrice(rows[1..]);
      assert forall p :: p in rows ==> p == rows[0] || p in rows[1..];
      if rows[0].price >= rest then rows[0].price else rest
  }

  /** `WHERE CATEGORY_ID = c`; it keeps a scan's ascending id order. */
  function InCategory(rows: seq<Product>, c: CategoryId): (r: seq<Product>)
    ensures (forall i, j :: 0 <= i < j < |rows| ==> rows[i].id < rows[j].id) ==>
      forall i, j :: 0 <= i < j < |r| ==> r[i].id < r[j].id
  {
    var keep := (p: Product) => p.categoryId == c;
    FilterKeepsOrder(rows, keep, (x: Product, y: Product) => x.id < y.id);
    Filter(rows, keep)
  }

  /** `WHERE PRICE = price`; it keeps a scan's ascending id order. */
  function AtPrice(rows: seq<Product>, price: Price): (r: seq<Product>)
    ensures (forall i, j :: 0 <= i < j < |rows| ==> rows[i].id < rows[j].id) ==>
      forall i, j :: 0 <= i < j < |r| ==> r[i].id < r[j].id
  {
    var keep := (p: Product) => p.price == price;
    FilterKeepsOrder(rows, keep, (x: Product, y: Product) => x.id < y.id);
    Filter(rows, keep)
  }

  function WithKey(rows: seq<Product>, k: BrandCategory): seq<Product>
  {
    Filter(rows, (p: Product) => KeyOf(RowOf(p)) == k)
  }

  /** The BRAND_ID column of `rows`. */
  function BrandIds(rows: seq<Product>): (r: seq<BrandId>)
    ensures forall b :: b in r <==> exists p :: p in rows && p.brandId == b
  {
    var r := seq(|rows|, i requires 0 <= i < |rows| => rows[i].brandId);
    assert forall p :: p in rows ==> p.brandId in r by {
      forall p | p in rows ensures p.brandId in r {
        var i :| 0 <= i < |rows| && rows[i] == p;
        assert r[i] == p.brandId;
      }
    }
    r
  }

  /** The CATEGORY_ID column of `rows`. */
  function CategoryIds(rows: seq<Product>): (r: seq<CategoryId>)
    ensures forall c :: c in r <==> exists p :: p in rows && p.categoryId == c
  {
    var r := seq(|rows|, i requires 0 <= i < |rows| => rows[i].categoryId);
    assert forall p :: p in rows ==> p.categoryId in r by {
      forall p | p in rows ensures p.categoryId in r {
        var i :| 0 <= i < |rows| && rows[i] == p;
        assert r[i] == p.categoryId;
      }
    }
    r
  }

  /** The (BRAND_ID, CATEGORY_ID) columns of `rows`. */
  function PairKeys(rows: seq<Product>): (r: seq<BrandCategory>)
    ensures forall k :: k in r <==> exists p :: p in rows && KeyOf(RowOf(p)) == k
  {
    var r := seq(|rows|, i requires 0 <= i < |rows| => KeyOf(RowOf(rows[i])));
    assert forall p :: p in rows ==> KeyOf(RowOf(p)) in r by {
      forall p | p in rows ensures KeyOf(RowOf(p)) in r {
        var i :| 0 <= i < |rows| && rows[i] == p;
        assert r[i] == KeyOf(RowOf(p));
      }
    }
    r
  }

  // --- listMinPriceProductPerCategory ---------------------------------

  /** `item` is the cheapest offer of its category: some product has exactly
      its brand, category and price, no product of the category is cheaper,
      and no product of the category at that price has a smaller brand id. */
  ghost predicate IsCheapestInCategory(products: map<ProductId, ProductRow>, item: PriceItem)
  {
    && (exists id :: id in products && products[id] == ProductRow(item.brandId, item.categoryId, item.price))
    && (forall id :: id in products && products[id].categoryId == item.categoryId ==> item.price <= products[id].price)
    && (forall id :: id in products && products[id].categoryId == item.categoryId && products[id].price == item.price ==>
          LexLe(item.brandId, products[id].brandId))
  }

  /** The cheapest offer of a category is fully determined: price and brand
      both. */
  lemma CheapestInCategoryUnique(products: map<ProductId, ProductRow>, a: PriceItem, b: PriceItem)
    requires IsCheapestInCategory(products, a) && IsCheapestInCategory(products, b)
    requires a.categoryId == b.categoryId
    ensures a == b
  {
    var ia :| ia in products && products[ia] == ProductRow(a.brandId, a.categoryId, a.price);
    var ib :| ib in products && products[ib] == ProductRow(b.brandId, b.categoryId, b.price);
    assert a.price == b.price;
    LexLeTotalOrder(a.brandId, b.brandId, a.brandId);
  }

  /** The categories that have at least one product. */
  function CategoriesWithProducts(products: map<ProductId, ProductRow>): set<CategoryId>
  {
    set id | id in products :: products[id].categoryId
  }

  /** The categories a result names. */
  function ItemCategories(items: seq<PriceItem>): set<CategoryId>
  {
    set item | item in items :: item.categoryId
  }

  /** One row of the join: the category's minimum price, and `MIN(BRAND_ID)`
      among the category's products at that price. */
  function CheapestIn(rows: seq<Product>, c: CategoryId): (item: PriceItem)
    requires c in CategoryIds(rows)
    ensures item.categoryId == c
  {
    var inCategory := InCategory(rows, c);
    var price := MinPrice(inCategory);
    PriceItem(Least(BrandIds(AtPrice(inCategory, price))), c, price)
  }

  /** The cheapest offer of each of `categories`, in that order. */
  function CheapestItems(rows: seq<Product>, categories: seq<CategoryId>): (items: seq<PriceItem>)
    requires forall c :: c in categories ==> c in CategoryIds(rows)
    ensures |items| == |categories|
    ensures forall i :: 0 <= i < |categories| ==> items[i] == CheapestIn(rows, categories[i])
    ensures forall i :: 0 <= i < |categories| ==> items[i].categoryId == categories[i]
  {
    seq(|categories|, i requires 0 <= i < |categories| => CheapestIn(rows, categories[i]))
  }

  /** listMinPriceProductPerCategory: exactly one item for each category
      that has products, none for the others; each item is that category's
      cheapest offer with ties going to the least brand id; and the total is
      the sum of the item prices. */
  function ListMinPriceProductPerCategory(products: map<ProductId, ProductRow>): (r: MinPricePerCategory)
    ensures ItemCategories(r.items) == CategoriesWithProducts(products)
    ensures forall i, j :: 0 <= i < j < |r.items| ==> r.items[i].categoryId != r.items[j].categoryId
    ensures forall item :: item in r.items ==> IsCheapestInCategory(products, item)
    ensures r.totalPrice == SumPrices(r.items)
  {
    var rows := Rows(products);
    var categories := Distinct(CategoryIds(rows));
    var items := CheapestItems(rows, categories);
    CheapestItemsCategories(rows, categories);
    CategoryIdsOfRows(products);
    CheapestItemsAreCheapest(products, categories);
    MinPricePerCategory(SumPrices(items), items)
  }

  lemma CheapestInIsCheapest(products: map<ProductId, ProductRow>, c: CategoryId)
    requires c in CategoryIds(Rows(products))
    ensures IsCheapestInCategory(products, CheapestIn(Rows(products), c))
  {
    var rows := Rows(products);
    var item := CheapestIn(rows, c);
    CheapestInRows(rows, c);
    var p :| p in rows && p.brandId == item.brandId && p.categoryId == c && p.price == item.price;
    assert products[p.id] == ProductRow(item.brandId, item.categoryId, item.price);
    forall id | id in products && products[id].categoryId == c
      ensures item.price <= products[id].price
      ensures products[id].price == item.price ==> LexLe(item.brandId, products[id].brandId)
    {
      assert ProductAt(products, id) in rows;
    }
  }

  /** `CheapestIn` over any scan: the item is some row of the category, no
      row of the category is cheaper, and no row at that price has a smaller
      brand id. */
  lemma CheapestInRows(rows: seq<Product>, c: CategoryId)
    requires c in CategoryIds(rows)
    ensures var item := CheapestIn(rows, c);
      exists p :: p in rows && p.brandId == item.brandId && p.categoryId == c && p.price == item.price
    ensures var item := CheapestIn(rows, c);
      forall q :: q in rows && q.categoryId == c ==>
        item.price <= q.price && (q.price == item.price ==> LexLe(item.brandId, q.brandId))
  {
    var item := CheapestIn(rows, c);
    var inCategory := InCategory(rows, c);
    var atPrice := AtPrice(inCategory, item.price);
    var p :| p in atPrice && p.brandId == item.brandId;
    assert p in rows && p.categoryId == c && p.price == item.price;
    forall q | q in rows && q.categoryId == c
      ensures item.price <= q.price && (q.price == item.price ==> LexLe(item.brandId, q.brandId))
    {
      assert q in inCategory;
      if q.price == item.price {
        assert q in atPrice;
      }
    }
  }

  lemma CheapestItemsAreCheapest(products: map<ProductId, ProductRow>, categories: seq<CategoryId>)
    requires forall c :: c in categories ==> c in CategoryIds(Rows(products))
    ensures forall item :: item in CheapestItems(Rows(products), categories) ==> IsCheapestInCategory(products, item)
  {
    var items := CheapestItems(Rows(products), categories);
    forall item | item in items ensures IsCheapestInCategory(products, item) {
      var i :| 0 <= i < |items| && items[i] == item;
      assert categories[i] in categories;
      CheapestInIsCheapest(products, categories[i]);
    }
  }

  lemma CheapestItemsCategories(rows: seq<Product>, categories: seq<CategoryId>)
    requires forall c :: c in categories ==> c in CategoryIds(rows)
    ensures forall c :: c in ItemCategories(CheapestItems(rows, categories)) <==> c in categories
  {
    ItemCategoriesOfList(CheapestItems(rows, categories), categories);
  }

  /** Items listed category by category have exactly those categories. */
  lemma ItemCategoriesOfList(items: seq<PriceItem>, categories: seq<CategoryId>)
    requires |items| == |categories|
    requires forall i :: 0 <= i < |items| ==> items[i].categoryId == categories[i]
    ensures forall c :: c in ItemCategories(items) <==> c in categories
  {
    forall c | c in categories ensures c in ItemCategories(items) {
      var i :| 0 <= i < |categories| && categories[i] == c;
      assert items[i] in items;
    }
    forall c | c in ItemCategories(items) ensures c in categories {
      var item :| item in items && item.categoryId == c;
      var i :| 0 <= i < |items| && items[i] == item;
    }
  }

  lemma CategoryIdsOfRows(products: map<ProductId, ProductRow>)
    ensures forall c :: c in CategoryIds(Rows(products)) <==> c in CategoriesWithProducts(products)
  {
    var rows := Rows(products);
    forall c | c in CategoriesWithProducts(products) ensures c in CategoryIds(rows) {
      var id :| id in products && products[id].categoryId == c;
      assert Product(id, products[id].brandId, c, products[id].price) in rows;
    }
  }

  // --- findMinPriceProductsWithOneBrand -------------------------------

  /** `item` is one brand's cheapest price in one category: some product has
      exactly its brand, category and price, and no product of that brand
      in that category is cheaper. */
  ghost predicate IsPairMinimum(products: map<ProductId, ProductRow>, item: PriceItem)
  {
    && (exists id :: id in products && products[id] == ProductRow(item.brandId, item.categoryId, item.price))
    && (forall id :: id in products && KeyOf(products[id]) == BrandCategory(item.brandId, item.categoryId) ==>
          item.price <= products[id].price)
  }

  function BrandsWithProducts(products: map<ProductId, ProductRow>): set<BrandId>
  {
    set id | id in products :: products[id].brandId
  }

  /** The categories brand `b` has products in. */
  function CategoriesOfBrand(products: map<ProductId, ProductRow>, b: BrandId): set<CategoryId>
  {
    set id | id in products && products[id].brandId == b :: products[id].categoryId
  }

  /** `items` lists brand `b`'s cheapest price in each category it has
      products in, each such category exactly once and no other. */
  ghost predicate IsBrandMinima(products: map<ProductId, ProductRow>, b: BrandId, items: seq<PriceItem>)
  {
    && (forall item :: item in items ==> item.brandId == b && IsPairMinimum(products, item))
    && ItemCategories(items) == CategoriesOfBrand(products, b)
    && (forall i, j :: 0 <= i < j < |items| ==> items[i].categoryId != items[j].categoryId)
  }

  /** The (brand, category) pairs a result names. */
  function ItemKeys(items: seq<PriceItem>): set<BrandCategory>
  {
    set item | item in items :: BrandCategory(item.brandId, item.categoryId)
  }

  /** The (brand, category) pairs that have products. */
  function KeysWithProducts(products: map<ProductId, ProductRow>): set<BrandCategory>
  {
    set id | id in products :: KeyOf(products[id])
  }

  /** One row of the first query: `MIN(PRICE)` of the pair `k`. */
  function PairItem(rows: seq<Product>, k: BrandCategory): (item: PriceItem)
    requires k in PairKeys(rows)
    ensures item.brandId == k.brandId && item.categoryId == k.categoryId
  {
    WithKeyNonEmpty(rows, k);
    PriceItem(k.brandId, k.categoryId, MinPrice(WithKey(rows, k)))
  }

  /** `MIN(PRICE)` for each of the pairs `keys`, in that order. */
  function PairItems(rows: seq<Product>, keys: seq<BrandCategory>): (items: seq<PriceItem>)
    requires forall k :: k in keys ==> k in PairKeys(rows)
    ensures |items| == |keys|
    ensures forall i :: 0 <= i < |keys| ==> items[i] == PairItem(rows, keys[i])
  {
    seq(|keys|, i requires 0 <= i < |keys| => PairItem(rows, keys[i]))
  }

  lemma WithKeyNonEmpty(rows: seq<Product>, k: BrandCategory)
    requires k in PairKeys(rows)
    ensures WithKey(rows, k) != []
  {
    var p :| p in rows && KeyOf(RowOf(p)) == k;
    assert p in WithKey(rows, k);
  }

  /** The first query: the cheapest price of every (brand, category) pair
      that has products (`GROUP BY BRAND_ID, CATEGORY_ID`). */
  function PairMinima(rows: seq<Product>): seq<PriceItem>
  {
    PairItems(rows, Distinct(PairKeys(rows)))
  }

  /** The rows of a result that belong to brand `b`. */
  function OfBrand(items: seq<PriceItem>, b: BrandId): (r: seq<PriceItem>)
    ensures forall item :: item in r <==> item in items && item.brandId == b
    ensures (forall i, j :: 0 <= i < j < |items| ==> items[i] != items[j]) ==>
      forall i, j :: 0 <= i < j < |r| ==> r[i] != r[j]
  {
    var keep := (item: PriceItem) => item.brandId == b;
    FilterKeepsOrder(items, keep, (x: PriceItem, y: PriceItem) => x != y);
    Filter(items, keep)
  }

  /** The fold into `totalPricePerBrand`: the sum of brand `b`'s per-category
      minima. */
  function BrandTotal(minima: seq<PriceItem>, b: BrandId): nat
  {
    SumPrices(OfBrand(minima, b))
  }

  /** The BRAND_ID column of a result. */
  function ItemBrands(items: seq<PriceItem>): (r: seq<BrandId>)
    ensures forall b :: b in r <==> exists item :: item in items && item.brandId == b
  {
    var r := seq(|items|, i requires 0 <= i < |items| => items[i].brandId);
    assert forall item :: item in items ==> item.brandId in r by {
      forall item | item in items ensures item.brandId in r {
        var i :| 0 <= i < |items| && items[i] == item;
        assert r[i] == item.brandId;
      }
    }
    r
  }

  /** `minByOrNull` over the brand totals: the first brand whose total is no
      larger than any other's. */
  function CheapestBrand(brands: seq<BrandId>, minima: seq<PriceItem>): (b: BrandId)
    requires brands != []
    ensures b in brands
    ensures forall x :: x in brands ==> BrandTotal(minima, b) <= BrandTotal(minima, x)
  {
    if |brands| == 1 then brands[0]
    else
      var best := CheapestBrand(brands[1..], minima);
      assert forall x :: x in brands ==> x == brands[0] || x in brands[1..];
      if BrandTotal(minima, brands[0]) <= BrandTotal(minima, best) then brands[0] else best
  }

  /** findMinPriceProductsWithOneBrand fails (`minByOrNull` returns null)
      exactly when there are no products. Otherwise the chosen brand has
      products, the returned items are its cheapest price in each of its
      categories (each once), the cost is their sum, and no brand's
      per-category minima add up to less. */
  function FindMinPriceProductsWithOneBrand(products: map<ProductId, ProductRow>): (r: Result<OneBrandResult>)
    ensures r.Err? <==> products == map[]
    ensures r.Err? ==> r.error == Internal
    ensures r.Ok? ==>
      && r.value.brand in BrandsWithProducts(products)
      && IsBrandMinima(products, r.value.brand, r.value.category)
      && r.value.totalCost == SumPrices(r.value.category)
      && (forall b, items :: b in BrandsWithProducts(products) && IsBrandMinima(products, b, items) ==>
            r.value.totalCost <= SumPrices(items))
  {
    var minima := PairMinima(Rows(products));
    var brands := Distinct(ItemBrands(minima));
    BrandCandidates(products);
    if brands == [] then Err(Internal)
    else
      var brand := CheapestBrand(brands, minima);
      CheapestBrandIsCheapest(products, brand);
      Ok(OneBrandResult(brand, OfBrand(minima, brand), BrandTotal(minima, brand)))
  }

  lemma PairMinimumUnique(products: map<ProductId, ProductRow>, a: PriceItem, b: PriceItem)
    requires IsPairMinimum(products, a) && IsPairMinimum(products, b)
    requires a.brandId == b.brandId && a.categoryId == b.categoryId
    ensures a == b
  {
    var ia :| ia in products && products[ia] == ProductRow(a.brandId, a.categoryId, a.price);
    var ib :| ib in products && products[ib] == ProductRow(b.brandId, b.categoryId, b.price);
  }

  lemma PairItemIsMinimum(products: map<ProductId, ProductRow>, k: BrandCategory)
    requires k in PairKeys(Rows(products))
    ensures IsPairMinimum(products, PairItem(Rows(products), k))
  {
    var rows := Rows(products);
    var item := PairItem(rows, k);
    var p :| p in WithKey(rows, k) && p.price == item.price;
    assert products[p.id] == ProductRow(item.brandId, item.categoryId, item.price);
    forall id | id in products && KeyOf(products[id]) == k
      ensures item.price <= products[id].price
    {
      InRows(products, id);
      assert ProductAt(products, id) in WithKey(rows, k);
    }
  }

  lemma PairMinimaArePairMinima(products: map<ProductId, ProductRow>)
    ensures forall item :: item in PairMinima(Rows(products)) ==> IsPairMinimum(products, item)
  {
    var rows := Rows(products);
    var keys := Distinct(PairKeys(rows));
    var minima := PairItems(rows, keys);
    PairItemsArePairMinima(products, keys);
    forall item | item in minima ensures IsPairMinimum(products, item) {
      var i :| 0 <= i < |minima| && minima[i] == item;
    }
  }

  /** Position by position, the group rows of any listed pairs are pair
      minima. */
  lemma PairItemsArePairMinima(products: map<ProductId, ProductRow>, keys: seq<BrandCategory>)
    requires forall k :: k in keys ==> k in PairKeys(Rows(products))
    ensures forall i :: 0 <= i < |keys| ==> IsPairMinimum(products, PairItems(Rows(products), keys)[i])
  {
    forall i | 0 <= i < |keys| ensures IsPairMinimum(products, PairItems(Rows(products), keys)[i]) {
      assert keys[i] in keys;
      PairItemIsMinimum(products, keys[i]);
    }
  }

  lemma PairKeysOfRows(products: map<ProductId, ProductRow>)
    ensures forall k :: k in PairKeys(Rows(products)) <==> k in KeysWithProducts(products)
  {
    var rows := Rows(products);
    forall k | k in KeysWithProducts(products) ensures k in PairKeys(rows) {
      var id :| id in products && KeyOf(products[id]) == k;
      InRows(products, id);
      assert KeyOf(RowOf(ProductAt(products, id))) == k;
    }
  }

  lemma PairItemsKeys(rows: seq<Product>, keys: seq<BrandCategory>)
    requires forall k :: k in keys ==> k in PairKeys(rows)
    ensures var items := PairItems(rows, keys);
      && (forall k :: k in ItemKeys(items) <==> k in keys)
      && (forall i :: 0 <= i < |items| ==> BrandCategory(items[i].brandId, items[i].categoryId) == keys[i])
  {
    var items := PairItems(rows, keys);
    forall i | 0 <= i < |items| ensures BrandCategory(items[i].brandId, items[i].categoryId) == keys[i] {
      assert items[i] == PairItem(rows, keys[i]);
    }
    ItemKeysOfPairs(items, keys);
  }

  /** Items listed pair by pair have exactly those pairs as keys. */
  lemma ItemKeysOfPairs(items: seq<PriceItem>, keys: seq<BrandCategory>)
    requires |items| == |keys|
    requires forall i :: 0 <= i < |items| ==> BrandCategory(items[i].brandId, items[i].categoryId) == keys[i]
    ensures forall k :: k in ItemKeys(items) <==> k in keys
  {
    forall k | k in keys ensures k in ItemKeys(items) {
      var i :| 0 <= i < |keys| && keys[i] == k;
      assert items[i] in items;
    }
    forall k | k in ItemKeys(items) ensures k in keys {
      var item :| item in items && BrandCategory(item.brandId, item.categoryId) == k;
      var i :| 0 <= i < |items| && items[i] == item;
    }
  }

  lemma PairMinimaKeys(products: map<ProductId, ProductRow>)
    ensures var minima := PairMinima(Rows(products));
      && (forall k :: k in ItemKeys(minima) <==> k in KeysWithProducts(products))
      && (forall i, j :: 0 <= i < j < |minima| ==>
            BrandCategory(minima[i].brandId, minima[i].categoryId) != BrandCategory(minima[j].brandId, minima[j].categoryId))
  {
    var rows := Rows(products);
    PairKeysOfRows(products);
    PairItemsKeys(rows, Distinct(PairKeys(rows)));
  }

  lemma {:induction false} SumPricesConcat(a: seq<PriceItem>, b: seq<PriceItem>)
    ensures SumPrices(a + b) == SumPrices(a) + SumPrices(b)
  {
    if a == [] {
      assert a + b == b;
    } else {
      assert (a + b)[1..] == a[1..] + b;
      SumPricesConcat(a[1..], b);
    }
  }

  lemma SumAt(ys: seq<PriceItem>, k: nat)
    requires k < |ys|
    ensures SumPrices(ys) == ys[k].price + SumPrices(ys[..k] + ys[k + 1..])
  {
    var x, pre, post := ys[k], ys[..k], ys[k + 1..];
    var tail := [x] + post;
    assert ys == pre + tail;
    assert tail[1..] == post;
    SumPricesConcat(pre, tail);
    SumPricesConcat(pre, post);
  }

  /** Taking one item out of a duplicate-free list leaves exactly the
      others, still without duplicates. */
  lemma RemoveAt(ys: seq<PriceItem>, k: nat)
    requires k < |ys|
    requires forall i, j :: 0 <= i < j < |ys| ==> ys[i] != ys[j]
    ensures var rest := ys[..k] + ys[k + 1..];
      && (forall i, j :: 0 <= i < j < |rest| ==> rest[i] != rest[j])
      && (forall item :: item in rest <==> item in ys && item != ys[k])
  {
    var rest := ys[..k] + ys[k + 1..];
    assert forall i :: 0 <= i < |rest| ==> rest[i] == (if i < k then ys[i] else ys[i + 1]);
    forall item | item in ys && item != ys[k] ensures item in rest {
      var j :| 0 <= j < |ys| && ys[j] == item;
      if j < k {
        assert rest[j] == item;
      } else {
        assert rest[j - 1] == item;
      }
    }
  }

  /** Two duplicate-free lists of the same items add up to the same total,
      whatever their order. */
  lemma {:induction false} SameItemsSameSum(xs: seq<PriceItem>, ys: seq<PriceItem>)
    requires forall i, j :: 0 <= i < j < |xs| ==> xs[i] != xs[j]
    requires forall i, j :: 0 <= i < j < |ys| ==> ys[i] != ys[j]
    requires forall item :: item in xs <==> item in ys
    ensures SumPrices(xs) == SumPrices(ys)
    decreases |xs|
  {
    if xs == [] {
      assert forall i :: 0 <= i < |ys| ==> ys[i] in ys;
    } else {
      assert xs[0] in ys;
      var k :| 0 <= k < |ys| && ys[k] == xs[0];
      RemoveAt(xs, 0);
      assert xs[..0] + xs[1..] == xs[1..];
      RemoveAt(ys, k);
      SumAt(ys, k);
      SameItemsSameSum(xs[1..], ys[..k] + ys[k + 1..]);
    }
  }

  /** Any two listings of a brand's per-category minima have the same total:
      the total the query compares brands by is well defined. */
  lemma BrandMinimaSumUnique(products: map<ProductId, ProductRow>, b: BrandId, xs: seq<PriceItem>, ys: seq<PriceItem>)
    requires IsBrandMinima(products, b, xs) && IsBrandMinima(products, b, ys)
    ensures SumPrices(xs) == SumPrices(ys)
  {
    forall x | x in xs ensures x in ys {
      assert x.categoryId in ItemCategories(xs);
      var y :| y in ys && y.categoryId == x.categoryId;
      PairMinimumUnique(products, x, y);
    }
    forall y | y in ys ensures y in xs {
      assert y.categoryId in ItemCategories(ys);
      var x :| x in xs && x.categoryId == y.categoryId;
      PairMinimumUnique(products, x, y);
    }
    SameItemsSameSum(xs, ys);
  }

  lemma OfBrandCategories(products: map<ProductId, ProductRow>, minima: seq<PriceItem>, b: BrandId)
    requires forall k :: k in ItemKeys(minima) <==> k in KeysWithProducts(products)
    ensures ItemCategories(OfBrand(minima, b)) == CategoriesOfBrand(products, b)
  {
    var items := OfBrand(minima, b);
    forall c | c in ItemCategories(items) ensures c in CategoriesOfBrand(products, b) {
      var item :| item in items && item.categoryId == c;
      assert BrandCategory(b, c) in ItemKeys(minima);
      var id :| id in products && KeyOf(products[id]) == BrandCategory(b, c);
    }
    forall c | c in CategoriesOfBrand(products, b) ensures c in ItemCategories(items) {
      var id :| id in products && products[id].brandId == b && products[id].categoryId == c;
      assert BrandCategory(b, c) in KeysWithProducts(products);
      var item :| item in minima && BrandCategory(item.brandId, item.categoryId) == BrandCategory(b, c);
      assert item in items;
    }
  }

  lemma OfBrandDistinct(products: map<ProductId, ProductRow>, minima: seq<PriceItem>, b: BrandId)
    requires forall item :: item in minima ==> IsPairMinimum(products, item)
    requires forall i, j :: 0 <= i < j < |minima| ==>
      BrandCategory(minima[i].brandId, minima[i].categoryId) != BrandCategory(minima[j].brandId, minima[j].categoryId)
    ensures var items := OfBrand(minima, b);
      forall i, j :: 0 <= i < j < |items| ==> items[i].categoryId != items[j].categoryId
  {
    var items := OfBrand(minima, b);
    assert forall i, j :: 0 <= i < j < |minima| ==> minima[i] != minima[j];
    forall i, j | 0 <= i < j < |items| ensures items[i].categoryId != items[j].categoryId {
      assert items[i] in items && items[j] in items;
      if items[i].categoryId == items[j].categoryId {
        PairMinimumUnique(products, items[i], items[j]);
      }
    }
  }

  /** The first query's rows for one brand are that brand's minima. */
  lemma OfBrandIsBrandMinima(products: map<ProductId, ProductRow>, b: BrandId)
    ensures IsBrandMinima(products, b, OfBrand(PairMinima(Rows(products)), b))
  {
    var minima := PairMinima(Rows(products));
    PairMinimaArePairMinima(products);
    PairMinimaKeys(products);
    OfBrandCategories(products, minima, b);
    OfBrandDistinct(products, minima, b);
  }

  lemma ItemBrandsOfKeys(products: map<ProductId, ProductRow>, minima: seq<PriceItem>)
    requires forall k :: k in ItemKeys(minima) <==> k in KeysWithProducts(products)
    ensures forall b :: b in ItemBrands(minima) <==> b in BrandsWithProducts(products)
  {
    forall b | b in ItemBrands(minima) ensures b in BrandsWithProducts(products) {
      var item :| item in minima && item.brandId == b;
      assert BrandCategory(b, item.categoryId) in ItemKeys(minima);
      var id :| id in products && KeyOf(products[id]) == BrandCategory(b, item.categoryId);
    }
    forall b | b in BrandsWithProducts(products) ensures b in ItemBrands(minima) {
      var id :| id in products && products[id].brandId == b;
      assert KeyOf(products[id]) in KeysWithProducts(products);
      var item :| item in minima && BrandCategory(item.brandId, item.categoryId) == KeyOf(products[id]);
    }
  }

  /** The brands the totals are folded over are exactly the brands that
      have products; there are none exactly when PRODUCT is empty. */
  lemma BrandCandidates(products: map<ProductId, ProductRow>)
    ensures var brands := Distinct(ItemBrands(PairMinima(Rows(products))));
      && (forall b :: b in brands <==> b in BrandsWithProducts(products))
      && (brands == [] <==> products == map[])
  {
    var minima := PairMinima(Rows(products));
    var brands := Distinct(ItemBrands(minima));
    PairMinimaKeys(products);
    ItemBrandsOfKeys(products, minima);
    if products == map[] {
      assert BrandsWithProducts(products) == {};
      if brands != [] {
        assert false;
      }
    } else {
      var id :| id in products;
      assert products[id].brandId in BrandsWithProducts(products);
    }
  }

  /** A brand whose total is no larger than any other brand's has the
      cheapest full set of minima: no brand's minima, however listed, add
      up to less. */
  lemma CheapestBrandIsCheapest(products: map<ProductId, ProductRow>, brand: BrandId)
    requires forall b :: b in BrandsWithProducts(products) ==>
      BrandTotal(PairMinima(Rows(products)), brand) <= BrandTotal(PairMinima(Rows(products)), b)
    ensures IsBrandMinima(products, brand, OfBrand(PairMinima(Rows(products)), brand))
    ensures forall b, items :: b in BrandsWithProducts(products) && IsBrandMinima(products, b, items) ==>
      BrandTotal(PairMinima(Rows(products)), brand) <= SumPrices(items)
  {
    var minima := PairMinima(Rows(products));
    OfBrandIsBrandMinima(products, brand);
    forall b, items | b in BrandsWithProducts(products) && IsBrandMinima(products, b, items)
      ensures BrandTotal(minima, brand) <= SumPrices(items)
    {
      OfBrandIsBrandMinima(products, b);
      BrandMinimaSumUnique(products, b, OfBrand(minima, b), items);
    }
  }

  // --- findMinMaxPriceProductByCategory -------------------------------

  /** `p` is a product as stored. */
  ghost predicate Stored(products: map<ProductId, ProductRow>, p: Product)
  {
    p.id in products && products[p.id] == RowOf(p)
  }

  /** `p` is a product of the category that no product of the category
      undercuts. */
  ghost predicate CheapestOf(products: map<ProductId, ProductRow>, categoryId: CategoryId, p: Product)
  {
    && Stored(products, p) && p.categoryId == categoryId
    && forall id :: id in products && products[id].categoryId == categoryId ==> p.price <= products[id].price
  }

  /** `p` is a product of the category that no product of the category
      exceeds. */
  ghost predicate DearestOf(products: map<ProductId, ProductRow>, categoryId: CategoryId, p: Product)
  {
    && Stored(products, p) && p.categoryId == categoryId
    && forall id :: id in products && products[id].categoryId == categoryId ==> products[id].price <= p.price
  }

  /** `r` answers findMinMaxPriceProductByCategory for `categoryId`: it
      echoes the category; the min list holds exactly the category's
      products that no product of the category undercuts, the max list
      exactly those that none exceeds, each in ascending id order with no
      product twice; every product of the category is priced between the
      two; and a category without products gives two empty lists. */
  ghost predicate IsMinMaxAnswer(products: map<ProductId, ProductRow>, categoryId: CategoryId, r: MinMaxResult)
  {
    && r.categoryId == categoryId
    && (forall p :: p in r.minPriceProductList <==> CheapestOf(products, categoryId, p))
    && (forall p :: p in r.maxPriceProductList <==> DearestOf(products, categoryId, p))
    && (forall p, q, id ::
          (p in r.minPriceProductList && q in r.maxPriceProductList && id in products && products[id].categoryId == categoryId) ==>
          p.price <= products[id].price <= q.price)
    && (r.minPriceProductList == [] <==> categoryId !in CategoriesWithProducts(products))
    && (r.maxPriceProductList == [] <==> categoryId !in CategoriesWithProducts(products))
    && (forall i, j :: 0 <= i < j < |r.minPriceProductList| ==> r.minPriceProductList[i].id < r.minPriceProductList[j].id)
    && (forall i, j :: 0 <= i < j < |r.maxPriceProductList| ==> r.maxPriceProductList[i].id < r.maxPriceProductList[j].id)
  }

  /** findMinMaxPriceProductByCategory: the category's products at its
      lowest price and those at its highest price. */
  function FindMinMaxPriceProductByCategory(products: map<ProductId, ProductRow>, categoryId: CategoryId): (r: MinMaxResult)
    ensures IsMinMaxAnswer(products, categoryId, r)
  {
    var inCategory := InCategory(Rows(products), categoryId);
    if inCategory == [] then
      MinMaxEmpty(products, categoryId);
      MinMaxResult(categoryId, [], [])
    else
      var lo, hi := AtPrice(inCategory, MinPrice(inCategory)), AtPrice(inCategory, MaxPrice(inCategory));
      MinMaxFound(products, categoryId);
      MinMaxResult(categoryId, lo, hi)
  }

  /** A category without products gets two empty lists. */
  lemma MinMaxEmpty(products: map<ProductId, ProductRow>, categoryId: CategoryId)
    requires InCategory(Rows(products), categoryId) == []
    ensures IsMinMaxAnswer(products, categoryId, MinMaxResult(categoryId, [], []))
  {
    InCategoryOfRows(products, categoryId);
    InCategoryEmpty(products, categoryId);
  }

  /** A category with products gets its rows at the lowest and at the
      highest price. */
  lemma MinMaxFound(products: map<ProductId, ProductRow>, categoryId: CategoryId)
    requires InCategory(Rows(products), categoryId) != []
    ensures var inCategory := InCategory(Rows(products), categoryId);
      IsMinMaxAnswer(products, categoryId,
        MinMaxResult(categoryId, AtPrice(inCategory, MinPrice(inCategory)), AtPrice(inCategory, MaxPrice(inCategory))))
  {
    var inCategory := InCategory(Rows(products), categoryId);
    var lo, hi := AtPrice(inCategory, MinPrice(inCategory)), AtPrice(inCategory, MaxPrice(inCategory));
    MinMaxLists(products, categoryId);
    MinMaxOrdered(inCategory);
    AnswerOfExtremes(products, categoryId, lo, hi);
  }

  /** Two ordered lists holding exactly the cheapest and exactly the dearest
      products of a category that has products answer the query. */
  lemma AnswerOfExtremes(products: map<ProductId, ProductRow>, categoryId: CategoryId, lo: seq<Product>, hi: seq<Product>)
    requires forall p :: p in lo <==> CheapestOf(products, categoryId, p)
    requires forall p :: p in hi <==> DearestOf(products, categoryId, p)
    requires lo != [] && hi != [] && categoryId in CategoriesWithProducts(products)
    requires forall i, j :: 0 <= i < j < |lo| ==> lo[i].id < lo[j].id
    requires forall i, j :: 0 <= i < j < |hi| ==> hi[i].id < hi[j].id
    ensures IsMinMaxAnswer(products, categoryId, MinMaxResult(categoryId, lo, hi))
  {
    PricedBetween(products, categoryId, lo, hi);
  }

  /** Whatever lists hold exactly the cheapest and exactly the dearest
      products of a category bracket the price of every product in it. */
  lemma PricedBetween(products: map<ProductId, ProductRow>, categoryId: CategoryId, lo: seq<Product>, hi: seq<Product>)
    requires forall p :: p in lo ==> CheapestOf(products, categoryId, p)
    requires forall q :: q in hi ==> DearestOf(products, categoryId, q)
    ensures forall p, q, id ::
      (p in lo && q in hi && id in products && products[id].categoryId == categoryId) ==>
      p.price <= products[id].price <= q.price
  {
  }

  /** For a category with products, the two lists are exact and
      non-empty. */
  lemma MinMaxLists(products: map<ProductId, ProductRow>, categoryId: CategoryId)
    requires InCategory(Rows(products), categoryId) != []
    ensures var inCategory := InCategory(Rows(products), categoryId);
      var lo, hi := AtPrice(inCategory, MinPrice(inCategory)), AtPrice(inCategory, MaxPrice(inCategory));
      && (forall p :: p in lo <==> CheapestOf(products, categoryId, p))
      && (forall p :: p in hi <==> DearestOf(products, categoryId, p))
      && lo != [] && hi != [] && categoryId in CategoriesWithProducts(products)
  {
    var inCategory := InCategory(Rows(products), categoryId);
    InCategoryOfRows(products, categoryId);
    MinListCorrect(products, categoryId);
    MaxListCorrect(products, categoryId);
    MinMaxNonEmpty(inCategory);
    InCategoryEmpty(products, categoryId);
  }

  /** The products at the lowest price of non-empty rows are exactly those
      no row undercuts. */
  lemma AtMinPrice(rows: seq<Product>)
    requires rows != []
    ensures forall p :: p in AtPrice(rows, MinPrice(rows)) <==> p in rows && forall q :: q in rows ==> p.price <= q.price
  {
  }

  lemma AtMaxPrice(rows: seq<Product>)
    requires rows != []
    ensures forall p :: p in AtPrice(rows, MaxPrice(rows)) <==> p in rows && forall q :: q in rows ==> q.price <= p.price
  {
  }

  /** The category's rows of the scan are its stored products. */
  lemma InCategoryOfRows(products: map<ProductId, ProductRow>, c: CategoryId)
    ensures forall p :: p in InCategory(Rows(products), c) <==> Stored(products, p) && p.categoryId == c
    ensures forall id :: id in products && products[id].categoryId == c ==> ProductAt(products, id) in InCategory(Rows(products), c)
  {
    var inCategory := InCategory(Rows(products), c);
    forall id | id in products && products[id].categoryId == c
      ensures ProductAt(products, id) in inCategory
    {
      InRows(products, id);
    }
  }

  /** The category's rows of the scan are empty exactly when the category
      has no products. */
  lemma InCategoryEmpty(products: map<ProductId, ProductRow>, c: CategoryId)
    ensures InCategory(Rows(products), c) == [] <==> c !in CategoriesWithProducts(products)
  {
    var inCategory := InCategory(Rows(products), c);
    InCategoryOfRows(products, c);
    if inCategory != [] {
      assert inCategory[0] in inCategory;
    }
  }

  /** The rows at the lowest and at the highest price keep the scan's
      ascending id order. */
  lemma MinMaxOrdered(rows: seq<Product>)
    requires rows != []
    requires forall i, j :: 0 <= i < j < |rows| ==> rows[i].id < rows[j].id
    ensures var lo := AtPrice(rows, MinPrice(rows));
      forall i, j :: 0 <= i < j < |lo| ==> lo[i].id < lo[j].id
    ensures var hi := AtPrice(rows, MaxPrice(rows));
      forall i, j :: 0 <= i < j < |hi| ==> hi[i].id < hi[j].id
  {
  }

  /** Non-empty rows have at least one row at their lowest price and at
      least one at their highest. */
  lemma MinMaxNonEmpty(rows: seq<Product>)
    requires rows != []
    ensures AtPrice(rows, MinPrice(rows)) != [] && AtPrice(rows, MaxPrice(rows)) != []
  {
    var lo, hi := MinPrice(rows), MaxPrice(rows);
    var p :| p in rows && p.price == lo;
    assert p in AtPrice(rows, lo);
    var q :| q in rows && q.price == hi;
    assert q in AtPrice(rows, hi);
  }

  lemma MinListCorrect(products: map<ProductId, ProductRow>, categoryId: CategoryId)
    requires InCategory(Rows(products), categoryId) != []
    ensures var inCategory := InCategory(Rows(products), categoryId);
      forall p :: p in AtPrice(inCategory, MinPrice(inCategory)) <==> CheapestOf(products, categoryId, p)
  {
    var inCategory := InCategory(Rows(products), categoryId);
    InCategoryOfRows(products, categoryId);
    CheapestOfCategoryRows(products, categoryId, inCategory);
  }

  lemma MaxListCorrect(products: map<ProductId, ProductRow>, categoryId: CategoryId)
    requires InCategory(Rows(products), categoryId) != []
    ensures var inCategory := InCategory(Rows(products), categoryId);
      forall p :: p in AtPrice(inCategory, MaxPrice(inCategory)) <==> DearestOf(products, categoryId, p)
  {
    var inCategory := InCategory(Rows(products), categoryId);
    InCategoryOfRows(products, categoryId);
    DearestOfCategoryRows(products, categoryId, inCategory);
  }

  /** Over any rows that hold exactly the category's products, the rows at
      the lowest price are the category's cheapest products. */
  lemma CheapestOfCategoryRows(products: map<ProductId, ProductRow>, categoryId: CategoryId, rows: seq<Product>)
    requires rows != []
    requires forall p :: p in rows <==> Stored(products, p) && p.categoryId == categoryId
    requires forall id :: id in products && products[id].categoryId == categoryId ==> ProductAt(products, id) in rows
    ensures forall p :: p in AtPrice(rows, MinPrice(rows)) <==> CheapestOf(products, categoryId, p)
  {
    AtMinPrice(rows);
  }

  /** Over any rows that hold exactly the category's products, the rows at
      the highest price are the category's dearest products. */
  lemma DearestOfCategoryRows(products: map<ProductId, ProductRow>, categoryId: CategoryId, rows: seq<Product>)
    requires rows != []
    requires forall p :: p in rows <==> Stored(products, p) && p.categoryId == categoryId
    requires forall id :: id in products && products[id].categoryId == categoryId ==> ProductAt(products, id) in rows
    ensures forall p :: p in AtPrice(rows, MaxPrice(rows)) <==> DearestOf(products, categoryId, p)
  {
    AtMaxPrice(rows);
  }

  // --- listProducts ---------------------------------------------------

  /** `PRODUCT.ID > after`, or no condition when there is no cursor. */
  predicate IdAfter(after: Option<int>, id: ProductId)
  {
    after.None? || after.value < id
  }

  /** listProducts: the products after the cursor in ascending id order, at
      most `first` of them; they are the ones with the smallest such ids, so
      no qualifying product is skipped. */
  function ListProducts(products: map<ProductId, ProductRow>, after: Option<int>, first: nat): (r: seq<Product>)
    ensures |r| <= first
    ensures forall p :: p in r ==> Stored(products, p) && IdAfter(after, p.id)
    ensures forall i, j :: 0 <= i < j < |r| ==> r[i].id < r[j].id
    ensures forall id :: id in products && IdAfter(after, id) && ProductAt(products, id) !in r ==>
      |r| == first && forall p :: p in r ==> p.id < id
  {
    var scan := Rows(products);
    var keep := (p: Product) => IdAfter(after, p.id);
    PageIsLeastPrefix(scan, keep, first, (x: Product, y: Product) => x.id < y.id);
    AllInRows(products);
    Page(scan, keep, first)
  }

  /** listProducts as the code is written: the cursor condition is put on a
      copy of the query that is then dropped, so the page is the same as
      with no cursor at all. */
  function ListProductsAsWritten(products: map<ProductId, ProductRow>, after: Option<int>, first: nat): (r: seq<Product>)
    ensures |r| <= first
    ensures forall p :: p in r ==> Stored(products, p)
    ensures forall i, j :: 0 <= i < j < |r| ==> r[i].id < r[j].id
    ensures forall id :: id in products && ProductAt(products, id) !in r ==>
      |r| == first && forall p :: p in r ==> p.id < id
  {
    ListProducts(products, None, first)
  }

  /** The cursor is lost: with `after` set to the smallest stored id, the
      code as written still returns that product, which the cursor was
      meant to skip. */
  lemma ListProductsIgnoresCursor(products: map<ProductId, ProductRow>, id: ProductId, first: nat)
    requires id in products && first > 0
    requires forall k :: k in products ==> id <= k
    ensures ProductAt(products, id) in ListProductsAsWritten(products, Some(id), first)
    ensures ProductAt(products, id) !in ListProducts(products, Some(id), first)
  {
    var r := ListProductsAsWritten(products, Some(id), first);
    if r != [] {
      assert r[0] in r;
    }
  }
}
