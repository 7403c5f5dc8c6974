/** The catalog's four tables, BRAND, CATEGORY, PRODUCT and BRAND_CATEGORY,
    held as one in-memory database object, together with the invariant that
    ties the derived BRAND_CATEGORY counts to the PRODUCT rows. */
module Catalog {
  import opened StringOrder

  type BrandId = string
  type CategoryId = string
  type ProductId = nat
  /** A price in hundredths (the source's DECIMAL with scale 2); never negative. */
  type Price = nat

  /** A PRODUCT row without its key. */
  datatype ProductRow = ProductRow(brandId: BrandId, categoryId: CategoryId, price: Price)

  /** A product as the services return it (domain/Product.kt). */
  datatype Product = Product(id: ProductId, brandId: BrandId, categoryId: CategoryId, price: Price)

  /** The primary key of a BRAND_CATEGORY row. */
  datatype BrandCategory = BrandCategory(brandId: BrandId, categoryId: CategoryId)

  /** The failures the services report; `Internal` stands for database
      errors the services do not translate (they surface as server errors). */
  datatype Error = BadRequest | Conflict | NotFound | Internal

  datatype Result<T> = Ok(value: T) | Err(error: Error)

  /** An optional value, such as a paging cursor that may be absent. */
  datatype Option<T> = None | Some(value: T)

  function KeyOf(row: ProductRow): BrandCategory
  {
    BrandCategory(row.brandId, row.categoryId)
  }

  function RowOf(p: Product): ProductRow
  {
    ProductRow(p.brandId, p.categoryId, p.price)
  }

  /** The check constraint on BRAND.ID: no lower-case Latin letter. */
  predicate BrandIdAllowed(id: BrandId)
  {
    forall i :: 0 <= i < |id| ==> !('a' <= id[i] <= 'z')
  }

  /** The count stored for `k`, 0 when there is no row. */
  function LinkCount(links: map<BrandCategory, int>, k: BrandCategory): int
  {
    if k in links then links[k] else 0
  }

  /** The ids of the products whose (brand, category) pair is `k`. */
  ghost function ProductsWith(products: map<ProductId, ProductRow>, k: BrandCategory): set<ProductId>
  {
    set id | id in products && KeyOf(products[id]) == k
  }

  /** The central invariant: every stored count is at least 1, and for every
      (brand, category) pair the count equals the number of products with
      that pair (a missing row counting as 0). */
  ghost predicate CountsConsistent(products: map<ProductId, ProductRow>, links: map<BrandCategory, int>)
  {
    && (forall k :: k in links ==> links[k] >= 1)
    && (forall k :: LinkCount(links, k) == |ProductsWith(products, k)|)
  }

  /** The contents of all tables at one moment, as a transaction sees them. */
  datatype Snapshot = Snapshot(
    brands: set<BrandId>,
    categories: set<CategoryId>,
    products: map<ProductId, ProductRow>,
    links: map<BrandCategory, int>,
    nextId: ProductId)

  /** Foreign keys, the brand-id check constraint, fresh ids, and the
      central count invariant. */
  ghost predicate Consistent(s: Snapshot)
  {
    && (forall b :: b in s.brands ==> BrandIdAllowed(b))
    && (forall id :: id in s.products ==> id < s.nextId)
    && (forall id :: id in s.products ==>
          s.products[id].brandId in s.brands && s.products[id].categoryId in s.categories)
    && (forall k :: k in s.links ==> k.brandId in s.brands && k.categoryId in s.categories)
    && CountsConsistent(s.products, s.links)
  }

  /** The count row of `k` after an increment, or after an upsert that
      creates it with 1. */
  function Upserted(links: map<BrandCategory, int>, k: BrandCategory): map<BrandCategory, int>
  {
    links[k := LinkCount(links, k) + 1]
  }

  /** Inserting a product under the next id, for an existing brand and
      category, while raising its pair's count keeps the database consistent. */
  lemma ConsistentAfterInsert(s: Snapshot, row: ProductRow)
    requires Consistent(s)
    requires row.brandId in s.brands && row.categoryId in s.categories
    ensures Consistent(s.(products := s.products[s.nextId := row], links := Upserted(s.links, KeyOf(row)), nextId := s.nextId + 1))
  {
    CountsAfterInsert(s.products, s.links, s.nextId, row, Upserted(s.links, KeyOf(row)));
  }

  /** Moving a product to another existing pair, the old pair keeping at
      least one other product, keeps the database consistent. */
  lemma ConsistentAfterMove(s: Snapshot, id: ProductId, row: ProductRow)
    requires Consistent(s)
    requires id in s.products && KeyOf(s.products[id]) != KeyOf(row)
    requires LinkCount(s.links, KeyOf(s.products[id])) >= 2
    requires KeyOf(row) in s.links
    ensures
      var from, to := KeyOf(s.products[id]), KeyOf(row);
      var links1 := s.links[from := s.links[from] - 1];
      Consistent(s.(products := s.products[id := row], links := links1[to := links1[to] + 1]))
  {
    CountsAfterMove(s.products, s.links, id, row);
  }

  /** Changing a product's price alone keeps the database consistent. */
  lemma ConsistentAfterReprice(s: Snapshot, id: ProductId, row: ProductRow)
    requires Consistent(s)
    requires id in s.products && KeyOf(s.products[id]) == KeyOf(row)
    ensures Consistent(s.(products := s.products[id := row]))
  {
    CountsAfterReprice(s.products, s.links, id, row);
  }

  class Database {
    var brands: set<BrandId>
    var categories: set<CategoryId>
    var products: map<ProductId, ProductRow>
    var links: map<BrandCategory, int>
    /** The next value of PRODUCT.ID's auto-increment sequence. */
    var nextId: ProductId

    /** The database invariant, see `Consistent`. */
    ghost predicate Valid()
      reads this
    {
      Consistent(Current())
    }

    /** An empty catalog over the categories seeded out of band. */
    constructor (categories: set<CategoryId>)
      ensures Valid()
      ensures this.categories == categories
      ensures brands == {} && products == map[] && links == map[] && nextId == 1
    {
      this.brands := {};
      this.categories := categories;
      this.products := map[];
      this.links := map[];
      this.nextId := 1;
      new;
      forall k ensures LinkCount(links, k) == |ProductsWith(products, k)| {
        assert ProductsWith(products, k) == {};
      }
    }

    function Current(): Snapshot
      reads this
    {
      Snapshot(brands, categories, products, links, nextId)
    }

    /** Rolls the tables back to `s`, as an aborted transaction does. */
    method Rollback(s: Snapshot)
      modifies this
      ensures brands == s.brands && categories == s.categories && products == s.products
      ensures links == s.links && nextId == s.nextId
    {
      brands, categories, products, links, nextId := s.brands, s.categories, s.products, s.links, s.nextId;
    }
  }

  /** Adding one product with a fresh id and raising its pair's count by one
      (creating the row with 1 when absent) keeps the counts consistent. */
  lemma CountsAfterInsert(
    products: map<ProductId, ProductRow>, links: map<BrandCategory, int>,
    id: ProductId, row: ProductRow, links': map<BrandCategory, int>)
    requires CountsConsistent(products, links)
    requires id !in products
    requires links' == links[KeyOf(row) := LinkCount(links, KeyOf(row)) + 1]
    ensures CountsConsistent(products[id := row], links')
  {
    var products' := products[id := row];
    forall k ensures LinkCount(links', k) == |ProductsWith(products', k)| {
      ProductsWithAfterInsert(products, id, row, k);
      if k == KeyOf(row) {
        assert id !in ProductsWith(products, k);
      }
    }
  }

  /** The products of pair `k` after adding product `id`. */
  lemma ProductsWithAfterInsert(products: map<ProductId, ProductRow>, id: ProductId, row: ProductRow, k: BrandCategory)
    requires id !in products
    ensures ProductsWith(products[id := row], k)
         == if KeyOf(row) == k then ProductsWith(products, k) + {id} else ProductsWith(products, k)
  {
  }

  /** Removing a product whose pair's count is at least 2 and lowering that
      count by one keeps the counts consistent. */
  lemma CountsAfterRemove(
    products: map<ProductId, ProductRow>, links: map<BrandCategory, int>,
    id: ProductId, links': map<BrandCategory, int>)
    requires CountsConsistent(products, links)
    requires id in products
    requires LinkCount(links, KeyOf(products[id])) >= 2
    requires links' == links[KeyOf(products[id]) := links[KeyOf(products[id])] - 1]
    ensures CountsConsistent(products - {id}, links')
  {
    var products' := products - {id};
    forall k ensures LinkCount(links', k) == |ProductsWith(products', k)| {
      if k == KeyOf(products[id]) {
        assert ProductsWith(products', k) == ProductsWith(products, k) - {id};
      } else {
        assert ProductsWith(products', k) == ProductsWith(products, k);
      }
    }
  }

  /** Moving a product to another pair: the old pair's count (at least 2)
      drops by one and the new pair's count (its row present) rises by one. */
  lemma CountsAfterMove(
    products: map<ProductId, ProductRow>, links: map<BrandCategory, int>,
    id: ProductId, row: ProductRow)
    requires CountsConsistent(products, links)
    requires id in products && KeyOf(products[id]) != KeyOf(row)
    requires LinkCount(links, KeyOf(products[id])) >= 2
    requires KeyOf(row) in links
    ensures
      var from, to := KeyOf(products[id]), KeyOf(row);
      var links1 := links[from := links[from] - 1];
      CountsConsistent(products[id := row], links1[to := links1[to] + 1])
  {
    var from, to := KeyOf(products[id]), KeyOf(row);
    var links1 := links[from := links[from] - 1];
    CountsAfterRemove(products, links, id, links1);
    CountsAfterInsert(products - {id}, links1, id, row, links1[to := links1[to] + 1]);
    assert (products - {id})[id := row] == products[id := row];
  }

  /** Changing a product without changing its pair leaves every count right. */
  lemma CountsAfterReprice(
    products: map<ProductId, ProductRow>, links: map<BrandCategory, int>,
    id: ProductId, row: ProductRow)
    requires CountsConsistent(products, links)
    requires id in products && KeyOf(products[id]) == KeyOf(row)
    ensures CountsConsistent(products[id := row], links)
  {
    forall k ensures LinkCount(links, k) == |ProductsWith(products[id := row], k)| {
      assert ProductsWith(products[id := row], k) == ProductsWith(products, k);
    }
  }

  /** Under the invariant, a product's pair always has a row, with a count
      that is at least 1. */
  lemma LinkOfProduct(products: map<ProductId, ProductRow>, links: map<BrandCategory, int>, id: ProductId)
    requires CountsConsistent(products, links)
    requires id in products
    ensures KeyOf(products[id]) in links && links[KeyOf(products[id])] >= 1
  {
    var k := KeyOf(products[id]);
    assert id in ProductsWith(products, k);
    assert LinkCount(links, k) == |ProductsWith(products, k)|;
  }

  /** The least element of a non-empty finite set of ids. */
  lemma {:induction false} LeastId(s: set<ProductId>) returns (m: ProductId)
    requires s != {}
    ensures m in s && forall y :: y in s ==> m <= y
  {
    var x :| x in s;
    if s == {x} {
      m := x;
    } else {
      var rest := s - {x};
      var m' := LeastId(rest);
      m := if x < m' then x else m';
      forall y | y in s ensures m <= y {
        if y != x {
          assert y in rest;
        }
      }
    }
  }

  /** A non-empty finite set of ids has a least element. */
  lemma LeastIdExists(s: set<ProductId>)
    requires s != {}
    ensures exists m :: m in s && forall y :: y in s ==> m <= y
  {
    var m := LeastId(s);
  }

  /** The least id of a non-empty set. */
  function MinId(s: set<ProductId>): (m: ProductId)
    requires s != {}
    ensures m in s && forall y :: y in s ==> m <= y
  {
    LeastIdExists(s);
    var m :| m in s && forall y :: y in s ==> m <= y;
    m
  }

  /** The ids of `s` in ascending order. */
  function SortedIds(s: set<ProductId>): (r: seq<ProductId>)
    ensures forall id :: id in r <==> id in s
    ensures forall i, j :: 0 <= i < j < |r| ==> r[i] < r[j]
    decreases s
  {
    if s == {} then []
    else
      var m := MinId(s);
      var rest := SortedIds(s - {m});
      LeastIdThenSorted(s, m, rest);
      [m] + rest
  }

  /** The least id of `s` followed by the rest of `s` in ascending order is
      `s` in ascending order. */
  lemma LeastIdThenSorted(s: set<ProductId>, m: ProductId, rest: seq<ProductId>)
    requires m in s && forall y :: y in s ==> m <= y
    requires forall id :: id in rest <==> id in s - {m}
    requires forall i, j :: 0 <= i < j < |rest| ==> rest[i] < rest[j]
    ensures forall id :: id in [m] + rest <==> id in s
    ensures forall i, j :: 0 <= i < j < |[m] + rest| ==> ([m] + rest)[i] < ([m] + rest)[j]
  {
    var r := [m] + rest;
    forall i, j | 0 <= i < j < |r| ensures r[i] < r[j] {
      assert r[j] == rest[j - 1];
      if i > 0 {
        assert r[i] == rest[i - 1];
      } else {
        assert r[j] in rest;
      }
    }
  }

  /** The PRODUCT table read in primary-key order: the scan every read query
      runs over. */
  function Rows(products: map<ProductId, ProductRow>): (rows: seq<Product>)
    ensures forall p :: p in rows <==> p.id in products && products[p.id] == RowOf(p)
    ensures forall i, j :: 0 <= i < j < |rows| ==> rows[i].id < rows[j].id
  {
    var ids := SortedIds(products.Keys);
    var rows := seq(|ids|, i requires 0 <= i < |ids| =>
      Product(ids[i], products[ids[i]].brandId, products[ids[i]].categoryId, products[ids[i]].price));
    assert forall p: Product :: p.id in products && products[p.id] == RowOf(p) ==> p in rows by {
      forall p: Product | p.id in products && products[p.id] == RowOf(p) ensures p in rows {
        var i :| 0 <= i < |ids| && ids[i] == p.id;
        assert rows[i] == p;
      }
    }
    rows
  }

  /** The product stored under `id`. */
  function ProductAt(products: map<ProductId, ProductRow>, id: ProductId): Product
    requires id in products
  {
    Product(id, products[id].brandId, products[id].categoryId, products[id].price)
  }

  /** Every stored product shows up in the scan. */
  lemma InRows(products: map<ProductId, ProductRow>, id: ProductId)
    requires id in products
    ensures ProductAt(products, id) in Rows(products)
  {
  }

  lemma AllInRows(products: map<ProductId, ProductRow>)
    ensures forall id :: id in products ==> ProductAt(products, id) in Rows(products)
  {
    forall id | id in products ensures ProductAt(products, id) in Rows(products) {
      InRows(products, id);
    }
  }
}
