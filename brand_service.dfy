/** BrandService: creating a brand together with one product per category,
    renaming a brand, deleting a brand with everything it owns, and listing
    brand ids page by page. */
module BrandService {
  import opened StringOrder
  import opened Catalog
  import opened Sequences

  /** `BRAND.ID > after`, or no condition when there is no cursor. */
  predicate IsAfter(after: Option<BrandId>, b: BrandId)
  {
    after.None? || LexLess(after.value, b)
  }

  /** list: the brand ids after the cursor in ascending order, at most
      `first` of them; they are the smallest such ids, so no qualifying id
      is skipped. */
  function List(brands: set<BrandId>, after: Option<BrandId>, first: nat): (r: seq<BrandId>)
    ensures |r| <= first
    ensures forall b :: b in r ==> b in brands && IsAfter(after, b)
    ensures forall i, j :: 0 <= i < j < |r| ==> LexLess(r[i], r[j])
    ensures forall b :: b in brands && IsAfter(after, b) && b !in r ==>
      |r| == first && forall x :: x in r ==> LexLess(x, b)
  {
    var scan := Sorted(brands);
    var keep := b => IsAfter(after, b);
    PageIsLeastPrefix(scan, keep, first, (x, y) => LexLess(x, y));
    Page(scan, keep, first)
  }

  /** list as the code is written: the cursor condition is put on a copy of
      the query that is then dropped, so the page is the same as with no
      cursor at all. */
  function ListAsWritten(brands: set<BrandId>, after: Option<BrandId>, first: nat): (r: seq<BrandId>)
    ensures |r| <= first
    ensures forall b :: b in r ==> b in brands
    ensures forall i, j :: 0 <= i < j < |r| ==> LexLess(r[i], r[j])
    ensures forall b :: b in brands && b !in r ==> |r| == first && forall x :: x in r ==> LexLess(x, b)
  {
    List(brands, None, first)
  }

  /** The cursor is lost: with `after` set to the least brand id, the code
      as written still returns that brand, which the cursor was meant to
      skip. */
  lemma ListIgnoresCursor(brands: set<BrandId>, b: BrandId, first: nat)
    requires b in brands && first > 0
    requires forall x :: x in brands ==> LexLe(b, x)
    ensures b in ListAsWritten(brands, Some(b), first)
    ensures b !in List(brands, Some(b), first)
  {
    var r := ListAsWritten(brands, Some(b), first);
    LexLessIrreflexive(b);
    if r != [] && b !in r {
      assert r[0] in r;
      LexLessAsymmetric(r[0], b);
    }
  }

  /** One requested product of a new brand (CreateProductWithBrandRequestBody). */
  datatype ProductEntry = ProductEntry(categoryId: CategoryId, price: Price)

  datatype CreateBrandResult = CreateBrandResult(brand: BrandId, productList: seq<Product>)

  /** The categories named by a request, duplicates collapsed. */
  function RequestedCategories(productList: seq<ProductEntry>): set<CategoryId>
  {
    set e | e in productList :: e.categoryId
  }

  /** How many entries of the request name category `c`. */
  function Occurrences(productList: seq<ProductEntry>, c: CategoryId): nat
  {
    if productList == [] then 0
    else
      var last := productList[|productList| - 1];
      Occurrences(productList[..|productList| - 1], c) + (if last.categoryId == c then 1 else 0)
  }

  /** The products a request creates, in list order, with ids counted up
      from `start`. */
  function NewProducts(start: ProductId, id: BrandId, productList: seq<ProductEntry>): seq<Product>
  {
    if productList == [] then []
    else
      var last := productList[|productList| - 1];
      NewProducts(start, id, productList[..|productList| - 1]) + [Product(start + |productList| - 1, id, last.categoryId, last.price)]
  }

  /** The created products follow the request: entry `i` becomes product
      `start + i`, with the entry's category and price. */
  lemma {:induction false} NewProductsFollowRequest(start: ProductId, id: BrandId, productList: seq<ProductEntry>)
    ensures |NewProducts(start, id, productList)| == |productList|
    ensures forall i :: 0 <= i < |productList| ==>
      NewProducts(start, id, productList)[i] == Product(start + i, id, productList[i].categoryId, productList[i].price)
  {
    if productList != [] {
      var init := productList[..|productList| - 1];
      NewProductsFollowRequest(start, id, init);
      forall i | 0 <= i < |init| ensures productList[i] == init[i] {
      }
    }
  }

  /** The PRODUCT rows a request inserts, keyed by their ids. */
  function NewRows(start: ProductId, id: BrandId, productList: seq<ProductEntry>): map<ProductId, ProductRow>
  {
    if productList == [] then map[]
    else
      var last := productList[|productList| - 1];
      NewRows(start, id, productList[..|productList| - 1])[start + |productList| - 1 := ProductRow(id, last.categoryId, last.price)]
  }

  /** The inserted rows follow the request: they take the ids `start` up to
      `start + |productList| - 1`, entry `i` under id `start + i`. */
  lemma {:induction false} NewRowsFollowRequest(start: ProductId, id: BrandId, productList: seq<ProductEntry>)
    ensures forall pid :: pid in NewRows(start, id, productList) <==> start <= pid < start + |productList|
    ensures forall i :: 0 <= i < |productList| ==>
      NewRows(start, id, productList)[start + i] == ProductRow(id, productList[i].categoryId, productList[i].price)
  {
    if productList != [] {
      var init := productList[..|productList| - 1];
      NewRowsFollowRequest(start, id, init);
      forall i | 0 <= i < |init| ensures productList[i] == init[i] {
      }
    }
  }

  /** The validation loop of createBrand: every existing category must be
      named by some entry. */
  method CoversAllCategories(categories: set<CategoryId>, productList: seq<ProductEntry>)
    returns (covered: bool)
    ensures covered <==> categories <= RequestedCategories(productList)
  {
    var categorySet := RequestedCategories(productList);
    var remaining := categories;
    while remaining != {}
      invariant remaining <= categories
      invariant categories - remaining <= categorySet
      decreases remaining
    {
      var categoryId :| categoryId in remaining;
      if categoryId !in categorySet {
        return false;
      }
      remaining := remaining - {categoryId};
    }
    return true;
  }

  /** createBrand: a known id is a conflict; a request that misses an
      existing category, or an id with a lower-case Latin letter, is a bad
      request; an entry naming an unknown category breaks a foreign key and
      rolls everything back. Otherwise the brand and one product per entry
      are inserted, each entry raising (or creating with 1) its pair's count. */
  method CreateBrand(db: Database, id: BrandId, productList: seq<ProductEntry>)
    returns (r: Result<CreateBrandResult>)
    requires db.Valid()
    modifies db
    ensures db.Valid()
    ensures id in old(db.brands) ==> r == Err(Conflict) && db.Current() == old(db.Current())
    ensures id !in old(db.brands) && !(old(db.categories) <= RequestedCategories(productList)) ==>
      r == Err(BadRequest) && db.Current() == old(db.Current())
    ensures id !in old(db.brands) && old(db.categories) <= RequestedCategories(productList) && !BrandIdAllowed(id) ==>
      r == Err(BadRequest) && db.Current() == old(db.Current())
    ensures id !in old(db.brands) && old(db.categories) <= RequestedCategories(productList) && BrandIdAllowed(id)
            && !(RequestedCategories(productList) <= old(db.categories)) ==>
      r == Err(Internal) && db.Current() == old(db.Current())
    ensures id !in old(db.brands) && RequestedCategories(productList) == old(db.categories) && BrandIdAllowed(id) ==>
      && r == Ok(CreateBrandResult(id, NewProducts(old(db.nextId), id, productList)))
      && db.brands == old(db.brands) + {id}
      && db.categories == old(db.categories)
      && db.products == old(db.products) + NewRows(old(db.nextId), id, productList)
      && db.nextId == old(db.nextId) + |productList|
      && (forall c :: LinkCount(db.links, BrandCategory(id, c)) == Occurrences(productList, c))
      && (forall k: BrandCategory :: k.brandId != id ==> LinkCount(db.links, k) == LinkCount(old(db.links), k))
  {
    if id in db.brands {
      return Err(Conflict);
    }
    var covered := CoversAllCategories(db.categories, productList);
    if !covered {
      return Err(BadRequest);
    }
    if !BrandIdAllowed(id) {
      return Err(BadRequest);
    }
    var saved := db.Current();
    db.brands := db.brands + {id};
    var created := InsertBrandProducts(db, saved, id, productList);
    if created.Err? {
      db.Rollback(saved);
      return Err(created.error);
    }
    InsertedAll(db.Current(), saved, id, productList);
    return Ok(CreateBrandResult(id, created.value));
  }

  /** The second half of createBrand, once the brand row is in: one PRODUCT
      insert and one BRAND_CATEGORY upsert per entry, in list order; an entry
      whose category does not exist fails its foreign key and stops the
      loop (the caller's transaction then rolls back). */
  method InsertBrandProducts(db: Database, saved: Snapshot, id: BrandId, productList: seq<ProductEntry>)
    returns (r: Result<seq<Product>>)
    requires db.Valid()
    requires id !in saved.brands && db.Current() == saved.(brands := saved.brands + {id})
    requires forall k :: k in saved.links ==> k.brandId in saved.brands
    modifies db
    ensures db.Valid()
    ensures !(RequestedCategories(productList) <= saved.categories) ==> r == Err(Internal)
    ensures RequestedCategories(productList) <= saved.categories ==>
      && r == Ok(NewProducts(saved.nextId, id, productList))
      && InsertedUpTo(db.Current(), saved, id, productList, |productList|)
  {
    var created: seq<Product> := [];
    var i := 0;
    InsertedNone(db.Current(), saved, id, productList);
    while i < |productList|
      invariant 0 <= i <= |productList|
      invariant db.Valid()
      invariant InsertedUpTo(db.Current(), saved, id, productList, i)
      invariant created == NewProducts(saved.nextId, id, productList[..i])
    {
      var entry := productList[i];
      if entry.categoryId !in db.categories {
        assert entry.categoryId in RequestedCategories(productList);
        return Err(Internal);
      }
      created := InsertNext(db, saved, id, productList, i, created);
      i := i + 1;
    }
    assert productList[..i] == productList;
    RequestedExist(productList, saved.categories);
    return Ok(created);
  }

  /** Entry `i` of InsertBrandProducts, its category known to exist: the
      product goes in and joins the list of created products. */
  method InsertNext(db: Database, ghost saved: Snapshot, id: BrandId, productList: seq<ProductEntry>, i: nat,
                    created: seq<Product>)
    returns (created': seq<Product>)
    requires i < |productList| && productList[i].categoryId in db.categories
    requires db.Valid() && InsertedUpTo(db.Current(), saved, id, productList, i)
    requires created == NewProducts(saved.nextId, id, productList[..i])
    modifies db
    ensures db.Valid() && InsertedUpTo(db.Current(), saved, id, productList, i + 1)
    ensures created' == NewProducts(saved.nextId, id, productList[..i + 1])
  {
    var entry := productList[i];
    ghost var before := db.Current();
    var pid := db.nextId;
    InsertEntry(db, id, entry);
    InsertedStep(before, db.Current(), saved, id, productList, i);
    NewRowsStep(saved.nextId, id, productList, i);
    created' := created + [Product(pid, id, entry.categoryId, entry.price)];
  }

  /** One entry of createBrand: INSERT INTO PRODUCT, then INSERT INTO
      BRAND_CATEGORY ... ON DUPLICATE KEY UPDATE count = count + 1. */
  method InsertEntry(db: Database, id: BrandId, entry: ProductEntry)
    requires db.Valid()
    requires id in db.brands && entry.categoryId in db.categories
    modifies db
    ensures db.Valid()
    ensures
      var row := ProductRow(id, entry.categoryId, entry.price);
      db.Current() == old(db.Current()).(
        products := old(db.products)[old(db.nextId) := row],
        links := Upserted(old(db.links), KeyOf(row)),
        nextId := old(db.nextId) + 1)
  {
    var row := ProductRow(id, entry.categoryId, entry.price);
    ConsistentAfterInsert(db.Current(), row);
    db.products := db.products[db.nextId := row];
    db.nextId := db.nextId + 1;
    var k := KeyOf(row);
    db.links := db.links[k := if k in db.links then db.links[k] + 1 else 1];
  }

  /** The state of InsertBrandProducts after its first `i` entries, relative
      to the state `saved` before the brand row went in. */
  ghost predicate InsertedUpTo(s: Snapshot, saved: Snapshot, id: BrandId, productList: seq<ProductEntry>, i: nat)
    requires i <= |productList|
  {
    && s.brands == saved.brands + {id} && s.categories == saved.categories
    && s.nextId == saved.nextId + i
    && s.products == saved.products + NewRows(saved.nextId, id, productList[..i])
    && (forall c :: LinkCount(s.links, BrandCategory(id, c)) == Occurrences(productList[..i], c))
    && (forall k: BrandCategory :: k.brandId != id ==> LinkCount(s.links, k) == LinkCount(saved.links, k))
    && (forall j :: 0 <= j < i ==> productList[j].categoryId in saved.categories)
  }

  /** Right after the brand row went in, nothing of the request is inserted
      yet. */
  lemma InsertedNone(s: Snapshot, saved: Snapshot, id: BrandId, productList: seq<ProductEntry>)
    requires id !in saved.brands && s == saved.(brands := saved.brands + {id})
    requires forall k :: k in saved.links ==> k.brandId in saved.brands
    ensures InsertedUpTo(s, saved, id, productList, 0)
  {
    forall c ensures LinkCount(s.links, BrandCategory(id, c)) == 0 {
      assert BrandCategory(id, c) !in saved.links;
    }
    assert productList[..0] == [];
  }

  /** Once every entry is inserted, every requested category existed and
      the tables hold exactly the request's rows and counts. */
  lemma InsertedAll(s: Snapshot, saved: Snapshot, id: BrandId, productList: seq<ProductEntry>)
    requires InsertedUpTo(s, saved, id, productList, |productList|)
    ensures RequestedCategories(productList) <= saved.categories
    ensures s.brands == saved.brands + {id} && s.categories == saved.categories
    ensures s.products == saved.products + NewRows(saved.nextId, id, productList)
    ensures s.nextId == saved.nextId + |productList|
    ensures forall c :: LinkCount(s.links, BrandCategory(id, c)) == Occurrences(productList, c)
    ensures forall k: BrandCategory :: k.brandId != id ==> LinkCount(s.links, k) == LinkCount(saved.links, k)
  {
    assert productList[..|productList|] == productList;
    RequestedExist(productList, saved.categories);
  }

  /** A request whose every entry names one of `categories` requests only
      those categories. */
  lemma RequestedExist(productList: seq<ProductEntry>, categories: set<CategoryId>)
    requires forall j :: 0 <= j < |productList| ==> productList[j].categoryId in categories
    ensures RequestedCategories(productList) <= categories
  {
    forall c | c in RequestedCategories(productList) ensures c in categories {
      var j :| 0 <= j < |productList| && productList[j].categoryId == c;
    }
  }

  lemma InsertedStep(before: Snapshot, after: Snapshot, saved: Snapshot, id: BrandId, productList: seq<ProductEntry>, i: nat)
    requires i < |productList|
    requires InsertedUpTo(before, saved, id, productList, i)
    requires productList[i].categoryId in saved.categories
    requires
      var row := ProductRow(id, productList[i].categoryId, productList[i].price);
      after == before.(products := before.products[before.nextId := row],
                       links := Upserted(before.links, KeyOf(row)),
                       nextId := before.nextId + 1)
    ensures InsertedUpTo(after, saved, id, productList, i + 1)
  {
    var row := ProductRow(id, productList[i].categoryId, productList[i].price);
    NewRowsStep(saved.nextId, id, productList, i);
    var added := NewRows(saved.nextId, id, productList[..i]);
    assert (saved.products + added)[before.nextId := row] == saved.products + added[before.nextId := row];
    UpsertStep(before.links, saved.links, id, productList, i);
  }

  /** The link-count half of the loop invariant of InsertBrandProducts
      survives one upsert. */
  lemma UpsertStep(links: map<BrandCategory, int>, links0: map<BrandCategory, int>, id: BrandId,
                   productList: seq<ProductEntry>, i: nat)
    requires i < |productList|
    requires forall c :: LinkCount(links, BrandCategory(id, c)) == Occurrences(productList[..i], c)
    requires forall k: BrandCategory :: k.brandId != id ==> LinkCount(links, k) == LinkCount(links0, k)
    ensures
      var links' := Upserted(links, BrandCategory(id, productList[i].categoryId));
      && (forall c :: LinkCount(links', BrandCategory(id, c)) == Occurrences(productList[..i + 1], c))
      && (forall k: BrandCategory :: k.brandId != id ==> LinkCount(links', k) == LinkCount(links0, k))
  {
    OccurrencesStep(productList, i);
  }

  lemma NewRowsStep(start: ProductId, id: BrandId, productList: seq<ProductEntry>, i: nat)
    requires i < |productList|
    ensures NewRows(start, id, productList[..i + 1])
         == NewRows(start, id, productList[..i])[start + i := ProductRow(id, productList[i].categoryId, productList[i].price)]
    ensures NewProducts(start, id, productList[..i + 1])
         == NewProducts(start, id, productList[..i]) + [Product(start + i, id, productList[i].categoryId, productList[i].price)]
  {
    assert productList[..i + 1][..i] == productList[..i];
  }

  lemma OccurrencesStep(productList: seq<ProductEntry>, i: nat)
    requires i < |productList|
    ensures forall c :: Occurrences(productList[..i + 1], c)
                     == Occurrences(productList[..i], c) + (if productList[i].categoryId == c then 1 else 0)
  {
    assert productList[..i + 1][..i] == productList[..i];
  }

  /** The PRODUCT table after `UPDATE PRODUCT SET BRAND_ID = newId WHERE
      BRAND_ID = id`. */
  function RenameProducts(products: map<ProductId, ProductRow>, id: BrandId, newId: BrandId): map<ProductId, ProductRow>
  {
    map pid | pid in products :: if products[pid].brandId == id then products[pid].(brandId := newId) else products[pid]
  }

  /** The BRAND_CATEGORY rows of `id`, re-keyed to `newId`. */
  function MovedKeys(links: map<BrandCategory, int>, id: BrandId, newId: BrandId): set<BrandCategory>
  {
    set k | k in links && k.brandId == id :: BrandCategory(newId, k.categoryId)
  }

  /** The BRAND_CATEGORY table after `UPDATE BRAND_CATEGORY SET BRAND_ID =
      newId WHERE BRAND_ID = id`. */
  function RenameLinks(links: map<BrandCategory, int>, id: BrandId, newId: BrandId): map<BrandCategory, int>
  {
    var moved := MovedKeys(links, id, newId);
    assert forall k :: k in moved ==> BrandCategory(id, k.categoryId) in links by {
      forall k | k in moved ensures BrandCategory(id, k.categoryId) in links {
        var k0 :| k0 in links && k0.brandId == id && BrandCategory(newId, k0.categoryId) == k;
        assert k0 == BrandCategory(id, k.categoryId);
      }
    }
    (map k | k in links && k.brandId != id :: links[k])
      + (map k | k in moved :: links[BrandCategory(id, k.categoryId)])
  }

  /** Renaming a brand to an id no row uses yet moves every count of `id`
      to `newId` unchanged and keeps the database consistent. */
  lemma ConsistentAfterRename(s: Snapshot, id: BrandId, newId: BrandId)
    requires Consistent(s)
    requires newId !in s.brands && BrandIdAllowed(newId)
    ensures
      var links' := RenameLinks(s.links, id, newId);
      && Consistent(s.(brands := s.brands + {newId} - {id},
                       products := RenameProducts(s.products, id, newId),
                       links := links'))
      && (forall c :: LinkCount(links', BrandCategory(newId, c)) == LinkCount(s.links, BrandCategory(id, c)))
      && (id != newId ==> forall c :: LinkCount(links', BrandCategory(id, c)) == 0)
      && (forall k: BrandCategory :: k.brandId != id && k.brandId != newId ==> LinkCount(links', k) == LinkCount(s.links, k))
  {
    RenameLinkCounts(s.links, id, newId);
    RenameKeepsCounts(s.products, s.links, id, newId);
    RenameKeepsForeignKeys(s, id, newId);
  }

  /** Renaming the brand in PRODUCT and in BRAND_CATEGORY together keeps every
      count equal to its number of products. */
  lemma RenameKeepsCounts(products: map<ProductId, ProductRow>, links: map<BrandCategory, int>, id: BrandId, newId: BrandId)
    requires CountsConsistent(products, links)
    requires forall k :: k in links ==> k.brandId != newId
    requires forall pid :: pid in products ==> products[pid].brandId != newId
    ensures CountsConsistent(RenameProducts(products, id, newId), RenameLinks(links, id, newId))
  {
    var products' := RenameProducts(products, id, newId);
    var links' := RenameLinks(links, id, newId);
    RenameLinkCounts(links, id, newId);
    RenameProductsWith(products, id, newId);
    forall k ensures LinkCount(links', k) == |ProductsWith(products', k)| {
      if k.brandId == newId {
        assert LinkCount(links, BrandCategory(id, k.categoryId)) == |ProductsWith(products, BrandCategory(id, k.categoryId))|;
      } else if k.brandId == id {
        assert ProductsWith(products', k) == {};
      }
    }
  }

  /** After the rename every product and count row points to an existing
      brand and category, and the new id passes the brand-id constraint. */
  lemma RenameKeepsForeignKeys(s: Snapshot, id: BrandId, newId: BrandId)
    requires Consistent(s)
    requires newId !in s.brands && BrandIdAllowed(newId)
    ensures var s' := s.(brands := s.brands + {newId} - {id},
                         products := RenameProducts(s.products, id, newId),
                         links := RenameLinks(s.links, id, newId));
      && (forall b :: b in s'.brands ==> BrandIdAllowed(b))
      && (forall pid :: pid in s'.products ==> pid < s'.nextId)
      && (forall pid :: pid in s'.products ==>
            s'.products[pid].brandId in s'.brands && s'.products[pid].categoryId in s'.categories)
      && (forall k :: k in s'.links ==> k.brandId in s'.brands && k.categoryId in s'.categories)
  {
    var links' := RenameLinks(s.links, id, newId);
    forall k | k in links' ensures k.brandId in s.brands + {newId} - {id} && k.categoryId in s.categories {
      if k.brandId == newId {
        assert BrandCategory(id, k.categoryId) in s.links;
      } else {
        assert k in s.links;
      }
    }
  }

  /** What the rename does to the count rows, when no row belongs to `newId`
      yet: `newId` takes over `id`'s counts and every other brand keeps its
      own. */
  lemma RenameLinkCounts(links: map<BrandCategory, int>, id: BrandId, newId: BrandId)
    requires forall k :: k in links ==> k.brandId != newId
    ensures var links' := RenameLinks(links, id, newId);
      (forall k :: k in links ==> links[k] >= 1) ==> (forall k :: k in links' ==> links'[k] >= 1)
    ensures var links' := RenameLinks(links, id, newId);
      forall c :: LinkCount(links', BrandCategory(newId, c)) == LinkCount(links, BrandCategory(id, c))
    ensures var links' := RenameLinks(links, id, newId);
      id != newId ==> forall c :: LinkCount(links', BrandCategory(id, c)) == 0
    ensures var links' := RenameLinks(links, id, newId);
      forall k: BrandCategory :: k.brandId != id && k.brandId != newId ==> LinkCount(links', k) == LinkCount(links, k)
  {
    var links' := RenameLinks(links, id, newId);
    forall c ensures LinkCount(links', BrandCategory(newId, c)) == LinkCount(links, BrandCategory(id, c)) {
      if BrandCategory(id, c) in links {
        assert BrandCategory(newId, c) in MovedKeys(links, id, newId);
      }
    }
  }

  /** What the rename does to the products of each (brand, category) pair,
      when no product belongs to `newId` yet. */
  lemma RenameProductsWith(products: map<ProductId, ProductRow>, id: BrandId, newId: BrandId)
    requires forall pid :: pid in products ==> products[pid].brandId != newId
    ensures var products' := RenameProducts(products, id, newId);
      forall c :: ProductsWith(products', BrandCategory(newId, c)) == ProductsWith(products, BrandCategory(id, c))
    ensures var products' := RenameProducts(products, id, newId);
      id != newId ==> forall c :: ProductsWith(products', BrandCategory(id, c)) == {}
    ensures var products' := RenameProducts(products, id, newId);
      forall k: BrandCategory :: k.brandId != id && k.brandId != newId ==> ProductsWith(products', k) == ProductsWith(products, k)
  {
    var products' := RenameProducts(products, id, newId);
    forall c ensures ProductsWith(products', BrandCategory(newId, c)) == ProductsWith(products, BrandCategory(id, c)) {
    }
    forall k: BrandCategory | k.brandId != id && k.brandId != newId
      ensures ProductsWith(products', k) == ProductsWith(products, k)
    {
    }
  }

  /** updateBrand: inserting `newId` fails with a conflict when it exists
      (so renaming an existing brand to itself is a conflict) and with an
      unmapped database error when it breaks the brand-id check; otherwise
      every product and count row of `id` moves to `newId` and `id` goes.
      Whether `id` exists is never checked. */
  method UpdateBrand(db: Database, id: BrandId, newId: BrandId) returns (r: Result<BrandId>)
    requires db.Valid()
    modifies db
    ensures db.Valid()
    ensures newId in old(db.brands) ==> r == Err(Conflict) && db.Current() == old(db.Current())
    ensures newId !in old(db.brands) && !BrandIdAllowed(newId) ==> r == Err(Internal) && db.Current() == old(db.Current())
    ensures newId !in old(db.brands) && BrandIdAllowed(newId) ==>
      && r == Ok(newId)
      && db.Current() == old(db.Current()).(
           brands := old(db.brands) + {newId} - {id},
           products := RenameProducts(old(db.products), id, newId),
           links := RenameLinks(old(db.links), id, newId))
      && db.products.Keys == old(db.products).Keys
      && (forall pid :: pid in db.products ==>
            && db.products[pid].categoryId == old(db.products)[pid].categoryId
            && db.products[pid].price == old(db.products)[pid].price
            && (db.products[pid].brandId == newId <==> old(db.products)[pid].brandId == id)
            && (db.products[pid].brandId != newId ==> db.products[pid].brandId == old(db.products)[pid].brandId))
      && (forall c :: LinkCount(db.links, BrandCategory(newId, c)) == LinkCount(old(db.links), BrandCategory(id, c)))
      && (id != newId ==> forall c :: LinkCount(db.links, BrandCategory(id, c)) == 0)
      && (forall k: BrandCategory :: k.brandId != id && k.brandId != newId ==> LinkCount(db.links, k) == LinkCount(old(db.links), k))
  {
    if newId in db.brands {
      return Err(Conflict);
    }
    if !BrandIdAllowed(newId) {
      return Err(Internal);
    }
    ConsistentAfterRename(db.Current(), id, newId);
    db.brands := db.brands + {newId};
    db.products := RenameProducts(db.products, id, newId);
    db.links := RenameLinks(db.links, id, newId);
    db.brands := db.brands - {id};
    return Ok(newId);
  }

  /** The PRODUCT rows of every brand but `id`. */
  function ProductsWithoutBrand(products: map<ProductId, ProductRow>, id: BrandId): map<ProductId, ProductRow>
  {
    map pid | pid in products && products[pid].brandId != id :: products[pid]
  }

  /** The BRAND_CATEGORY rows of every brand but `id`. */
  function LinksWithoutBrand(links: map<BrandCategory, int>, id: BrandId): map<BrandCategory, int>
  {
    map k | k in links && k.brandId != id :: links[k]
  }

  /** Removing a brand together with all its products and count rows keeps
      the database consistent. */
  lemma ConsistentAfterBrandDelete(s: Snapshot, id: BrandId)
    requires Consistent(s)
    ensures Consistent(s.(brands := s.brands - {id},
                          products := ProductsWithoutBrand(s.products, id),
                          links := LinksWithoutBrand(s.links, id)))
  {
    var products' := ProductsWithoutBrand(s.products, id);
    var links' := LinksWithoutBrand(s.links, id);
    forall k ensures LinkCount(links', k) == |ProductsWith(products', k)| {
      if k.brandId == id {
        assert ProductsWith(products', k) == {};
      } else {
        assert ProductsWith(products', k) == ProductsWith(s.products, k);
      }
    }
  }

  /** deleteBrand: an unknown id is not found; otherwise the brand's
      products, then its count rows, then the brand itself are deleted, and
      every other brand's rows stay as they were. */
  method DeleteBrand(db: Database, id: BrandId) returns (r: Result<()>)
    requires db.Valid()
    modifies db
    ensures db.Valid()
    ensures id !in old(db.brands) ==> r == Err(NotFound) && db.Current() == old(db.Current())
    ensures id in old(db.brands) ==>
      && r == Ok(())
      && db.Current() == old(db.Current()).(
           brands := old(db.brands) - {id},
           products := ProductsWithoutBrand(old(db.products), id),
           links := LinksWithoutBrand(old(db.links), id))
      && (forall pid :: pid in db.products <==> pid in old(db.products) && old(db.products)[pid].brandId != id)
      && (forall pid :: pid in db.products ==> db.products[pid] == old(db.products)[pid])
      && (forall k :: LinkCount(db.links, k) == if k.brandId == id then 0 else LinkCount(old(db.links), k))
  {
    if id !in db.brands {
      return Err(NotFound);
    }
    ConsistentAfterBrandDelete(db.Current(), id);
    db.products := ProductsWithoutBrand(db.products, id);
    db.links := LinksWithoutBrand(db.links, id);
    db.brands := db.brands - {id};
    return Ok(());
  }
}
