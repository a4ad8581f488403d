/**
 * The product controller: the `validateProduct` chain, `createProduct`,
 * `updateProduct`, the soft `deleteProduct` and the storefront listing
 * `getProducts`.
 *
 * Request bodies arrive already decoded: prices in integer cents, ids as
 * integers. express-validator's `isURL` is a parameter.
 */
module Products {
  import opened Wrappers
  import opened Text
  import opened Store
  import opened Transaction

  /** The `stock_quantity` of a body: absent, an integer, or anything `isInt` rejects. */
  datatype StockField = NoStock | Whole(n: int) | Malformed

  datatype ProductInput = ProductInput(
    name: Option<string>,
    description: Option<string>,
    price: Option<int>,
    imageUrl: Option<string>,
    categoryId: Option<int>,
    stock: StockField,
    specifications: BodyField)

  // ---------------------------------------------------------------------------
  // Validation (`validateProduct`)
  // ---------------------------------------------------------------------------

  predicate StockValid(s: StockField) {
    match s
    case NoStock => true
    case Whole(n) => n >= 0
    case Malformed => false
  }

  /** What the chain accepts: name 3–100 and description 10–500 characters
      after trimming, a price of at least one cent, a URL, a category id of at
      least 1, if given a non-negative integer stock, and specifications that
      are left out or a string (`null` is not a string). */
  predicate ValidProduct(p: ProductInput, isURL: string -> bool) {
    3 <= IsLengthCount(Trimmed(p.name)) <= 100 && DescriptionPriceValid(p) && ReferencesValid(p, isURL) && !p.specifications.Null?
  }

  predicate DescriptionPriceValid(p: ProductInput) {
    10 <= IsLengthCount(Trimmed(p.description)) <= 500 && p.price.Some? && p.price.value >= 1
  }

  predicate ReferencesValid(p: ProductInput, isURL: string -> bool) {
    && Trimmed(p.imageUrl) != "" && isURL(Trimmed(p.imageUrl))
    && p.categoryId.Some? && p.categoryId.value >= 1
    && StockValid(p.stock)
  }

  /** A required number with a lower bound. */
  function BoundErrors(v: Option<int>, lo: int, path: string, required: string, bound: string): (errs: seq<FieldError>)
    ensures errs == [] <==> v.Some? && v.value >= lo
    ensures required != "" && bound != "" ==> Explained(errs)
  {
    var a, b := Check(v.Some?, path, required), Check(v.Some? && v.value >= lo, path, bound);
    if required != "" && bound != "" then ExplainedAppend(a, b); a + b else a + b
  }

  function UrlErrors(url: string, isURL: string -> bool): (errs: seq<FieldError>)
    ensures errs == [] <==> url != "" && isURL(url)
    ensures Explained(errs)
  {
    var a, b := Check(url != "", "image_url", "Image URL is required"), Check(isURL(url), "image_url", "Image URL must be valid");
    ExplainedAppend(a, b);
    a + b
  }

  /** `validationResult(req).array()`: every failing check of every chain, in order. */
  function ProductErrors(p: ProductInput, isURL: string -> bool): (errs: seq<FieldError>)
    ensures errs == [] <==> ValidProduct(p, isURL)
  {
    NameErrors(p) + OtherErrors(p, isURL)
  }

  /** The checks of the `name` chain. */
  function NameErrors(p: ProductInput): (errs: seq<FieldError>)
    ensures errs == [] <==> 3 <= IsLengthCount(Trimmed(p.name)) <= 100
    ensures Explained(errs)
  {
    TextErrors(Trimmed(p.name), 3, 100, "name", "Name is required", "Name must be 3-100 chars")
  }

  /** The checks of the chains after `name`, in order. */
  function OtherErrors(p: ProductInput, isURL: string -> bool): (errs: seq<FieldError>)
    ensures errs == [] <==> DescriptionPriceValid(p) && ReferencesValid(p, isURL) && !p.specifications.Null?
    ensures Explained(errs)
  {
    var specs := SpecsErrors(p);
    ExplainedAppend(ReferenceErrors(p, isURL), specs);
    ExplainedAppend(DescriptionPriceErrors(p), ReferenceErrors(p, isURL) + specs);
    DescriptionPriceErrors(p) + (ReferenceErrors(p, isURL) + specs)
  }

  const SpecsNotString := FieldError("specifications", "specifications must be a string")

  /** The `specifications` chain, the last one: `optional().isString()`. */
  function SpecsErrors(p: ProductInput): (errs: seq<FieldError>)
    ensures errs == [] <==> !p.specifications.Null?
    ensures errs != [] ==> errs == [SpecsNotString]
    ensures Explained(errs)
  {
    Check(!p.specifications.Null?, SpecsNotString.path, SpecsNotString.msg)
  }

  /** The `description` and `price` chains. */
  function DescriptionPriceErrors(p: ProductInput): (errs: seq<FieldError>)
    ensures errs == [] <==> DescriptionPriceValid(p)
    ensures Explained(errs)
  {
    var desc := TextErrors(Trimmed(p.description), 10, 500, "description", "Description is required", "Description must be 10-500 chars");
    var price := BoundErrors(p.price, 1, "price", "Price is required", "Price must be a positive number");
    ExplainedAppend(desc, price);
    desc + price
  }

  /** The `image_url`, `category_id` and `stock_quantity` chains. */
  function ReferenceErrors(p: ProductInput, isURL: string -> bool): (errs: seq<FieldError>)
    ensures errs == [] <==> ReferencesValid(p, isURL)
    ensures Explained(errs)
  {
    var url := UrlErrors(Trimmed(p.imageUrl), isURL);
    var cat := BoundErrors(p.categoryId, 1, "category_id", "category_id is required", "category_id must be an integer >= 1");
    var stock := Check(StockValid(p.stock), "stock_quantity", "stock_quantity must be an integer >= 0");
    ExplainedAppend(cat, stock);
    ExplainedAppend(url, cat + stock);
    url + (cat + stock)
  }

  /** A `null` specifications field is always reported, and reported last:
      whatever else the body holds, the product is rejected. */
  lemma {:induction false} NullSpecsRejected(p: ProductInput, isURL: string -> bool)
    requires p.specifications.Null?
    ensures var errs := ProductErrors(p, isURL);
            !ValidProduct(p, isURL) && |errs| >= 1 && errs[|errs| - 1] == SpecsNotString
  {
    var errs := ProductErrors(p, isURL);
    assert errs == (NameErrors(p) + (DescriptionPriceErrors(p) + ReferenceErrors(p, isURL))) + [SpecsNotString];
  }

  /** The specifications field decides nothing else: a body with a string or
      no specifications is valid iff it is valid with them left out. */
  lemma {:induction false} SpecsOnlyNullMatters(p: ProductInput, isURL: string -> bool)
    ensures ValidProduct(p, isURL) <==> ValidProduct(p.(specifications := Absent), isURL) && !p.specifications.Null?
  {
  }

  /** An empty name is reported first, both as missing and as too short. */
  lemma {:induction false} EmptyNameFirst(p: ProductInput, isURL: string -> bool)
    requires Trimmed(p.name) == ""
    ensures var errs := ProductErrors(p, isURL);
            && |errs| >= 2 && errs[0] == FieldError("name", "Name is required")
            && errs[1] == FieldError("name", "Name must be 3-100 chars")
  {
    var name := NameErrors(p);
    assert name == [FieldError("name", "Name is required"), FieldError("name", "Name must be 3-100 chars")];
    assert ProductErrors(p, isURL)[..2] == name;
  }

  /** Every entry of the validation result carries its message. */
  lemma {:induction false} ProductErrorsExplained(p: ProductInput, isURL: string -> bool)
    ensures Explained(ProductErrors(p, isURL))
  {
    ExplainedAppend(NameErrors(p), OtherErrors(p, isURL));
  }

  // ---------------------------------------------------------------------------
  // Stock normalisation
  // ---------------------------------------------------------------------------

  /** `Number.isFinite(Number(v)) && Number(v) >= 0 ? Number(v) : fallback`. */
  function NormalizeStock(s: StockField, fallback: Option<int>): (r: Option<int>)
    ensures s.Whole? && s.n >= 0 ==> r == Some(s.n)
    ensures !(s.Whole? && s.n >= 0) ==> r == fallback
    ensures r.Some? ==> r.value >= 0 || r == fallback
  {
    match s
    case Whole(n) => if n >= 0 then Some(n) else fallback
    case _ => fallback
  }

  /** `specifications ?? null`: a string is stored as sent, anything else as NULL. */
  function SpecsColumn(f: BodyField): (r: Option<string>)
    ensures r.Some? <==> f.Given?
    ensures r.Some? ==> r.value == f.s
  {
    if f.Given? then Some(f.s) else None
  }

  // ---------------------------------------------------------------------------
  // Create and update
  // ---------------------------------------------------------------------------

  datatype Reply = CreatedId(id: int) | Message(text: string) | ErrorMessage(error: string) | Invalid(errors: seq<FieldError>)

  datatype Response = Response(status: int, reply: Reply)

  /** An error thrown inside a transaction, with the `status` it may carry. */
  datatype Thrown = Thrown(message: string, status: Option<int>)

  /** The `catch` of the product handlers: a 400 passes through, anything else is a generic 500. */
  function CatchResponse(e: Thrown, generic: string): Response {
    if e.status == Some(400) then Response(400, ErrorMessage(e.message)) else Response(500, ErrorMessage(generic))
  }

  /** The row `createProduct` inserts for a validated body. */
  function NewRow(p: ProductInput): (row: Product)
    requires p.price.Some? && p.categoryId.Some?
  {
    Product(p.categoryId.value, Trimmed(p.name), Trimmed(p.description), p.price.value,
            Some(Trimmed(p.imageUrl)), None, NormalizeStock(p.stock, Some(0)).value, SpecsColumn(p.specifications), None)
  }

  /** The callback of `createProduct`: the category must exist (soft-deleted ones count), then the row is inserted. */
  function CreateBody(p: ProductInput, db: Db): Result<(Db, int), Thrown>
    requires p.price.Some? && p.categoryId.Some?
  {
    if p.categoryId.value !in db.categories then Failure(Thrown("Category not found", Some(400)))
    else
      var id := db.serials.product + 1;
      Success((db.(products := db.products[id := NewRow(p)], serials := db.serials.(product := id)), id))
  }

  /** `createProduct`. */
  function CreateProduct(db: Db, p: ProductInput, isURL: string -> bool): (r: (Db, Response))
    ensures !ValidProduct(p, isURL) ==> r == (db, Response(400, Invalid(ProductErrors(p, isURL))))
    ensures ValidProduct(p, isURL) && p.categoryId.value !in db.categories ==>
              r == (db, Response(400, ErrorMessage("Category not found")))
    ensures r.1.status == 201 <==> ValidProduct(p, isURL) && p.categoryId.value in db.categories
    ensures r.1.status != 201 ==> r.0 == db
    ensures r.1.status == 201 ==> r.1.reply == CreatedId(db.serials.product + 1)
  {
    if !ValidProduct(p, isURL) then (db, Response(400, Invalid(ProductErrors(p, isURL))))
    else CreateValid(db, p)
  }

  /** The transaction `createProduct` runs once the body has validated. */
  function CreateValid(db: Db, p: ProductInput): (r: (Db, Response))
    requires p.price.Some? && p.categoryId.Some?
    ensures p.categoryId.value !in db.categories ==> r == (db, Response(400, ErrorMessage("Category not found")))
    ensures p.categoryId.value in db.categories ==>
              var id := db.serials.product + 1;
              && r.1 == Response(201, CreatedId(id))
              && r.0 == db.(products := db.products[id := NewRow(p)], serials := db.serials.(product := id))
  {
    var tx := WithTransaction(db, (s: Db) => CreateBody(p, s));
    match tx.result
    case Success(id) => (tx.state, Response(201, CreatedId(id)))
    case Failure(e) => (tx.state, CatchResponse(e, "Failed to create product"))
  }

  /** What a 201 inserted: one new row under the next serial holding the
      trimmed fields, not deleted, with the given stock or 0; nothing else changes. */
  lemma {:induction false} CreatedRow(db: Db, p: ProductInput, isURL: string -> bool)
    requires CreateProduct(db, p, isURL).1.status == 201
    ensures var after := CreateProduct(db, p, isURL).0;
            var id := db.serials.product + 1;
            && after.products.Keys == db.products.Keys + {id}
            && (forall k | k in db.products && k != id :: after.products[k] == db.products[k])
            && after == db.(products := after.products, serials := db.serials.(product := id))
            && after.products[id].categoryId == p.categoryId.value
            && after.products[id].name == Trimmed(p.name)
            && after.products[id].description == Trimmed(p.description)
            && after.products[id].price == p.price.value
            && after.products[id].imageUrl == Some(Trimmed(p.imageUrl))
            && after.products[id].imageFilePath.None?
            && after.products[id].deletedAt.None?
            // Specifications sent as a string are stored; left out, the column is NULL.
            && after.products[id].specifications == (if p.specifications.Given? then Some(p.specifications.s) else None)
            // The initial stock is the given quantity, or 0 when none was sent.
            && after.products[id].stock == (if p.stock.Whole? then p.stock.n else 0)
  {
    CreateWrites(db, p, isURL);
    var row := NewRow(p);
    assert row.stock == (if p.stock.Whole? then p.stock.n else 0);
  }

  /** A 201 stored exactly the new row under the next serial. */
  lemma {:induction false} CreateWrites(db: Db, p: ProductInput, isURL: string -> bool)
    requires CreateProduct(db, p, isURL).1.status == 201
    ensures ValidProduct(p, isURL)
    ensures var id := db.serials.product + 1;
            CreateProduct(db, p, isURL).0 == db.(products := db.products[id := NewRow(p)], serials := db.serials.(product := id))
  {
    assert p.categoryId.value in db.categories;
  }

  /** The columns `updateProduct` writes; the stock only when the body carries a usable one. */
  function Overwrite(prev: Product, p: ProductInput): (row: Product)
    requires p.price.Some? && p.categoryId.Some?
  {
    prev.(categoryId := p.categoryId.value, name := Trimmed(p.name), imageUrl := Some(Trimmed(p.imageUrl)),
         description := Trimmed(p.description), price := p.price.value,
         stock := NormalizeStock(p.stock, Some(prev.stock)).value, specifications := SpecsColumn(p.specifications))
  }

  /** The callback of `updateProduct`: an `UPDATE ... WHERE id = $n`, which touches nothing for an unknown id. */
  function UpdateBody(id: int, p: ProductInput, db: Db): Result<(Db, ()), Thrown>
    requires p.price.Some? && p.categoryId.Some?
  {
    if p.categoryId.value !in db.categories then Failure(Thrown("Category not found", Some(400)))
    else if id !in db.products then Success((db, ()))
    else Success((db.(products := db.products[id := Overwrite(db.products[id], p)]), ()))
  }

  /** `updateProduct` for the route id `id`. */
  function UpdateProduct(db: Db, id: int, p: ProductInput, isURL: string -> bool): (r: (Db, Response))
    ensures !ValidProduct(p, isURL) ==> r == (db, Response(400, Invalid(ProductErrors(p, isURL))))
    ensures ValidProduct(p, isURL) && p.categoryId.value !in db.categories ==>
              r == (db, Response(400, ErrorMessage("Category not found")))
    ensures r.1.status == 200 <==> ValidProduct(p, isURL) && p.categoryId.value in db.categories
    // An unknown id still answers 200, with nothing written.
    ensures r.1.status == 200 ==> r.1.reply == Message("Product updated successfully")
    ensures r.1.status != 200 ==> r.0 == db
  {
    if !ValidProduct(p, isURL) then (db, Response(400, Invalid(ProductErrors(p, isURL))))
    else UpdateValid(db, id, p)
  }

  /** The transaction `updateProduct` runs once the body has validated. */
  function UpdateValid(db: Db, id: int, p: ProductInput): (r: (Db, Response))
    requires p.price.Some? && p.categoryId.Some?
    ensures p.categoryId.value !in db.categories ==> r == (db, Response(400, ErrorMessage("Category not found")))
    ensures p.categoryId.value in db.categories ==> r.1 == Response(200, Message("Product updated successfully"))
  {
    var tx := WithTransaction(db, (s: Db) => UpdateBody(id, p, s));
    match tx.result
    case Success(_) => (tx.state, Response(200, Message("Product updated successfully")))
    case Failure(e) => (tx.state, CatchResponse(e, "Failed to update product"))
  }

  /** What a successful update wrote: every column of the body over the
      product's row, the stock only when a quantity was sent, the image file
      path and soft-delete mark as they were, and no other row. */
  lemma {:induction false} UpdatedRow(db: Db, id: int, p: ProductInput, isURL: string -> bool)
    requires UpdateProduct(db, id, p, isURL).1.status == 200
    ensures var after := UpdateProduct(db, id, p, isURL).0;
            && (id !in db.products ==> after == db)
            && after == db.(products := after.products)
            && after.products.Keys == db.products.Keys
            && (forall k | k in db.products && k != id :: after.products[k] == db.products[k])
            && (id in db.products ==>
                  var before, row := db.products[id], after.products[id];
                  && row.categoryId == p.categoryId.value && row.name == Trimmed(p.name)
                  && row.description == Trimmed(p.description) && row.price == p.price.value
                  && row.imageUrl == Some(Trimmed(p.imageUrl))
                  && row.specifications == (if p.specifications.Given? then Some(p.specifications.s) else None)
                  && row.imageFilePath == before.imageFilePath && row.deletedAt == before.deletedAt
                  && row.stock == (if p.stock.Whole? then p.stock.n else before.stock))
  {
    UpdateWrites(db, id, p, isURL);
    if id in db.products {
      var row := Overwrite(db.products[id], p);
      assert row.stock == (if p.stock.Whole? then p.stock.n else db.products[id].stock);
    }
  }

  /** A 200 overwrote the product's row when there is one, and nothing else. */
  lemma {:induction false} UpdateWrites(db: Db, id: int, p: ProductInput, isURL: string -> bool)
    requires UpdateProduct(db, id, p, isURL).1.status == 200
    ensures ValidProduct(p, isURL)
    ensures UpdateProduct(db, id, p, isURL).0
            == if id in db.products then db.(products := db.products[id := Overwrite(db.products[id], p)]) else db
  {
    assert p.categoryId.value in db.categories;
  }

  // ---------------------------------------------------------------------------
  // Soft delete
  // ---------------------------------------------------------------------------

  /** The `:id` route parameter: empty, `Number(id)` an integer, or not an integer. */
  datatype RouteId = EmptyId | IntegerId(n: int) | NotInteger

  /** `deleteProduct`: marks a live product deleted at `now`; an already deleted one is left alone. */
  function DeleteProduct(db: Db, id: RouteId, now: int): (r: (Db, Response))
    ensures id.EmptyId? ==> r == (db, Response(400, ErrorMessage("Product ID required")))
    ensures id.NotInteger? || (id.IntegerId? && id.n <= 0) ==> r == (db, Response(400, ErrorMessage("Invalid product ID")))
    ensures id.IntegerId? && id.n > 0 && id.n !in db.products ==> r == (db, Response(404, ErrorMessage("Product not found")))
    ensures r.1.status == 200 <==> id.IntegerId? && id.n > 0 && id.n in db.products
    ensures r.1.status == 200 ==>
              && r.0 == db.(products := r.0.products)
              && r.0.products.Keys == db.products.Keys
              && (forall k | k in db.products && k != id.n :: r.0.products[k] == db.products[k])
              && r.0.products[id.n] == db.products[id.n].(deletedAt := r.0.products[id.n].deletedAt)
              // The first deletion's timestamp is kept.
              && r.0.products[id.n].deletedAt == (if db.products[id.n].deletedAt.Some? then db.products[id.n].deletedAt else Some(now))
    ensures r.1.status != 200 ==> r.0 == db
  {
    match id
    case EmptyId => (db, Response(400, ErrorMessage("Product ID required")))
    case NotInteger => (db, Response(400, ErrorMessage("Invalid product ID")))
    case IntegerId(n) =>
      if n <= 0 then (db, Response(400, ErrorMessage("Invalid product ID")))
      else if n !in db.products then (db, Response(404, ErrorMessage("Product not found")))
      else if db.products[n].deletedAt.Some? then (db, Response(200, Message("Product deleted successfully")))
      else (db.(products := db.products[n := db.products[n].(deletedAt := Some(now))]),
            Response(200, Message("Product deleted successfully")))
  }

  /** Deleting twice is deleting once: same state, same answer, whenever the second call happens. */
  lemma {:induction false} DeleteIdempotent(db: Db, id: RouteId, now: int, later: int)
    ensures var (once, answer) := DeleteProduct(db, id, now);
            DeleteProduct(once, id, later) == (once, answer)
  {
  }

  // ---------------------------------------------------------------------------
  // Listing (`getProducts`)
  // ---------------------------------------------------------------------------

  /** A row of the listing: the product, `COALESCE(image_url, image_file_path)`, and its category's name. */
  datatype ProductView = ProductView(id: int, product: Product, image: Option<string>, categoryName: string)

  /** The product is not deleted and joins a category that is not deleted. */
  predicate Listed(db: Db, id: int) {
    && id in db.products && db.products[id].deletedAt.None?
    && db.products[id].categoryId in db.categories
    && db.categories[db.products[id].categoryId].deletedAt.None?
  }

  function View(db: Db, id: int): (v: ProductView)
    requires Listed(db, id)
  {
    var p := db.products[id];
    ProductView(id, p, Coalesce(p.imageUrl, p.imageFilePath), db.categories[p.categoryId].name)
  }

  /** The listed ones of `ids`, in the order of `ids`. */
  function ListedIds(db: Db, ids: seq<int>): (r: seq<int>)
    ensures |r| <= |ids|
    ensures forall i | 0 <= i < |r| :: r[i] in ids && Listed(db, r[i])
    ensures forall i | 0 <= i < |ids| :: Listed(db, ids[i]) ==> ids[i] in r
    ensures StrictlyDescending(ids) ==> StrictlyDescending(r)
  {
    var listed := (id: int) => Listed(db, id);
    if StrictlyDescending(ids) then KeepIdsDescending(ids, listed); KeepIds(ids, listed)
    else KeepIds(ids, listed)
  }

  /** `getProducts`: the live products of live categories, newest id first. */
  function GetProducts(db: Db): (rows: seq<ProductView>)
    ensures forall i | 0 <= i < |rows| :: Listed(db, rows[i].id) && rows[i] == View(db, rows[i].id)
    ensures forall i, j | 0 <= i < j < |rows| :: rows[i].id > rows[j].id
  {
    var ids := ListedIds(db, KeysDescending(db.products.Keys, db.serials.product));
    Views(db, ids)
  }

  /** The rows of the listed `ids`, in their order. */
  function Views(db: Db, ids: seq<int>): (rows: seq<ProductView>)
    requires forall i | 0 <= i < |ids| :: Listed(db, ids[i])
    ensures |rows| == |ids|
    ensures forall i | 0 <= i < |rows| :: rows[i].id == ids[i] && rows[i] == View(db, ids[i])
  {
    seq(|ids|, i requires 0 <= i < |ids| => View(db, ids[i]))
  }

  /** Under the serial invariant nothing listable is missing from `getProducts`. */
  lemma {:induction false} GetProductsComplete(db: Db, id: int)
    requires Keyed(db) && Listed(db, id)
    ensures exists j | 0 <= j < |GetProducts(db)| :: GetProducts(db)[j].id == id
  {
    var all := KeysDescending(db.products.Keys, db.serials.product);
    var ids := ListedIds(db, all);
    assert id in all;
    assert id in ids;
    var j :| 0 <= j < |ids| && ids[j] == id;
    assert GetProducts(db)[j].id == id;
  }

  // ---------------------------------------------------------------------------
  // Properties
  // ---------------------------------------------------------------------------

  /** Creating a product keeps every table keyed by its serial. */
  lemma {:induction false} CreateKeepsKeyed(db: Db, p: ProductInput, isURL: string -> bool)
    requires Keyed(db)
    ensures Keyed(CreateProduct(db, p, isURL).0)
  {
    var after := CreateProduct(db, p, isURL).0;
    if CreateProduct(db, p, isURL).1.status == 201 {
      CreatedRow(db, p, isURL);
      KeyedAfterProductInsert(db, after, db.serials.product + 1);
    }
  }

  /** One more product under the next serial, nothing else changed: still keyed. */
  lemma {:induction false} KeyedAfterProductInsert(db: Db, after: Db, id: int)
    requires Keyed(db) && id == db.serials.product + 1
    requires after.products.Keys == db.products.Keys + {id}
    requires after == db.(products := after.products, serials := db.serials.(product := id))
    ensures Keyed(after)
  {
  }

  /** A created product of a live category is listed straight away, first of all. */
  lemma {:induction false} CreatedIsListedFirst(db: Db, p: ProductInput, isURL: string -> bool)
    requires Keyed(db)
    requires CreateProduct(db, p, isURL).1.status == 201
    requires db.categories[p.categoryId.value].deletedAt.None?
    ensures var rows := GetProducts(CreateProduct(db, p, isURL).0);
            |rows| > 0 && rows[0].id == db.serials.product + 1
  {
    var after := CreateProduct(db, p, isURL).0;
    var id := db.serials.product + 1;
    CreatedRow(db, p, isURL);
    assert Listed(after, id);
    CreateKeepsKeyed(db, p, isURL);
    GetProductsComplete(after, id);
  }

  /** After a successful delete the product is no longer listed. */
  lemma {:induction false} DeletedIsUnlisted(db: Db, n: int, now: int)
    requires DeleteProduct(db, IntegerId(n), now).1.status == 200
    ensures !Listed(DeleteProduct(db, IntegerId(n), now).0, n)
  {
  }
}
