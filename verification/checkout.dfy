/**
 * The checkout transaction of the order controller (`validateCheckout`,
 * `createOrder`, `listOrders`).
 *
 * A checkout validates the request, then inside one transaction reads the
 * requested product rows under lock, checks every line against that
 * snapshot, decrements stock line by line, inserts the order and one item per
 * line, and finally stamps the order with its human-readable number. Any
 * error rolls the whole transaction back.
 *
 * The stock check of the source compares each line on its own against the
 * snapshot (`StockRule.PerLine`); `StockRule.Aggregated` is the corrected
 * check that compares the total requested per product.
 */
module Checkout {
  import opened Wrappers
  import opened Text
  import opened Store
  import opened Transaction

  /** The `buyer` object: a name, and an e-mail and a phone that may be left out or `null`. */
  datatype Buyer = Buyer(name: string, email: BodyField, phone: BodyField)

  /** One requested line `{productId, quantity}`. */
  datatype Line = Line(productId: int, quantity: int)

  datatype Request = Request(buyer: Buyer, items: seq<Line>)

  /** A UTC calendar date as `toISOString` reports it. */
  datatype Date = Date(year: nat, month: nat, day: nat)

  predicate ValidDate(d: Date) {
    d.year <= 9999 && 1 <= d.month <= 12 && 1 <= d.day <= 31
  }

  // ---------------------------------------------------------------------------
  // Request validation (`validateCheckout`)
  // ---------------------------------------------------------------------------

  /** What the validation chain accepts. `isEmail` is the library's predicate;
      `optional()` lets a left-out e-mail or phone through, but not a `null` one. */
  predicate WellFormed(req: Request, isEmail: string -> bool) {
    && IsLengthCount(Trim(req.buyer.name)) >= 2
    && (!req.buyer.email.Absent? ==> isEmail(ValidatorInput(req.buyer.email)))
    && (!req.buyer.phone.Absent? ==> IsLengthCount(ValidatorInput(req.buyer.phone)) >= 6)
    && |req.items| >= 1
    && (forall i | 0 <= i < |req.items| :: req.items[i].productId > 0)
    && (forall i | 0 <= i < |req.items| :: req.items[i].quantity > 0)
  }

  function ItemPath(index: nat, field: string): string {
    "items[" + NatToDecimal(index) + "]." + field
  }

  /** Errors of the `items.*.productId` rule, for the items from position `offset` on. */
  function ProductIdErrors(items: seq<Line>, offset: nat): (errs: seq<FieldError>)
    ensures errs == [] <==> forall i | 0 <= i < |items| :: items[i].productId > 0
    ensures |errs| <= |items|
  {
    if items == [] then []
    else
      (if items[0].productId > 0 then [] else [FieldError(ItemPath(offset, "productId"), "productId inválido")])
      + ProductIdErrors(items[1..], offset + 1)
  }

  /** Errors of the `items.*.quantity` rule, for the items from position `offset` on. */
  function QuantityErrors(items: seq<Line>, offset: nat): (errs: seq<FieldError>)
    ensures errs == [] <==> forall i | 0 <= i < |items| :: items[i].quantity > 0
    ensures |errs| <= |items|
  {
    if items == [] then []
    else
      (if items[0].quantity > 0 then [] else [FieldError(ItemPath(offset, "quantity"), "quantity inválido")])
      + QuantityErrors(items[1..], offset + 1)
  }

  /** `validationResult(req).array()` after the `validateCheckout` chain, in rule order. */
  function ValidationErrors(req: Request, isEmail: string -> bool): (errs: seq<FieldError>)
    ensures errs == [] <==> WellFormed(req, isEmail)
  {
    var b := req.buyer;
    (if IsLengthCount(Trim(b.name)) >= 2 then [] else [FieldError("buyer.name", "Nombre requerido")])
    + ContactErrors(b, isEmail)
    + LineErrors(req.items)
  }

  /** The e-mail and phone rules, each skipped for a field that is left out. */
  function ContactErrors(b: Buyer, isEmail: string -> bool): seq<FieldError> {
    (if b.email.Absent? || isEmail(ValidatorInput(b.email)) then [] else [FieldError("buyer.email", "Email inválido")])
    + (if b.phone.Absent? || IsLengthCount(ValidatorInput(b.phone)) >= 6 then [] else [FieldError("buyer.phone", "Teléfono inválido")])
  }

  /** The `items` rule and the per-line rules. */
  function LineErrors(items: seq<Line>): seq<FieldError> {
    (if |items| >= 1 then [] else [FieldError("items", "Debe enviar items")])
    + ProductIdErrors(items, 0)
    + QuantityErrors(items, 0)
  }

  // ---------------------------------------------------------------------------
  // Locked snapshot, per-line check, total
  // ---------------------------------------------------------------------------

  function Ids(items: seq<Line>): set<int> {
    set i | 0 <= i < |items| :: items[i].productId
  }

  /** `SELECT ... WHERE id = ANY(ids) FOR UPDATE`: the existing requested rows. */
  function LockedRows(products: map<int, Product>, ids: set<int>): (rows: map<int, Product>)
    ensures rows.Keys == products.Keys * ids
    ensures forall id | id in rows :: rows[id] == products[id]
  {
    map id | id in products.Keys * ids :: products[id]
  }

  /** Sum of the quantities requested for product `id` over all lines. */
  function QtyFor(items: seq<Line>, id: int): int {
    if items == [] then 0
    else (if items[0].productId == id then items[0].quantity else 0) + QtyFor(items[1..], id)
  }

  datatype StockRule = PerLine | Aggregated

  /** The amount the stock check compares with the stock of line `i`'s product. */
  function Requested(rule: StockRule, items: seq<Line>, i: nat): int
    requires i < |items|
  {
    match rule
    case PerLine => items[i].quantity
    case Aggregated => QtyFor(items, items[i].productId)
  }

  /** Line `i` resolves against the snapshot and its stock covers the request. */
  predicate LineFits(rule: StockRule, snapshot: map<int, Product>, items: seq<Line>, i: nat)
    requires i < |items|
  {
    items[i].productId in snapshot && Requested(rule, items, i) <= snapshot[items[i].productId].stock
  }

  predicate AllFit(rule: StockRule, snapshot: map<int, Product>, items: seq<Line>) {
    forall i | 0 <= i < |items| :: LineFits(rule, snapshot, items, i)
  }

  /** Line `i` is the first from position `k` on that does not fit. */
  predicate FirstUnfitFrom(rule: StockRule, snapshot: map<int, Product>, items: seq<Line>, k: nat, i: int) {
    && k <= i < |items|
    && !LineFits(rule, snapshot, items, i)
    && (forall j | k <= j < i :: LineFits(rule, snapshot, items, j))
  }

  /** Line `i` is the first that does not fit. */
  predicate FirstUnfit(rule: StockRule, snapshot: map<int, Product>, items: seq<Line>, i: int) {
    FirstUnfitFrom(rule, snapshot, items, 0, i)
  }

  /** An error thrown inside the transaction; only some carry an HTTP status. */
  datatype Thrown = Thrown(message: string, statusCode: Option<int>)

  /** The error the loop throws at line `i`: a missing product (no status) or short stock (409). */
  function LineError(snapshot: map<int, Product>, items: seq<Line>, i: nat): Thrown
    requires i < |items|
  {
    var id := items[i].productId;
    if id !in snapshot then Thrown("Producto " + IntToString(id) + " inexistente", None)
    else Thrown("Stock insuficiente para producto " + snapshot[id].name, Some(409))
  }

  /** Σ price × quantity over the lines from position `k` on, prices taken from the snapshot. */
  function Amount(snapshot: map<int, Product>, items: seq<Line>, k: nat): int
    requires k <= |items|
    requires forall i | k <= i < |items| :: items[i].productId in snapshot
    decreases |items| - k
  {
    if k == |items| then 0
    else snapshot[items[k].productId].price * items[k].quantity + Amount(snapshot, items, k + 1)
  }

  /**
   * The validation loop from line `k` on: every line must resolve and fit;
   * the first line that does not decides the error; otherwise the running
   * total is returned.
   */
  function CheckFrom(rule: StockRule, snapshot: map<int, Product>, items: seq<Line>, k: nat): (r: Result<int, Thrown>)
    requires k <= |items|
    ensures r.Success? <==> forall i | k <= i < |items| :: LineFits(rule, snapshot, items, i)
    ensures r.Success? ==>
              (forall i | k <= i < |items| :: items[i].productId in snapshot)
              && r.value == Amount(snapshot, items, k)
    ensures r.Failure? ==>
              exists i :: FirstUnfitFrom(rule, snapshot, items, k, i) && r.error == LineError(snapshot, items, i)
    decreases |items| - k
  {
    if k == |items| then Success(0)
    else if !LineFits(rule, snapshot, items, k) then
      assert FirstUnfitFrom(rule, snapshot, items, k, k);
      Failure(LineError(snapshot, items, k))
    else
      match CheckFrom(rule, snapshot, items, k + 1)
      case Failure(e) =>
        FirstUnfitShifts(rule, snapshot, items, k, e);
        Failure(e)
      case Success(rest) =>
        Success(snapshot[items[k].productId].price * items[k].quantity + rest)
  }

  /** A fitting line `k` moves the first unfit line's search start from `k + 1` to `k`. */
  lemma {:induction false} FirstUnfitShifts(rule: StockRule, snapshot: map<int, Product>, items: seq<Line>, k: nat, e: Thrown)
    requires k < |items| && LineFits(rule, snapshot, items, k)
    requires exists i :: FirstUnfitFrom(rule, snapshot, items, k + 1, i) && e == LineError(snapshot, items, i)
    ensures exists i :: FirstUnfitFrom(rule, snapshot, items, k, i) && e == LineError(snapshot, items, i)
  {
    var i :| FirstUnfitFrom(rule, snapshot, items, k + 1, i) && e == LineError(snapshot, items, i);
    forall j | k <= j < i ensures LineFits(rule, snapshot, items, j) {
      if j > k {
        assert k + 1 <= j < i;
      }
    }
    assert FirstUnfitFrom(rule, snapshot, items, k, i);
  }

  // ---------------------------------------------------------------------------
  // Writes
  // ---------------------------------------------------------------------------

  /** The `UPDATE ... stock_quantity = stock_quantity - q` of every line, in order. */
  function Decrement(products: map<int, Product>, items: seq<Line>): (r: map<int, Product>)
    requires forall i | 0 <= i < |items| :: items[i].productId in products
    ensures r.Keys == products.Keys
    ensures forall id | id in products ::
              r[id] == products[id].(stock := products[id].stock - QtyFor(items, id))
  {
    if items == [] then products
    else
      var id := items[0].productId;
      var p := products[id];
      Decrement(products[id := p.(stock := p.stock - items[0].quantity)], items[1..])
  }

  /** Σ quantity × unit price over order items. */
  function ItemsTotal(items: seq<OrderItem>): int {
    if items == [] then 0 else items[0].quantity * items[0].unitPrice + ItemsTotal(items[1..])
  }

  /** One `OrderItems` row per line from position `k` on, unit price captured from the snapshot. */
  function MakeItems(orderId: int, snapshot: map<int, Product>, items: seq<Line>, k: nat): (rows: seq<OrderItem>)
    requires k <= |items|
    requires forall i | k <= i < |items| :: items[i].productId in snapshot
    ensures |rows| == |items| - k
    ensures forall i | k <= i < |items| ::
              rows[i - k] == OrderItem(orderId, items[i].productId, items[i].quantity, snapshot[items[i].productId].price)
    ensures ItemsTotal(rows) == Amount(snapshot, items, k)
    decreases |items| - k
  {
    if k == |items| then []
    else
      var l := items[k];
      var rest := MakeItems(orderId, snapshot, items, k + 1);
      var rows := [OrderItem(orderId, l.productId, l.quantity, snapshot[l.productId].price)] + rest;
      assert rows[1..] == rest;
      rows
  }

  /** `buyer.email || null`: a non-empty string is stored, anything falsy becomes NULL. */
  function StoredOrNull(f: BodyField): (r: Option<string>)
    ensures r.Some? <==> f.Given? && f.s != ""
    ensures r.Some? ==> r.value == f.s
  {
    if f.Given? && f.s != "" then Some(f.s) else None
  }

  // ---------------------------------------------------------------------------
  // Order number
  // ---------------------------------------------------------------------------

  function Pad(n: nat, width: nat): string {
    PadStart(NatToDecimal(n), width, '0')
  }

  /** `new Date().toISOString().slice(0, 10).replace(/-/g, '')`. */
  function DateStamp(d: Date): string {
    Pad(d.year, 4) + Pad(d.month, 2) + Pad(d.day, 2)
  }

  /** `` `ORD-${ymd}-${orderId}` ``. */
  function OrderNumber(d: Date, orderId: int): string {
    "ORD-" + DateStamp(d) + "-" + IntToString(orderId)
  }

  /** Reads an order number back into its date and id. */
  function ParseOrderNumber(s: string): Option<(Date, nat)> {
    if && |s| >= 14 && s[..4] == "ORD-" && s[12] == '-'
       && AllDigits(s[4..8]) && AllDigits(s[8..10]) && AllDigits(s[10..12]) && AllDigits(s[13..])
    then
      Some((Date(DecimalValue(s[4..8]), DecimalValue(s[8..10]), DecimalValue(s[10..12])), DecimalValue(s[13..])))
    else None
  }

  /** A zero-padded number of at most `width` digits is exactly `width` digits with its value. */
  lemma {:induction false} PadValue(n: nat, width: nat)
    requires 1 <= width && n < Pow10(width)
    ensures |Pad(n, width)| == width && AllDigits(Pad(n, width)) && DecimalValue(Pad(n, width)) == n
  {
    NatToDecimalLength(n, width);
    var s := NatToDecimal(n);
    if |s| < width {
      LeadingZerosValue(width - |s|, s);
    }
  }

  /** The order number of a valid date and a non-negative id reads back to both. */
  lemma {:induction false} OrderNumberRoundTrip(d: Date, orderId: nat)
    requires ValidDate(d)
    ensures ParseOrderNumber(OrderNumber(d, orderId)) == Some((d, orderId))
  {
    DatePartsRoundTrip(d);
    ParseParts(Pad(d.year, 4), Pad(d.month, 2), Pad(d.day, 2), IntToString(orderId));
  }

  /** Parsing a number assembled from digit fields of the right widths reads the fields back. */
  lemma {:induction false} ParseParts(y: string, m: string, dd: string, digits: string)
    requires |y| == 4 && |m| == 2 && |dd| == 2 && |digits| >= 1
    requires AllDigits(y) && AllDigits(m) && AllDigits(dd) && AllDigits(digits)
    ensures ParseOrderNumber("ORD-" + (y + m + dd) + "-" + digits)
            == Some((Date(DecimalValue(y), DecimalValue(m), DecimalValue(dd)), DecimalValue(digits)))
  {
    var s := "ORD-" + (y + m + dd) + "-" + digits;
    assert s[..4] == "ORD-";
    assert s[4..8] == y && s[8..10] == m && s[10..12] == dd;
    assert s[12] == '-' && s[13..] == digits;
  }

  lemma {:induction false} DatePartsRoundTrip(d: Date)
    requires ValidDate(d)
    ensures |Pad(d.year, 4)| == 4 && AllDigits(Pad(d.year, 4)) && DecimalValue(Pad(d.year, 4)) == d.year
    ensures |Pad(d.month, 2)| == 2 && AllDigits(Pad(d.month, 2)) && DecimalValue(Pad(d.month, 2)) == d.month
    ensures |Pad(d.day, 2)| == 2 && AllDigits(Pad(d.day, 2)) && DecimalValue(Pad(d.day, 2)) == d.day
  {
    assert Pow10(2) == 100 && Pow10(4) == 10000 by {
      assert Pow10(1) == 10;
      assert Pow10(3) == 1000;
    }
    PadValue(d.year, 4);
    PadValue(d.month, 2);
    PadValue(d.day, 2);
  }

  /** Distinct orders get distinct numbers: the number determines date and id. */
  lemma {:induction false} OrderNumberInjective(d1: Date, id1: nat, d2: Date, id2: nat)
    requires ValidDate(d1) && ValidDate(d2)
    requires OrderNumber(d1, id1) == OrderNumber(d2, id2)
    ensures d1 == d2 && id1 == id2
  {
    OrderNumberRoundTrip(d1, id1);
    OrderNumberRoundTrip(d2, id2);
  }

  // ---------------------------------------------------------------------------
  // The transaction and the response
  // ---------------------------------------------------------------------------

  datatype Receipt = Receipt(orderId: int, orderNumber: string)

  /** The callback passed to `withTransaction`. */
  function CheckoutBody(rule: StockRule, req: Request, today: Date, now: int, db: Db): Result<(Db, Receipt), Thrown> {
    var snapshot := LockedRows(db.products, Ids(req.items));
    match CheckFrom(rule, snapshot, req.items, 0)
    case Failure(e) => Failure(e)
    case Success(total) =>
      assert forall i | 0 <= i < |req.items| :: req.items[i].productId in snapshot by {
        forall i | 0 <= i < |req.items| ensures req.items[i].productId in snapshot {
          assert LineFits(rule, snapshot, req.items, i);
        }
      }
      var products := Decrement(db.products, req.items);
      var orderId := db.serials.order + 1;
      var inserted := db.orders[orderId := Order(
        None, Trim(req.buyer.name), StoredOrNull(req.buyer.email), StoredOrNull(req.buyer.phone),
        total, "PAID", now, None)];
      var rows := MakeItems(orderId, snapshot, req.items, 0);
      var number := OrderNumber(today, orderId);
      var numbered := inserted[orderId := inserted[orderId].(orderNumber := Some(number))];
      Success((db.(products := products, orders := numbered, orderItems := db.orderItems + rows,
                   serials := db.serials.(order := orderId)),
               Receipt(orderId, number)))
  }

  datatype Body = Created(orderId: int, orderNumber: string) | Invalid(errors: seq<FieldError>) | Error(error: string)

  datatype Response = Response(status: int, body: Body)

  /** The state after the request, the HTTP response, and the pooled client's events. */
  datatype Outcome = Outcome(db: Db, response: Response, log: seq<ClientEvent>)

  const CheckoutFailed := "No se pudo crear la orden"

  /** The `catch` of `createOrder`: an error's own status when it has one, else a generic 500. */
  function ErrorResponse(e: Thrown): (r: Response)
    ensures e.statusCode.Some? && e.statusCode.value != 0 ==> r == Response(e.statusCode.value, Error(e.message))
    ensures e.statusCode.None? ==> r == Response(500, Error(CheckoutFailed))
  {
    if e.statusCode.Some? && e.statusCode.value != 0 then Response(e.statusCode.value, Error(e.message))
    else Response(500, Error(CheckoutFailed))
  }

  /**
   * The checkout handler under a stock rule. `today` is the UTC date of the
   * application clock and `now` the database's `CURRENT_TIMESTAMP`; the order
   * id is the next value of the orders serial.
   */
  function Checkout(rule: StockRule, db: Db, req: Request, isEmail: string -> bool, today: Date, now: int): (out: Outcome)
    // Malformed requests never open a transaction.
    ensures !WellFormed(req, isEmail) ==>
              out == Outcome(db, Response(400, Invalid(ValidationErrors(req, isEmail))), [])
    ensures WellFormed(req, isEmail) ==> |out.log| == 4 && out.log[0] == Begin && out.log[3] == Release
    // Success exactly when the request is well formed and every line fits.
    ensures out.response.status == 201 <==> WellFormed(req, isEmail) && AllFit(rule, db.products, req.items)
    // Every failure leaves the state untouched.
    ensures out.response.status != 201 ==> out.db == db
  {
    if !WellFormed(req, isEmail) then
      Outcome(db, Response(400, Invalid(ValidationErrors(req, isEmail))), [])
    else
      var tx := WithTransaction(db, (s: Db) => CheckoutBody(rule, req, today, now, s));
      CheckoutBodySucceeds(rule, req, today, now, db);
      match tx.result
      case Success(receipt) => Outcome(tx.state, Response(201, Created(receipt.orderId, receipt.orderNumber)), tx.log)
      case Failure(e) => Outcome(tx.state, ErrorResponse(e), tx.log)
  }

  /** The callback commits exactly when every line fits the live stock, and
      otherwise throws the error of the first line that does not. */
  lemma {:induction false} CheckoutBodySucceeds(rule: StockRule, req: Request, today: Date, now: int, db: Db)
    ensures CheckoutBody(rule, req, today, now, db).Success? <==> AllFit(rule, db.products, req.items)
    ensures CheckoutBody(rule, req, today, now, db).Failure? ==>
              exists i :: FirstUnfit(rule, db.products, req.items, i)
                          && CheckoutBody(rule, req, today, now, db).error == LineError(db.products, req.items, i)
  {
    LockedAgrees(rule, db.products, req.items);
  }

  /** The answer for an unfit line: 409 with the product's name when the
      product exists, a generic 500 when it does not. */
  function UnfitAnswer(products: map<int, Product>, items: seq<Line>, i: nat): Response
    requires i < |items|
  {
    var id := items[i].productId;
    if id in products then Response(409, Error("Stock insuficiente para producto " + products[id].name))
    else Response(500, Error(CheckoutFailed))
  }

  /** A failing well-formed request answers for its first unfit line. */
  lemma {:induction false} CheckoutFailureResponse(rule: StockRule, db: Db, req: Request, isEmail: string -> bool, today: Date, now: int)
    requires WellFormed(req, isEmail) && !AllFit(rule, db.products, req.items)
    ensures exists i :: FirstUnfit(rule, db.products, req.items, i)
                        && Checkout(rule, db, req, isEmail, today, now).response == UnfitAnswer(db.products, req.items, i)
  {
    CheckoutBodySucceeds(rule, req, today, now, db);
    var body := CheckoutBody(rule, req, today, now, db);
    var i :| FirstUnfit(rule, db.products, req.items, i) && body.error == LineError(db.products, req.items, i);
    FailureAnswersBodyError(rule, db, req, isEmail, today, now);
    LineErrorAnswer(db.products, req.items, i);
  }

  /** The error thrown for a line is answered as `UnfitAnswer`. */
  lemma {:induction false} LineErrorAnswer(products: map<int, Product>, items: seq<Line>, i: nat)
    requires i < |items|
    ensures ErrorResponse(LineError(products, items, i)) == UnfitAnswer(products, items, i)
  {
  }

  /** A well-formed request the callback rejects is answered from the callback's error. */
  lemma {:induction false} FailureAnswersBodyError(rule: StockRule, db: Db, req: Request, isEmail: string -> bool, today: Date, now: int)
    requires WellFormed(req, isEmail) && CheckoutBody(rule, req, today, now, db).Failure?
    ensures Checkout(rule, db, req, isEmail, today, now).response == ErrorResponse(CheckoutBody(rule, req, today, now, db).error)
  {
  }

  /** The lock-read snapshot answers every line exactly as the live table does. */
  lemma {:induction false} LockedAgrees(rule: StockRule, products: map<int, Product>, items: seq<Line>)
    ensures forall i | 0 <= i < |items| ::
              LineFits(rule, LockedRows(products, Ids(items)), items, i) == LineFits(rule, products, items, i)
    ensures forall i | 0 <= i < |items| ::
              LineError(LockedRows(products, Ids(items)), items, i) == LineError(products, items, i)
  {
    var snapshot := LockedRows(products, Ids(items));
    forall i | 0 <= i < |items|
      ensures items[i].productId in snapshot <==> items[i].productId in products
    {
      assert items[i].productId in Ids(items);
    }
  }

  /** `createOrder` as written: each line is checked on its own against the
      snapshot, so a request is committed exactly when it is well formed and
      every line names a product whose stock covers that line's quantity. */
  function CreateOrder(db: Db, req: Request, isEmail: string -> bool, today: Date, now: int): (out: Outcome)
    ensures out.response.status == 201 <==>
              && WellFormed(req, isEmail)
              && forall i | 0 <= i < |req.items| ::
                   req.items[i].productId in db.products && req.items[i].quantity <= db.products[req.items[i].productId].stock
    ensures out.response.status != 201 ==> out.db == db
  {
    PerLineFitsEachLine(db.products, req.items);
    Checkout(PerLine, db, req, isEmail, today, now)
  }

  /** Under the per-line rule a request fits exactly when each line's own
      quantity is within its product's stock. */
  lemma {:induction false} PerLineFitsEachLine(products: map<int, Product>, items: seq<Line>)
    ensures AllFit(PerLine, products, items) <==>
              forall i | 0 <= i < |items| ::
                items[i].productId in products && items[i].quantity <= products[items[i].productId].stock
  {
    forall i | 0 <= i < |items|
      ensures LineFits(PerLine, products, items, i) <==>
                items[i].productId in products && items[i].quantity <= products[items[i].productId].stock
    {
      assert Requested(PerLine, items, i) == items[i].quantity;
    }
  }

  // ---------------------------------------------------------------------------
  // What a successful checkout writes
  // ---------------------------------------------------------------------------

  /** A 201 is the committed state of the callback and its receipt. */
  lemma {:induction false} CheckoutCommits(rule: StockRule, db: Db, req: Request, isEmail: string -> bool, today: Date, now: int)
    requires Checkout(rule, db, req, isEmail, today, now).response.status == 201
    ensures AllFit(rule, db.products, req.items)
    ensures var out := Checkout(rule, db, req, isEmail, today, now);
            var body := CheckoutBody(rule, req, today, now, db);
            && body.Success?
            && out.db == body.value.0
            && out.response == Response(201, Created(body.value.1.orderId, body.value.1.orderNumber))
  {
    CheckoutBodySucceeds(rule, req, today, now, db);
  }

  /** Every line of a fitting request names a product of the lock-read snapshot. */
  lemma {:induction false} FittingLinesResolve(rule: StockRule, db: Db, req: Request)
    requires AllFit(rule, db.products, req.items)
    ensures forall i | 0 <= i < |req.items| :: req.items[i].productId in LockedRows(db.products, Ids(req.items))
  {
    LockedAgrees(rule, db.products, req.items);
    forall i | 0 <= i < |req.items| ensures req.items[i].productId in LockedRows(db.products, Ids(req.items)) {
      assert LineFits(rule, db.products, req.items, i);
    }
  }

  /** The stock a committed callback leaves: each product less everything requested for it. */
  lemma {:induction false} BodyDecrementsStock(rule: StockRule, req: Request, today: Date, now: int, db: Db)
    requires AllFit(rule, db.products, req.items)
    ensures var body := CheckoutBody(rule, req, today, now, db);
            && body.Success?
            && body.value.0.categories == db.categories
            && body.value.0.products.Keys == db.products.Keys
            && forall id | id in db.products ::
                 body.value.0.products[id] == db.products[id].(stock := db.products[id].stock - QtyFor(req.items, id))
  {
    CheckoutBodySucceeds(rule, req, today, now, db);
    FittingLinesResolve(rule, db, req);
  }

  /** The order a committed callback inserts under the next serial, numbered and PAID. */
  lemma {:induction false} BodyInsertsOrder(rule: StockRule, req: Request, today: Date, now: int, db: Db)
    requires AllFit(rule, db.products, req.items)
    ensures var body := CheckoutBody(rule, req, today, now, db);
            var orderId := db.serials.order + 1;
            && body.Success?
            && body.value.1 == Receipt(orderId, OrderNumber(today, orderId))
            && body.value.0.serials == db.serials.(order := orderId)
            && body.value.0.orders.Keys == db.orders.Keys + {orderId}
            && (forall id | id in db.orders && id != orderId :: body.value.0.orders[id] == db.orders[id])
            && var o := body.value.0.orders[orderId];
               && o.orderNumber == Some(OrderNumber(today, orderId))
               && o.buyerName == Trim(req.buyer.name)
               && o.buyerEmail == StoredOrNull(req.buyer.email)
               && o.buyerPhone == StoredOrNull(req.buyer.phone)
               && o.status == "PAID" && o.orderDate == now && o.deletedAt.None?
  {
    CheckoutBodySucceeds(rule, req, today, now, db);
    FittingLinesResolve(rule, db, req);
  }

  /** The items a committed callback appends: one per line at the snapshot price,
      adding up to the order's total. */
  lemma {:induction false} BodyAppendsItems(rule: StockRule, req: Request, today: Date, now: int, db: Db)
    requires AllFit(rule, db.products, req.items)
    ensures CheckoutBody(rule, req, today, now, db).Success?
    ensures var body := CheckoutBody(rule, req, today, now, db);
            var orderId := db.serials.order + 1;
            var after := body.value.0.orderItems;
            && |after| == |db.orderItems| + |req.items|
            && after[..|db.orderItems|] == db.orderItems
            && (forall i | 0 <= i < |req.items| ::
                  && req.items[i].productId in db.products
                  && after[|db.orderItems| + i]
                       == OrderItem(orderId, req.items[i].productId, req.items[i].quantity, db.products[req.items[i].productId].price))
            && orderId in body.value.0.orders
            && body.value.0.orders[orderId].totalAmount == ItemsTotal(after[|db.orderItems|..])
  {
    CheckoutBodySucceeds(rule, req, today, now, db);
    FittingLinesResolve(rule, db, req);
    var snapshot := LockedRows(db.products, Ids(req.items));
    var orderId := db.serials.order + 1;
    var rows := MakeItems(orderId, snapshot, req.items, 0);
    var after := CheckoutBody(rule, req, today, now, db).value.0.orderItems;
    assert after == db.orderItems + rows;
    assert after[|db.orderItems|..] == rows;
    assert after[..|db.orderItems|] == db.orderItems;
    forall i | 0 <= i < |req.items|
      ensures && req.items[i].productId in db.products
              && after[|db.orderItems| + i]
                   == OrderItem(orderId, req.items[i].productId, req.items[i].quantity, db.products[req.items[i].productId].price)
    {
      assert after[|db.orderItems| + i] == rows[i];
      assert req.items[i].productId in snapshot;
    }
  }

  /** Stock after a committed checkout: each product less everything requested for it. */
  lemma {:induction false} CheckoutSuccessStock(rule: StockRule, db: Db, req: Request, isEmail: string -> bool, today: Date, now: int)
    requires Checkout(rule, db, req, isEmail, today, now).response.status == 201
    ensures var out := Checkout(rule, db, req, isEmail, today, now);
            && out.db.categories == db.categories
            && out.db.products.Keys == db.products.Keys
            && forall id | id in db.products ::
                 out.db.products[id] == db.products[id].(stock := db.products[id].stock - QtyFor(req.items, id))
  {
    CheckoutCommits(rule, db, req, isEmail, today, now);
    BodyDecrementsStock(rule, req, today, now, db);
  }

  /** The order a committed checkout records and reports: the next serial, numbered, PAID,
      with the trimmed buyer name, the phone as sent or NULL when left out, the
      e-mail as sent or NULL, and every older order as it was. A committed
      request never had a `null` phone. */
  lemma {:induction false} CheckoutSuccessOrder(rule: StockRule, db: Db, req: Request, isEmail: string -> bool, today: Date, now: int)
    requires Checkout(rule, db, req, isEmail, today, now).response.status == 201
    ensures !req.buyer.phone.Null?
    ensures var out := Checkout(rule, db, req, isEmail, today, now);
            var orderId := db.serials.order + 1;
            && out.response == Response(201, Created(orderId, OrderNumber(today, orderId)))
            && out.db.serials == db.serials.(order := orderId)
            && out.db.orders.Keys == db.orders.Keys + {orderId}
            && (forall id | id in db.orders && id != orderId :: out.db.orders[id] == db.orders[id])
            && var o := out.db.orders[orderId];
               && o.orderNumber == Some(OrderNumber(today, orderId))
               && o.buyerName == Trim(req.buyer.name)
               && o.buyerEmail == StoredOrNull(req.buyer.email)
               && o.buyerPhone == (if req.buyer.phone.Given? then Some(req.buyer.phone.s) else None)
               && o.status == "PAID" && o.orderDate == now && o.deletedAt.None?
  {
    CheckoutCommits(rule, db, req, isEmail, today, now);
    BodyInsertsOrder(rule, req, today, now, db);
  }

  /** The items a committed checkout appends: one per line at the price read under
      lock, after the existing items, adding up to the order's total. */
  lemma {:induction false} CheckoutSuccessItems(rule: StockRule, db: Db, req: Request, isEmail: string -> bool, today: Date, now: int)
    requires Checkout(rule, db, req, isEmail, today, now).response.status == 201
    ensures var out := Checkout(rule, db, req, isEmail, today, now);
            var orderId := db.serials.order + 1;
            var after := out.db.orderItems;
            && |after| == |db.orderItems| + |req.items|
            && after[..|db.orderItems|] == db.orderItems
            && (forall i | 0 <= i < |req.items| ::
                  && req.items[i].productId in db.products
                  && after[|db.orderItems| + i]
                       == OrderItem(orderId, req.items[i].productId, req.items[i].quantity, db.products[req.items[i].productId].price))
            && orderId in out.db.orders
            && out.db.orders[orderId].totalAmount == ItemsTotal(after[|db.orderItems|..])
  {
    CheckoutCommits(rule, db, req, isEmail, today, now);
    BodyAppendsItems(rule, req, today, now, db);
  }

  /** The keys of every table still come from their serials after any checkout. */
  lemma {:induction false} CheckoutKeepsKeyed(rule: StockRule, db: Db, req: Request, isEmail: string -> bool, today: Date, now: int)
    requires Keyed(db)
    ensures Keyed(Checkout(rule, db, req, isEmail, today, now).db)
  {
    var out := Checkout(rule, db, req, isEmail, today, now);
    if out.response.status == 201 {
      CheckoutSuccessStock(rule, db, req, isEmail, today, now);
      CheckoutSuccessOrder(rule, db, req, isEmail, today, now);
      KeyedAfterInsert(db, out.db, db.serials.order + 1);
    }
  }

  /** Same categories and product keys, one more order under the next serial: still keyed. */
  lemma {:induction false} KeyedAfterInsert(db: Db, after: Db, orderId: int)
    requires Keyed(db) && orderId == db.serials.order + 1
    requires after.categories == db.categories && after.products.Keys == db.products.Keys
    requires after.serials == db.serials.(order := orderId) && after.orders.Keys == db.orders.Keys + {orderId}
    ensures Keyed(after)
  {
  }

  /** The order number a checkout returns reads back to its date and order id. */
  lemma {:induction false} CheckoutNumberReadsBack(rule: StockRule, db: Db, req: Request, isEmail: string -> bool, today: Date, now: int)
    requires ValidDate(today) && db.serials.order >= 0
    requires Checkout(rule, db, req, isEmail, today, now).response.status == 201
    ensures var body := Checkout(rule, db, req, isEmail, today, now).response.body;
            body.Created? && ParseOrderNumber(body.orderNumber) == Some((today, body.orderId))
  {
    CheckoutSuccessOrder(rule, db, req, isEmail, today, now);
    OrderNumberRoundTrip(today, db.serials.order + 1);
  }

  // ---------------------------------------------------------------------------
  // Stock never goes negative under the aggregated check
  // ---------------------------------------------------------------------------

  predicate NonNegativeStock(products: map<int, Product>) {
    forall id | id in products :: products[id].stock >= 0
  }

  /** No line names `id`, so nothing is requested for it. */
  lemma {:induction false} QtyForAbsent(items: seq<Line>, id: int)
    requires forall i | 0 <= i < |items| :: items[i].productId != id
    ensures QtyFor(items, id) == 0
  {
    if items != [] {
      QtyForAbsent(items[1..], id);
    }
  }

  /** When the lines name distinct products, a line's quantity is all that is requested for its product. */
  lemma {:induction false} QtyForDistinct(items: seq<Line>, i: nat)
    requires i < |items|
    requires forall a, b | 0 <= a < b < |items| :: items[a].productId != items[b].productId
    ensures QtyFor(items, items[i].productId) == items[i].quantity
  {
    if i == 0 {
      QtyForAbsent(items[1..], items[0].productId);
    } else {
      QtyForDistinct(items[1..], i - 1);
    }
  }

  /** Under the aggregated check, a fitting request asks no product for more than its stock. */
  lemma {:induction false} AggregatedCovers(products: map<int, Product>, items: seq<Line>, id: int)
    requires AllFit(Aggregated, products, items) && id in products && products[id].stock >= 0
    ensures products[id].stock - QtyFor(items, id) >= 0
  {
    if exists i | 0 <= i < |items| :: items[i].productId == id {
      var i :| 0 <= i < |items| && items[i].productId == id;
      assert LineFits(Aggregated, products, items, i);
    } else {
      QtyForAbsent(items, id);
    }
  }

  /** With the aggregated check a committed checkout never drives stock below zero. */
  lemma {:induction false} AggregatedKeepsStockNonNegative(db: Db, req: Request, isEmail: string -> bool, today: Date, now: int)
    requires NonNegativeStock(db.products)
    ensures NonNegativeStock(Checkout(Aggregated, db, req, isEmail, today, now).db.products)
  {
    var out := Checkout(Aggregated, db, req, isEmail, today, now);
    if out.response.status == 201 {
      CheckoutSuccessStock(Aggregated, db, req, isEmail, today, now);
      forall id | id in out.db.products ensures out.db.products[id].stock >= 0 {
        AggregatedCovers(db.products, req.items, id);
      }
    }
  }

  /** When no product is named twice, the check as written and the aggregated check agree. */
  lemma {:induction false} RulesAgreeOnDistinctLines(products: map<int, Product>, items: seq<Line>)
    requires forall a, b | 0 <= a < b < |items| :: items[a].productId != items[b].productId
    ensures AllFit(PerLine, products, items) <==> AllFit(Aggregated, products, items)
  {
    forall i | 0 <= i < |items|
      ensures LineFits(PerLine, products, items, i) <==> LineFits(Aggregated, products, items, i)
    {
      QtyForDistinct(items, i);
    }
  }

  /** The check as written only oversells when a product is named twice. */
  lemma {:induction false} PerLineSafeOnDistinctLines(db: Db, req: Request, isEmail: string -> bool, today: Date, now: int)
    requires NonNegativeStock(db.products)
    requires forall a, b | 0 <= a < b < |req.items| :: req.items[a].productId != req.items[b].productId
    ensures NonNegativeStock(CreateOrder(db, req, isEmail, today, now).db.products)
  {
    var out := CreateOrder(db, req, isEmail, today, now);
    if out.response.status == 201 {
      CheckoutSuccessStock(PerLine, db, req, isEmail, today, now);
      forall id | id in out.db.products ensures out.db.products[id].stock >= 0 {
        if exists i | 0 <= i < |req.items| :: req.items[i].productId == id {
          var i :| 0 <= i < |req.items| && req.items[i].productId == id;
          assert LineFits(PerLine, db.products, req.items, i);
          QtyForDistinct(req.items, i);
        } else {
          QtyForAbsent(req.items, id);
        }
      }
    }
  }

  /** The same line twice, each copy within stock, both together beyond it
      (two lines of 2 units against a stock of 3, say). */
  predicate DoubledLine(db: Db, req: Request) {
    && |req.items| == 2 && req.items[0] == req.items[1]
    && req.items[0].productId in db.products
    && req.items[0].quantity <= db.products[req.items[0].productId].stock < 2 * req.items[0].quantity
  }

  lemma {:induction false} DoubledQuantity(items: seq<Line>)
    requires |items| == 2 && items[0] == items[1]
    ensures QtyFor(items, items[0].productId) == 2 * items[0].quantity
  {
    var id := items[0].productId;
    assert items[1..][0] == items[1] && items[1..][1..] == [];
    assert QtyFor(items[1..], id) == items[1].quantity + QtyFor(items[1..][1..], id);
  }

  /** The check as written commits a doubled line and drives the product's stock below zero. */
  lemma {:induction false} PerLineOversells(db: Db, req: Request, isEmail: string -> bool, today: Date, now: int)
    requires WellFormed(req, isEmail) && DoubledLine(db, req)
    ensures var out := CreateOrder(db, req, isEmail, today, now);
            && out.response.status == 201
            && out.db.products[req.items[0].productId].stock < 0
  {
    DoubledLineFitsPerLine(db, req);
    CheckoutSuccessStock(PerLine, db, req, isEmail, today, now);
    DoubledQuantity(req.items);
  }

  /** Each copy of the doubled line fits the stock on its own. */
  lemma DoubledLineFitsPerLine(db: Db, req: Request)
    requires DoubledLine(db, req)
    ensures AllFit(PerLine, db.products, req.items)
  {
    assert LineFits(PerLine, db.products, req.items, 0) && LineFits(PerLine, db.products, req.items, 1);
  }

  /** The aggregated check rejects the same request with a 409 naming the product and changes nothing. */
  lemma {:induction false} AggregatedRejectsOversell(db: Db, req: Request, isEmail: string -> bool, today: Date, now: int)
    requires WellFormed(req, isEmail) && DoubledLine(db, req)
    ensures var out := Checkout(Aggregated, db, req, isEmail, today, now);
            && out.response == Response(409, Error("Stock insuficiente para producto " + db.products[req.items[0].productId].name))
            && out.db == db
  {
    DoubledQuantity(req.items);
    assert !LineFits(Aggregated, db.products, req.items, 0);
    CheckoutFailureResponse(Aggregated, db, req, isEmail, today, now);
    var i :| FirstUnfit(Aggregated, db.products, req.items, i)
             && Checkout(Aggregated, db, req, isEmail, today, now).response == UnfitAnswer(db.products, req.items, i);
    assert i == 0;
  }

  // ---------------------------------------------------------------------------
  // The older storefront's checkout button
  // ---------------------------------------------------------------------------

  const QuickBuyerName := "Cliente Web"

  /** The fixed name is already trimmed and long enough. */
  lemma QuickNameKept()
    ensures Trim(QuickBuyerName) == QuickBuyerName && IsLengthCount(QuickBuyerName) >= 2
  {
    TrimUnpadded(QuickBuyerName);
  }

  /** The body `{}`: no name, which `trim()` reads as `""`, no contact fields and no items. */
  const EmptyRequest := Request(Buyer("", Absent, Absent), [])

  /** The request `createOrder` sees of a body sent as `enc`. */
  function Received(enc: Encoding, sent: Request): Request {
    match enc
    case Json => sent
    case PlainText => EmptyRequest
  }

  /** The errors of the empty body: the name and the items, in that order. */
  const UnparsedErrors := [FieldError("buyer.name", "Nombre requerido"), FieldError("items", "Debe enviar items")]

  /** Whatever was written into it, a body the server does not parse is
      answered 400 for the missing name and the missing items and for nothing
      else; no transaction is opened and nothing is written. */
  lemma {:induction false} UnparsedBodyRejected(rule: StockRule, db: Db, sent: Request, isEmail: string -> bool,
                                                today: Date, now: int)
    ensures Checkout(rule, db, Received(PlainText, sent), isEmail, today, now)
            == Outcome(db, Response(400, Invalid(UnparsedErrors)), [])
  {
    var req := Received(PlainText, sent);
    assert req == EmptyRequest;
    assert Trim("") == "";
    assert ContactErrors(req.buyer, isEmail) == [];
    assert LineErrors([]) == [FieldError("items", "Debe enviar items")];
    assert ValidationErrors(req, isEmail) == UnparsedErrors;
  }

  /** The body the older storefront's checkout button writes: a fixed buyer
      name, `email: null`, `phone: null`, and one line per cart entry. */
  function QuickCheckoutRequest(items: seq<Line>): Request {
    Request(Buyer(QuickBuyerName, Null, Null), items)
  }

  /** As written, the button posts that body through `fetchJSON` without a
      `Content-Type`, so it travels as plain text: whatever the cart and the
      stock, the answer is 400 for the name and the items, never reaching
      the contact fields, and nothing is written. */
  lemma {:induction false} QuickCheckoutRejected(rule: StockRule, db: Db, items: seq<Line>, isEmail: string -> bool,
                                                 today: Date, now: int)
    ensures var out := Checkout(rule, db, Received(PlainText, QuickCheckoutRequest(items)), isEmail, today, now);
            && out.db == db && out.log == []
            && out.response == Response(400, Invalid(UnparsedErrors))
            && FieldError("buyer.email", "Email inválido") !in out.response.body.errors
  {
    UnparsedBodyRejected(rule, db, QuickCheckoutRequest(items), isEmail, today, now);
  }

  /** Sent as JSON but still with `null` contact fields, the body fails on
      them: as long as `isEmail("")` is false, the answer is 400 naming the
      e-mail and the phone, and nothing is written. */
  lemma {:induction false} QuickJsonNullsRejected(rule: StockRule, db: Db, items: seq<Line>, isEmail: string -> bool,
                                                  today: Date, now: int)
    requires !isEmail("")
    ensures var out := Checkout(rule, db, Received(Json, QuickCheckoutRequest(items)), isEmail, today, now);
            && out.db == db && out.log == []
            && out.response.status == 400 && out.response.body.Invalid?
            && FieldError("buyer.email", "Email inválido") in out.response.body.errors
            && FieldError("buyer.phone", "Teléfono inválido") in out.response.body.errors
  {
    var req := QuickCheckoutRequest(items);
    QuickNameKept();
    QuickContactErrors(req, isEmail);
  }

  /** A `null` e-mail and phone next to a valid name are the first two errors. */
  lemma {:induction false} QuickContactErrors(req: Request, isEmail: string -> bool)
    requires req.buyer.email.Null? && req.buyer.phone.Null? && !isEmail("")
    requires IsLengthCount(Trim(req.buyer.name)) >= 2
    ensures !WellFormed(req, isEmail)
    ensures var errs := ValidationErrors(req, isEmail);
            |errs| >= 2 && errs[0] == FieldError("buyer.email", "Email inválido")
            && errs[1] == FieldError("buyer.phone", "Teléfono inválido")
  {
    var email, phone := FieldError("buyer.email", "Email inválido"), FieldError("buyer.phone", "Teléfono inválido");
    var name := if IsLengthCount(Trim(req.buyer.name)) >= 2 then [] else [FieldError("buyer.name", "Nombre requerido")];
    assert name == [];
    assert ContactErrors(req.buyer, isEmail) == [email] + [phone];
    assert ValidationErrors(req, isEmail) == name + ContactErrors(req.buyer, isEmail) + LineErrors(req.items);
    assert ValidationErrors(req, isEmail) == [email, phone] + LineErrors(req.items);
  }

  /** The corrected body: the contact fields left out instead of `null`. */
  function QuickCheckoutOmitting(items: seq<Line>): Request {
    Request(Buyer(QuickBuyerName, Absent, Absent), items)
  }

  /** Sent as JSON, with the header the newer storefront's checkout form sets,
      and with the contact fields left out, the body passes validation: a cart
      of positive ids and quantities is committed exactly when the stock
      covers it, as an order with no e-mail and no phone. */
  lemma {:induction false} QuickCheckoutOmittingCommits(rule: StockRule, db: Db, items: seq<Line>, isEmail: string -> bool,
                                                        today: Date, now: int)
    requires |items| >= 1
    requires forall i | 0 <= i < |items| :: items[i].productId > 0 && items[i].quantity > 0
    ensures Checkout(rule, db, Received(Json, QuickCheckoutOmitting(items)), isEmail, today, now).response.status == 201
            <==> AllFit(rule, db.products, items)
    ensures var out := Checkout(rule, db, Received(Json, QuickCheckoutOmitting(items)), isEmail, today, now);
            out.response.status == 201 ==>
              && db.serials.order + 1 in out.db.orders
              && var o := out.db.orders[db.serials.order + 1];
                 o.buyerName == QuickBuyerName && o.buyerEmail.None? && o.buyerPhone.None?
  {
    var req := QuickCheckoutOmitting(items);
    assert Received(Json, req) == req;
    QuickOmittingWellFormed(items, isEmail);
    WellFormedCommitsIffFit(rule, db, req, isEmail, today, now);
    if Checkout(rule, db, req, isEmail, today, now).response.status == 201 {
      QuickOmittingOrder(rule, db, req, isEmail, today, now);
      QuickNameKept();
    }
  }

  /** A well-formed request is committed exactly when its lines fit. */
  lemma {:induction false} WellFormedCommitsIffFit(rule: StockRule, db: Db, req: Request, isEmail: string -> bool,
                                                   today: Date, now: int)
    requires WellFormed(req, isEmail)
    ensures Checkout(rule, db, req, isEmail, today, now).response.status == 201 <==> AllFit(rule, db.products, req.items)
  {
  }

  /** A committed body without contact fields records the trimmed name and no contact details. */
  lemma {:induction false} QuickOmittingOrder(rule: StockRule, db: Db, req: Request, isEmail: string -> bool,
                                              today: Date, now: int)
    requires req.buyer.email.Absent? && req.buyer.phone.Absent?
    requires Checkout(rule, db, req, isEmail, today, now).response.status == 201
    ensures var out := Checkout(rule, db, req, isEmail, today, now);
            && db.serials.order + 1 in out.db.orders
            && var o := out.db.orders[db.serials.order + 1];
               o.buyerName == Trim(req.buyer.name) && o.buyerEmail.None? && o.buyerPhone.None?
  {
    CheckoutSuccessOrder(rule, db, req, isEmail, today, now);
  }

  /** Without the `null` fields the quick body is well formed. */
  lemma {:induction false} QuickOmittingWellFormed(items: seq<Line>, isEmail: string -> bool)
    requires |items| >= 1
    requires forall i | 0 <= i < |items| :: items[i].productId > 0 && items[i].quantity > 0
    ensures WellFormed(QuickCheckoutOmitting(items), isEmail)
  {
    QuickNameKept();
  }

  // ---------------------------------------------------------------------------
  // Listing orders (`listOrders`)
  // ---------------------------------------------------------------------------

  const ListLimit := 200

  /** The ids of `ids` whose order is not soft-deleted, in the same order. */
  function LiveIds(orders: map<int, Order>, ids: seq<int>): (r: seq<int>)
    requires forall i | 0 <= i < |ids| :: ids[i] in orders
    ensures |r| <= |ids|
    ensures forall i | 0 <= i < |r| :: r[i] in ids && r[i] in orders && orders[r[i]].deletedAt.None?
    ensures forall i | 0 <= i < |ids| :: orders[ids[i]].deletedAt.None? ==> ids[i] in r
    ensures StrictlyDescending(ids) ==> StrictlyDescending(r)
  {
    var live := (id: int) => id in orders && orders[id].deletedAt.None?;
    if StrictlyDescending(ids) then KeepIdsDescending(ids, live); KeepIds(ids, live)
    else KeepIds(ids, live)
  }

  /** Every row is a live order as stored. */
  predicate LiveRows(db: Db, rows: seq<(int, Order)>) {
    forall i | 0 <= i < |rows| :: rows[i].0 in db.orders && rows[i].1 == db.orders[rows[i].0] && rows[i].1.deletedAt.None?
  }

  /** Ids strictly decrease down the rows. */
  predicate NewestFirst(rows: seq<(int, Order)>) {
    forall i, j | 0 <= i < j < |rows| :: rows[i].0 > rows[j].0
  }

  /** A prefix keeps the order and the liveness of its ids. */
  lemma {:induction false} PrefixOfLive(orders: map<int, Order>, ids: seq<int>, n: nat)
    requires n <= |ids| && StrictlyDescending(ids)
    requires forall i | 0 <= i < |ids| :: ids[i] in orders && orders[ids[i]].deletedAt.None?
    ensures StrictlyDescending(ids[..n])
    ensures forall i | 0 <= i < n :: ids[..n][i] in orders && orders[ids[..n][i]].deletedAt.None?
  {
  }

  /** Each id paired with its row. */
  function Rows(orders: map<int, Order>, ids: seq<int>): (rows: seq<(int, Order)>)
    requires forall i | 0 <= i < |ids| :: ids[i] in orders
    ensures |rows| == |ids|
    ensures forall i | 0 <= i < |rows| :: rows[i] == (ids[i], orders[ids[i]])
  {
    seq(|ids|, i requires 0 <= i < |ids| => (ids[i], orders[ids[i]]))
  }

  /** `SELECT ... WHERE deleted_at IS NULL ORDER BY id DESC LIMIT 200`, as (id, row) pairs. */
  function ListOrders(db: Db): (rows: seq<(int, Order)>)
    ensures |rows| <= ListLimit
    ensures LiveRows(db, rows) && NewestFirst(rows)
  {
    var ids := LiveIds(db.orders, KeysDescending(db.orders.Keys, db.serials.order));
    PrefixOfLive(db.orders, ids, |Newest(ids)|);
    Rows(db.orders, Newest(ids))
  }

  /** Under the serial invariant every live order is among the live ids. */
  lemma {:induction false} LiveOrderListed(db: Db, id: int)
    requires Keyed(db)
    requires id in db.orders && db.orders[id].deletedAt.None?
    ensures id in LiveIds(db.orders, KeysDescending(db.orders.Keys, db.serials.order))
  {
    var all := KeysDescending(db.orders.Keys, db.serials.order);
    assert 1 <= id <= db.serials.order;
    assert id in all;
    var k :| 0 <= k < |all| && all[k] == id;
  }

  /** The newest `ListLimit` ids. */
  function Newest(ids: seq<int>): (r: seq<int>)
    ensures |r| <= ListLimit && |r| <= |ids|
    ensures forall i | 0 <= i < |r| :: r[i] == ids[i]
    ensures |r| < ListLimit ==> r == ids
  {
    if |ids| <= ListLimit then ids else ids[..ListLimit]
  }

  /** Nothing live is skipped: under the serial invariant every live order is
      listed, or the list is full and the order is older than everything in it. */
  lemma {:induction false} ListOrdersComplete(db: Db, id: int)
    requires Keyed(db)
    requires id in db.orders && db.orders[id].deletedAt.None?
    ensures var rows := ListOrders(db);
            (exists i | 0 <= i < |rows| :: rows[i].0 == id)
            || (|rows| == ListLimit && forall i | 0 <= i < |rows| :: rows[i].0 > id)
  {
    var ids := LiveIds(db.orders, KeysDescending(db.orders.Keys, db.serials.order));
    LiveOrderListed(db, id);
    var p :| 0 <= p < |ids| && ids[p] == id;
    var rows := ListOrders(db);
    assert rows == Rows(db.orders, Newest(ids));
    if p < |Newest(ids)| {
      assert rows[p].0 == id;
    } else {
      OlderThanNewest(ids, p);
    }
  }

  /** An id past the newest ones is older than all of them. */
  lemma {:induction false} OlderThanNewest(ids: seq<int>, p: nat)
    requires StrictlyDescending(ids) && |Newest(ids)| <= p < |ids|
    ensures |Newest(ids)| == ListLimit && forall i | 0 <= i < |Newest(ids)| :: Newest(ids)[i] > ids[p]
  {
  }
}
