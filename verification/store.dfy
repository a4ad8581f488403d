/**
 * The backend's persistent state as a value: the `Categories`, `Products`,
 * `Orders` and `OrderItems` tables. Tables with a serial key are maps from
 * that key to the row; money is held in integer cents; timestamps are
 * abstract integers.
 */
module Store {
  import opened Wrappers
  import opened Text

  /** A row of `Categories`. */
  datatype Category = Category(
    name: string,
    imageUrl: Option<string>,
    imageFilePath: Option<string>,
    description: Option<string>,
    deletedAt: Option<int>)

  /** A row of `Products`. */
  datatype Product = Product(
    categoryId: int,
    name: string,
    description: string,
    price: int,
    imageUrl: Option<string>,
    imageFilePath: Option<string>,
    stock: int,
    specifications: Option<string>,
    deletedAt: Option<int>)

  /** A row of `Orders`; the order number is filled in after the insert. */
  datatype Order = Order(
    orderNumber: Option<string>,
    buyerName: string,
    buyerEmail: Option<string>,
    buyerPhone: Option<string>,
    totalAmount: int,
    status: string,
    orderDate: int,
    deletedAt: Option<int>)

  /** A row of `OrderItems`: the unit price is captured at checkout time. */
  datatype OrderItem = OrderItem(orderId: int, productId: int, quantity: int, unitPrice: int)

  /** One entry of express-validator's `errors.array()`: the field and its message. */
  datatype FieldError = FieldError(path: string, msg: string)

  /** One check of a validation chain: `[error]` when it fails. */
  function Check(ok: bool, path: string, msg: string): (errs: seq<FieldError>)
    ensures errs == [] <==> ok
    ensures msg != "" ==> Explained(errs)
  {
    if ok then [] else [FieldError(path, msg)]
  }

  /** Every entry carries a message. */
  predicate Explained(errs: seq<FieldError>) {
    forall i | 0 <= i < |errs| :: errs[i].msg != ""
  }

  lemma {:induction false} ExplainedAppend(a: seq<FieldError>, b: seq<FieldError>)
    requires Explained(a) && Explained(b)
    ensures Explained(a + b)
  {
    assert forall i | 0 <= i < |a + b| :: (a + b)[i] == if i < |a| then a[i] else b[i - |a|];
  }

  /** A `trim()`med text field that is required and of a length in `[lo, hi]`:
      an empty value fails both checks. */
  function TextErrors(v: string, lo: nat, hi: nat, path: string, required: string, length: string): (errs: seq<FieldError>)
    ensures errs == [] <==> v != "" && lo <= IsLengthCount(v) <= hi
    ensures v == "" && lo > 0 ==> errs == [FieldError(path, required), FieldError(path, length)]
    ensures required != "" && length != "" ==> Explained(errs)
  {
    var a, b := Check(v != "", path, required), Check(lo <= IsLengthCount(v) <= hi, path, length);
    if required != "" && length != "" then ExplainedAppend(a, b); a + b else a + b
  }

  /** The trimmed value of an optional text field (`trim()` turns an absent one into `""`). */
  function Trimmed(o: Option<string>): string {
    Trim(o.GetOr(""))
  }

  /**
   * An optional field of a JSON request body: left out, `null`, or a string.
   * express-validator's `optional()` skips only a field that is left out; a
   * `null` one goes through the chain and reads as `""`.
   */
  datatype BodyField = Absent | Null | Given(s: string)

  /**
   * How a request body is sent. The server parses JSON bodies only when they
   * are marked `Content-Type: application/json`; a string body that `fetch`
   * sends without that header goes out as `text/plain`, which no body parser
   * reads, so the handler sees the empty body `{}`.
   */
  datatype Encoding = Json | PlainText

  /** The string a validator reads from a field that is present. */
  function ValidatorInput(f: BodyField): string {
    if f.Given? then f.s else ""
  }

  /** SQL `COALESCE(a, b)`. */
  function Coalesce(a: Option<string>, b: Option<string>): (r: Option<string>)
    ensures a.Some? ==> r == a
    ensures a.None? ==> r == b
  {
    if a.Some? then a else b
  }

  /** The last value each table's serial sequence handed out. */
  datatype Serials = Serials(category: int, product: int, order: int)

  datatype Db = Db(
    categories: map<int, Category>,
    products: map<int, Product>,
    orders: map<int, Order>,
    orderItems: seq<OrderItem>,
    serials: Serials)

  /** Every key of `keys` was handed out by a serial whose last value is `last`. */
  predicate KeysBelow(keys: set<int>, last: int) {
    forall k | k in keys :: 1 <= k <= last
  }

  /** The state invariant of serial keys: each table's keys come from its
      sequence, whose last value is 0 before it has handed out any. */
  predicate Keyed(db: Db) {
    && db.serials.category >= 0 && db.serials.product >= 0 && db.serials.order >= 0
    && KeysBelow(db.categories.Keys, db.serials.category)
    && KeysBelow(db.products.Keys, db.serials.product)
    && KeysBelow(db.orders.Keys, db.serials.order)
  }

  // ---------------------------------------------------------------------------
  // `ORDER BY id DESC` over a table's keys
  // ---------------------------------------------------------------------------

  predicate StrictlyDescending(r: seq<int>) {
    forall i, j | 0 <= i < j < |r| :: r[i] > r[j]
  }

  /** The keys of a table that lie in `[1, last]`, greatest first; when the
      table is keyed by a serial whose last value is `last`, that is all of them. */
  function KeysDescending(keys: set<int>, last: int): (r: seq<int>)
    ensures StrictlyDescending(r)
    ensures forall i | 0 <= i < |r| :: r[i] in keys && 1 <= r[i] <= last
    ensures forall k | k in keys && 1 <= k <= last :: k in r
    decreases last
  {
    if last < 1 then []
    else
      var rest := KeysDescending(keys, last - 1);
      if last in keys then [last] + rest else rest
  }

  /** The ids of `ids` that `keep` accepts, in the same order (a `WHERE` over an ordered scan). */
  function KeepIds(ids: seq<int>, keep: int -> bool): (r: seq<int>)
    ensures |r| <= |ids|
    ensures forall i | 0 <= i < |r| :: r[i] in ids && keep(r[i])
    ensures forall i | 0 <= i < |ids| :: keep(ids[i]) ==> ids[i] in r
  {
    if ids == [] then []
    else
      var rest := KeepIds(ids[1..], keep);
      assert forall i | 0 <= i < |rest| :: rest[i] in ids[1..];
      if keep(ids[0]) then [ids[0]] + rest else rest
  }

  /** Filtering keeps the scan's order. */
  lemma {:induction false} KeepIdsDescending(ids: seq<int>, keep: int -> bool)
    requires StrictlyDescending(ids)
    ensures StrictlyDescending(KeepIds(ids, keep))
  {
    if ids != [] {
      var tail := ids[1..];
      DescendingTail(ids);
      KeepIdsDescending(tail, keep);
      var rest := KeepIds(tail, keep);
      if keep(ids[0]) {
        forall i | 0 <= i < |rest| ensures rest[i] < ids[0] {
          assert rest[i] in tail;
        }
        DescendingCons(ids[0], rest);
      }
    }
  }

  /** The tail of a descending sequence is descending and below its head. */
  lemma {:induction false} DescendingTail(ids: seq<int>)
    requires ids != [] && StrictlyDescending(ids)
    ensures StrictlyDescending(ids[1..])
    ensures forall x | x in ids[1..] :: x < ids[0]
  {
    var tail := ids[1..];
    assert forall i | 0 <= i < |tail| :: tail[i] == ids[i + 1];
  }

  /** A head above every element of a descending sequence extends it. */
  lemma {:induction false} DescendingCons(x: int, rest: seq<int>)
    requires StrictlyDescending(rest) && forall i | 0 <= i < |rest| :: rest[i] < x
    ensures StrictlyDescending([x] + rest)
  {
    var r := [x] + rest;
    assert forall i | 1 <= i < |r| :: r[i] == rest[i - 1];
  }
}
