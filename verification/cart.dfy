/**
 * The storefront's shopping cart: a list of items, each a product with a
 * quantity. Two generations of the storefront script share `addToCart` and
 * the totals but differ in how `removeFromCart` and `changeCartQuantity`
 * compare ids: the older one with `===`, the newer one by `String(id)`.
 * Prices are integer cents.
 */
module Cart {
  import opened Text

  /** A JavaScript id value: numeric from the API, a string from a `data-id` attribute. */
  datatype JsId = Num(n: int) | Str(s: string)

  /** `String(id)` */
  function IdString(id: JsId): string {
    match id
    case Num(n) => IntToString(n)
    case Str(s) => s
  }

  /** How a lookup compares a cart item's id with the requested one. */
  datatype Matching = Strict | ByString

  /** `a === b` or `String(a) === String(b)`. */
  predicate Same(m: Matching, a: JsId, b: JsId) {
    match m
    case Strict => a == b
    case ByString => IdString(a) == IdString(b)
  }

  datatype Product = Product(id: JsId, name: string, price: int)

  datatype Item = Item(id: JsId, name: string, price: int, qty: int)

  type Cart = seq<Item>

  // ---------------------------------------------------------------------------
  // Lookup
  // ---------------------------------------------------------------------------

  /** `findIndex`: the position of the first item whose id matches, or -1. */
  function FindIndex(m: Matching, cart: Cart, id: JsId): (i: int)
    ensures -1 <= i < |cart|
    ensures i >= 0 ==> Same(m, cart[i].id, id)
    ensures forall j | 0 <= j < |cart| && (i < 0 || j < i) :: !Same(m, cart[j].id, id)
  {
    if cart == [] then -1
    else if Same(m, cart[0].id, id) then 0
    else
      var k := FindIndex(m, cart[1..], id);
      assert forall j | 1 <= j < |cart| :: cart[j] == cart[1..][j - 1];
      if k < 0 then -1 else k + 1
  }

  // ---------------------------------------------------------------------------
  // Totals
  // ---------------------------------------------------------------------------

  /** `calculateCartTotal`: the sum of price times quantity. */
  function Total(cart: Cart): int {
    if cart == [] then 0 else cart[0].price * cart[0].qty + Total(cart[1..])
  }

  /** The badge count: the sum of quantities. */
  function Count(cart: Cart): int {
    if cart == [] then 0 else cart[0].qty + Count(cart[1..])
  }

  lemma {:induction false} TotalsSplit(a: Cart, b: Cart)
    ensures Total(a + b) == Total(a) + Total(b)
    ensures Count(a + b) == Count(a) + Count(b)
  {
    if a != [] {
      var c := a + b;
      assert c[0] == a[0] && c[1..] == a[1..] + b;
      TotalsSplit(a[1..], b);
      assert Total(c) == c[0].price * c[0].qty + Total(c[1..]);
      assert Count(c) == c[0].qty + Count(c[1..]);
    } else {
      assert a + b == b;
    }
  }

  /** The totals of a cart split around position `i`. */
  lemma {:induction false} TotalsAround(cart: Cart, i: int)
    requires 0 <= i < |cart|
    ensures Total(cart) == Total(cart[..i]) + cart[i].price * cart[i].qty + Total(cart[i + 1..])
    ensures Count(cart) == Count(cart[..i]) + cart[i].qty + Count(cart[i + 1..])
  {
    assert cart == cart[..i] + [cart[i]] + cart[i + 1..];
    TotalsSplit(cart[..i] + [cart[i]], cart[i + 1..]);
    TotalsSplit(cart[..i], [cart[i]]);
    assert Total([cart[i]]) == cart[i].price * cart[i].qty + Total([]);
  }

  /** The cart after an item's quantity changes by `delta` in place. */
  lemma {:induction false} TotalsAfterBump(cart: Cart, i: int, delta: int)
    requires 0 <= i < |cart|
    ensures var after := cart[i := cart[i].(qty := cart[i].qty + delta)];
            && Total(after) == Total(cart) + cart[i].price * delta
            && Count(after) == Count(cart) + delta
  {
    var after := cart[i := cart[i].(qty := cart[i].qty + delta)];
    TotalsAround(cart, i);
    TotalsAround(after, i);
    assert after[..i] == cart[..i] && after[i + 1..] == cart[i + 1..];
    var p, q := cart[i].price, cart[i].qty;
    assert after[i].price == p && after[i].qty == q + delta;
    assert p * (q + delta) == p * q + p * delta;
  }

  // ---------------------------------------------------------------------------
  // Operations
  // ---------------------------------------------------------------------------

  /** `addToCart(product)`: one more of an item already in the cart (found
      with `===`), otherwise the product appended with quantity 1. */
  function AddToCart(cart: Cart, p: Product): (r: Cart)
    ensures var i := FindIndex(Strict, cart, p.id);
            if i >= 0 then |r| == |cart| && r[i].qty == cart[i].qty + 1
                           && (forall j | 0 <= j < |cart| && j != i :: r[j] == cart[j])
                           && r[i] == cart[i].(qty := cart[i].qty + 1)
            else r == cart + [Item(p.id, p.name, p.price, 1)]
  {
    var i := FindIndex(Strict, cart, p.id);
    if i >= 0 then cart[i := cart[i].(qty := cart[i].qty + 1)]
    else cart + [Item(p.id, p.name, p.price, 1)]
  }

  /** Adding one unit raises the badge count by one and the total by the
      unit price of the item it lands on. */
  lemma {:induction false} AddToCartTotals(cart: Cart, p: Product)
    ensures Count(AddToCart(cart, p)) == Count(cart) + 1
    ensures var i := FindIndex(Strict, cart, p.id);
            Total(AddToCart(cart, p)) == Total(cart) + (if i >= 0 then cart[i].price else p.price)
  {
    var i := FindIndex(Strict, cart, p.id);
    if i >= 0 {
      TotalsAfterBump(cart, i, 1);
    } else {
      TotalsSplit(cart, [Item(p.id, p.name, p.price, 1)]);
      assert Total([Item(p.id, p.name, p.price, 1)]) == p.price;
    }
  }

  /** Lookup depends on the items' ids alone. */
  lemma {:induction false} FindIndexSeesOnlyIds(m: Matching, a: Cart, b: Cart, id: JsId)
    requires |a| == |b| && forall j | 0 <= j < |a| :: a[j].id == b[j].id
    ensures FindIndex(m, a, id) == FindIndex(m, b, id)
  {
    if a != [] {
      FindIndexSeesOnlyIds(m, a[1..], b[1..], id);
    }
  }

  /** `removeFromCart(productId)`: the first matching item spliced out. */
  function RemoveFromCart(m: Matching, cart: Cart, id: JsId): (r: Cart)
    ensures var i := FindIndex(m, cart, id);
            if i >= 0 then r == cart[..i] + cart[i + 1..] else r == cart
    ensures |r| == |cart| || |r| == |cart| - 1
  {
    var i := FindIndex(m, cart, id);
    if i >= 0 then cart[..i] + cart[i + 1..] else cart
  }

  /** Removing takes the removed item's line total and quantity off the totals;
      every other item keeps its place. */
  lemma {:induction false} RemoveFromCartTotals(m: Matching, cart: Cart, id: JsId)
    ensures var i := FindIndex(m, cart, id);
            var r := RemoveFromCart(m, cart, id);
            i >= 0 ==> (Total(r) == Total(cart) - cart[i].price * cart[i].qty
                        && Count(r) == Count(cart) - cart[i].qty)
  {
    var i := FindIndex(m, cart, id);
    if i >= 0 {
      TotalsAround(cart, i);
      TotalsSplit(cart[..i], cart[i + 1..]);
    }
  }

  /** Removal takes out exactly one item: the matched one. */
  lemma {:induction false} RemoveFromCartItems(m: Matching, cart: Cart, id: JsId)
    ensures var i := FindIndex(m, cart, id);
            i >= 0 ==> multiset(RemoveFromCart(m, cart, id)) + multiset{cart[i]} == multiset(cart)
  {
    var i := FindIndex(m, cart, id);
    if i >= 0 {
      var a, b := cart[..i], cart[i + 1..];
      assert cart == a + [cart[i]] + b;
      assert multiset(cart) == multiset(a) + multiset{cart[i]} + multiset(b);
    }
  }

  /** `changeCartQuantity(productId, delta)`: the first matching item's
      quantity moves by `delta`, and the item goes when it reaches zero or less. */
  function ChangeCartQuantity(m: Matching, cart: Cart, id: JsId, delta: int): (r: Cart)
    ensures var i := FindIndex(m, cart, id);
            && (i < 0 ==> r == cart)
            && (i >= 0 && cart[i].qty + delta <= 0 ==> r == cart[..i] + cart[i + 1..])
            && (i >= 0 && cart[i].qty + delta > 0 ==>
                  (|r| == |cart| && r[i] == cart[i].(qty := cart[i].qty + delta)
                   && forall j | 0 <= j < |cart| && j != i :: r[j] == cart[j]))
  {
    var i := FindIndex(m, cart, id);
    if i < 0 then cart
    else
      var q := cart[i].qty + delta;
      var bumped := cart[i := cart[i].(qty := q)];
      if q <= 0 then
        // `removeFromCart(pid)` finds the same item again: nothing before it matched.
        FindIndexSeesOnlyIds(m, cart, bumped, id);
        RemoveFromCart(m, bumped, id)
      else bumped
  }

  /** A change that keeps the item moves the badge count by exactly `delta`
      and the total by its price times `delta`. */
  lemma {:induction false} ChangeKeepsItemTotals(m: Matching, cart: Cart, id: JsId, delta: int)
    requires FindIndex(m, cart, id) >= 0
    requires cart[FindIndex(m, cart, id)].qty + delta > 0
    ensures var i := FindIndex(m, cart, id);
            var r := ChangeCartQuantity(m, cart, id, delta);
            Count(r) == Count(cart) + delta && Total(r) == Total(cart) + cart[i].price * delta
  {
    var i := FindIndex(m, cart, id);
    var r := ChangeCartQuantity(m, cart, id, delta);
    assert r == cart[i := cart[i].(qty := cart[i].qty + delta)];
    TotalsAfterBump(cart, i, delta);
  }

  /** A change that brings the quantity to zero or below takes the whole
      item out of the count and the total. */
  lemma {:induction false} ChangeDropsItemTotals(m: Matching, cart: Cart, id: JsId, delta: int)
    requires FindIndex(m, cart, id) >= 0
    requires cart[FindIndex(m, cart, id)].qty + delta <= 0
    ensures var i := FindIndex(m, cart, id);
            var r := ChangeCartQuantity(m, cart, id, delta);
            Count(r) == Count(cart) - cart[i].qty && Total(r) == Total(cart) - cart[i].price * cart[i].qty
  {
    var r := ChangeCartQuantity(m, cart, id, delta);
    assert r == RemoveFromCart(m, cart, id);
    RemoveFromCartTotals(m, cart, id);
  }

  // ---------------------------------------------------------------------------
  // Ids from `data-id` attributes
  // ---------------------------------------------------------------------------

  /** The id a cart button hands back: `data-id="${item.id}"` read as `btn.dataset.id`. */
  function DatasetId(id: JsId): (r: JsId)
    ensures r.Str? && IdString(r) == IdString(id)
  {
    Str(IdString(id))
  }

  /** Every item of a cart loaded from the API carries a numeric id. */
  predicate NumericIds(cart: Cart) {
    forall j | 0 <= j < |cart| :: cart[j].id.Num?
  }

  /** With `===`, a button's string id never equals a numeric item id: the
      older script's remove and quantity buttons leave the cart as it was. */
  lemma {:induction false} StrictDatasetIdsNeverMatch(cart: Cart, k: int, delta: int)
    requires NumericIds(cart) && 0 <= k < |cart|
    ensures RemoveFromCart(Strict, cart, DatasetId(cart[k].id)) == cart
    ensures ChangeCartQuantity(Strict, cart, DatasetId(cart[k].id), delta) == cart
  {
  }

  /** A concrete instance: removing product 7 through its button in the older script. */
  lemma {:induction false} StrictRemoveExample()
    ensures var cart := [Item(Num(7), "Mate", 1500, 1)];
            RemoveFromCart(Strict, cart, Str("7")) == cart
  {
    var cart := [Item(Num(7), "Mate", 1500, 1)];
    assert FindIndex(Strict, cart, Str("7")) == -1;
  }

  /** Ids whose string forms are pairwise distinct. */
  predicate DistinctIdStrings(cart: Cart) {
    forall a, b | 0 <= a < b < |cart| :: IdString(cart[a].id) != IdString(cart[b].id)
  }

  /** Numeric ids that are pairwise distinct have distinct string forms. */
  lemma {:induction false} NumericIdStringsDistinct(cart: Cart)
    requires NumericIds(cart)
    requires forall a, b | 0 <= a < b < |cart| :: cart[a].id != cart[b].id
    ensures DistinctIdStrings(cart)
  {
    forall a, b | 0 <= a < b < |cart|
      ensures IdString(cart[a].id) != IdString(cart[b].id)
    {
      IntToStringInjective(cart[a].id.n, cart[b].id.n);
    }
  }

  /** With `String(id)` matching, a button's id finds exactly the item it was rendered for. */
  lemma {:induction false} DatasetIdFindsItem(cart: Cart, k: int)
    requires DistinctIdStrings(cart) && 0 <= k < |cart|
    ensures FindIndex(ByString, cart, DatasetId(cart[k].id)) == k
  {
    var i := FindIndex(ByString, cart, DatasetId(cart[k].id));
    assert Same(ByString, cart[k].id, DatasetId(cart[k].id));
  }

  /** The newer script's remove button removes exactly its own item. */
  lemma {:induction false} DatasetIdRemovesItem(cart: Cart, k: int)
    requires DistinctIdStrings(cart) && 0 <= k < |cart|
    ensures RemoveFromCart(ByString, cart, DatasetId(cart[k].id)) == cart[..k] + cart[k + 1..]
  {
    DatasetIdFindsItem(cart, k);
  }

  /** The newer script's quantity buttons move exactly their own item's quantity. */
  lemma {:induction false} DatasetIdChangesItem(cart: Cart, k: int, delta: int)
    requires DistinctIdStrings(cart) && 0 <= k < |cart| && cart[k].qty + delta > 0
    ensures var r := ChangeCartQuantity(ByString, cart, DatasetId(cart[k].id), delta);
            |r| == |cart| && r[k].qty == cart[k].qty + delta
  {
    DatasetIdFindsItem(cart, k);
  }
}
