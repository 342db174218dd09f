/** The inventory page (src/pages/Inventory.js): product create, update and
    delete, and the value and points of the stock on hand. */
module Inventory {
  import opened Ledger
  import opened Db
  import opened Folds
  import Text

  // ---- the stock's value and points ----

  /** A product row's figures: quantity times points per unit, and quantity
      times price per unit. */
  function RowTotals(p: Product): (t: Totals)
    ensures p.quantity >= 0 && p.pointsPerUnit >= 0 ==> t.points >= 0
    ensures p.quantity >= 0 && p.pricePerUnit >= 0 ==> t.price >= 0
    ensures p.quantity == 0 ==> t == Totals(0, 0)
  {
    Totals(p.quantity * p.pointsPerUnit, p.quantity * p.pricePerUnit)
  }

  function StockPoints(): Product -> int {
    (p: Product) => RowTotals(p).points
  }

  function StockValue(): Product -> int {
    (p: Product) => RowTotals(p).price
  }

  /** `totalInventoryPoints` and `totalInventoryValue`: the row figures added
      up over the account's products. */
  function InventoryTotals(products: seq<Product>): Totals {
    Totals(Sum(products, StockPoints()), Sum(products, StockValue()))
  }

  /** Stock, prices and points that are never negative give totals that are
      not negative. */
  lemma InventoryTotalsNonNegative(products: seq<Product>)
    requires forall i :: 0 <= i < |products| ==>
      products[i].quantity >= 0 && products[i].pricePerUnit >= 0 && products[i].pointsPerUnit >= 0
    ensures InventoryTotals(products).points >= 0 && InventoryTotals(products).price >= 0
  {
    SumNonNegative(products, StockPoints());
    SumNonNegative(products, StockValue());
  }

  /** Taking `q` units of one product (a loan, a delivery) lowers the totals by
      exactly `q` times its points and price per unit. */
  lemma StockDecrementLowersTotals(products: seq<Product>, i: int, q: int)
    requires 0 <= i < |products|
    ensures var after := products[i := products[i].(quantity := products[i].quantity - q)];
      && InventoryTotals(after).points == InventoryTotals(products).points - q * products[i].pointsPerUnit
      && InventoryTotals(after).price == InventoryTotals(products).price - q * products[i].pricePerUnit
  {
    var p := products[i];
    var p' := p.(quantity := p.quantity - q);
    SumUpdate(products, i, p', StockPoints());
    SumUpdate(products, i, p', StockValue());
    SubMul(p.quantity, q, p.pointsPerUnit);
    SubMul(p.quantity, q, p.pricePerUnit);
  }

  lemma SubMul(a: int, b: int, c: int)
    ensures (a - b) * c == a * c - b * c
  {
  }

  // ---- the form's number inputs ----

  /** `parseInt(e.target.value) || 0`, the quantity and points inputs. */
  function IntInput(s: string): (r: int)
    ensures Text.ParseInt(s).None? ==> r == 0
    ensures Text.ParseInt(s).Some? ==> r == Text.ParseInt(s).value
  {
    Text.ParseIntOr(s, 0)
  }

  // ---- handleSubmitProduct ----

  /** `handleSubmitProduct`: updates the product being edited when it
      matches id and account, or inserts a new one. The inputs carry `min="0"`,
      so the form is not submitted with a negative number. */
  method HandleSubmitProduct(db: Store, user: nat, editing: Option<nat>, name: string,
                             quantity: int, price: int, points: int, fault: bool)
    requires db.Valid()
    requires quantity >= 0 && price >= 0 && points >= 0
    modifies db
    ensures db.Valid()
    ensures db.customers == old(db.customers) && db.partners == old(db.partners)
    ensures db.orders == old(db.orders) && db.loans == old(db.loans)
    ensures editing.Some? ==>
      db.nextId == old(db.nextId) &&
      db.products == if !fault && editing.value in old(db.products) && old(db.products)[editing.value].owner == user
                     then old(db.products)[editing.value := Product(user, name, quantity, price, points)]
                     else old(db.products)
    ensures editing.None? ==>
      db.products == if fault then old(db.products)
                     else old(db.products)[old(db.nextId) := Product(user, name, quantity, price, points)]
  {
    var row := Product(user, name, quantity, price, points);
    if fault {
      return;
    }
    if editing.Some? {
      var id := editing.value;
      if id in db.products && db.products[id].owner == user {
        db.products := db.products[id := row];
      }
    } else {
      var id := db.FreshId();
      db.products := db.products[id := row];
    }
  }

  // ---- handleDeleteProduct ----

  /** Some order item or loan points at product `id`: the database refuses to
      delete it. */
  predicate Referenced(orders: map<nat, Order>, loans: map<nat, Loan>, id: nat) {
    || (exists o :: o in orders && exists k :: 0 <= k < |orders[o].items| && orders[o].items[k].productId == id)
    || (exists l :: l in loans && loans[l].productId == id)
  }

  /** `handleDeleteProduct`: removes the product matching id and account,
      unless an order or loan still refers to it or the delete fails; a
      product of another account is not touched. Orders and loans keep
      their snapshots either way. */
  method HandleDeleteProduct(db: Store, user: nat, productId: nat, fault: bool) returns (ok: bool)
    modifies db`products
    ensures ok <==> !fault && !(productId in old(db.products) && old(db.products)[productId].owner == user
                                && Referenced(db.orders, db.loans, productId))
    ensures db.products == if ok && productId in old(db.products) && old(db.products)[productId].owner == user
                           then old(db.products) - {productId}
                           else old(db.products)
  {
    var owned := productId in db.products && db.products[productId].owner == user;
    if fault || (owned && Referenced(db.orders, db.loans, productId)) {
      return false;
    }
    if owned {
      db.products := db.products - {productId};
    }
    ok := true;
  }
}
