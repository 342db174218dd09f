/** The dashboard page (src/pages/Home.js): order creation with snapshotted
    items, the status change that fulfils an order and takes its stock, the
    paid toggle, and the pending / delivered-in-60-days totals. */
module Home {
  import opened Ledger
  import opened Db
  import opened Folds
  import Calendar

  // ---- calculateOrderTotals: current catalog prices ----

  /** Points one form line adds: quantity times the product's current points,
      nothing when the product is not in the catalog. */
  function LinePoints(catalog: Catalog): Line -> int {
    (l: Line) => if l.productId in catalog then catalog[l.productId].pointsPerUnit * l.quantity else 0
  }

  function LinePrice(catalog: Catalog): Line -> int {
    (l: Line) => if l.productId in catalog then catalog[l.productId].pricePerUnit * l.quantity else 0
  }

  /** The totals of a list of lines at the catalog's current prices. */
  function LineTotals(lines: seq<Line>, catalog: Catalog): Totals {
    Totals(Sum(lines, LinePoints(catalog)), Sum(lines, LinePrice(catalog)))
  }

  /** `calculateOrderTotals`: one pass over the lines with two running sums. */
  method CalculateOrderTotals(lines: seq<Line>, catalog: Catalog) returns (t: Totals)
    ensures t == LineTotals(lines, catalog)
  {
    var points, price := 0, 0;
    var i := 0;
    while i < |lines|
      invariant 0 <= i <= |lines|
      invariant points == Sum(lines[..i], LinePoints(catalog))
      invariant price == Sum(lines[..i], LinePrice(catalog))
    {
      assert lines[..i + 1][..i] == lines[..i];
      var l := lines[i];
      if l.productId in catalog {
        var p := catalog[l.productId];
        points := points + p.pointsPerUnit * l.quantity;
        price := price + p.pricePerUnit * l.quantity;
      }
      i := i + 1;
    }
    assert lines[..i] == lines;
    t := Totals(points, price);
  }

  /** Lines whose product is unknown add nothing: the totals are those of the
      lines whose product is in the catalog. */
  function Known(catalog: Catalog): Line -> bool {
    (l: Line) => l.productId in catalog
  }

  lemma UnknownProductsAddNothing(lines: seq<Line>, catalog: Catalog)
    ensures LineTotals(lines, catalog) == LineTotals(Filter(lines, Known(catalog)), catalog)
  {
    SumFilter(lines, Known(catalog), LinePoints(catalog));
    SumFilter(lines, Known(catalog), LinePrice(catalog));
    SumCongruent(lines, LinePoints(catalog), Masked(Known(catalog), LinePoints(catalog)));
    SumCongruent(lines, LinePrice(catalog), Masked(Known(catalog), LinePrice(catalog)));
  }

  // ---- handleCreateOrder ----

  /** The item written for one line: its product and quantity, and the
      product's current points and price, or 0 when the product is unknown. */
  function Snapshot(l: Line, catalog: Catalog): (item: OrderItem)
    ensures item.productId == l.productId && item.quantity == l.quantity
    ensures l.productId in catalog ==>
      item.pointsAtSale == catalog[l.productId].pointsPerUnit && item.priceAtSale == catalog[l.productId].pricePerUnit
    ensures l.productId !in catalog ==> item.pointsAtSale == 0 && item.priceAtSale == 0
  {
    match Lookup(catalog, l.productId)
    case Some(p) => OrderItem(l.productId, l.quantity, p.pointsPerUnit, p.pricePerUnit)
    case None => OrderItem(l.productId, l.quantity, 0, 0)
  }

  /** `selectedProducts.map(...)`: one snapshotted item per line, in order. */
  function SnapshotItems(lines: seq<Line>, catalog: Catalog): (items: seq<OrderItem>)
    ensures |items| == |lines|
    ensures forall i :: 0 <= i < |lines| ==> items[i] == Snapshot(lines[i], catalog)
  {
    seq(|lines|, i requires 0 <= i < |lines| => Snapshot(lines[i], catalog))
  }

  /** Points and price an item is worth at its own snapshot. */
  function SnapPoints(): OrderItem -> int {
    (it: OrderItem) => it.quantity * it.pointsAtSale
  }

  function SnapPrice(): OrderItem -> int {
    (it: OrderItem) => it.quantity * it.priceAtSale
  }

  function SnapshotTotals(items: seq<OrderItem>): Totals {
    Totals(Sum(items, SnapPoints()), Sum(items, SnapPrice()))
  }

  /** The totals persisted with a new order are the sums of quantity times
      snapshot over its items: the order is consistent with its own lines
      whatever happens to the catalog afterwards. */
  lemma {:induction false} CreatedTotalsMatchSnapshots(lines: seq<Line>, catalog: Catalog)
    ensures LineTotals(lines, catalog) == SnapshotTotals(SnapshotItems(lines, catalog))
    decreases |lines|
  {
    if lines != [] {
      var n := |lines| - 1;
      var items := SnapshotItems(lines, catalog);
      assert items[..n] == SnapshotItems(lines[..n], catalog);
      CreatedTotalsMatchSnapshots(lines[..n], catalog);
    }
  }

  /** The order row `handleCreateOrder` writes, with its items. */
  function NewOrder(user: nat, customerId: nat, deliveryDate: int, now: int, isPaid: bool,
                    lines: seq<Line>, catalog: Catalog): (o: Order)
    ensures o.owner == user && o.status == Pending && o.isPaid == isPaid && o.completedAt.None?
    ensures o.totalPoints == Some(LineTotals(lines, catalog).points)
    ensures o.totalPrice == Some(LineTotals(lines, catalog).price)
    ensures o.items == SnapshotItems(lines, catalog)
  {
    var t := LineTotals(lines, catalog);
    Order(user, customerId, deliveryDate, now, Pending, isPaid, Some(t.points), Some(t.price), None,
          SnapshotItems(lines, catalog))
  }

  /** `handleCreateOrder`: computes the totals from the account's catalog,
      inserts the order as pending, then inserts its items; when the items
      cannot be inserted the order is deleted again. The three faults are the
      failures of the order insert, of the items insert and of the
      compensating delete (whose result the page does not look at). */
  method HandleCreateOrder(db: Store, user: nat, customerId: nat, deliveryDate: int, lines: seq<Line>,
                           isPaid: bool, now: int, orderFault: bool, itemsFault: bool, rollbackFault: bool)
    returns (created: Option<nat>)
    requires db.Valid()
    modifies db
    ensures db.Valid()
    ensures db.products == old(db.products) && db.customers == old(db.customers)
    ensures db.partners == old(db.partners) && db.loans == old(db.loans)
    ensures created.Some? <==> !orderFault && !itemsFault
    ensures orderFault ==> db.orders == old(db.orders)
    ensures !orderFault && !itemsFault ==>
      created == Some(old(db.nextId)) &&
      db.orders == old(db.orders)[old(db.nextId) :=
        NewOrder(user, customerId, deliveryDate, now, isPaid, lines, ProductsOf(old(db.products), user))]
    ensures !orderFault && itemsFault && !rollbackFault ==> db.orders == old(db.orders)
    ensures !orderFault && itemsFault && rollbackFault ==>
      db.orders == old(db.orders)[old(db.nextId) :=
        NewOrder(user, customerId, deliveryDate, now, isPaid, lines, ProductsOf(old(db.products), user)).(items := [])]
  {
    var catalog := ProductsOf(db.products, user);
    var t := CalculateOrderTotals(lines, catalog);
    if orderFault {
      return None;
    }
    var id := db.FreshId();
    var row := Order(user, customerId, deliveryDate, now, Pending, isPaid, Some(t.points), Some(t.price), None, []);
    db.orders := db.orders[id := row];
    var items := SnapshotItems(lines, catalog);
    if itemsFault {
      if !rollbackFault {
        db.orders := db.orders - {id};
        assert db.orders == old(db.orders);
      }
      created := None;
    } else {
      db.orders := db.orders[id := row.(items := items)];
      created := Some(id);
    }
  }

  /** `totals || calculateOrderTotals(order.order_items)`: the totals an order
      card shows, the persisted ones unless they are missing or 0. */
  function DisplayTotals(o: Order, catalog: Catalog): Totals {
    var lines := seq(|o.items|, i requires 0 <= i < |o.items| => Line(o.items[i].productId, o.items[i].quantity));
    var recomputed := LineTotals(lines, catalog);
    Totals(if o.totalPoints.Some? && o.totalPoints.value != 0 then o.totalPoints.value else recomputed.points,
           if o.totalPrice.Some? && o.totalPrice.value != 0 then o.totalPrice.value else recomputed.price)
  }

  /** While the catalog is unchanged, a card shows exactly the totals the
      order was created with, including when they are 0 and recomputed. */
  lemma DisplayOfNewOrder(user: nat, customerId: nat, deliveryDate: int, now: int, isPaid: bool,
                          lines: seq<Line>, catalog: Catalog)
    ensures DisplayTotals(NewOrder(user, customerId, deliveryDate, now, isPaid, lines, catalog), catalog)
         == LineTotals(lines, catalog)
  {
    var o := NewOrder(user, customerId, deliveryDate, now, isPaid, lines, catalog);
    var back := seq(|o.items|, i requires 0 <= i < |o.items| => Line(o.items[i].productId, o.items[i].quantity));
    assert back == lines;
  }

  // ---- handleUpdateOrderStatus ----

  /** The row update of a status change. */
  function StatusUpdate(o: Order, status: Status, now: int): (r: Order)
    ensures r.status == status
    ensures r.completedAt.Some? <==> status == Delivered
    ensures r.completedAt.Some? ==> r.completedAt.value == now
    ensures status == Delivered ==> r.isPaid
    ensures status != Delivered ==> r.isPaid == o.isPaid
    ensures r == o.(status := r.status, completedAt := r.completedAt, isPaid := r.isPaid)
  {
    var upd := o.(status := status, completedAt := if status == Delivered then Some(now) else None);
    if status == Delivered then upd.(isPaid := true) else upd
  }

  /** One item's stock update: read the product's quantity and write it back
      less the item's quantity, with no lower bound. A failed read or write,
      or a product of another account or no longer there, changes nothing. */
  function DeliverItem(products: map<nat, Product>, user: nat, item: OrderItem, fault: bool): map<nat, Product> {
    var id := item.productId;
    if !fault && id in products && products[id].owner == user
    then products[id := products[id].(quantity := products[id].quantity - item.quantity)]
    else products
  }

  /** The stock updates of items `i..` in order; `faults` holds the positions
      whose read or write fails. */
  function DeliverFrom(products: map<nat, Product>, user: nat, items: seq<OrderItem>, faults: set<nat>, i: nat)
    : map<nat, Product>
    requires i <= |items|
    decreases |items| - i
  {
    if i == |items| then products
    else DeliverFrom(DeliverItem(products, user, items[i], i in faults), user, items, faults, i + 1)
  }

  /** How much stock of product `id` the items `i..` take. */
  function Demand(items: seq<OrderItem>, faults: set<nat>, i: nat, id: nat): int
    requires i <= |items|
    decreases |items| - i
  {
    if i == |items| then 0
    else (if i !in faults && items[i].productId == id then items[i].quantity else 0) + Demand(items, faults, i + 1, id)
  }

  /** Delivery changes only quantities, only of the account's products, and
      each by exactly what the order's items take of it. */
  lemma {:induction false} DeliveryStock(products: map<nat, Product>, user: nat, items: seq<OrderItem>,
                                         faults: set<nat>, i: nat, id: nat)
    requires i <= |items|
    ensures id in DeliverFrom(products, user, items, faults, i) <==> id in products
    ensures id in products ==>
      (DeliverFrom(products, user, items, faults, i)[id] ==
        if products[id].owner == user
        then products[id].(quantity := products[id].quantity - Demand(items, faults, i, id))
        else products[id])
    decreases |items| - i
  {
    if i < |items| {
      DeliveryStock(DeliverItem(products, user, items[i], i in faults), user, items, faults, i + 1, id);
    }
  }

  /** Nothing stops a delivery from driving stock below zero. */
  lemma NoStockGuard(products: map<nat, Product>, user: nat, item: OrderItem)
    requires item.productId in products && products[item.productId].owner == user
    requires item.quantity > products[item.productId].quantity
    ensures var r := DeliverFrom(products, user, [item], {}, 0);
      item.productId in r && r[item.productId].quantity < 0
  {
    DeliveryStock(products, user, [item], {}, 0, item.productId);
    assert Demand([item], {}, 1, item.productId) == 0;
  }

  /** Nothing stops a second delivery of the same order either: it takes the
      stock a second time. */
  lemma Redelivery(products: map<nat, Product>, user: nat, items: seq<OrderItem>, faults: set<nat>, id: nat)
    requires id in products && products[id].owner == user
    ensures var twice := DeliverFrom(DeliverFrom(products, user, items, faults, 0), user, items, faults, 0);
      id in twice && twice[id].quantity == products[id].quantity - 2 * Demand(items, faults, 0, id)
  {
    var once := DeliverFrom(products, user, items, faults, 0);
    DeliveryStock(products, user, items, faults, 0, id);
    DeliveryStock(once, user, items, faults, 0, id);
  }

  /** `handleUpdateOrderStatus`: writes the status, `completed_at` and, on
      delivery, `is_paid`; then, on delivery, takes each item's quantity from
      its product's stock. The order's items are those the page fetched, so
      an order of another account changes nothing. Nothing checks the current
      status. */
  method HandleUpdateOrderStatus(db: Store, user: nat, orderId: nat, status: Status, now: int,
                                 updateFault: bool, itemFaults: set<nat>)
    requires db.Valid()
    modifies db
    ensures db.Valid()
    ensures db.customers == old(db.customers) && db.partners == old(db.partners)
    ensures db.loans == old(db.loans) && db.nextId == old(db.nextId)
    ensures var owned := orderId in old(db.orders) && old(db.orders)[orderId].owner == user;
      && db.orders == (if !updateFault && owned
                       then old(db.orders)[orderId := StatusUpdate(old(db.orders)[orderId], status, now)]
                       else old(db.orders))
      && db.products == (if !updateFault && owned && status == Delivered
                         then DeliverFrom(old(db.products), user, old(db.orders)[orderId].items, itemFaults, 0)
                         else old(db.products))
  {
    var owned := orderId in db.orders && db.orders[orderId].owner == user;
    if updateFault || !owned {
      return;
    }
    var before := db.orders[orderId];
    db.orders := db.orders[orderId := StatusUpdate(before, status, now)];
    if status == Delivered {
      var items := before.items;
      var i := 0;
      while i < |items|
        invariant 0 <= i <= |items|
        invariant db.products.Keys == old(db.products).Keys
        invariant db.orders == old(db.orders)[orderId := StatusUpdate(before, status, now)]
        invariant db.customers == old(db.customers) && db.partners == old(db.partners)
        invariant db.loans == old(db.loans) && db.nextId == old(db.nextId)
        invariant DeliverFrom(db.products, user, items, itemFaults, i)
               == DeliverFrom(old(db.products), user, items, itemFaults, 0)
      {
        var id := items[i].productId;
        if i !in itemFaults && id in db.products && db.products[id].owner == user {
          var current := db.products[id].quantity;
          db.products := db.products[id := db.products[id].(quantity := current - items[i].quantity)];
        }
        i := i + 1;
      }
    }
  }

  // ---- handleTogglePaidStatus ----

  /** `handleTogglePaidStatus`: writes the negation of the paid flag the page
      shows, on the one order matching id and account. */
  method HandleTogglePaidStatus(db: Store, user: nat, orderId: nat, currentPaid: bool, fault: bool)
    requires db.Valid()
    modifies db
    ensures db.Valid()
    ensures db.products == old(db.products) && db.customers == old(db.customers)
    ensures db.partners == old(db.partners) && db.loans == old(db.loans) && db.nextId == old(db.nextId)
    ensures db.orders == if !fault && orderId in old(db.orders) && old(db.orders)[orderId].owner == user
                         then old(db.orders)[orderId := old(db.orders)[orderId].(isPaid := !currentPaid)]
                         else old(db.orders)
  {
    if !fault && orderId in db.orders && db.orders[orderId].owner == user {
      db.orders := db.orders[orderId := db.orders[orderId].(isPaid := !currentPaid)];
    }
  }

  // ---- the dashboard's lists and totals ----

  function PersistedPoints(): Order -> int {
    (o: Order) => OrZero(o.totalPoints)
  }

  function PersistedPrice(): Order -> int {
    (o: Order) => OrZero(o.totalPrice)
  }

  /** `reduce((sum, o) => sum + (o.total_x || 0), 0)` for points and price. */
  function PersistedTotals(orders: seq<Order>): Totals {
    Totals(Sum(orders, PersistedPoints()), Sum(orders, PersistedPrice()))
  }

  /** `orders.filter(order => order.status === 'pending')`. */
  function IsPending(): Order -> bool {
    (o: Order) => o.status == Pending
  }

  function PendingOrders(orders: seq<Order>): (r: seq<Order>)
    ensures forall o :: o in r <==> o in orders && o.status == Pending
  {
    Filter(orders, IsPending())
  }

  /** The 60-day window: delivered, with a valid completion date strictly
      after now minus 60 days; there is no upper bound. */
  predicate InLast60Days(o: Order, now: int) {
    o.status == Delivered && o.completedAt.Some? && now - 60 * Calendar.DayMs < o.completedAt.value
  }

  function DeliveredLast60Days(orders: seq<Order>, now: int): (r: seq<Order>)
    ensures forall o :: o in r <==> o in orders && InLast60Days(o, now)
  {
    Filter(orders, InWindow(now))
  }

  function InWindow(now: int): Order -> bool {
    (o: Order) => InLast60Days(o, now)
  }

  /** Adding a new order adds exactly its totals to the pending totals. */
  lemma NewOrderRaisesPending(orders: seq<Order>, user: nat, customerId: nat, deliveryDate: int, now: int,
                              isPaid: bool, lines: seq<Line>, catalog: Catalog)
    ensures var o := NewOrder(user, customerId, deliveryDate, now, isPaid, lines, catalog);
      PersistedTotals(PendingOrders(orders + [o])).points
        == PersistedTotals(PendingOrders(orders)).points + LineTotals(lines, catalog).points
      && PersistedTotals(PendingOrders(orders + [o])).price
        == PersistedTotals(PendingOrders(orders)).price + LineTotals(lines, catalog).price
  {
    var o := NewOrder(user, customerId, deliveryDate, now, isPaid, lines, catalog);
    FilterAppend(orders, [o], IsPending());
    SumAppend(PendingOrders(orders), [o], PersistedPoints());
    SumAppend(PendingOrders(orders), [o], PersistedPrice());
  }

  /** Delivering a pending order takes its persisted points and price out of
      the pending totals ... */
  lemma DeliveryLeavesPending(orders: seq<Order>, i: int, now: int)
    requires 0 <= i < |orders| && orders[i].status == Pending
    ensures Sum(PendingOrders(orders[i := StatusUpdate(orders[i], Delivered, now)]), PersistedPoints())
         == Sum(PendingOrders(orders), PersistedPoints()) - OrZero(orders[i].totalPoints)
    ensures Sum(PendingOrders(orders[i := StatusUpdate(orders[i], Delivered, now)]), PersistedPrice())
         == Sum(PendingOrders(orders), PersistedPrice()) - OrZero(orders[i].totalPrice)
  {
    var d := StatusUpdate(orders[i], Delivered, now);
    SumFilter(orders, IsPending(), PersistedPoints());
    SumFilter(orders[i := d], IsPending(), PersistedPoints());
    SumUpdate(orders, i, d, Masked(IsPending(), PersistedPoints()));
    SumFilter(orders, IsPending(), PersistedPrice());
    SumFilter(orders[i := d], IsPending(), PersistedPrice());
    SumUpdate(orders, i, d, Masked(IsPending(), PersistedPrice()));
  }

  /** ... and adds them to the 60-day totals, since it was not yet delivered. */
  lemma DeliveryEntersWindow(orders: seq<Order>, i: int, now: int)
    requires 0 <= i < |orders| && orders[i].status == Pending
    ensures Sum(DeliveredLast60Days(orders[i := StatusUpdate(orders[i], Delivered, now)], now), PersistedPoints())
         == Sum(DeliveredLast60Days(orders, now), PersistedPoints()) + OrZero(orders[i].totalPoints)
    ensures Sum(DeliveredLast60Days(orders[i := StatusUpdate(orders[i], Delivered, now)], now), PersistedPrice())
         == Sum(DeliveredLast60Days(orders, now), PersistedPrice()) + OrZero(orders[i].totalPrice)
  {
    var d := StatusUpdate(orders[i], Delivered, now);
    SumFilter(orders, InWindow(now), PersistedPoints());
    SumFilter(orders[i := d], InWindow(now), PersistedPoints());
    SumUpdate(orders, i, d, Masked(InWindow(now), PersistedPoints()));
    SumFilter(orders, InWindow(now), PersistedPrice());
    SumFilter(orders[i := d], InWindow(now), PersistedPrice());
    SumUpdate(orders, i, d, Masked(InWindow(now), PersistedPrice()));
  }
}
