/** The order history page (src/pages/History.js): the order list under the
    status and date filters, newest first, and the order totals it shows,
    which prefer the snapshots but skip items whose product is gone. */
module History {
  import opened Ledger
  import opened Folds
  import opened Sorting
  import Calendar
  import Home

  // ---- calculateOrderTotals: snapshot first, product required ----

  /** Points one item adds: nothing when its product is not in the catalog,
      otherwise quantity times the snapshot, or the product's current points
      when the snapshot is 0. */
  function ItemPoints(catalog: Catalog): OrderItem -> int {
    (it: OrderItem) =>
      if it.productId in catalog then it.quantity * OrElse(it.pointsAtSale, catalog[it.productId].pointsPerUnit) else 0
  }

  function ItemPrice(catalog: Catalog): OrderItem -> int {
    (it: OrderItem) =>
      if it.productId in catalog then it.quantity * OrElse(it.priceAtSale, catalog[it.productId].pricePerUnit) else 0
  }

  function HistoryTotals(items: seq<OrderItem>, catalog: Catalog): Totals {
    Totals(Sum(items, ItemPoints(catalog)), Sum(items, ItemPrice(catalog)))
  }

  /** `calculateOrderTotals` of the history page: one pass with two running sums. */
  method CalculateOrderTotals(items: seq<OrderItem>, catalog: Catalog) returns (t: Totals)
    ensures t == HistoryTotals(items, catalog)
  {
    var points, price := 0, 0;
    var i := 0;
    while i < |items|
      invariant 0 <= i <= |items|
      invariant points == Sum(items[..i], ItemPoints(catalog))
      invariant price == Sum(items[..i], ItemPrice(catalog))
    {
      assert items[..i + 1][..i] == items[..i];
      var it := items[i];
      var product := Lookup(catalog, it.productId);
      if product.Some? {
        points := points + it.quantity * OrElse(it.pointsAtSale, product.value.pointsPerUnit);
        price := price + it.quantity * OrElse(it.priceAtSale, product.value.pricePerUnit);
      }
      i := i + 1;
    }
    assert items[..i] == items;
    t := Totals(points, price);
  }

  /** An item whose product is no longer in the catalog adds nothing, even
      when it carries nonzero snapshots. */
  lemma MissingProductDropsItem(items: seq<OrderItem>, it: OrderItem, catalog: Catalog)
    requires it.productId !in catalog
    ensures HistoryTotals(items + [it], catalog) == HistoryTotals(items, catalog)
  {
    SumAppend(items, [it], ItemPoints(catalog));
    SumAppend(items, [it], ItemPrice(catalog));
  }

  /** Items with nonzero snapshots are valued at the snapshots: a later change
      of the products' points or prices does not change the totals, as long as
      the products are still there. */
  lemma SnapshotsOutlivePriceChanges(items: seq<OrderItem>, before: Catalog, after: Catalog)
    requires forall i :: 0 <= i < |items| ==>
      items[i].pointsAtSale != 0 && items[i].priceAtSale != 0 &&
      (items[i].productId in before <==> items[i].productId in after)
    ensures HistoryTotals(items, before) == HistoryTotals(items, after)
  {
    SumCongruent(items, ItemPoints(before), ItemPoints(after));
    SumCongruent(items, ItemPrice(before), ItemPrice(after));
  }

  /** While the catalog is unchanged, the history shows the totals the order
      was created with. */
  lemma HistoryMatchesCreation(lines: seq<Line>, catalog: Catalog)
    ensures HistoryTotals(Home.SnapshotItems(lines, catalog), catalog) == Home.LineTotals(lines, catalog)
  {
    var items := Home.SnapshotItems(lines, catalog);
    SumCongruent(items, ItemPoints(catalog), Home.SnapPoints());
    SumCongruent(items, ItemPrice(catalog), Home.SnapPrice());
    Home.CreatedTotalsMatchSnapshots(lines, catalog);
  }

  /** The figures an item line shows: the chain snapshot, then the current
      product, then 0. Unlike the totals, an item whose product is gone still
      shows its snapshot. */
  function ItemDisplay(it: OrderItem, catalog: Catalog): (t: Totals)
    ensures it.productId in catalog ==> t == Totals(ItemPoints(catalog)(it), ItemPrice(catalog)(it))
    ensures it.productId !in catalog ==> t == Totals(it.quantity * it.pointsAtSale, it.quantity * it.priceAtSale)
  {
    var p := Lookup(catalog, it.productId);
    Totals(it.quantity * OrElse(it.pointsAtSale, OrElse(if p.Some? then p.value.pointsPerUnit else 0, 0)),
           it.quantity * OrElse(it.priceAtSale, OrElse(if p.Some? then p.value.pricePerUnit else 0, 0)))
  }

  // ---- the filtered, ordered list ----

  /** The status selector: `all` or one status. */
  datatype StatusFilter = AnyStatus | Only(status: Status)

  /** The date selector: `all`, `last30` or `last90`. */
  datatype DateRange = AllTime | Last30 | Last90

  /** Earliest creation time the date selector lets through, if any. */
  function Since(range: DateRange, now: int): Option<int> {
    match range
    case AllTime => None
    case Last30 => Some(now - 30 * Calendar.DayMs)
    case Last90 => Some(now - 90 * Calendar.DayMs)
  }

  /** The query's filters: the account, `.eq('status', ...)` unless `all`, and
      `.gte('created_at', ...)` unless `all`. */
  predicate Listed(o: Order, user: nat, statusFilter: StatusFilter, range: DateRange, now: int) {
    && o.owner == user
    && (statusFilter.Only? ==> o.status == statusFilter.status)
    && (Since(range, now).Some? ==> o.createdAt >= Since(range, now).value)
  }

  function ListedBy(user: nat, statusFilter: StatusFilter, range: DateRange, now: int): Order -> bool {
    (o: Order) => Listed(o, user, statusFilter, range, now)
  }

  function CreatedAt(): Order -> int {
    (o: Order) => o.createdAt
  }

  /** The orders the page lists: exactly the account's orders the filters let
      through, each as often as it is stored, newest first. */
  function HistoryOrders(orders: seq<Order>, user: nat, statusFilter: StatusFilter, range: DateRange, now: int)
    : (r: seq<Order>)
    ensures SortedDesc(r, CreatedAt())
    ensures multiset(r) == multiset(Filter(orders, ListedBy(user, statusFilter, range, now)))
    ensures forall o :: o in r <==> o in orders && Listed(o, user, statusFilter, range, now)
  {
    var listed := Filter(orders, ListedBy(user, statusFilter, range, now));
    var r := SortDesc(listed, CreatedAt());
    forall o ensures o in r <==> o in listed {
      assert o in r <==> o in multiset(r);
      assert o in listed <==> o in multiset(listed);
    }
    r
  }

  /** The last 30 days are part of the last 90 days. */
  lemma Last30WithinLast90(orders: seq<Order>, user: nat, statusFilter: StatusFilter, now: int)
    ensures forall o :: o in HistoryOrders(orders, user, statusFilter, Last30, now) ==>
      o in HistoryOrders(orders, user, statusFilter, Last90, now)
  {
  }
}
