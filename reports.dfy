/** The reports page (src/pages/Reports.js): the monthly sales report, the
    order price it adds up, and the month options of its range selectors. The
    loan rows are `Partners.LoanRow`. */
module Reports {
  import opened Ledger
  import opened Folds
  import opened Sorting
  import opened Calendar
  import History

  // ---- calculateOrderTotals: price only, snapshot first ----

  /** Price one item adds: quantity times the snapshot, or the product's
      current price when the snapshot is 0, or 0 when the product is gone too. */
  function ItemPrice(catalog: Catalog): OrderItem -> int {
    (it: OrderItem) =>
      OrElse(it.priceAtSale, if it.productId in catalog then catalog[it.productId].pricePerUnit else 0) * it.quantity
  }

  function OrderPrice(items: seq<OrderItem>, catalog: Catalog): int {
    Sum(items, ItemPrice(catalog))
  }

  /** `calculateOrderTotals` of the reports page: one running sum. */
  method CalculateOrderTotals(items: seq<OrderItem>, catalog: Catalog) returns (price: int)
    ensures price == OrderPrice(items, catalog)
  {
    price := 0;
    var i := 0;
    while i < |items|
      invariant 0 <= i <= |items|
      invariant price == Sum(items[..i], ItemPrice(catalog))
    {
      assert items[..i + 1][..i] == items[..i];
      var it := items[i];
      var product := Lookup(catalog, it.productId);
      var pricePerUnit := OrElse(it.priceAtSale, if product.Some? then product.value.pricePerUnit else 0);
      price := price + pricePerUnit * it.quantity;
      i := i + 1;
    }
    assert items[..i] == items;
  }

  /** Unlike the history page, an item whose product is gone still counts, at
      its snapshot. */
  lemma SnapshotCountsWithoutProduct(items: seq<OrderItem>, it: OrderItem, catalog: Catalog)
    requires it.productId !in catalog
    ensures OrderPrice(items + [it], catalog) == OrderPrice(items, catalog) + it.priceAtSale * it.quantity
  {
    SumAppend(items, [it], ItemPrice(catalog));
  }

  /** While every item's product is still there, the reports page and the
      history page agree on an order's price. */
  lemma AgreesWithHistory(items: seq<OrderItem>, catalog: Catalog)
    requires forall i :: 0 <= i < |items| ==> items[i].productId in catalog
    ensures OrderPrice(items, catalog) == History.HistoryTotals(items, catalog).price
  {
    SumCongruent(items, ItemPrice(catalog), History.ItemPrice(catalog));
  }

  // ---- the monthly_sales report ----

  /** The range selectors: both months chosen, or no range. */
  datatype MonthRange = NoRange | Between(start: Month, end: Month)

  /** An order the report counts: the query's account and `delivered`, a
      completion date, and, with a range, a completion date from the first
      millisecond of the start month to the last of the end month. */
  predicate Included(o: Order, user: nat, range: MonthRange) {
    && o.owner == user && o.status == Delivered && o.completedAt.Some?
    && (range.Between? ==> StartOfMonth(range.start) <= o.completedAt.value <= EndOfMonth(range.end))
  }

  /** With both months chosen, the interval test keeps exactly the orders
      completed in a month from the start month to the end month. */
  lemma RangeIsMonths(o: Order, user: nat, start: Month, end: Month)
    requires o.owner == user && o.status == Delivered && o.completedAt.Some?
    ensures Included(o, user, Between(start, end))
        <==> Index(start) <= Index(MonthOf(o.completedAt.value)) <= Index(end)
  {
    var t := o.completedAt.value;
    var k := MonthOf(t);
    MonthOfBounds(t, k);
    MonthNonEmpty(start);
    MonthNonEmpty(end);
    if Index(k) < Index(start) {
      MonthOrder(k, start);
    } else if Index(start) < Index(k) {
      MonthOrder(start, k);
    } else {
      IndexInjective(start, k);
    }
    if Index(end) < Index(k) {
      MonthOrder(end, k);
    } else if Index(k) < Index(end) {
      MonthOrder(k, end);
    } else {
      IndexInjective(end, k);
    }
  }

  /** What order `o` adds to month `k`. */
  function MonthPart(catalog: Catalog, user: nat, range: MonthRange, k: MonthKey): Order -> int {
    (o: Order) =>
      if Included(o, user, range) && MonthOf(o.completedAt.value) == k then OrderPrice(o.items, catalog) else 0
  }

  /** The sales of month `k`: the prices of the included orders completed in it. */
  function MonthTotal(orders: seq<Order>, catalog: Catalog, user: nat, range: MonthRange, k: MonthKey): int {
    Sum(orders, MonthPart(catalog, user, range, k))
  }

  /** The months some included order was completed in. */
  function SaleMonths(orders: seq<Order>, user: nat, range: MonthRange): (r: set<MonthKey>)
    ensures forall k :: k in r ==> ValidMonth(k)
    decreases |orders|
  {
    if orders == [] then {}
    else
      var o := orders[|orders| - 1];
      SaleMonths(orders[..|orders| - 1], user, range)
        + if Included(o, user, range) then {MonthOf(o.completedAt.value)} else {}
  }

  /** A month is a sale month exactly when an included order was completed in it. */
  lemma SaleMonthsMembers(orders: seq<Order>, user: nat, range: MonthRange, k: MonthKey)
    ensures k in SaleMonths(orders, user, range) <==>
      exists j :: 0 <= j < |orders| && Included(orders[j], user, range) && MonthOf(orders[j].completedAt.value) == k
  {
    if k in SaleMonths(orders, user, range) {
      var j := SaleMonthWitness(orders, user, range, k);
    }
    if exists j :: 0 <= j < |orders| && Included(orders[j], user, range) && MonthOf(orders[j].completedAt.value) == k {
      var j :| 0 <= j < |orders| && Included(orders[j], user, range) && MonthOf(orders[j].completedAt.value) == k;
      SaleMonthOfOrder(orders, user, range, j);
    }
  }

  /** Each sale month is the month of some included order. */
  lemma {:induction false} SaleMonthWitness(orders: seq<Order>, user: nat, range: MonthRange, k: MonthKey)
    returns (j: int)
    requires k in SaleMonths(orders, user, range)
    ensures 0 <= j < |orders| && Included(orders[j], user, range) && MonthOf(orders[j].completedAt.value) == k
    decreases |orders|
  {
    var n := |orders| - 1;
    var o := orders[n];
    if Included(o, user, range) && MonthOf(o.completedAt.value) == k {
      j := n;
    } else {
      j := SaleMonthWitness(orders[..n], user, range, k);
      assert orders[..n][j] == orders[j];
    }
  }

  /** The month of each included order is a sale month. */
  lemma {:induction false} SaleMonthOfOrder(orders: seq<Order>, user: nat, range: MonthRange, j: int)
    requires 0 <= j < |orders| && Included(orders[j], user, range)
    ensures MonthOf(orders[j].completedAt.value) in SaleMonths(orders, user, range)
    decreases |orders|
  {
    var n := |orders| - 1;
    if j < n {
      SaleMonthOfOrder(orders[..n], user, range, j);
      assert orders[..n][j] == orders[j];
    }
  }

  /** A month no included order was completed in sells nothing. */
  lemma {:induction false} AbsentMonthIsZero(orders: seq<Order>, catalog: Catalog, user: nat, range: MonthRange, k: MonthKey)
    requires k !in SaleMonths(orders, user, range)
    ensures MonthTotal(orders, catalog, user, range, k) == 0
    decreases |orders|
  {
    if orders != [] {
      AbsentMonthIsZero(orders[..|orders| - 1], catalog, user, range, k);
    }
  }

  /** A row of the report: a month and its sales. */
  datatype MonthRow = MonthRow(key: MonthKey, total: int)

  function RowIndex(): MonthRow -> int {
    (r: MonthRow) => Index(r.key)
  }

  /** One more order adds its month to the sale months when it is included,
      and its part to each month's sales. */
  lemma MonthStep(prefix: seq<Order>, o: Order, catalog: Catalog, user: nat, range: MonthRange)
    ensures SaleMonths(prefix + [o], user, range)
         == SaleMonths(prefix, user, range) + if Included(o, user, range) then {MonthOf(o.completedAt.value)} else {}
    ensures forall k :: MonthTotal(prefix + [o], catalog, user, range, k)
                     == MonthTotal(prefix, catalog, user, range, k) + MonthPart(catalog, user, range, k)(o)
  {
    assert (prefix + [o])[..|prefix|] == prefix;
  }

  /** The dictionary is the one for `done`: its keys, listed once each in
      `keys`, are the sale months of `done`, each holding that month's sales. */
  ghost predicate SalesOf(sales: map<MonthKey, int>, keys: seq<MonthKey>, done: seq<Order>, catalog: Catalog,
                          user: nat, range: MonthRange) {
    && DistinctBy(keys, KeyIndex())
    && (forall k :: k in keys <==> k in sales)
    && (forall k :: k in sales <==> k in SaleMonths(done, user, range))
    && (forall k :: k in sales ==> sales[k] == MonthTotal(done, catalog, user, range, k))
  }

  /** One turn of the `forEach`: a completed, delivered order of the account
      inside the range adds its price under its month, creating the entry
      at 0 when it is missing. */
  method AddOrder(sales: map<MonthKey, int>, keys: seq<MonthKey>, done: seq<Order>, o: Order, catalog: Catalog,
                  user: nat, range: MonthRange)
    returns (sales': map<MonthKey, int>, keys': seq<MonthKey>)
    requires SalesOf(sales, keys, done, catalog, user, range)
    ensures SalesOf(sales', keys', done + [o], catalog, user, range)
  {
    MonthStep(done, o, catalog, user, range);
    sales', keys' := sales, keys;
    var inRange := true;
    if o.owner == user && o.status == Delivered && o.completedAt.Some? && range.Between? {
      var t := o.completedAt.value;
      inRange := StartOfMonth(range.start) <= t <= EndOfMonth(range.end);
    }
    if o.owner == user && o.status == Delivered && o.completedAt.Some? && inRange {
      assert Included(o, user, range);
      var price := CalculateOrderTotals(o.items, catalog);
      var k := MonthOf(o.completedAt.value);
      if k !in sales' {
        AbsentMonthIsZero(done, catalog, user, range, k);
        forall j | 0 <= j < |keys'| ensures Index(keys'[j]) != Index(k) {
          assert keys'[j] in sales;
          IndexDiffers(keys'[j], k);
        }
        sales', keys' := sales'[k := 0], keys' + [k];
      }
      sales' := sales'[k := sales'[k] + price];
    } else {
      assert !Included(o, user, range);
    }
  }

  /** The `forEach` of the monthly_sales branch: the `monthlySales`
      dictionary, with its keys in insertion order. */
  method AccumulateSales(orders: seq<Order>, catalog: Catalog, user: nat, range: MonthRange)
    returns (sales: map<MonthKey, int>, keys: seq<MonthKey>)
    ensures DistinctBy(keys, KeyIndex())
    ensures forall k :: k in keys <==> k in sales
    ensures forall k :: k in sales <==> k in SaleMonths(orders, user, range)
    ensures forall k :: k in sales ==> sales[k] == MonthTotal(orders, catalog, user, range, k)
  {
    sales, keys := map[], [];
    var i := 0;
    while i < |orders|
      invariant 0 <= i <= |orders|
      invariant SalesOf(sales, keys, orders[..i], catalog, user, range)
    {
      assert orders[..i + 1] == orders[..i] + [orders[i]];
      sales, keys := AddOrder(sales, keys, orders[..i], orders[i], catalog, user, range);
      i := i + 1;
    }
    assert orders[..i] == orders;
  }

  /** The monthly_sales branch of `generateReport`: accumulates each included
      order's price under its `yyyy-MM` key, then lists the keys in sorted
      order. Every sale month gets exactly one row, holding that month's sales,
      and the rows run strictly forward in time. */
  method MonthlySales(orders: seq<Order>, catalog: Catalog, user: nat, range: MonthRange)
    returns (rows: seq<MonthRow>)
    ensures StrictlyAsc(rows, RowIndex())
    ensures forall j :: 0 <= j < |rows| ==> rows[j].total == MonthTotal(orders, catalog, user, range, rows[j].key)
    ensures forall k :: k in SaleMonths(orders, user, range) <==> exists j :: 0 <= j < |rows| && rows[j].key == k
  {
    var sales, keys := AccumulateSales(orders, catalog, user, range);
    rows := SortedRows(sales, keys);
  }

  /** `Object.keys(monthlySales).sort().map(key => monthlySales[key])`: one
      row per key, in strictly chronological order, holding that key's value. */
  method SortedRows(sales: map<MonthKey, int>, keys: seq<MonthKey>) returns (rows: seq<MonthRow>)
    requires DistinctBy(keys, KeyIndex())
    requires forall k :: k in keys <==> k in sales
    ensures StrictlyAsc(rows, RowIndex())
    ensures forall j :: 0 <= j < |rows| ==> rows[j].key in sales && rows[j].total == sales[rows[j].key]
    ensures forall k :: k in sales <==> exists j :: 0 <= j < |rows| && rows[j].key == k
  {
    var sorted := SortAsc(keys, KeyIndex());
    SortAscDistinct(keys, KeyIndex());
    SortAscMembers(keys, KeyIndex());
    rows := RowsOf(sorted, sales);
    forall i, j | 0 <= i < j < |rows| ensures RowIndex()(rows[i]) < RowIndex()(rows[j]) {
      assert KeyIndex()(sorted[i]) < KeyIndex()(sorted[j]);
    }
    forall k | k in sales ensures exists j :: 0 <= j < |rows| && rows[j].key == k {
      var j :| 0 <= j < |sorted| && sorted[j] == k;
      assert rows[j].key == k;
    }
  }

  /** `.map(key => monthlySales[key])` over the sorted keys. */
  function RowsOf(sorted: seq<MonthKey>, sales: map<MonthKey, int>): (rows: seq<MonthRow>)
    requires forall j :: 0 <= j < |sorted| ==> sorted[j] in sales
    ensures |rows| == |sorted|
    ensures forall j :: 0 <= j < |rows| ==> rows[j] == MonthRow(sorted[j], sales[sorted[j]])
  {
    seq(|sorted|, j requires 0 <= j < |sorted| => MonthRow(sorted[j], sales[sorted[j]]))
  }

  // ---- getMonthYearOptions ----

  /** Option `i`: year `currentYear - i / 12`, month `i % 12 + 1`. */
  function MonthOption(currentYear: int, i: int): MonthKey {
    MonthKey(currentYear - i / 12, i % 12 + 1)
  }

  /** `getMonthYearOptions`: for each year from the current one down to five
      years back, the months January to December. */
  method GetMonthYearOptions(currentYear: int) returns (options: seq<MonthKey>)
    ensures |options| == 72
    ensures forall i :: 0 <= i < 72 ==> options[i] == MonthOption(currentYear, i)
  {
    options := [];
    var y := currentYear;
    while y >= currentYear - 5
      invariant currentYear - 6 <= y <= currentYear
      invariant |options| == 12 * (currentYear - y)
      invariant forall i :: 0 <= i < |options| ==> options[i] == MonthOption(currentYear, i)
    {
      var m := 0;
      while m < 12
        invariant 0 <= m <= 12
        invariant |options| == 12 * (currentYear - y) + m
        invariant forall i :: 0 <= i < |options| ==> options[i] == MonthOption(currentYear, i)
      {
        DivModUnique(|options|, currentYear - y, m);
        options := options + [MonthKey(y, m + 1)];
        m := m + 1;
      }
      y := y - 1;
    }
  }

  /** Every option is a real month, and no two options are the same month. */
  lemma MonthOptionsDistinct(currentYear: int, i: int, j: int)
    requires 0 <= i < j < 72
    ensures ValidMonth(MonthOption(currentYear, i))
    ensures MonthOption(currentYear, i) != MonthOption(currentYear, j)
  {
    assert i == 12 * (i / 12) + i % 12 && j == 12 * (j / 12) + j % 12;
  }

  /** Every month of the six years up to the current one is offered. */
  lemma MonthOptionsCover(currentYear: int, k: MonthKey)
    requires ValidMonth(k) && currentYear - 5 <= k.year <= currentYear
    ensures exists i :: 0 <= i < 72 && MonthOption(currentYear, i) == k
  {
    var i := 12 * (currentYear - k.year) + (k.month - 1);
    DivModUnique(i, currentYear - k.year, k.month - 1);
    assert MonthOption(currentYear, i) == k;
  }
}
