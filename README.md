# Fuxion-Flow ledger model

Fuxion-Flow is a small sales ledger for a product reseller. Each page of the
web app talks directly to one database. The ledger logic lives inside the page
components, and this project models that logic:

- **Products.** Each has a stock quantity, a price per unit and points per unit.
- **Customers and orders.** An order's items snapshot the product's points and
  price when the order is created. Delivering an order takes its items out of
  stock.
- **Partners and loans.** A loan hands stock to a partner, snapshots the
  product's figures and takes the stock.
- **Per-page totals.** These are computed over the fetched rows: pending and
  60-day totals, per-customer totals, loan totals, inventory value, the
  history list, the monthly sales report and the statistics charts.

## How the model is built

- **Records.** The records are datatypes in module `Ledger`. Every stored row
  carries the account that owns it (`owner`). Money is integer cents, points
  are integers, and timestamps are integer milliseconds.
- **The database.** It is the class `Db.Store`, which holds one map per table
  from row id to row. Ids come from one counter (`FreshId`).
- **Handlers.** Each page handler is a method over the store. It takes the
  account id explicitly, and `modifies` only the tables it writes. A failed
  query is a boolean parameter (`fault`, `orderFault`, `itemFaults`, ...), so
  both the success path and the failure path are stated.
- **Folds.** The page-side folds (`reduce`, `forEach` with running sums) are
  functions over the fetched `seq`s, and the shared lemmas live in `Folds`.
  - Where the page accumulates in a loop, the model is a method with a loop.
    It is proved equal to the fold: `CalculateOrderTotals` on three pages,
    `CalculateLoanTotals`, the monthly-sales dictionary, the twelve sales
    buckets, the partner-loan dictionary and the month options.
- **JavaScript `||`.** `x || y` on numbers is `Ledger.OrElse`: 0 counts as
  missing. `x || 0` on a nullable column is `Ledger.OrZero`.
- **Months.** Months are `(year, month)` keys (`Calendar.MonthKey`), ordered
  by `Calendar.Index`. Timestamps are mapped to months with Gregorian
  arithmetic (`Calendar.MonthOf`).

### Behaviour of the code that the model keeps

- **Delivery has no guards.** Nothing checks the order's current status. The
  stock write has no lower bound (`Home.NoStockGuard`). A second delivery of
  the same order takes the stock again (`Home.Redelivery`). The only pending
  guard is the dashboard showing its buttons on pending orders. The lemmas
  about the pending totals take that as a precondition.
- **Order rollback can fail.** When the items cannot be inserted, the order is
  deleted again. That delete's result is not checked, so an order with no
  items can remain. `Home.HandleCreateOrder` states both outcomes.
- **Loans.**
  - The loan's stock write is not checked either.
  - Deleting a loan or a partner gives no stock back.
  - The partners page, the statistics page and the loan rows value loans at
    the product's current figures, not at the loan's snapshot.
- **Order totals differ by page.**
  - The dashboard uses current prices.
  - History prefers the snapshot but skips an item whose product is gone.
  - Reports prefers the snapshot and keeps such an item at its snapshot.
  - A 0 snapshot counts as missing everywhere.
- **Cascades come from the database.** Deleting a customer deletes that
  customer's orders, and deleting a partner deletes that partner's loans. A
  product still referenced by an order item or a loan cannot be deleted.
  These rules come from the database's foreign keys, which are not in the
  page code. The model states them as the handlers' outcome.
- **The statistics page ignores the account.**
  - Its queries are not scoped to the account.
  - It groups loans by partner name, so partners that share a name are merged.
  - It groups in a plain object. A partner named after a member every object
    inherits (`constructor`, `toString`, `__proto__`, ...) finds that member,
    so no entry is created for it and the chart leaves that partner out.
  - It reads a missing completion date as time 0.

## Model

| member | source | states |
|---|---|---|
| Ledger.ProductsOf | src/pages/Home.js:35-38 | exactly the account's products, each unchanged |
| Home.CalculateOrderTotals | src/pages/Home.js:61-72 | the loop returns Σ current points (price) × quantity over the lines whose product is in the catalog |
| Home.UnknownProductsAddNothing | src/pages/Home.js:64-69 | lines with an unknown product add nothing: the totals equal those of the known lines alone |
| Home.Snapshot | src/pages/Home.js:195-204 | an item keeps the line's product and quantity and snapshots the product's current points and price, or 0 and 0 when the product is unknown |
| Home.SnapshotItems | src/pages/Home.js:195-204 | one snapshotted item per line, in order |
| Home.CreatedTotalsMatchSnapshots | src/pages/Home.js:171-204 | the totals written with an order equal Σ quantity × snapshot over the items written with it |
| Home.NewOrder | src/pages/Home.js:173-185 | a new order is pending, not completed, carries the caller's paid flag, the line totals and the snapshotted items |
| Home.HandleCreateOrder | src/pages/Home.js:161-215 | order insert failure changes nothing; success stores the new order with its items under a fresh id; an items failure deletes the order again unless that delete fails, which leaves it with no items; no other table changes |
| Home.DisplayOfNewOrder | src/pages/Home.js:438-439 | a card shows a new order's line totals (recomputed when they were 0) while the catalog is unchanged |
| Home.StatusUpdate | src/pages/Home.js:76-83 | completion time set iff the new status is delivered; paid forced true only on delivery, otherwise kept; no other field changes |
| Home.DeliveryStock | src/pages/Home.js:97-122 | delivery keeps the set of products, changes only the account's products, each by exactly the quantity its non-failing items take |
| Home.NoStockGuard | src/pages/Home.js:114-119 | delivering more than the stock drives the quantity below zero |
| Home.Redelivery | src/pages/Home.js:74-122 | delivering the same order twice takes its stock twice |
| Home.HandleUpdateOrderStatus | src/pages/Home.js:74-127 | a failed or foreign update changes nothing; otherwise the order gets `StatusUpdate` and, on delivery only, the stock becomes the item-by-item decrement; customers, partners and loans are unchanged |
| Home.HandleTogglePaidStatus | src/pages/Home.js:129-137 | the one order matching id and account gets the negated flag; nothing else changes, and the store stays valid |
| Home.PendingOrders | src/pages/Home.js:229 | exactly the pending orders |
| Home.DeliveredLast60Days | src/pages/Home.js:230-238 | exactly the delivered orders with a completion time strictly after now minus 60 days, with no upper bound |
| Home.NewOrderRaisesPending | src/pages/Home.js:240-241 | a new order raises the pending totals by exactly its line totals |
| Home.DeliveryLeavesPending | src/pages/Home.js:240-241 | delivering a pending order lowers the pending points and price totals by its persisted points and price (missing counts 0) |
| Home.DeliveryEntersWindow | src/pages/Home.js:244-245 | delivering a pending order raises the 60-day points and price totals by its persisted points and price |
| Text.Digits | src/pages/Home.js:225 | the stripped phone holds only digits and is no longer than the input |
| Text.DigitsFixpoint | src/pages/Customers.jsx:122 | stripping leaves a string unchanged iff it is all digits |
| Text.DigitsIdempotent | src/pages/Customers.jsx:122 | stripping twice equals stripping once |
| Text.DigitsCount | src/pages/Customers.jsx:122 | every digit is kept as often as it occurs and no other character is kept |
| Text.DigitsAppend | src/pages/Customers.jsx:122 | stripping distributes over concatenation, so digit order is kept |
| Text.LinkPhoneRoundTrip | src/pages/Customers.jsx:121-124 | the phone read back from the WhatsApp link is exactly the digits of the phone number |
| Text.ParseIntRoundTrip | src/pages/Inventory.js:264 | `parseInt` reads back every whole number from its numeral |
| Text.ParseNumeral | src/pages/Inventory.js:264 | `parseInt` reads a string of decimal digits as its value |
| Text.ParseNegativeNumeral | src/pages/Inventory.js:264 | `parseInt` reads a minus sign followed by decimal digits as minus their value |
| Text.ParseIntOr | src/pages/Inventory.js:264 | `parseInt(s) \|\| d`: NaN and 0 give `d`, any other parsed value is kept |
| Inventory.IntInput | src/pages/Inventory.js:289 | the quantity and points inputs yield the parsed integer, or 0 when nothing parses |
| Inventory.RowTotals | src/pages/Inventory.js:198-201 | a row's figures are non-negative for non-negative fields and zero for zero stock |
| Inventory.InventoryTotalsNonNegative | src/pages/Inventory.js:124-125 | the inventory totals are not negative when no product has a negative field |
| Inventory.StockDecrementLowersTotals | src/pages/Inventory.js:124-125 | taking q units of one product lowers the totals by exactly q times its points and price |
| Inventory.HandleSubmitProduct | src/pages/Inventory.js:59-95 | an edit replaces only the product matching id and account; a create stores the given fields under a fresh id; a failure changes nothing; no other table changes |
| Inventory.HandleDeleteProduct | src/pages/Inventory.js:97-122 | succeeds iff the write does not fail and the account's product is not referenced by an order item or loan; removes only that product |
| Customers.CustomerOrders | src/pages/Customers.jsx:161-162 | exactly that customer's orders |
| Customers.CustomerTotalsPartition | src/pages/Customers.jsx:161-162 | over a list naming every customer once, the per-customer totals add up to the totals of all orders |
| Customers.CustomerTotalsAppend | src/pages/Customers.jsx:161-162 | another customer's order leaves a customer's totals unchanged; their own adds its persisted totals, missing counting 0 |
| Customers.CustomerOrdersAppend | src/pages/Customers.jsx:161-162 | an order added at the end joins its own customer's orders only |
| Customers.HandleSubmitCustomer | src/pages/Customers.jsx:57-92 | an edit replaces only the customer matching id and account; a create stores the given fields under a fresh id; a failure changes nothing |
| Db.Cascade | src/pages/Customers.jsx:94-119 | exactly the rows that do not refer to the deleted row remain, unchanged; a customer's delete takes its orders with it and a partner's its loans |
| Customers.HandleDeleteCustomer | src/pages/Customers.jsx:94-119 | on success removes that customer and that customer's orders; on failure or another account's customer nothing changes |
| Partners.CalculateLoanTotals | src/pages/Partners.js:56-66 | the loop returns Σ quantity × current points (price) over loans whose product exists |
| Partners.LoanRowsAddUp | src/pages/Partners.js:319 | the loan rows (`quantity × (product?.x \|\| 0)`) add up to the partner's loan totals |
| Partners.PartnerLoans | src/pages/Partners.js:229-230 | exactly the loans of that partner |
| Partners.GrandTotalsStep | src/pages/Partners.js:229-230 | each partner adds exactly its own loan totals to the grand totals |
| Partners.GrandTotalsOfAllLoans | src/pages/Partners.js:229-230 | with every partner listed once, the grand totals equal the totals of all loans |
| Partners.NewLoan | src/pages/Partners.js:179-187 | the loan row snapshots the product's points and price and carries the given partner, product, quantity, date and account |
| Partners.HandleSubmitLoan | src/pages/Partners.js:155-205 | unknown product, too large a quantity and a failed insert each change nothing, iff their condition holds; otherwise the loan is stored and that product's stock drops by the quantity (unless the write fails), staying non-negative |
| Partners.HandleDeleteLoan | src/pages/Partners.js:207-227 | removes only the loan matching id and account; the stock is not touched |
| Partners.HandleSubmitPartner | src/pages/Partners.js:84-119 | an edit replaces only the partner matching id and account; a create stores the given fields under a fresh id; a failure changes nothing |
| Partners.HandleDeletePartner | src/pages/Partners.js:121-145 | on success removes that partner and its loans, giving no stock back; otherwise nothing changes |
| History.CalculateOrderTotals | src/pages/History.js:73-84 | the loop returns Σ quantity × (snapshot, or current figure when it is 0) over items whose product exists |
| History.MissingProductDropsItem | src/pages/History.js:77-78 | an item whose product is gone adds nothing, whatever its snapshots |
| History.SnapshotsOutlivePriceChanges | src/pages/History.js:79-80 | with nonzero snapshots, later changes of product figures do not change the totals |
| History.HistoryMatchesCreation | src/pages/History.js:73-84 | for an order as created, the history totals equal the totals written at creation |
| History.ItemDisplay | src/pages/History.js:216-217 | the item line follows snapshot, then current product, then 0; a gone product still shows its snapshot |
| History.HistoryOrders | src/pages/History.js:44-61 | exactly the account's orders passing the status and date filters, as a permutation of the stored ones, newest first |
| History.Last30WithinLast90 | src/pages/History.js:54-61 | what the last-30-days filter lists, the last-90-days filter lists too |
| Reports.CalculateOrderTotals | src/pages/Reports.js:142-150 | the loop returns Σ quantity × (snapshot price, else current price, else 0) |
| Reports.SnapshotCountsWithoutProduct | src/pages/Reports.js:145-147 | an item whose product is gone still counts at its snapshot |
| Reports.AgreesWithHistory | src/pages/Reports.js:142-150 | while every product is there, the report's order price equals the history's |
| Reports.SaleMonthsMembers | src/pages/Reports.js:100-125 | a month is a sale month iff an included order was completed in it |
| Reports.SaleMonthWitness | src/pages/Reports.js:100-125 | each sale month is the completion month of some included order |
| Reports.SaleMonthOfOrder | src/pages/Reports.js:100-125 | the completion month of each included order is a sale month |
| Reports.RangeIsMonths | src/pages/Reports.js:109-114 | with both months chosen, an order is kept iff it was completed in a month from the start month to the end month |
| Reports.AbsentMonthIsZero | src/pages/Reports.js:116-122 | a month without included orders sells nothing |
| Reports.MonthStep | src/pages/Reports.js:116-122 | one more order adds its month when included and its price to that month only |
| Reports.AddOrder | src/pages/Reports.js:101-123 | one `forEach` turn keeps the dictionary equal to the sale months and monthly sales of the orders seen so far, each key once |
| Reports.AccumulateSales | src/pages/Reports.js:100-125 | the dictionary has exactly the sale months as keys, each once, each holding that month's sales |
| Reports.MonthlySales | src/pages/Reports.js:88-127 | one row per sale month and no other, holding that month's sales, strictly ascending by month |
| Reports.SortedRows | src/pages/Reports.js:126 | one row per dictionary key and no other, holding that key's entry, strictly ascending by month, which is the string order of the `yyyy-MM` keys for years 0 to 9999 |
| Reports.RowsOf | src/pages/Reports.js:126 | the rows follow the sorted keys, each with its dictionary entry |
| Reports.GetMonthYearOptions | src/pages/Reports.js:192-205 | 72 options, option i being month i % 12 + 1 of year current − i / 12 |
| Reports.MonthOptionsDistinct | src/pages/Reports.js:192-205 | every option is a real month and no two options coincide |
| Reports.MonthOptionsCover | src/pages/Reports.js:192-205 | every month of the current year and the five before is offered |
| Calendar.MonthOf | src/pages/Reports.js:105 | the `yyyy-MM` month of a timestamp is a valid month |
| Calendar.MonthOfBounds | src/pages/Reports.js:105-113 | a timestamp falls in month k iff it lies from `startOfMonth` to `endOfMonth` of k, both inclusive |
| Calendar.WithinOwnMonth | src/pages/Reports.js:105 | a timestamp lies from the first to the last millisecond of its own `yyyy-MM` month |
| Calendar.MonthNonEmpty | src/pages/Reports.js:111-112 | a month's `startOfMonth` is not after its `endOfMonth` |
| Calendar.MonthOrder | src/pages/Reports.js:111-113 | a later month starts after an earlier one ends |
| Calendar.DaysBeforeYearClosed | src/pages/Reports.js:105 | the days before year 2000 + n are 365 a year plus one per Gregorian leap year, so a 400-year cycle has 146097 days |
| Calendar.LeapRule | src/pages/Reports.js:105 | a year is a leap year iff it is divisible by 4 and, when divisible by 100, also by 400 |
| Calendar.LeapDays | src/pages/Reports.js:105 | year 2000 + j has 365 days, plus one when j is divisible by 4, minus one by 100, plus one by 400 |
| Calendar.MonthsBack | src/pages/Stats.js:54 | `new Date(y, m - n, 1)` is a valid month exactly n months earlier |
| Calendar.FromIndex | src/pages/Reports.js:126 | the month with a given chronological index is valid and has that index |
| Calendar.IndexInjective | src/pages/Reports.js:126 | distinct months have distinct chronological indices, so, for the four-digit years 0 to 9999, sorting by index orders the `yyyy-MM` keys as the string sort does |
| Sorting.SortAsc | src/pages/Reports.js:126 | sorted ascending and a permutation of the input |
| Sorting.SortDesc | src/pages/Stats.js:103-105 | sorted descending and a permutation of the input |
| Sorting.SortAscDistinct | src/pages/Reports.js:126 | sorting pairwise distinct keys gives a strictly ascending sequence |
| Sorting.SortAscMembers | src/pages/Reports.js:126 | sorting keeps exactly the elements it was given |
| Sorting.SortDescKeepsDistinct | src/pages/Stats.js:103-105 | sorting keeps names distinct |
| Stats.OrderMonth | src/pages/Stats.js:60-61 | an order's month is a valid month, read from the completion date or time 0 |
| Stats.OtherMonthAddsNothing | src/pages/Stats.js:63 | an order of another month leaves a month's figures unchanged |
| Stats.MissingProductSkipped | src/pages/Stats.js:64-69 | an item without a product adds nothing |
| Stats.InitBuckets | src/pages/Stats.js:52-57 | exactly twelve zero buckets, for the current month and the eleven before it |
| Stats.AddItems | src/pages/Stats.js:64-69 | a month's bucket grows by its items' current price and points sums; other buckets unchanged |
| Stats.BucketStep | src/pages/Stats.js:59-70 | one more order adds its items' current price and points to its own month's figures only |
| Stats.FillBuckets | src/pages/Stats.js:59-71 | no bucket is added, and each bucket ends as its start plus that month's sales and points |
| Stats.SortedWindow | src/pages/Stats.js:73-79 | the twelve bucket months in chronological order are the eleven months before the current one, then the current one |
| Stats.Columns | src/pages/Stats.js:81-85 | the sales and points arrays are parallel to the labels |
| Stats.ProcessSalesData | src/pages/Stats.js:50-86 | twelve chronological labels ending at the current month, with parallel arrays holding each month's sales and points |
| Stats.GroupNames | src/pages/Stats.js:89-99 | the grouped partner names are pairwise distinct |
| Stats.GroupNamesMembers | src/pages/Stats.js:89-95 | a name is grouped iff a loan with both a partner and a product is under it and the name is not inherited from `Object.prototype`; an inherited name is never grouped |
| Stats.AbsentNameIsZero | src/pages/Stats.js:93-95 | a name with no counted loan has all-zero figures |
| Stats.StatStep | src/pages/Stats.js:96-98 | one more counted loan adds its quantity, points and price to its own name only |
| Stats.AddLoan | src/pages/Stats.js:90-99 | one `forEach` turn keeps the dictionary equal to the grouped names and figures of the loans seen so far; a loan under an inherited name changes nothing |
| Stats.GroupLoans | src/pages/Stats.js:89-100 | the dictionary holds exactly the grouped names (none inherited from `Object.prototype`), each with its quantity, points and price sums |
| Stats.ProcessPartnerLoanData | src/pages/Stats.js:88-108 | one entry per grouped name and no other, so none for a name inherited from `Object.prototype`, each with that name's sums, sorted by quantity descending |

## Left out

- I/O is not modelled: the database client, `supabase.auth.getUser()`,
  React state, modals, alerts and reloading after a write. The database is
  the in-memory `Db.Store`, and the account id is a parameter.
- The missing-user branches are not modelled. Every handler returns before
  touching anything when there is no signed-in user.
- Authentication, routing, the navigation bar and the loading spinner are
  not part of this model.
- PDF export (html2canvas and jsPDF) and the Chart.js datasets are left out.
  So are the other report kinds (orders and loans listings), which only run
  queries.
- Formatting is left out: date formatting, month labels, `toLocaleString`,
  `toFixed` and `encodeURIComponent`. `Text.WhatsAppLink` takes the message
  already encoded.
- Floating point is left out. Prices are integer cents.
  - The price input's `parseFloat(...) || 0` is not modelled.
  - `Inventory.HandleSubmitProduct` takes its numbers already parsed, and
    requires them to be non-negative, because the inputs carry `min="0"`.
- Concurrency is left out: deliveries or loans racing on the same product,
  and totals computed from a stale fetch. The handlers run one at a time on
  the current store.
- Time is a parameter `now`, on the local wall clock, with no time zones or
  daylight saving time.
  - History's "30 days ago" is 30 × 24 hours.
  - A `completed_at` that does not parse is the same as a missing one.
- Stats.ProcessSalesData: the page names each bucket by a Spanish
  short-month label such as `ene 2025`, then sorts the labels by re-parsing
  strings such as `ene 1, 2025` with `new Date`. JavaScript leaves the parsing
  of such strings to the engine. A date parser that knows only English month
  names does not read `ene`, `abr`, `ago` or `dic` as those months: some
  engines return an invalid date, so the comparator returns NaN, and others
  ignore the word. Any twelve consecutive months include those four, so the
  page's label order is engine-defined and in general not chronological. The
  model keys buckets by `(year, month)` and its labels state the chronological
  order the sort is meant to produce, not the order the page produces.
- Stats.SortedWindow: states the intended chronological order of the twelve
  bucket months, not the engine-defined order of the page's label sort
  described above.
- Stats.Fetched: the statistics queries' filters (delivered, completed in the
  last 365 days, every account) are stated as this predicate only. The
  processing methods take the fetched list as given.
- Stats.AddLoan: for a partner name inherited from `Object.prototype`, the
  page adds the loan's figures to the inherited member (writing NaN onto
  `Object.prototype` for `__proto__`). The model leaves that member out: it
  states only that the dictionary does not change.
- Partners.HandleSubmitLoan: the page text attaches `handleSubmitLoan` to no
  form. The loan quantity starts at 1 and is only ever set back to 1, when
  the loan modal opens.
  The model takes the quantity as a parameter and states the handler for
  every quantity, as if a loan form reached it.
- Stats.ProcessPartnerLoanData: the order among partners with equal
  quantities is not stated. JavaScript's sort is stable over the dictionary's
  insertion order, but the model states only the descending order.
- Reports.MonthlySales: for a range whose start month is after its end
  month, the model includes no order. What the page does there depends on
  the version of date-fns, which the page code does not fix:
  - In date-fns 3, `isWithinInterval` sorts the interval's two ends, so the
    page keeps the orders completed from the end month's last millisecond to
    the start month's first millisecond.
  - In date-fns 2, `isWithinInterval` throws a RangeError on the first
    fetched order with a valid completion date. Nothing in `generateReport` catches it, so the report
    stays at the empty list set when generation starts and `loading` is
    never reset.
