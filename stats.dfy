/** The statistics page (src/pages/Stats.js): sales of the last twelve months
    and the loans per partner, both valued at the products' current points
    and prices. */
module Stats {
  import opened Ledger
  import opened Folds
  import opened Sorting
  import opened Calendar

  // ---- processSalesData ----

  /** What one item adds to its month: quantity times the joined product's
      current price (points), nothing when it has no product. */
  function ItemSoles(catalog: Catalog): OrderItem -> int {
    (it: OrderItem) => if it.productId in catalog then it.quantity * catalog[it.productId].pricePerUnit else 0
  }

  function ItemPoints(catalog: Catalog): OrderItem -> int {
    (it: OrderItem) => if it.productId in catalog then it.quantity * catalog[it.productId].pointsPerUnit else 0
  }

  /** The month an order is counted in: that of `new Date(order.completed_at)`,
      which reads a null date as time 0. */
  function OrderMonth(o: Order): (k: MonthKey)
    ensures ValidMonth(k)
  {
    MonthOf(OrZero(o.completedAt))
  }

  function SolesIn(catalog: Catalog, k: MonthKey): Order -> int {
    (o: Order) => if OrderMonth(o) == k then Sum(o.items, ItemSoles(catalog)) else 0
  }

  function PointsIn(catalog: Catalog, k: MonthKey): Order -> int {
    (o: Order) => if OrderMonth(o) == k then Sum(o.items, ItemPoints(catalog)) else 0
  }

  /** The sales and points of month `k`: every item of every order of that month. */
  function BucketSoles(orders: seq<Order>, catalog: Catalog, k: MonthKey): int {
    Sum(orders, SolesIn(catalog, k))
  }

  function BucketPoints(orders: seq<Order>, catalog: Catalog, k: MonthKey): int {
    Sum(orders, PointsIn(catalog, k))
  }

  /** The page's query: delivered orders completed in the last 365 days, of
      every account. */
  predicate Fetched(o: Order, now: int) {
    o.status == Delivered && o.completedAt.Some? && o.completedAt.value >= now - 365 * DayMs
  }

  /** An order of another month leaves a month's figures as they were. */
  lemma OtherMonthAddsNothing(orders: seq<Order>, o: Order, catalog: Catalog, k: MonthKey)
    requires OrderMonth(o) != k
    ensures BucketSoles(orders + [o], catalog, k) == BucketSoles(orders, catalog, k)
    ensures BucketPoints(orders + [o], catalog, k) == BucketPoints(orders, catalog, k)
  {
    SumAppend(orders, [o], SolesIn(catalog, k));
    SumAppend(orders, [o], PointsIn(catalog, k));
  }

  /** An item without a product adds nothing. */
  lemma MissingProductSkipped(items: seq<OrderItem>, it: OrderItem, catalog: Catalog)
    requires it.productId !in catalog
    ensures Sum(items + [it], ItemSoles(catalog)) == Sum(items, ItemSoles(catalog))
    ensures Sum(items + [it], ItemPoints(catalog)) == Sum(items, ItemPoints(catalog))
  {
    SumAppend(items, [it], ItemSoles(catalog));
    SumAppend(items, [it], ItemPoints(catalog));
  }

  /** One more order adds its items to the figures of its own month only. */
  lemma BucketStep(prefix: seq<Order>, o: Order, catalog: Catalog, k: MonthKey)
    ensures BucketSoles(prefix + [o], catalog, k)
         == BucketSoles(prefix, catalog, k) + if OrderMonth(o) == k then Sum(o.items, ItemSoles(catalog)) else 0
    ensures BucketPoints(prefix + [o], catalog, k)
         == BucketPoints(prefix, catalog, k) + if OrderMonth(o) == k then Sum(o.items, ItemPoints(catalog)) else 0
  {
    assert (prefix + [o])[..|prefix|] == prefix;
  }

  datatype Bucket = Bucket(soles: int, points: int)

  /** The first loop: a zero bucket for the current month and each of the 11
      before it, current month first. */
  method InitBuckets(current: MonthKey) returns (buckets: map<MonthKey, Bucket>, keys: seq<MonthKey>)
    ensures |keys| == 12
    ensures forall j :: 0 <= j < 12 ==> keys[j] == MonthsBack(current, j)
    ensures forall k :: k in buckets <==> k in keys
    ensures forall k :: k in buckets ==> buckets[k] == Bucket(0, 0)
  {
    buckets, keys := map[], [];
    var i := 0;
    while i < 12
      invariant 0 <= i <= 12 && |keys| == i
      invariant forall j :: 0 <= j < i ==> keys[j] == MonthsBack(current, j)
      invariant forall k :: k in buckets <==> k in keys
      invariant forall k :: k in buckets ==> buckets[k] == Bucket(0, 0)
    {
      var k := MonthsBack(current, i);
      buckets := buckets[k := Bucket(0, 0)];
      keys := keys + [k];
      i := i + 1;
    }
  }

  /** The inner loop: adds each item of one order to bucket `k`. */
  method AddItems(buckets: map<MonthKey, Bucket>, k: MonthKey, items: seq<OrderItem>, catalog: Catalog)
    returns (after: map<MonthKey, Bucket>)
    requires k in buckets
    ensures after == buckets[k := Bucket(buckets[k].soles + Sum(items, ItemSoles(catalog)),
                                         buckets[k].points + Sum(items, ItemPoints(catalog)))]
  {
    after := buckets;
    var m := 0;
    while m < |items|
      invariant 0 <= m <= |items|
      invariant after == buckets[k := Bucket(buckets[k].soles + Sum(items[..m], ItemSoles(catalog)),
                                             buckets[k].points + Sum(items[..m], ItemPoints(catalog)))]
    {
      assert items[..m + 1][..m] == items[..m];
      var it := items[m];
      if it.productId in catalog {
        var p := catalog[it.productId];
        after := after[k := after[k].(soles := after[k].soles + it.quantity * p.pricePerUnit)];
        after := after[k := after[k].(points := after[k].points + it.quantity * p.pointsPerUnit)];
      }
      m := m + 1;
    }
    assert items[..m] == items;
  }

  /** The orders loop: every order whose month has a bucket adds its items there. */
  method FillBuckets(buckets: map<MonthKey, Bucket>, orders: seq<Order>, catalog: Catalog)
    returns (after: map<MonthKey, Bucket>)
    requires forall k :: k in buckets ==> buckets[k] == Bucket(0, 0)
    ensures after.Keys == buckets.Keys
    ensures forall k :: k in after ==>
      after[k] == Bucket(BucketSoles(orders, catalog, k), BucketPoints(orders, catalog, k))
  {
    after := buckets;
    var i := 0;
    while i < |orders|
      invariant 0 <= i <= |orders|
      invariant after.Keys == buckets.Keys
      invariant forall k :: k in after ==>
        after[k] == Bucket(BucketSoles(orders[..i], catalog, k), BucketPoints(orders[..i], catalog, k))
    {
      var prefix, o := orders[..i], orders[i];
      assert orders[..i + 1] == prefix + [o];
      var k := OrderMonth(o);
      forall k' ensures BucketSoles(prefix + [o], catalog, k')
                     == BucketSoles(prefix, catalog, k') + if k == k' then Sum(o.items, ItemSoles(catalog)) else 0
                ensures BucketPoints(prefix + [o], catalog, k')
                     == BucketPoints(prefix, catalog, k') + if k == k' then Sum(o.items, ItemPoints(catalog)) else 0
      {
        BucketStep(prefix, o, catalog, k');
      }
      if k in after {
        after := AddItems(after, k, o.items, catalog);
      }
      i := i + 1;
    }
    assert orders[..i] == orders;
  }

  /** In a strictly ascending run of months that all lie at or after month
      index `lo`, the `j`-th lies at least `j` months after `lo` ... */
  lemma {:induction false} AscFloor(s: seq<MonthKey>, lo: int, j: int)
    requires StrictlyAsc(s, KeyIndex()) && 0 <= j < |s|
    requires forall i :: 0 <= i < |s| ==> lo <= Index(s[i])
    ensures lo + j <= Index(s[j])
    decreases j
  {
    if j > 0 {
      AscFloor(s, lo, j - 1);
      assert KeyIndex()(s[j - 1]) < KeyIndex()(s[j]);
    }
  }

  /** ... and, when they all lie at or before `hi`, at least `|s| - 1 - j`
      months before `hi`. */
  lemma {:induction false} AscCeiling(s: seq<MonthKey>, hi: int, j: int)
    requires StrictlyAsc(s, KeyIndex()) && 0 <= j < |s|
    requires forall i :: 0 <= i < |s| ==> Index(s[i]) <= hi
    ensures Index(s[j]) <= hi - (|s| - 1 - j)
    decreases |s| - j
  {
    if j < |s| - 1 {
      AscCeiling(s, hi, j + 1);
      assert KeyIndex()(s[j]) < KeyIndex()(s[j + 1]);
    }
  }

  /** The twelve bucket months lie at distinct month indices. */
  lemma WindowDistinct(keys: seq<MonthKey>, current: MonthKey)
    requires forall j :: 0 <= j < |keys| ==> keys[j] == MonthsBack(current, j)
    ensures DistinctBy(keys, KeyIndex())
  {
  }

  /** The label sort: put in strictly chronological order, the twelve bucket
      months are exactly the eleven months before the current one, then the
      current one. */
  lemma SortedWindow(labels: seq<MonthKey>, keys: seq<MonthKey>, current: MonthKey)
    requires |keys| == 12
    requires forall j :: 0 <= j < 12 ==> keys[j] == MonthsBack(current, j)
    requires multiset(labels) == multiset(keys) && StrictlyAsc(labels, KeyIndex())
    ensures |labels| == 12
    ensures forall j :: 0 <= j < 12 ==> labels[j] == MonthsBack(current, 11 - j)
  {
    assert |labels| == |multiset(labels)| == |multiset(keys)| == 12;
    var lo := Index(current) - 11;
    forall i | 0 <= i < 12 ensures lo <= Index(labels[i]) <= lo + 11 && ValidMonth(labels[i]) {
      assert labels[i] in multiset(keys);
      var j :| 0 <= j < 12 && keys[j] == labels[i];
    }
    forall j | 0 <= j < 12 ensures labels[j] == MonthsBack(current, 11 - j) {
      AscFloor(labels, lo, j);
      AscCeiling(labels, lo + 11, j);
      IndexInjective(labels[j], MonthsBack(current, 11 - j));
    }
  }

  /** `processSalesData`: twelve zero buckets, the orders added into the
      bucket of their month, and the labels sorted chronologically with the
      sales and points arrays parallel to them. */
  method ProcessSalesData(orders: seq<Order>, catalog: Catalog, now: int)
    returns (labels: seq<MonthKey>, soles: seq<int>, points: seq<int>)
    ensures |labels| == 12 && |soles| == 12 && |points| == 12
    ensures forall j :: 0 <= j < 12 ==> labels[j] == MonthsBack(MonthOf(now), 11 - j)
    ensures forall j :: 0 <= j < 12 ==>
      soles[j] == BucketSoles(orders, catalog, labels[j]) && points[j] == BucketPoints(orders, catalog, labels[j])
  {
    var current := MonthOf(now);
    var empty, keys := InitBuckets(current);
    var buckets := FillBuckets(empty, orders, catalog);
    WindowDistinct(keys, current);
    SortAscDistinct(keys, KeyIndex());
    labels := SortAsc(keys, KeyIndex());
    SortedWindow(labels, keys, current);
    forall j | 0 <= j < 12 ensures labels[j] in buckets {
      assert labels[j] == keys[11 - j];
    }
    var columns := Columns(labels, buckets);
    soles, points := columns.0, columns.1;
  }

  /** `sortedMonths.map(month => monthlySales[month].soles)` and the same for points. */
  function Columns(labels: seq<MonthKey>, buckets: map<MonthKey, Bucket>): (r: (seq<int>, seq<int>))
    requires forall j :: 0 <= j < |labels| ==> labels[j] in buckets
    ensures |r.0| == |labels| && |r.1| == |labels|
    ensures forall j :: 0 <= j < |labels| ==> r.0[j] == buckets[labels[j]].soles && r.1[j] == buckets[labels[j]].points
  {
    (seq(|labels|, j requires 0 <= j < |labels| => buckets[labels[j]].soles),
     seq(|labels|, j requires 0 <= j < |labels| => buckets[labels[j]].points))
  }

  // ---- processPartnerLoanData ----

  /** The properties every plain object inherits from `Object.prototype`
      (sections 20.1.3 and B.2.2 of ECMAScript 2024). */
  const InheritedNames: set<string> := {
    "constructor", "hasOwnProperty", "isPrototypeOf", "propertyIsEnumerable", "toLocaleString", "toString",
    "valueOf", "__proto__", "__defineGetter__", "__defineSetter__", "__lookupGetter__", "__lookupSetter__"}

  /** A loan the page counts: both its partner and its product are there, and
      the partner's name is not inherited by the `partnerLoans` object. For an
      inherited name `!partnerLoans[partnerName]` is false, so no entry is
      created and the sums land on the inherited member, which `Object.entries`
      does not list. */
  predicate Counted(l: Loan, partners: map<nat, Partner>, catalog: Catalog) {
    l.partnerId in partners && l.productId in catalog && partners[l.partnerId].name !in InheritedNames
  }

  /** The loan is counted under partner name `n`. */
  predicate CountedAs(l: Loan, partners: map<nat, Partner>, catalog: Catalog, n: string) {
    Counted(l, partners, catalog) && partners[l.partnerId].name == n
  }

  function QuantityFor(partners: map<nat, Partner>, catalog: Catalog, n: string): Loan -> int {
    (l: Loan) => if CountedAs(l, partners, catalog, n) then l.quantity else 0
  }

  function PointsFor(partners: map<nat, Partner>, catalog: Catalog, n: string): Loan -> int {
    (l: Loan) => if CountedAs(l, partners, catalog, n) then l.quantity * catalog[l.productId].pointsPerUnit else 0
  }

  function PriceFor(partners: map<nat, Partner>, catalog: Catalog, n: string): Loan -> int {
    (l: Loan) => if CountedAs(l, partners, catalog, n) then l.quantity * catalog[l.productId].pricePerUnit else 0
  }

  /** One entry of the chart: a partner name and its three sums. */
  datatype PartnerStat = PartnerStat(name: string, quantity: int, points: int, price: int)

  /** The figures of partner name `n` over the loans: loans of different
      partners that share a name are merged. */
  function StatOf(loans: seq<Loan>, partners: map<nat, Partner>, catalog: Catalog, n: string): PartnerStat {
    PartnerStat(n, Sum(loans, QuantityFor(partners, catalog, n)), Sum(loans, PointsFor(partners, catalog, n)),
                Sum(loans, PriceFor(partners, catalog, n)))
  }

  /** The partner names in order of their first counted loan. */
  function GroupNames(loans: seq<Loan>, partners: map<nat, Partner>, catalog: Catalog): (r: seq<string>)
    ensures Distinct(r)
    decreases |loans|
  {
    if loans == [] then []
    else
      var names := GroupNames(loans[..|loans| - 1], partners, catalog);
      var l := loans[|loans| - 1];
      if Counted(l, partners, catalog) && partners[l.partnerId].name !in names
      then names + [partners[l.partnerId].name]
      else names
  }

  /** A name is listed exactly when some counted loan is under it; a name
      inherited from `Object.prototype` is never listed. */
  lemma {:induction false} GroupNamesMembers(loans: seq<Loan>, partners: map<nat, Partner>, catalog: Catalog, n: string)
    ensures n in GroupNames(loans, partners, catalog) <==>
      exists j :: 0 <= j < |loans| && CountedAs(loans[j], partners, catalog, n)
    ensures n in InheritedNames ==> n !in GroupNames(loans, partners, catalog)
    decreases |loans|
  {
    if loans != [] {
      var init := loans[..|loans| - 1];
      GroupNamesMembers(init, partners, catalog, n);
      if exists j :: 0 <= j < |init| && CountedAs(init[j], partners, catalog, n) {
        var j :| 0 <= j < |init| && CountedAs(init[j], partners, catalog, n);
        assert loans[j] == init[j];
      }
      if exists j :: 0 <= j < |loans| && CountedAs(loans[j], partners, catalog, n) {
        var j :| 0 <= j < |loans| && CountedAs(loans[j], partners, catalog, n);
        if j < |init| {
          assert init[j] == loans[j];
        }
      }
    }
  }

  /** A name no counted loan is under has all-zero figures. */
  lemma {:induction false} AbsentNameIsZero(loans: seq<Loan>, partners: map<nat, Partner>, catalog: Catalog, n: string)
    requires n !in GroupNames(loans, partners, catalog)
    ensures StatOf(loans, partners, catalog, n) == PartnerStat(n, 0, 0, 0)
    decreases |loans|
  {
    if loans != [] {
      AbsentNameIsZero(loans[..|loans| - 1], partners, catalog, n);
    }
  }

  /** One more loan adds to the figures of its own name only. */
  lemma StatStep(prefix: seq<Loan>, l: Loan, partners: map<nat, Partner>, catalog: Catalog, n: string)
    ensures StatOf(prefix + [l], partners, catalog, n)
         == if CountedAs(l, partners, catalog, n)
            then var s := StatOf(prefix, partners, catalog, n);
                 PartnerStat(n, s.quantity + l.quantity, s.points + l.quantity * catalog[l.productId].pointsPerUnit,
                             s.price + l.quantity * catalog[l.productId].pricePerUnit)
            else StatOf(prefix, partners, catalog, n)
  {
    assert (prefix + [l])[..|prefix|] == prefix;
  }

  /** The dictionary is the one for `done`: its names, in insertion order, are
      the grouped names of `done`, each holding that name's figures. */
  ghost predicate Grouped(acc: map<string, PartnerStat>, names: seq<string>, done: seq<Loan>,
                          partners: map<nat, Partner>, catalog: Catalog) {
    && names == GroupNames(done, partners, catalog)
    && (forall n :: n in acc <==> n in names)
    && (forall n :: n in acc ==> acc[n] == StatOf(done, partners, catalog, n))
  }

  /** One turn of the `forEach`: a loan with a partner and a product adds its
      quantity, points and price under its partner's name, creating the entry
      at zero when the lookup finds nothing; an inherited name finds the
      inherited member, so no entry is created or changed. */
  method AddLoan(acc: map<string, PartnerStat>, names: seq<string>, prefix: seq<Loan>, l: Loan,
                 partners: map<nat, Partner>, catalog: Catalog)
    returns (acc': map<string, PartnerStat>, names': seq<string>)
    requires Grouped(acc, names, prefix, partners, catalog)
    ensures Grouped(acc', names', prefix + [l], partners, catalog)
  {
    assert (prefix + [l])[..|prefix|] == prefix;
    forall n ensures StatOf(prefix + [l], partners, catalog, n) == (if CountedAs(l, partners, catalog, n)
          then var s := StatOf(prefix, partners, catalog, n);
               PartnerStat(n, s.quantity + l.quantity, s.points + l.quantity * catalog[l.productId].pointsPerUnit,
                           s.price + l.quantity * catalog[l.productId].pricePerUnit)
          else StatOf(prefix, partners, catalog, n)) {
      StatStep(prefix, l, partners, catalog, n);
    }
    acc', names' := acc, names;
    if l.partnerId in partners && l.productId in catalog {
      var name := partners[l.partnerId].name;
      // The lookup finds an own entry or an inherited member.
      if name !in acc' && name !in InheritedNames {
        AbsentNameIsZero(prefix, partners, catalog, name);
        acc', names' := acc'[name := PartnerStat(name, 0, 0, 0)], names' + [name];
      }
      if name in acc' {
        assert name !in InheritedNames by { GroupNamesMembers(prefix, partners, catalog, name); }
        var p := catalog[l.productId];
        acc' := acc'[name := acc'[name].(quantity := acc'[name].quantity + l.quantity)];
        acc' := acc'[name := acc'[name].(points := acc'[name].points + l.quantity * p.pointsPerUnit)];
        acc' := acc'[name := acc'[name].(price := acc'[name].price + l.quantity * p.pricePerUnit)];
      }
    }
  }

  /** The `forEach` of `processPartnerLoanData`: the `partnerLoans`
      dictionary, with its names in insertion order. */
  method GroupLoans(loans: seq<Loan>, partners: map<nat, Partner>, catalog: Catalog)
    returns (acc: map<string, PartnerStat>, names: seq<string>)
    ensures names == GroupNames(loans, partners, catalog)
    ensures forall n :: n in acc <==> n in names
    ensures forall n :: n in acc ==> acc[n] == StatOf(loans, partners, catalog, n)
  {
    acc, names := map[], [];
    var i := 0;
    while i < |loans|
      invariant 0 <= i <= |loans|
      invariant Grouped(acc, names, loans[..i], partners, catalog)
    {
      assert loans[..i + 1] == loans[..i] + [loans[i]];
      acc, names := AddLoan(acc, names, loans[..i], loans[i], partners, catalog);
      i := i + 1;
    }
    assert loans[..i] == loans;
  }

  function QuantityOf(): PartnerStat -> int {
    (s: PartnerStat) => s.quantity
  }

  function NameOf(): PartnerStat -> string {
    (s: PartnerStat) => s.name
  }

  /** `processPartnerLoanData`: one entry per partner name with a counted
      loan, holding that name's quantity, points and price sums, sorted by
      quantity from largest to smallest. */
  method ProcessPartnerLoanData(loans: seq<Loan>, partners: map<nat, Partner>, catalog: Catalog)
    returns (r: seq<PartnerStat>)
    ensures SortedDesc(r, QuantityOf())
    ensures DistinctBy(r, NameOf())
    ensures forall j :: 0 <= j < |r| ==>
      r[j].name in GroupNames(loans, partners, catalog) && r[j] == StatOf(loans, partners, catalog, r[j].name)
    ensures forall n :: n in GroupNames(loans, partners, catalog) ==> exists j :: 0 <= j < |r| && r[j].name == n
  {
    var acc, names := GroupLoans(loans, partners, catalog);
    var entries := seq(|names|, j requires 0 <= j < |names| => acc[names[j]]);
    assert forall j :: 0 <= j < |entries| ==> entries[j].name == names[j];
    assert DistinctBy(entries, NameOf());
    r := SortDesc(entries, QuantityOf());
    SortDescKeepsDistinct(entries, QuantityOf(), NameOf());
    forall j | 0 <= j < |r|
      ensures r[j].name in names && r[j] == StatOf(loans, partners, catalog, r[j].name)
    {
      assert r[j] in multiset(entries);
      var k :| 0 <= k < |entries| && entries[k] == r[j];
    }
    forall n | n in names ensures exists j :: 0 <= j < |r| && r[j].name == n {
      var k :| 0 <= k < |names| && names[k] == n;
      assert entries[k] in multiset(r);
      var j :| 0 <= j < |r| && r[j] == entries[k];
    }
  }
}
