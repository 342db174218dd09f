/** The customers page (src/pages/Customers.jsx): customer create, update and
    delete, and each customer's order totals. The WhatsApp link is built by
    `Text.WhatsAppLink`. */
module Customers {
  import opened Ledger
  import opened Db
  import opened Folds
  import Home

  // ---- per-customer totals ----

  function CustomerOf(): Order -> nat {
    (o: Order) => o.customerId
  }

  /** `customer.orders`: the orders of one customer, in order. */
  function CustomerOrders(orders: seq<Order>, customerId: nat): (r: seq<Order>)
    ensures forall o :: o in r <==> o in orders && o.customerId == customerId
  {
    Filter(orders, KeyIs(CustomerOf(), customerId))
  }

  /** `customer.orders.reduce((sum, order) => sum + (order.total_x || 0), 0)`. */
  function CustomerTotals(orders: seq<Order>, customerId: nat): Totals {
    Home.PersistedTotals(CustomerOrders(orders, customerId))
  }

  /** The customers' totals split the account's totals: over a list that
      names every customer once, they add up to the totals of all orders. */
  lemma CustomerTotalsPartition(customerIds: seq<nat>, orders: seq<Order>)
    requires Distinct(customerIds)
    requires forall i :: 0 <= i < |orders| ==> orders[i].customerId in customerIds
    ensures Sum(customerIds, GroupSum(orders, CustomerOf(), Home.PersistedPoints())) == Home.PersistedTotals(orders).points
    ensures Sum(customerIds, GroupSum(orders, CustomerOf(), Home.PersistedPrice())) == Home.PersistedTotals(orders).price
  {
    SumGroupsCover(customerIds, orders, CustomerOf(), Home.PersistedPoints());
    SumGroupsCover(customerIds, orders, CustomerOf(), Home.PersistedPrice());
  }

  /** A customer's totals count only that customer's orders: adding an order
      of someone else leaves them as they were, and adding one of theirs adds
      its persisted totals (0 where they are missing). */
  lemma CustomerTotalsAppend(orders: seq<Order>, o: Order, customerId: nat)
    ensures CustomerTotals(orders + [o], customerId)
         == if o.customerId == customerId
            then Totals(CustomerTotals(orders, customerId).points + OrZero(o.totalPoints),
                        CustomerTotals(orders, customerId).price + OrZero(o.totalPrice))
            else CustomerTotals(orders, customerId)
  {
    var mine := CustomerOrders(orders, customerId);
    var added := if o.customerId == customerId then [o] else [];
    CustomerOrdersAppend(orders, o, customerId);
    SumAppend(mine, added, Home.PersistedPoints());
    SumAppend(mine, added, Home.PersistedPrice());
    if added != [] {
      assert added[..0] == [];
    }
  }

  /** Adding an order at the end adds it to its own customer's orders only. */
  lemma CustomerOrdersAppend(orders: seq<Order>, o: Order, customerId: nat)
    ensures CustomerOrders(orders + [o], customerId)
         == CustomerOrders(orders, customerId) + if o.customerId == customerId then [o] else []
  {
    FilterAppend(orders, [o], KeyIs(CustomerOf(), customerId));
    assert [o][..0] == [];
  }

  // ---- handleSubmitCustomer / handleDeleteCustomer ----

  /** `handleSubmitCustomer`: updates the customer being edited when it
      matches id and account, or inserts a new one. */
  method HandleSubmitCustomer(db: Store, user: nat, editing: Option<nat>, name: string, phone: string, email: string,
                              fault: bool)
    requires db.Valid()
    modifies db
    ensures db.Valid()
    ensures db.products == old(db.products) && db.partners == old(db.partners)
    ensures db.orders == old(db.orders) && db.loans == old(db.loans)
    ensures editing.Some? ==>
      db.nextId == old(db.nextId) &&
      db.customers == if !fault && editing.value in old(db.customers) && old(db.customers)[editing.value].owner == user
                      then old(db.customers)[editing.value := Customer(user, name, phone, email)]
                      else old(db.customers)
    ensures editing.None? ==>
      db.customers == if fault then old(db.customers)
                      else old(db.customers)[old(db.nextId) := Customer(user, name, phone, email)]
  {
    var row := Customer(user, name, phone, email);
    if fault {
      return;
    }
    if editing.Some? {
      var id := editing.value;
      if id in db.customers && db.customers[id].owner == user {
        db.customers := db.customers[id := row];
      }
    } else {
      var id := db.FreshId();
      db.customers := db.customers[id := row];
    }
  }

  /** `handleDeleteCustomer`: removes the customer matching id and account and,
      through the database's cascade, that customer's orders with their items;
      on a failed delete nothing changes. Stock taken by delivered orders is
      not given back. */
  method HandleDeleteCustomer(db: Store, user: nat, customerId: nat, fault: bool)
    requires db.Valid()
    modifies db`customers, db`orders
    ensures db.Valid()
    ensures var deleted := !fault && customerId in old(db.customers) && old(db.customers)[customerId].owner == user;
      && db.customers == (if deleted then old(db.customers) - {customerId} else old(db.customers))
      && db.orders == (if deleted then Cascade(old(db.orders), CustomerOf(), customerId) else old(db.orders))
  {
    if !fault && customerId in db.customers && db.customers[customerId].owner == user {
      db.customers := db.customers - {customerId};
      db.orders := Cascade(db.orders, CustomerOf(), customerId);
    }
  }
}
