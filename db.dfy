/** The account-scoped database the pages talk to, as one object whose tables
    are maps from row id to row. Row ids come from one counter, so an inserted
    row never reuses an id of any table. */
module Db {
  import opened Ledger

  class Store {
    var products: map<nat, Product>
    var customers: map<nat, Customer>
    var partners: map<nat, Partner>
    var orders: map<nat, Order>
    var loans: map<nat, Loan>
    var nextId: nat

    /** Every id in use is below `nextId`. */
    ghost predicate Valid()
      reads this
    {
      && (forall id :: id in products ==> id < nextId)
      && (forall id :: id in customers ==> id < nextId)
      && (forall id :: id in partners ==> id < nextId)
      && (forall id :: id in orders ==> id < nextId)
      && (forall id :: id in loans ==> id < nextId)
    }

    constructor ()
      ensures Valid()
      ensures products == map[] && customers == map[] && partners == map[]
      ensures orders == map[] && loans == map[] && nextId == 0
    {
      products, customers, partners, orders, loans := map[], map[], map[], map[], map[];
      nextId := 0;
    }

    /** Takes a fresh row id. */
    method FreshId() returns (id: nat)
      requires Valid()
      modifies this`nextId
      ensures Valid()
      ensures id == old(nextId) && nextId == id + 1
      ensures id !in products && id !in customers && id !in partners && id !in orders && id !in loans
    {
      id := nextId;
      nextId := nextId + 1;
    }
  }

  /** The rows of a table left once the row `id` they refer to through `ref`
      is deleted: the database's `ON DELETE CASCADE` removes every row that
      refers to it and leaves the others as they were. */
  function Cascade<T>(rows: map<nat, T>, ref: T -> nat, id: nat): (r: map<nat, T>)
    ensures forall k :: k in r <==> k in rows && ref(rows[k]) != id
    ensures forall k :: k in r ==> r[k] == rows[k]
  {
    map k | k in rows && ref(rows[k]) != id :: rows[k]
  }
}
