/** The records of the ledger: products, customers, partners, orders with their
    items, and loans. Every stored record carries the account (`owner`) it
    belongs to. Money is in integer cents, points are integers, timestamps are
    integer milliseconds. */
module Ledger {

  datatype Option<+T> = None | Some(value: T)

  /** A product of the catalog. `quantity` is the stock on hand; nothing in
      the schema keeps it non-negative. */
  datatype Product = Product(owner: nat, name: string, quantity: int, pricePerUnit: int, pointsPerUnit: int)

  datatype Customer = Customer(owner: nat, name: string, phone: string, email: string)

  datatype Partner = Partner(owner: nat, name: string, phone: string, email: string)

  datatype Status = Pending | Delivered | Cancelled

  /** One line of an order, with the product's points and price per unit as
      they were when the order was created (0 when the product was unknown). */
  datatype OrderItem = OrderItem(productId: nat, quantity: int, pointsAtSale: int, priceAtSale: int)

  /** An order. The persisted totals are nullable columns (`None` for rows
      written without them); `completedAt` is `None` when the column is null or
      does not hold a valid date. */
  datatype Order = Order(
    owner: nat,
    customerId: nat,
    deliveryDate: int,
    createdAt: int,
    status: Status,
    isPaid: bool,
    totalPoints: Option<int>,
    totalPrice: Option<int>,
    completedAt: Option<int>,
    items: seq<OrderItem>)

  /** Stock handed to a partner, with the product's points and price per unit
      at the time of the loan. */
  datatype Loan = Loan(owner: nat, partnerId: nat, productId: nat, quantity: int, pointsAtLoan: int, priceAtLoan: int, loanDate: int)

  /** A row of the new-order form: the chosen product and quantity. */
  datatype Line = Line(productId: nat, quantity: int)

  /** A pair of running totals, points first. */
  datatype Totals = Totals(points: int, price: int)

  /** The products an account sees, keyed by id. */
  type Catalog = map<nat, Product>

  function Lookup(catalog: Catalog, id: nat): (r: Option<Product>)
    ensures r.Some? <==> id in catalog
    ensures r.Some? ==> r.value == catalog[id]
  {
    if id in catalog then Some(catalog[id]) else None
  }

  /** JavaScript's `x || 0` on a nullable number. */
  function OrZero(x: Option<int>): int {
    if x.Some? then x.value else 0
  }

  /** JavaScript's `x || y` on numbers: a 0 (or null) left operand yields the right one. */
  function OrElse(x: int, y: int): int {
    if x != 0 then x else y
  }

  /** The products of one account: what every page fetches with `.eq('user_id', ...)`. */
  function ProductsOf(products: map<nat, Product>, user: nat): (r: Catalog)
    ensures forall id :: id in r <==> id in products && products[id].owner == user
    ensures forall id :: id in r ==> r[id] == products[id]
  {
    map id | id in products && products[id].owner == user :: products[id]
  }
}
