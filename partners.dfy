/** The partners page (src/pages/Partners.js): partners, the loans of stock
    handed to them, and the loan totals. */
module Partners {
  import opened Ledger
  import opened Db
  import opened Folds

  // ---- calculateLoanTotals: current catalog prices ----

  /** Points a loan is worth on the page: quantity times the joined product's
      current points, nothing when the loan has no product. The snapshot taken
      at loan time is not read. */
  function LoanPoints(catalog: Catalog): Loan -> int {
    (l: Loan) => if l.productId in catalog then l.quantity * catalog[l.productId].pointsPerUnit else 0
  }

  function LoanPrice(catalog: Catalog): Loan -> int {
    (l: Loan) => if l.productId in catalog then l.quantity * catalog[l.productId].pricePerUnit else 0
  }

  function LoanTotals(loans: seq<Loan>, catalog: Catalog): Totals {
    Totals(Sum(loans, LoanPoints(catalog)), Sum(loans, LoanPrice(catalog)))
  }

  /** `calculateLoanTotals`: one pass over the loans with two running sums. */
  method CalculateLoanTotals(loans: seq<Loan>, catalog: Catalog) returns (t: Totals)
    ensures t == LoanTotals(loans, catalog)
  {
    var points, price := 0, 0;
    var i := 0;
    while i < |loans|
      invariant 0 <= i <= |loans|
      invariant points == Sum(loans[..i], LoanPoints(catalog))
      invariant price == Sum(loans[..i], LoanPrice(catalog))
    {
      assert loans[..i + 1][..i] == loans[..i];
      var l := loans[i];
      if l.productId in catalog {
        points := points + l.quantity * catalog[l.productId].pointsPerUnit;
        price := price + l.quantity * catalog[l.productId].pricePerUnit;
      }
      i := i + 1;
    }
    assert loans[..i] == loans;
    t := Totals(points, price);
  }

  /** The figures one loan row shows: quantity times `products?.points || 0`
      and `products?.price || 0` (the same expression on the reports page). */
  function LoanRow(l: Loan, catalog: Catalog): Totals {
    var p := Lookup(catalog, l.productId);
    Totals(l.quantity * OrElse(if p.Some? then p.value.pointsPerUnit else 0, 0),
           l.quantity * OrElse(if p.Some? then p.value.pricePerUnit else 0, 0))
  }

  function RowPoints(catalog: Catalog): Loan -> int {
    (l: Loan) => LoanRow(l, catalog).points
  }

  function RowPrice(catalog: Catalog): Loan -> int {
    (l: Loan) => LoanRow(l, catalog).price
  }

  /** The rows of a partner's loans add up to the partner's totals, loans
      without a product included (their row shows 0). */
  lemma LoanRowsAddUp(loans: seq<Loan>, catalog: Catalog)
    ensures Sum(loans, RowPoints(catalog)) == LoanTotals(loans, catalog).points
    ensures Sum(loans, RowPrice(catalog)) == LoanTotals(loans, catalog).price
  {
    SumCongruent(loans, RowPoints(catalog), LoanPoints(catalog));
    SumCongruent(loans, RowPrice(catalog), LoanPrice(catalog));
  }

  // ---- the grand totals over all partners ----

  function PartnerOf(): Loan -> nat {
    (l: Loan) => l.partnerId
  }

  /** `partner.loans`: the loans of one partner, in order. */
  function PartnerLoans(loans: seq<Loan>, partnerId: nat): (r: seq<Loan>)
    ensures forall l :: l in r <==> l in loans && l.partnerId == partnerId
  {
    Filter(loans, KeyIs(PartnerOf(), partnerId))
  }

  /** `partners.reduce((sum, partner) => sum + calculateLoanTotals(partner.loans).x, 0)`. */
  function GrandTotals(partnerIds: seq<nat>, loans: seq<Loan>, catalog: Catalog): Totals {
    Totals(Sum(partnerIds, GroupSum(loans, PartnerOf(), LoanPoints(catalog))),
           Sum(partnerIds, GroupSum(loans, PartnerOf(), LoanPrice(catalog))))
  }

  /** One more partner adds exactly that partner's loan totals. */
  lemma GrandTotalsStep(partnerIds: seq<nat>, p: nat, loans: seq<Loan>, catalog: Catalog)
    ensures GrandTotals(partnerIds + [p], loans, catalog).points
         == GrandTotals(partnerIds, loans, catalog).points + LoanTotals(PartnerLoans(loans, p), catalog).points
    ensures GrandTotals(partnerIds + [p], loans, catalog).price
         == GrandTotals(partnerIds, loans, catalog).price + LoanTotals(PartnerLoans(loans, p), catalog).price
  {
    SumAppend(partnerIds, [p], GroupSum(loans, PartnerOf(), LoanPoints(catalog)));
    SumAppend(partnerIds, [p], GroupSum(loans, PartnerOf(), LoanPrice(catalog)));
  }

  /** When the page lists every partner once and every loan belongs to a
      listed partner, the grand totals are the totals of all loans: no loan is
      counted twice or missed. */
  lemma GrandTotalsOfAllLoans(partnerIds: seq<nat>, loans: seq<Loan>, catalog: Catalog)
    requires Distinct(partnerIds)
    requires forall i :: 0 <= i < |loans| ==> loans[i].partnerId in partnerIds
    ensures GrandTotals(partnerIds, loans, catalog) == LoanTotals(loans, catalog)
  {
    SumGroupsCover(partnerIds, loans, PartnerOf(), LoanPoints(catalog));
    SumGroupsCover(partnerIds, loans, PartnerOf(), LoanPrice(catalog));
  }

  // ---- handleSubmitLoan ----

  datatype LoanOutcome = ProductNotFound | InsufficientStock | InsertFailed | Created(id: nat)

  /** The loan row written for product `p`: its points and price per unit are
      snapshotted. */
  function NewLoan(user: nat, partnerId: nat, productId: nat, p: Product, quantity: int, loanDate: int): (l: Loan)
    ensures l.owner == user && l.partnerId == partnerId && l.productId == productId
    ensures l.quantity == quantity && l.loanDate == loanDate
    ensures l.pointsAtLoan == p.pointsPerUnit && l.priceAtLoan == p.pricePerUnit
  {
    Loan(user, partnerId, productId, quantity, p.pointsPerUnit, p.pricePerUnit, loanDate)
  }

  /** `handleSubmitLoan`: looks the product up among the account's products,
      refuses a quantity above its stock, inserts the loan and then writes the
      stock back less the quantity. `insertFault` is a failed loan insert;
      `updateFault` a failed stock write, whose result the page ignores. */
  method HandleSubmitLoan(db: Store, user: nat, partnerId: nat, productId: nat, quantity: int, loanDate: int,
                          insertFault: bool, updateFault: bool)
    returns (r: LoanOutcome)
    requires db.Valid()
    modifies db
    ensures db.Valid()
    ensures db.customers == old(db.customers) && db.partners == old(db.partners) && db.orders == old(db.orders)
    ensures var catalog := ProductsOf(old(db.products), user);
      && (r == ProductNotFound <==> productId !in catalog)
      && (r == InsufficientStock <==> productId in catalog && quantity > catalog[productId].quantity)
      && (r == InsertFailed <==> productId in catalog && quantity <= catalog[productId].quantity && insertFault)
    ensures !r.Created? ==> db.loans == old(db.loans) && db.products == old(db.products)
    ensures r.Created? ==>
      && r.id == old(db.nextId)
      && db.loans == old(db.loans)[r.id := NewLoan(user, partnerId, productId, old(db.products)[productId], quantity, loanDate)]
      && db.products == if updateFault then old(db.products)
                        else old(db.products)[productId := old(db.products)[productId].(quantity := old(db.products)[productId].quantity - quantity)]
    ensures r.Created? && !updateFault ==> productId in db.products && db.products[productId].quantity >= 0
  {
    var catalog := ProductsOf(db.products, user);
    var selected := Lookup(catalog, productId);
    if selected.None? {
      return ProductNotFound;
    }
    var p := selected.value;
    if quantity > p.quantity {
      return InsufficientStock;
    }
    if insertFault {
      return InsertFailed;
    }
    var id := db.FreshId();
    db.loans := db.loans[id := NewLoan(user, partnerId, productId, p, quantity, loanDate)];
    if !updateFault && productId in db.products && db.products[productId].owner == user {
      db.products := db.products[productId := db.products[productId].(quantity := p.quantity - quantity)];
    }
    r := Created(id);
  }

  // ---- handleDeleteLoan ----

  /** `handleDeleteLoan`: removes the one loan matching id and account. The
      stock it took is not given back. */
  method HandleDeleteLoan(db: Store, user: nat, loanId: nat, fault: bool)
    requires db.Valid()
    modifies db`loans
    ensures db.Valid()
    ensures db.loans == if !fault && loanId in old(db.loans) && old(db.loans)[loanId].owner == user
                        then old(db.loans) - {loanId}
                        else old(db.loans)
  {
    if !fault && loanId in db.loans && db.loans[loanId].owner == user {
      db.loans := db.loans - {loanId};
    }
  }

  // ---- handleSubmitPartner / handleDeletePartner ----

  /** `handleSubmitPartner`: updates the partner being edited when it matches
      id and account, or inserts a new one. */
  method HandleSubmitPartner(db: Store, user: nat, editing: Option<nat>, name: string, phone: string, email: string,
                             fault: bool)
    requires db.Valid()
    modifies db
    ensures db.Valid()
    ensures db.products == old(db.products) && db.customers == old(db.customers)
    ensures db.orders == old(db.orders) && db.loans == old(db.loans)
    ensures editing.Some? ==>
      db.nextId == old(db.nextId) &&
      db.partners == if !fault && editing.value in old(db.partners) && old(db.partners)[editing.value].owner == user
                     then old(db.partners)[editing.value := Partner(user, name, phone, email)]
                     else old(db.partners)
    ensures editing.None? ==>
      db.partners == if fault then old(db.partners)
                     else old(db.partners)[old(db.nextId) := Partner(user, name, phone, email)]
  {
    var row := Partner(user, name, phone, email);
    if fault {
      return;
    }
    if editing.Some? {
      var id := editing.value;
      if id in db.partners && db.partners[id].owner == user {
        db.partners := db.partners[id := row];
      }
    } else {
      var id := db.FreshId();
      db.partners := db.partners[id := row];
    }
  }

  /** `handleDeletePartner`: removes the partner matching id and account, and
      with it all of its loans. No stock is given back. */
  method HandleDeletePartner(db: Store, user: nat, partnerId: nat, fault: bool)
    requires db.Valid()
    modifies db`partners, db`loans
    ensures db.Valid()
    ensures var deleted := !fault && partnerId in old(db.partners) && old(db.partners)[partnerId].owner == user;
      && db.partners == (if deleted then old(db.partners) - {partnerId} else old(db.partners))
      && db.loans == (if deleted then Cascade(old(db.loans), PartnerOf(), partnerId) else old(db.loans))
  {
    if !fault && partnerId in db.partners && db.partners[partnerId].owner == user {
      db.partners := db.partners - {partnerId};
      db.loans := Cascade(db.loans, PartnerOf(), partnerId);
    }
  }
}
