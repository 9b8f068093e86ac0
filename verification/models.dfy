/**
 * The three persisted entities (users, customers, orders), the store the
 * customer and order handlers share, and the rules every stored row obeys.
 * Creation and update timestamps are not modelled.
 */
module Models {
  import opened Wrappers
  import opened Tables

  /** A registered user: the e-mail it logs in with and the bcrypt digest of
      its password (never the password itself). */
  datatype Account = Account(email: string, password: string)

  datatype Customer = Customer(name: string, email: string, phoneNumber: string, gender: string)

  /** An order. `totalPrice` stands for the float64 amount; only its sign and
      whether it is zero matter to the handlers. `paidAt` is the Unix time of
      payment, absent for unpaid orders. */
  datatype Order = Order(
    customerId: nat,
    productName: string,
    quantity: int,
    totalPrice: int,
    paymentStatus: string,
    paidAt: Option<int>)

  /** The customers and orders tables. */
  datatype Store = Store(customers: Table<Customer>, orders: Table<Order>)

  const Paid: string := "paid"
  const Unpaid: string := "unpaid"
  const Male: string := "male"
  const Female: string := "female"

  /** The order rules the handlers enforce before writing. */
  ghost predicate WellFormedOrder(o: Order) {
    && o.quantity >= 1
    && o.totalPrice > 0
    && (o.paymentStatus == Paid || o.paymentStatus == Unpaid)
    && (o.paidAt.Some? <==> o.paymentStatus == Paid)
  }

  /** The customer rules the handlers enforce before writing. */
  ghost predicate WellFormedCustomer(c: Customer) {
    && (c.gender == Male || c.gender == Female)
    && 7 <= |c.phoneNumber| <= 14
  }

  /** No two entries share an e-mail. */
  ghost predicate UniqueCustomerEmails(es: seq<Entry<Customer>>) {
    forall i, j :: 0 <= i < j < |es| ==> es[i].row.email != es[j].row.email
  }

  ghost predicate UniqueUserEmails(es: seq<Entry<Account>>) {
    forall i, j :: 0 <= i < j < |es| ==> es[i].row.email != es[j].row.email
  }

  /** Every order points at a stored customer. */
  ghost predicate OrdersReferToCustomers(s: Store) {
    forall e :: e in s.orders.entries ==> Get(s.customers.entries, e.row.customerId).Some?
  }

  /** The invariant of the store: keys are sound, every row obeys its rules,
      customer e-mails are unique and no order is orphaned. */
  ghost predicate Consistent(s: Store) {
    && Valid(s.customers)
    && Valid(s.orders)
    && UniqueCustomerEmails(s.customers.entries)
    && (forall e :: e in s.customers.entries ==> WellFormedCustomer(e.row))
    && (forall e :: e in s.orders.entries ==> WellFormedOrder(e.row))
    && OrdersReferToCustomers(s)
  }

  /** A fresh database satisfies the store invariant, so every reachable
      store does, by the handlers' preservation lemmas. */
  lemma EmptyStoreConsistent()
    ensures Consistent(Store(Empty(), Empty()))
    ensures UniqueUserEmails(Empty<Account>().entries)
  {
  }
}
