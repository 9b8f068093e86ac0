/**
 * The order handlers: validation of the request and of the referenced
 * customer, insertion with the payment timestamp rule, field-restricted
 * update, deletion, detail and the searchable, paged list.
 */
module Orders {
  import opened Wrappers
  import opened Tables
  import opened Models
  import opened Http
  import opened Binding
  import opened Text
  import opened Paging

  /** The `ReqOrder` body. `totalPrice` stands for the float64 amount. */
  datatype ReqOrder = ReqOrder(
    customerId: nat,
    productName: string,
    quantity: int,
    totalPrice: int,
    paymentStatus: string)

  const CustomerNotFound: string := "Customer not found"
  const InvalidPaymentStatus: string := "Invalid payment status"
  const OrderNotFound: string := "Order not found"
  const OrderDeleted: string := "Order deleted successfully"

  /** The tags of `ReqOrder`, in declaration order. `required` on a number
      rejects 0, so a total price must be positive. */
  function OrderRules(req: ReqOrder): (checks: seq<Check>)
    ensures |checks| == 5
    ensures checks[0].field == "CustomerID" && checks[1].field == "ProductName" && checks[2].field == "Quantity"
            && checks[3].field == "TotalPrice" && checks[4].field == "PaymentStatus"
    ensures AllValid(checks) <==>
              && req.customerId != 0
              && |req.productName| > 0
              && req.quantity >= 1
              && req.totalPrice > 0
              && |req.paymentStatus| > 0
  {
    [ Check("CustomerID", RequiredNumber(req.customerId)),
      Check("ProductName", Required(req.productName)),
      Check("Quantity", RequiredNumber(req.quantity) && req.quantity >= 1),
      Check("TotalPrice", RequiredNumber(req.totalPrice) && req.totalPrice >= 0),
      Check("PaymentStatus", Required(req.paymentStatus)) ]
  }

  /** A request that passed binding has a positive quantity and price. */
  lemma BoundOrderIsPositive(req: ReqOrder)
    requires AllValid(OrderRules(req))
    ensures req.quantity >= 1 && req.totalPrice > 0 && req.customerId != 0
  {
    assert OrderRules(req)[0].ok && OrderRules(req)[2].ok && OrderRules(req)[3].ok;
  }

  /** `validateOrderInputAndCustomerExistence`: the customer must exist, then
      the lower-cased payment status must be "paid" or "unpaid". Yields the
      normalised status. */
  function ValidateOrderInput(customers: Table<Customer>, req: ReqOrder): (r: Result<string, string>)
    ensures Get(customers.entries, req.customerId).None? ==> r == Err(CustomerNotFound)
    ensures r.Ok? <==>
              Get(customers.entries, req.customerId).Some? &&
              (ToLower(req.paymentStatus) == Paid || ToLower(req.paymentStatus) == Unpaid)
    ensures r.Ok? ==> r.value == ToLower(req.paymentStatus)
    ensures r.Err? && Get(customers.entries, req.customerId).Some? ==> r.error == InvalidPaymentStatus
  {
    if Get(customers.entries, req.customerId).None? then Err(CustomerNotFound)
    else
      var status := ToLower(req.paymentStatus);
      if status != Paid && status != Unpaid then Err(InvalidPaymentStatus)
      else Ok(status)
  }

  /** `PaidAt` is the request time for a paid order and nil otherwise. */
  function PaidAt(status: string, now: int): (r: Option<int>)
    ensures r.Some? <==> status == Paid
    ensures r.Some? ==> r.value == now
  {
    if status == Paid then Some(now) else None
  }

  /** The payment status is accepted whatever its letter case. */
  lemma PaymentStatusCaseInsensitive(customers: Table<Customer>, req: ReqOrder)
    ensures ValidateOrderInput(customers, req) ==
            ValidateOrderInput(customers, req.(paymentStatus := ToLower(req.paymentStatus)))
  {
    ToLowerIdempotent(req.paymentStatus);
  }

  // ---------------------------------------------------------------------
  // Insert

  /** POST /api/orders. */
  function InsertOrder(store: Store, body: Body<ReqOrder>, now: int): (r: (Response, Store))
    ensures r.1.customers == store.customers
    ensures Bind(body, OrderRules).Err? ==> r == (Bind(body, OrderRules).error, store)
    ensures Bind(body, OrderRules).Ok? && ValidateOrderInput(store.customers, body.value).Err? ==>
              r == (Fail(StatusBadRequest, ValidateOrderInput(store.customers, body.value).error), store)
    ensures r.0.status == StatusCreated <==>
              Bind(body, OrderRules).Ok? && ValidateOrderInput(store.customers, body.value).Ok?
    ensures r.0.status != StatusCreated ==> r.1 == store
    ensures r.0.status == StatusCreated ==>
              && r.0.body.Success? && r.0.body.data.OrderData?
              && var e := r.0.body.data.order;
              && e.id == store.orders.nextId
              && e.row.customerId == body.value.customerId
              && e.row.productName == body.value.productName
              && e.row.quantity == body.value.quantity
              && e.row.totalPrice == body.value.totalPrice
              && e.row.paymentStatus == ToLower(body.value.paymentStatus)
              && (e.row.paidAt.Some? <==> e.row.paymentStatus == Paid)
              && (e.row.paidAt.Some? ==> e.row.paidAt.value == now)
              && WellFormedOrder(e.row)
              && |r.1.orders.entries| == |store.orders.entries| + 1
  {
    match Bind(body, OrderRules)
    case Err(resp) => (resp, store)
    case Ok(req) =>
      match ValidateOrderInput(store.customers, req)
      case Err(msg) => (Fail(StatusBadRequest, msg), store)
      case Ok(status) =>
        BoundOrderIsPositive(req);
        var order := Order(req.customerId, req.productName, req.quantity, req.totalPrice, status, PaidAt(status, now));
        (Response(StatusCreated, Success(OrderData(Entry(store.orders.nextId, order)))),
         store.(orders := Insert(store.orders, order)))
  }

  /** A successful insert stores the returned order under its new key and
      changes no other key. */
  lemma InsertOrderAddsExactlyOne(store: Store, body: Body<ReqOrder>, now: int, k: nat)
    requires Valid(store.orders)
    requires InsertOrder(store, body, now).0.status == StatusCreated
    ensures var (resp, after) := InsertOrder(store, body, now);
            Get(after.orders.entries, k) ==
              if k == store.orders.nextId then Some(resp.body.data.order) else Get(store.orders.entries, k)
  {
    var order := InsertOrder(store, body, now).0.body.data.order.row;
    GetInsert(store.orders, order, k);
  }

  // ---------------------------------------------------------------------
  // Update

  /** PUT /api/orders/:id. The order is looked up before the body is read;
      only the product, quantity, price, status and payment time change. The
      request's customer must exist but the order keeps its own customer. */
  function UpdateOrder(store: Store, id: nat, body: Body<ReqOrder>, now: int): (r: (Response, Store))
    ensures r.1.customers == store.customers
    ensures Get(store.orders.entries, id).None? ==> r == (Fail(StatusNotFound, OrderNotFound), store)
    ensures Get(store.orders.entries, id).Some? && Bind(body, OrderRules).Err? ==>
              r == (Bind(body, OrderRules).error, store)
    ensures Get(store.orders.entries, id).Some? && Bind(body, OrderRules).Ok?
              && ValidateOrderInput(store.customers, body.value).Err? ==>
              r == (Fail(StatusBadRequest, ValidateOrderInput(store.customers, body.value).error), store)
    ensures r.0.status == StatusOK <==>
              Get(store.orders.entries, id).Some? && Bind(body, OrderRules).Ok?
              && ValidateOrderInput(store.customers, body.value).Ok?
    ensures r.0.status != StatusOK ==> r.1 == store
    ensures r.0.status == StatusOK ==>
              && r.0.body.Success? && r.0.body.data.OrderData?
              && var before := Get(store.orders.entries, id).value.row;
              && var e := r.0.body.data.order;
              && e.id == id
              && e.row.customerId == before.customerId
              && e.row.productName == body.value.productName
              && e.row.quantity == body.value.quantity
              && e.row.totalPrice == body.value.totalPrice
              && e.row.paymentStatus == ToLower(body.value.paymentStatus)
              && (e.row.paidAt.Some? <==> e.row.paymentStatus == Paid)
              && (e.row.paidAt.Some? ==> e.row.paidAt.value == now)
              && WellFormedOrder(e.row)
  {
    match Get(store.orders.entries, id)
    case None => (Fail(StatusNotFound, OrderNotFound), store)
    case Some(current) =>
      match Bind(body, OrderRules)
      case Err(resp) => (resp, store)
      case Ok(req) =>
        match ValidateOrderInput(store.customers, req)
        case Err(msg) => (Fail(StatusBadRequest, msg), store)
        case Ok(status) =>
          BoundOrderIsPositive(req);
          var updated := current.row.(
            productName := req.productName,
            quantity := req.quantity,
            totalPrice := req.totalPrice,
            paymentStatus := status,
            paidAt := PaidAt(status, now));
          (Response(StatusOK, Success(OrderData(Entry(id, updated)))),
           store.(orders := store.orders.(entries := Replace(store.orders.entries, id, updated))))
  }

  /** An update rewrites the one order and no other. */
  lemma UpdateOrderChangesOnlyThatOrder(store: Store, id: nat, body: Body<ReqOrder>, now: int, k: nat)
    requires UpdateOrder(store, id, body, now).0.status == StatusOK
    ensures var (resp, after) := UpdateOrder(store, id, body, now);
            Get(after.orders.entries, k) == if k == id then Some(resp.body.data.order) else Get(store.orders.entries, k)
  {
    var updated := UpdateOrder(store, id, body, now).0.body.data.order.row;
    GetReplace(store.orders.entries, id, updated, k);
  }

  // ---------------------------------------------------------------------
  // Delete and detail

  /** DELETE /api/orders/:id. */
  function DeleteOrder(store: Store, id: nat): (r: (Response, Store))
    ensures r.1.customers == store.customers
    ensures Get(store.orders.entries, id).None? ==> r == (Fail(StatusNotFound, OrderNotFound), store)
    ensures Get(store.orders.entries, id).Some? ==>
              && r.0 == Response(StatusOK, Success(Message(OrderDeleted)))
              && (forall e :: e in r.1.orders.entries ==> e in store.orders.entries && e.id != id)
              && (forall e :: e in store.orders.entries && e.id != id ==> e in r.1.orders.entries)
  {
    if Get(store.orders.entries, id).None? then (Fail(StatusNotFound, OrderNotFound), store)
    else (Response(StatusOK, Success(Message(OrderDeleted))), store.(orders := Remove(store.orders, id)))
  }

  /** A delete removes the identified order and leaves every other key as it was. */
  lemma DeleteOrderRemovesOnlyThatOrder(store: Store, id: nat, k: nat)
    requires Valid(store.orders)
    ensures Get(DeleteOrder(store, id).1.orders.entries, k) == if k == id then None else Get(store.orders.entries, k)
  {
    if Get(store.orders.entries, id).Some? {
      GetRemove(store.orders, id, k);
    }
  }

  /** GET /api/orders/:id. */
  function GetOrderDetail(store: Store, id: nat): (r: Response)
    ensures Get(store.orders.entries, id).None? ==> r == Fail(StatusNotFound, OrderNotFound)
    ensures r.status == StatusOK <==> Get(store.orders.entries, id).Some?
    ensures r.status == StatusOK ==>
              && r.body.Success? && r.body.data.OrderData?
              && r.body.data.order in store.orders.entries && r.body.data.order.id == id
  {
    match Get(store.orders.entries, id)
    case None => Fail(StatusNotFound, OrderNotFound)
    case Some(e) => Response(StatusOK, Success(OrderData(e)))
  }

  // ---------------------------------------------------------------------
  // List

  /** `product_name ILIKE '%search%'` for an already lower-cased search. */
  function ProductMatches(search: string): (matches: Entry<Order> -> bool)
    ensures forall e: Entry<Order> :: matches(e) <==> IsSubstring(search, ToLower(e.row.productName))
  {
    assert forall e: Entry<Order> :: Contains(ToLower(e.row.productName), search) <==>
                                     IsSubstring(search, ToLower(e.row.productName)) by {
      forall e: Entry<Order> {
        ContainsMeansSubstring(ToLower(e.row.productName), search);
      }
    }
    (e: Entry<Order>) => Contains(ToLower(e.row.productName), search)
  }

  /** GET /api/orders?page=&limit=&search=. Read-only: the result is a response alone. */
  function GetAllOrders(orders: Table<Order>, q: ListQuery): (r: Response)
    ensures r.status == StatusOK && r.body.Success? && r.body.data.OrderList?
    ensures r.body.data.count == |Filter(orders.entries, ProductMatches(SearchOf(q)))|
    ensures r.body.data.orders == Window(Filter(orders.entries, ProductMatches(SearchOf(q))), OffsetOf(q), LimitOf(q))
    ensures forall e :: e in r.body.data.orders ==>
              e in orders.entries && IsSubstring(SearchOf(q), ToLower(e.row.productName))
  {
    var (page, count) := Select(orders.entries, q, ProductMatches);
    Response(StatusOK, Success(OrderList(page, count)))
  }

  /** The search is case-insensitive on both sides: an order is counted exactly
      when the lower-cased search occurs in its lower-cased product name. */
  lemma OrderCountIsCaseInsensitiveMatches(orders: Table<Order>, q: ListQuery, e: Entry<Order>)
    requires e in orders.entries
    ensures e in Filter(orders.entries, ProductMatches(SearchOf(q))) <==>
            IsSubstring(ToLower(SearchOf(q)), ToLower(e.row.productName))
  {
    ToLowerIdempotent(if q.search.Some? then q.search.value else "");
  }

  // ---------------------------------------------------------------------
  // The store invariant

  /** Inserting an order keeps the store consistent: the new order is
      well-formed and its customer exists. */
  lemma InsertOrderKeepsConsistent(store: Store, body: Body<ReqOrder>, now: int)
    requires Consistent(store)
    ensures Consistent(InsertOrder(store, body, now).1)
  {
    var (resp, after) := InsertOrder(store, body, now);
    if resp.status == StatusCreated {
      var x := resp.body.data.order;
      assert after.orders.entries == store.orders.entries + [x];
      forall e | e in after.orders.entries ensures WellFormedOrder(e.row) && Get(after.customers.entries, e.row.customerId).Some? {
        if e != x {
          assert e in store.orders.entries;
        }
      }
    }
  }

  /** Updating an order keeps the store consistent: it keeps its customer. */
  lemma UpdateOrderKeepsConsistent(store: Store, id: nat, body: Body<ReqOrder>, now: int)
    requires Consistent(store)
    ensures Consistent(UpdateOrder(store, id, body, now).1)
  {
    var (resp, after) := UpdateOrder(store, id, body, now);
    if resp.status == StatusOK {
      var x := resp.body.data.order;
      var before := Get(store.orders.entries, id).value;
      ReplaceValid(store.orders, id, x.row);
      assert Get(store.customers.entries, before.row.customerId).Some?;
      forall e | e in after.orders.entries ensures WellFormedOrder(e.row) && Get(after.customers.entries, e.row.customerId).Some? {
        if e != x {
          assert e in store.orders.entries;
        }
      }
    }
  }

  /** Deleting an order keeps the store consistent. */
  lemma DeleteOrderKeepsConsistent(store: Store, id: nat)
    requires Consistent(store)
    ensures Consistent(DeleteOrder(store, id).1)
  {
  }
}
