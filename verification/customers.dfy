/**
 * The customer handlers: gender normalisation, duplicate e-mail rejection,
 * field-restricted update, the delete that cascades to the customer's
 * orders, detail and the searchable, paged list.
 */
module Customers {
  import opened Wrappers
  import opened Tables
  import opened Models
  import opened Http
  import opened Binding
  import opened Text
  import opened Paging

  datatype ReqCustomer = ReqCustomer(name: string, email: string, phoneNumber: string, gender: string)

  datatype ReqUpdateCustomer = ReqUpdateCustomer(name: string, phoneNumber: string, gender: string)

  const InvalidGender: string := "Invalid gender"
  const CustomerNotFound: string := "Customer not found"
  const CustomerDeleted: string := "Customer deleted successfully"

  /** The `min=7,max=14` tag on a phone number. */
  predicate PhoneLengthOk(phone: string) {
    7 <= |phone| <= 14
  }

  /** The tags of `ReqCustomer` on one request, in declaration order. */
  function CustomerChecks(isEmail: string -> bool, req: ReqCustomer): (checks: seq<Check>)
    ensures |checks| == 4
    ensures checks[0].field == "Name" && checks[1].field == "Email"
            && checks[2].field == "PhoneNumber" && checks[3].field == "Gender"
    ensures AllValid(checks) <==>
              |req.name| > 0 && |req.email| > 0 && isEmail(req.email)
              && PhoneLengthOk(req.phoneNumber) && |req.gender| > 0
  {
    [ Check("Name", Required(req.name)),
      Check("Email", Required(req.email) && isEmail(req.email)),
      Check("PhoneNumber", Required(req.phoneNumber) && PhoneLengthOk(req.phoneNumber)),
      Check("Gender", Required(req.gender)) ]
  }

  /** The rule set the binder applies to customer creation bodies. */
  function CustomerRules(isEmail: string -> bool): (rules: ReqCustomer -> seq<Check>)
    ensures forall req: ReqCustomer ::
              && |rules(req)| == 4
              && rules(req)[0].field == "Name" && rules(req)[1].field == "Email"
              && rules(req)[2].field == "PhoneNumber" && rules(req)[3].field == "Gender"
              && (AllValid(rules(req)) <==>
                    |req.name| > 0 && |req.email| > 0 && isEmail(req.email)
                    && PhoneLengthOk(req.phoneNumber) && |req.gender| > 0)
  {
    var rules := (req: ReqCustomer) => CustomerChecks(isEmail, req);
    assert forall req: ReqCustomer :: rules(req) == CustomerChecks(isEmail, req);
    rules
  }

  /** The tags of `ReqUpdateCustomer`, in declaration order. */
  function UpdateCustomerRules(req: ReqUpdateCustomer): (checks: seq<Check>)
    ensures |checks| == 3
    ensures checks[0].field == "Name" && checks[1].field == "PhoneNumber" && checks[2].field == "Gender"
    ensures AllValid(checks) <==> |req.name| > 0 && PhoneLengthOk(req.phoneNumber) && |req.gender| > 0
  {
    [ Check("Name", Required(req.name)),
      Check("PhoneNumber", Required(req.phoneNumber) && PhoneLengthOk(req.phoneNumber)),
      Check("Gender", Required(req.gender)) ]
  }

  /** A request that passed binding has a phone number of 7 to 14 characters. */
  lemma BoundCustomerPhone(req: ReqCustomer, isEmail: string -> bool)
    requires AllValid(CustomerRules(isEmail)(req))
    ensures PhoneLengthOk(req.phoneNumber)
  {
    var checks := CustomerRules(isEmail)(req);
    assert checks[2] == Check("PhoneNumber", Required(req.phoneNumber) && PhoneLengthOk(req.phoneNumber));
    assert checks[2].ok;
  }

  /** Gender is lower-cased and must then be "male" or "female". */
  function NormalizeGender(gender: string): (r: Result<string, string>)
    ensures r.Ok? <==> ToLower(gender) == Male || ToLower(gender) == Female
    ensures r.Ok? ==> r.value == ToLower(gender)
    ensures r.Err? ==> r.error == InvalidGender
  {
    var g := ToLower(gender);
    if g != Male && g != Female then Err(InvalidGender) else Ok(g)
  }

  /** Gender is accepted whatever its letter case, and an accepted value is
      already normal: normalising it again changes nothing. */
  lemma GenderCaseInsensitive(gender: string)
    ensures NormalizeGender(gender) == NormalizeGender(ToLower(gender))
    ensures NormalizeGender(gender).Ok? ==> NormalizeGender(NormalizeGender(gender).value) == NormalizeGender(gender)
  {
    ToLowerIdempotent(gender);
  }

  function WithEmail(email: string): Entry<Customer> -> bool {
    (e: Entry<Customer>) => e.row.email == email
  }

  /** `Where("email = ?", email).Count(&count)` is positive. */
  function EmailTaken(customers: Table<Customer>, email: string): (b: bool)
    ensures b <==> exists e :: e in customers.entries && e.row.email == email
  {
    FilterNonEmpty(customers.entries, WithEmail(email));
    |Filter(customers.entries, WithEmail(email))| > 0
  }

  // ---------------------------------------------------------------------
  // Insert

  /** POST /api/customers: bind, normalise gender, reject a taken e-mail, create. */
  function InsertCustomer(store: Store, body: Body<ReqCustomer>, isEmail: string -> bool): (r: (Response, Store))
    ensures r.1.orders == store.orders
    ensures Bind(body, CustomerRules(isEmail)).Err? ==> r == (Bind(body, CustomerRules(isEmail)).error, store)
    ensures Bind(body, CustomerRules(isEmail)).Ok? && NormalizeGender(body.value.gender).Err? ==>
              r == (Fail(StatusBadRequest, InvalidGender), store)
    ensures Bind(body, CustomerRules(isEmail)).Ok? && NormalizeGender(body.value.gender).Ok?
              && EmailTaken(store.customers, body.value.email) ==>
              r == (Fail(StatusBadRequest, EmailAlreadyExists), store)
    ensures r.0.status == StatusCreated <==>
              && Bind(body, CustomerRules(isEmail)).Ok?
              && NormalizeGender(body.value.gender).Ok?
              && !EmailTaken(store.customers, body.value.email)
    ensures r.0.status != StatusCreated ==> r.1 == store
    ensures r.0.status == StatusCreated ==>
              && r.0.body.Success? && r.0.body.data.CustomerData?
              && var e := r.0.body.data.customer;
              && e.id == store.customers.nextId
              && e.row == Customer(body.value.name, body.value.email, body.value.phoneNumber, ToLower(body.value.gender))
              && WellFormedCustomer(e.row)
              && |r.1.customers.entries| == |store.customers.entries| + 1
  {
    match Bind(body, CustomerRules(isEmail))
    case Err(resp) => (resp, store)
    case Ok(req) =>
      match NormalizeGender(req.gender)
      case Err(msg) => (Fail(StatusBadRequest, msg), store)
      case Ok(gender) =>
        if EmailTaken(store.customers, req.email) then (Fail(StatusBadRequest, EmailAlreadyExists), store)
        else
          BoundCustomerPhone(req, isEmail);
          var customer := Customer(req.name, req.email, req.phoneNumber, gender);
          (Response(StatusCreated, Success(CustomerData(Entry(store.customers.nextId, customer)))),
           store.(customers := Insert(store.customers, customer)))
  }

  /** A successful insert stores the returned customer under its new key and
      changes no other key. */
  lemma InsertCustomerAddsExactlyOne(store: Store, body: Body<ReqCustomer>, isEmail: string -> bool, k: nat)
    requires Valid(store.customers)
    requires InsertCustomer(store, body, isEmail).0.status == StatusCreated
    ensures var (resp, after) := InsertCustomer(store, body, isEmail);
            Get(after.customers.entries, k) ==
              if k == store.customers.nextId then Some(resp.body.data.customer) else Get(store.customers.entries, k)
  {
    var customer := InsertCustomer(store, body, isEmail).0.body.data.customer.row;
    GetInsert(store.customers, customer, k);
  }

  // ---------------------------------------------------------------------
  // Update

  /** PUT /api/customers/:id. The body is validated before the customer is
      looked up; only name, phone number and gender change. */
  function UpdateCustomer(store: Store, id: nat, body: Body<ReqUpdateCustomer>): (r: (Response, Store))
    ensures r.1.orders == store.orders
    ensures Bind(body, UpdateCustomerRules).Err? ==> r == (Bind(body, UpdateCustomerRules).error, store)
    ensures Bind(body, UpdateCustomerRules).Ok? && NormalizeGender(body.value.gender).Err? ==>
              r == (Fail(StatusBadRequest, InvalidGender), store)
    ensures Bind(body, UpdateCustomerRules).Ok? && NormalizeGender(body.value.gender).Ok?
              && Get(store.customers.entries, id).None? ==>
              r == (Fail(StatusNotFound, CustomerNotFound), store)
    ensures r.0.status == StatusOK <==>
              && Bind(body, UpdateCustomerRules).Ok?
              && NormalizeGender(body.value.gender).Ok?
              && Get(store.customers.entries, id).Some?
    ensures r.0.status != StatusOK ==> r.1 == store
    ensures r.0.status == StatusOK ==>
              && r.0.body.Success? && r.0.body.data.CustomerData?
              && var before := Get(store.customers.entries, id).value.row;
              && r.0.body.data.customer ==
                   Entry(id, Customer(body.value.name, before.email, body.value.phoneNumber, ToLower(body.value.gender)))
              && WellFormedCustomer(r.0.body.data.customer.row)
  {
    match Bind(body, UpdateCustomerRules)
    case Err(resp) => (resp, store)
    case Ok(req) =>
      match NormalizeGender(req.gender)
      case Err(msg) => (Fail(StatusBadRequest, msg), store)
      case Ok(gender) =>
        match Get(store.customers.entries, id)
        case None => (Fail(StatusNotFound, CustomerNotFound), store)
        case Some(current) =>
          assert UpdateCustomerRules(req)[1].ok;
          assert PhoneLengthOk(req.phoneNumber);
          var updated := current.row.(name := req.name, phoneNumber := req.phoneNumber, gender := gender);
          (Response(StatusOK, Success(CustomerData(Entry(id, updated)))),
           store.(customers := store.customers.(entries := Replace(store.customers.entries, id, updated))))
  }

  /** An invalid body is answered with 400 even when no customer has the id. */
  lemma UpdateValidatesBeforeLookup(store: Store, id: nat, body: Body<ReqUpdateCustomer>)
    requires Get(store.customers.entries, id).None?
    requires Bind(body, UpdateCustomerRules).Err? ||
             (Bind(body, UpdateCustomerRules).Ok? && NormalizeGender(body.value.gender).Err?)
    ensures UpdateCustomer(store, id, body).0.status == StatusBadRequest
  {
  }

  /** An update rewrites the one customer and no other. */
  lemma UpdateCustomerChangesOnlyThatCustomer(store: Store, id: nat, body: Body<ReqUpdateCustomer>, k: nat)
    requires UpdateCustomer(store, id, body).0.status == StatusOK
    ensures var (resp, after) := UpdateCustomer(store, id, body);
            Get(after.customers.entries, k) == if k == id then Some(resp.body.data.customer) else Get(store.customers.entries, k)
  {
    var updated := UpdateCustomer(store, id, body).0.body.data.customer.row;
    GetReplace(store.customers.entries, id, updated, k);
  }

  // ---------------------------------------------------------------------
  // Delete and detail

  /** The order filter of the cascade: orders placed by customer `id`. */
  function PlacedBy(id: nat): (placed: Order -> bool)
    ensures forall o: Order :: placed(o) <==> o.customerId == id
  {
    (o: Order) => o.customerId == id
  }

  /** DELETE /api/customers/:id: first the customer's orders, then the customer. */
  function DeleteCustomer(store: Store, id: nat): (r: (Response, Store))
    ensures Get(store.customers.entries, id).None? ==> r == (Fail(StatusNotFound, CustomerNotFound), store)
    ensures Get(store.customers.entries, id).Some? ==>
              && r.0 == Response(StatusOK, Success(Message(CustomerDeleted)))
              && (forall e :: e in r.1.orders.entries ==> e in store.orders.entries && e.row.customerId != id)
              && (forall e :: e in store.orders.entries && e.row.customerId != id ==> e in r.1.orders.entries)
              && (forall e :: e in r.1.customers.entries ==> e in store.customers.entries && e.id != id)
              && (forall e :: e in store.customers.entries && e.id != id ==> e in r.1.customers.entries)
  {
    if Get(store.customers.entries, id).None? then (Fail(StatusNotFound, CustomerNotFound), store)
    else
      var orders := RemoveWhere(store.orders, PlacedBy(id));
      (Response(StatusOK, Success(Message(CustomerDeleted))),
       Store(Remove(store.customers, id), orders))
  }

  /** The cascade, key by key: the customer is gone, every order it placed is
      gone, and every other customer and order is found exactly as before. */
  lemma DeleteCustomerCascades(store: Store, id: nat, k: nat)
    requires Valid(store.customers) && Valid(store.orders)
    requires Get(store.customers.entries, id).Some?
    ensures var after := DeleteCustomer(store, id).1;
            && Get(after.customers.entries, k) == (if k == id then None else Get(store.customers.entries, k))
            && Get(after.orders.entries, k) ==
                 (if Get(store.orders.entries, k).Some? && Get(store.orders.entries, k).value.row.customerId != id
                  then Get(store.orders.entries, k) else None)
  {
    GetRemove(store.customers, id, k);
    GetRemoveWhere(store.orders, PlacedBy(id), k);
  }

  /** GET /api/customers/:id. */
  function GetCustomerDetail(store: Store, id: nat): (r: Response)
    ensures Get(store.customers.entries, id).None? ==> r == Fail(StatusNotFound, CustomerNotFound)
    ensures r.status == StatusOK <==> Get(store.customers.entries, id).Some?
    ensures r.status == StatusOK ==>
              && r.body.Success? && r.body.data.CustomerData?
              && r.body.data.customer in store.customers.entries && r.body.data.customer.id == id
  {
    match Get(store.customers.entries, id)
    case None => Fail(StatusNotFound, CustomerNotFound)
    case Some(e) => Response(StatusOK, Success(CustomerData(e)))
  }

  // ---------------------------------------------------------------------
  // List

  /** The search text occurs, ignoring case, in the name, e-mail or phone number. */
  ghost predicate FoundBy(search: string, c: Customer) {
    IsSubstring(search, ToLower(c.name)) ||
    IsSubstring(search, ToLower(c.email)) ||
    IsSubstring(search, ToLower(c.phoneNumber))
  }

  /** `name ILIKE ? OR email ILIKE ? OR phone_number ILIKE ?` with `%search%`,
      for an already lower-cased search. */
  function CustomerMatches(search: string): (matches: Entry<Customer> -> bool)
    ensures forall e: Entry<Customer> :: matches(e) <==> FoundBy(search, e.row)
  {
    assert forall e: Entry<Customer> ::
             (Contains(ToLower(e.row.name), search) ||
              Contains(ToLower(e.row.email), search) ||
              Contains(ToLower(e.row.phoneNumber), search)) <==> FoundBy(search, e.row) by {
      forall e: Entry<Customer>
        ensures (Contains(ToLower(e.row.name), search) ||
                 Contains(ToLower(e.row.email), search) ||
                 Contains(ToLower(e.row.phoneNumber), search)) <==> FoundBy(search, e.row)
      {
        ContainsMeansSubstring(ToLower(e.row.name), search);
        ContainsMeansSubstring(ToLower(e.row.email), search);
        ContainsMeansSubstring(ToLower(e.row.phoneNumber), search);
      }
    }
    (e: Entry<Customer>) =>
      Contains(ToLower(e.row.name), search) ||
      Contains(ToLower(e.row.email), search) ||
      Contains(ToLower(e.row.phoneNumber), search)
  }

  /** GET /api/customers?page=&limit=&search=. Read-only: the result is a response alone. */
  function GetAllCustomers(customers: Table<Customer>, q: ListQuery): (r: Response)
    ensures r.status == StatusOK && r.body.Success? && r.body.data.CustomerList?
    ensures r.body.data.count == |Filter(customers.entries, CustomerMatches(SearchOf(q)))|
    ensures r.body.data.customers ==
              Window(Filter(customers.entries, CustomerMatches(SearchOf(q))), OffsetOf(q), LimitOf(q))
    ensures forall e :: e in r.body.data.customers ==> e in customers.entries && FoundBy(SearchOf(q), e.row)
  {
    var (page, count) := Select(customers.entries, q, CustomerMatches);
    Response(StatusOK, Success(CustomerList(page, count)))
  }

  /** The converse of the listing contract: a stored customer is counted
      exactly when the lower-cased search occurs in its lower-cased name,
      e-mail or phone number. */
  lemma CustomerCountIsCaseInsensitiveMatches(customers: Table<Customer>, q: ListQuery, e: Entry<Customer>)
    requires e in customers.entries
    ensures e in Filter(customers.entries, CustomerMatches(SearchOf(q))) <==> FoundBy(ToLower(SearchOf(q)), e.row)
  {
    ToLowerIdempotent(if q.search.Some? then q.search.value else "");
  }

  // ---------------------------------------------------------------------
  // The store invariant

  /** Inserting a customer keeps the store consistent, e-mails included. */
  lemma InsertCustomerKeepsConsistent(store: Store, body: Body<ReqCustomer>, isEmail: string -> bool)
    requires Consistent(store)
    ensures Consistent(InsertCustomer(store, body, isEmail).1)
  {
    var (resp, after) := InsertCustomer(store, body, isEmail);
    if resp.status == StatusCreated {
      var x := resp.body.data.customer;
      assert after.customers.entries == store.customers.entries + [x];
      forall i, j | 0 <= i < j < |after.customers.entries|
        ensures after.customers.entries[i].row.email != after.customers.entries[j].row.email
      {
        if j == |store.customers.entries| {
          assert after.customers.entries[i] in store.customers.entries;
        }
      }
      forall e | e in store.orders.entries ensures Get(after.customers.entries, e.row.customerId).Some? {
        GetInsert(store.customers, x.row, e.row.customerId);
      }
    }
  }

  /** Rewriting a customer without touching its e-mail keeps e-mails unique. */
  lemma ReplaceKeepsEmailsUnique(es: seq<Entry<Customer>>, id: nat, row: Customer)
    requires Ascending(es) && UniqueCustomerEmails(es)
    requires Get(es, id).Some? && row.email == Get(es, id).value.row.email
    ensures UniqueCustomerEmails(Replace(es, id, row))
  {
    var es' := Replace(es, id, row);
    forall i | 0 <= i < |es| ensures es'[i].row.email == es[i].row.email {
      if es[i].id == id {
        GetStored(es, es[i]);
      }
    }
    forall i, j | 0 <= i < j < |es'| ensures es'[i].row.email != es'[j].row.email {
      assert es[i].row.email != es[j].row.email;
    }
  }

  /** Updating a customer keeps the store consistent: its key and e-mail stay. */
  lemma UpdateCustomerKeepsConsistent(store: Store, id: nat, body: Body<ReqUpdateCustomer>)
    requires Consistent(store)
    ensures Consistent(UpdateCustomer(store, id, body).1)
  {
    var (resp, after) := UpdateCustomer(store, id, body);
    if resp.status == StatusOK {
      var x := resp.body.data.customer;
      var es := store.customers.entries;
      assert after.customers == Table(Replace(es, id, x.row), store.customers.nextId);
      ReplaceValid(store.customers, id, x.row);
      ReplaceKeepsEmailsUnique(es, id, x.row);
      forall e | e in after.customers.entries ensures WellFormedCustomer(e.row) {
        if e != x {
          assert e in es;
        }
      }
      forall e | e in store.orders.entries ensures Get(after.customers.entries, e.row.customerId).Some? {
        GetReplace(es, id, x.row, e.row.customerId);
      }
    }
  }

  /** Deleting a customer keeps the store consistent; without the cascade the
      customer's orders would be left pointing at nothing. */
  lemma DeleteCustomerKeepsConsistent(store: Store, id: nat)
    requires Consistent(store)
    ensures Consistent(DeleteCustomer(store, id).1)
  {
    var after := DeleteCustomer(store, id).1;
    if Get(store.customers.entries, id).Some? {
      var es := store.customers.entries;
      var es' := after.customers.entries;
      forall i, j | 0 <= i < j < |es'| ensures es'[i].row.email != es'[j].row.email {
        assert es'[i] in es && es'[j] in es;
        var a :| 0 <= a < |es| && es[a] == es'[i];
        var b :| 0 <= b < |es| && es[b] == es'[j];
        assert es'[i].id < es'[j].id;
        assert a != b;
      }
      forall e | e in after.orders.entries ensures Get(es', e.row.customerId).Some? {
        assert e in store.orders.entries && e.row.customerId != id;
        GetRemove(store.customers, id, e.row.customerId);
      }
    }
  }
}
