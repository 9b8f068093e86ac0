# dbo auth, guard, customer and order core — a Dafny model

This project models the decision logic of a small Go CRUD service (gin,
gorm, golang-jwt, bcrypt) over an in-memory store:

- **Auth**: registration with e-mail uniqueness and hashed passwords, login
  issuing an access token (15 minutes) and a refresh token (30 days), refresh
  minting a new access token, validation of a token back to a user, and the
  match-token endpoint.
- **Bearer guard**: the `JWT()` middleware that splits the `Authorization`
  header on single spaces, demands exactly two pieces, validates the second
  one, and either answers 401 and stops or attaches the user and runs the
  handler.
- **Orders**: request binding, customer existence and payment-status
  checks, the `PaidAt` rule, field-restricted update, delete, detail and the
  searchable, paged list.
- **Customers**: binding, gender normalisation, duplicate e-mail rejection,
  field-restricted update, the delete that cascades to the customer's
  orders, detail and the searchable, paged list.

Every handler is a pure function from the store (and the request) to a
`Response` and, when it writes, the new store. Handlers that only read
(login, refresh, validation, listing, detail) return a response alone, so
"never mutates the store" holds by their signature.

Modules, leaf first: `Wrappers` (Option/Result), `Text` (ASCII lower-casing,
substring search, `strings.Split`), `Tables` (a table with a serial key as a
key-ordered sequence, with lookup/insert/replace/delete and their frame
lemmas), `Models` (Account, Customer, Order, the `Store` and its invariant
`Consistent`), `Http` (the `{success, data, error}` envelope), `Binding`
(gin's `BindJSON` plus the struct-tag validator), `Tokens` (JWT claims and
the opaque key), `Auth`, `Guard`, `Paging`, `Orders`, `Customers`.

External collaborators are parameters:

- bcrypt is a `Hasher`: `generate` may fail, and `compare(digest, plain)`
  checks a password. `HasherSound` assumes only that a digest matches its
  own password.
- JWT signing and parsing with the secret key are a `Keyring`. Parsing takes
  the clock reading and reports an error or the claims with the `Valid`
  flag. `Verifies` assumes that an unexpired token signed with the key parses
  back to its claims as valid. `Expires` assumes that once the clock has
  passed its `exp` such a token is refused, either as a parse error or as
  not valid. Which of the two it is stays open, and so does which refresh
  error it produces. Nothing is assumed about forged tokens.
- The validator's `email` rule is a predicate `isEmail`.
- The clock is an explicit `now` in Unix seconds. `exp.Unix()` truncates to
  seconds, so `now + 900` is exact.

Behaviours of the code the model keeps, some of them surprising:

- The guard's rejection message is "invalid token".
- A token whose subject no longer resolves fails with gorm's
  "record not found" text.
- `token_type` is written into every token but never read. A refresh token
  therefore passes the guard and match-token. An access token is accepted by
  refresh (`Auth.LoginThenRefresh`, `Auth.IssuedTokenValidates`).
- Refresh answers "Expired refresh token" only when parsing succeeds but the
  token is not valid. Otherwise any parse error gives "Invalid refresh
  token".
- Refresh does not look the user up at all.
- A body that is not decodable JSON (or has the wrong value types) makes the
  typed handlers panic at `err.(validator.ValidationErrors)`. gin has already
  written status 400 by then, so the client gets 400 with no envelope
  (`NoBody`).
- In refresh, a valid token whose `sub` is not a string panics too, and gin's
  recovery answers 500 with no body.
- `required` on a number rejects 0. An order's `total_price` must therefore
  be positive, not merely non-negative.
- An order update checks that the request's `customer_id` exists, but the
  order keeps its own customer.

## Model

| member | source | states |
|---|---|---|
| `Binding.FirstInvalid` | app/controllers/auth_controller.go:79-81 | The reported field is the first failing one in declaration order: every earlier field passed; no field is reported exactly when all pass. |
| `Binding.Bind` | app/controllers/order_controller.go:30-39 | Binding succeeds exactly when the body decodes and every field passes. A failing field gives 400 "<Field> not valid" naming the first failing field. An undecodable body gives 400 with no envelope. |
| `Auth.FindByEmail` | app/controllers/auth_controller.go:147-148 | The lookup finds an account with exactly this e-mail (case-sensitive), and finds nothing only when no account has it. |
| `Auth.Register` | app/controllers/auth_controller.go:73-129 | A binding failure is answered before any store access and leaves the store as it was. A taken e-mail gives 400 "Email already exists" whatever the password, with the store unchanged. A hashing failure gives 500. Success gives 201 with `{user_id, email}` for the next key and adds one row. Every failure leaves the store unchanged. |
| `Auth.RegisterAddsExactlyOne` | app/controllers/auth_controller.go:100-127 | After a successful registration the e-mail finds exactly the new account: next key, request e-mail, the hasher's digest of the password. Every other key and every other e-mail finds what it did before. Keys stay valid and e-mails unique. |
| `Auth.Login` | app/controllers/auth_controller.go:131-180 | 200 exactly when binding passes and the stored digest matches the password. The body then carries an access token (expiry now+15 min) and a refresh token (now+30 days), both for the request e-mail. Every other bound request gets 400 "Invalid credentials". |
| `Auth.LoginFailuresIndistinguishable` | app/controllers/auth_controller.go:147-166 | An unknown e-mail and a known e-mail with a wrong password get the identical response, 400 "Invalid credentials". |
| `Auth.RegisterThenLogin` | app/controllers/auth_controller.go:100-179 | After registering, logging in with the same credentials gives 200 and two different tokens. They parse back as an access token expiring 15 minutes later and a refresh token expiring 30 days later, both with the e-mail as subject. |
| `Auth.RefreshToken` | app/controllers/auth_controller.go:182-230 | An undecodable body gives 400 with the decoder's message. A parse error gives 401 "Invalid refresh token". A token that parses but is not valid gives 401 "Expired refresh token". A valid token with a string `sub` gives 200 and an access token for that subject expiring 15 minutes from now. A valid token without one gives 500. No user lookup happens. |
| `Auth.RefreshIgnoresTokenType` | app/controllers/auth_controller.go:210-223 | Two valid tokens whose claims differ only in `token_type` get the same refresh response. |
| `Auth.LoginThenRefresh` | app/controllers/auth_controller.go:196-229 | A token the service created, presented before it expires, refreshes to an access token for the same e-mail. That token reads back for the next 15 minutes, whatever kind the presented token was. |
| `Auth.ValidateAccessToken` | app/controllers/auth_controller.go:32-57 | A parse error or an invalid token gives "Invalid access token". A missing or non-string `sub` gives "Invalid user email in token claims". An unknown subject gives "record not found". On success the returned user is stored and its e-mail equals `sub`. |
| `Auth.IssuedTokenValidates` | app/controllers/auth_controller.go:32-71 | Round trip: a created token, until it expires, validates to the account holding its e-mail at validation time, of either kind. Once the account is gone it fails with "record not found" (no revocation). |
| `Auth.MatchToken` | app/controllers/auth_controller.go:232-264 | An undecodable body gives 400. A validation failure gives 401 with the validator's message. Success gives 200 with `{user_id, email}` of exactly the account validation returned: a stored account whose e-mail is the token's subject. |
| `Tokens.NewClaims` | app/controllers/auth_controller.go:61-66 | The signed payload has exactly the claims `token_type`, `exp` and `sub`, and they read back as the given kind, expiry and e-mail. |
| `Tokens.CreatedTokenParses` | app/controllers/auth_controller.go:61-71 | A created token parses, before its expiry, to the claims it was created with, marked valid. |
| `Tokens.KindsGiveDistinctTokens` | app/controllers/auth_controller.go:168-172 | The access and refresh tokens of a login are different strings. |
| `Text.Split` | app/middlewares/jwt.go:17 | `strings.Split` on one character yields one more piece than there are separators, and no piece contains the separator. |
| `Text.JoinSplit` | app/middlewares/jwt.go:17 | Joining the pieces with the separator gives back the header. |
| `Text.SplitTwoWords` | app/middlewares/jwt.go:17-26 | Two separator-free words joined by one separator split into exactly those two words. |
| `Guard.Jwt` | app/middlewares/jwt.go:13-43 | A header without exactly one space (including a missing header) gives 401 "invalid token". Otherwise the second piece is validated: a failure gives 401 with the validator's message, success continues with the validated user. Every abort is a 401. |
| `Guard.Serve` | app/middlewares/jwt.go:28-41 | When the guard aborts, the client gets the guard's response and the store is untouched, so the handler does not run. When it continues, the result is the handler's. |
| `Guard.MissingHeaderRejected` | app/middlewares/jwt.go:17-24 | No header gives 401 "invalid token" and the store is unchanged. |
| `Guard.SchemeIgnored` | app/middlewares/jwt.go:26 | Any space-free word may stand before the credential. The verdict equals the one for `Bearer <credential>` and depends only on validating the credential. |
| `Guard.ExtraSpaceRejected` | app/middlewares/jwt.go:17 | A header with two or more spaces (a doubled space, three words) is refused with 401 "invalid token". |
| `Guard.IssuedTokenPassesGuard` | app/middlewares/jwt.go:26-41 | `Bearer <token>` with an unexpired created token for a stored e-mail runs the handler with that account attached. |
| `Paging.Window` | app/controllers/order_controller.go:93 | The page is a run of consecutive matches starting at the clamped offset, exactly `min(limit, remaining)` long. A negative limit means no limit. A non-positive offset starts at the beginning. |
| `Paging.PagesAdjacent` | app/controllers/order_controller.go:93 | Page k followed by page k+1 is the double-size window starting at page k, so pages tile the matches without gaps or overlaps. |
| `Paging.Select` | app/controllers/customer_controller.go:41-58 | The count is the number of matching rows regardless of paging. The empty search is no filter. The page is the window of the matches at (page-1)*limit, and every listed row is a stored, matching row. |
| `Paging.DefaultsGiveFirstTen` | app/controllers/order_controller.go:76-80 | With no query parameters (page 1, limit 10, no search) the first ten rows are returned. |
| `Orders.BoundOrderIsPositive` | app/controllers/order_controller.go:22-28 | An order request that passed binding has quantity at least 1, a positive total price and a non-zero customer id. |
| `Orders.ValidateOrderInput` | app/controllers/order_controller.go:41-66 | A missing customer gives "Customer not found" before the status is looked at. Otherwise the lower-cased status must be "paid" or "unpaid", else "Invalid payment status". The accepted value is the lower-cased status. |
| `Orders.PaymentStatusCaseInsensitive` | app/controllers/order_controller.go:56-57 | The status is accepted or refused regardless of letter case. |
| `Orders.InsertOrder` | app/controllers/order_controller.go:137-178 | Binding and validation failures give their 400 responses and change nothing. Success gives 201 with the new order under the next key. The order carries the request's fields and the lower-cased status, and `PaidAt` is set, to now, exactly when the status is "paid". Customers are never touched. |
| `Orders.InsertOrderAddsExactlyOne` | app/controllers/order_controller.go:156-167 | After a successful insert the new key finds the returned order, and every other key finds what it did before. |
| `Orders.UpdateOrder` | app/controllers/order_controller.go:180-241 | A missing id gives 404 "Order not found" before the body is read. Then binding and validation failures give 400. Success rewrites only product name, quantity, total price, status and `PaidAt` (now if "paid", nil otherwise), and keeps the id and the customer. Every failure changes nothing. |
| `Orders.UpdateOrderChangesOnlyThatOrder` | app/controllers/order_controller.go:219-230 | After a successful update the id finds the returned order, and every other key finds what it did before. |
| `Orders.DeleteOrder` | app/controllers/order_controller.go:243-277 | A missing id gives 404 "Order not found" and changes nothing. Otherwise the answer is 200 "Order deleted successfully", and the orders left are exactly the others. |
| `Orders.DeleteOrderRemovesOnlyThatOrder` | app/controllers/order_controller.go:249-266 | After a delete the id finds nothing, and every other key finds what it did before. |
| `Orders.GetOrderDetail` | app/controllers/order_controller.go:110-135 | 200 with the stored order of that id exactly when it exists, else 404 "Order not found". |
| `Orders.GetAllOrders` | app/controllers/order_controller.go:72-108 | The count is the number of orders whose lower-cased product name contains the lower-cased search, ignoring paging. The list is the page of those matches, and every listed order is stored and contains the search. |
| `Orders.OrderCountIsCaseInsensitiveMatches` | app/controllers/order_controller.go:81-87 | A stored order is among the counted matches exactly when the lower-cased search occurs in its lower-cased product name. |
| `Orders.InsertOrderKeepsConsistent` | app/controllers/order_controller.go:147-167 | Inserting keeps the store consistent: the new order is well-formed and its customer exists. |
| `Orders.UpdateOrderKeepsConsistent` | app/controllers/order_controller.go:210-230 | Updating keeps the store consistent. |
| `Orders.DeleteOrderKeepsConsistent` | app/controllers/order_controller.go:266 | Deleting an order keeps the store consistent. |
| `Customers.BoundCustomerPhone` | app/controllers/customer_controller.go:23 | A customer request that passed binding has a phone number of 7 to 14 characters. |
| `Customers.NormalizeGender` | app/controllers/customer_controller.go:118-126 | Accepted exactly when the lower-cased gender is "male" or "female", yielding the lower-cased value; otherwise "Invalid gender". |
| `Customers.EmailTaken` | app/controllers/customer_controller.go:128-131 | The count is positive exactly when some stored customer has this e-mail. |
| `Customers.InsertCustomer` | app/controllers/customer_controller.go:102-156 | Binding failures, a bad gender ("Invalid gender") and a taken e-mail ("Email already exists") give 400 and change nothing. Success gives 201 and stores one customer with the request fields and the lower-cased gender under the next key. Orders are never touched. |
| `Customers.InsertCustomerAddsExactlyOne` | app/controllers/customer_controller.go:139-145 | After a successful insert the new key finds the returned customer, and every other key finds what it did before. |
| `Customers.UpdateCustomer` | app/controllers/customer_controller.go:158-221 | The body and gender are checked before the lookup. A missing id then gives 404 "Customer not found". Success changes only name, phone number and gender, and keeps the id and the e-mail. Every failure changes nothing. |
| `Customers.UpdateValidatesBeforeLookup` | app/controllers/customer_controller.go:160-196 | An invalid body or gender is answered with 400 even for an id that does not exist. |
| `Customers.UpdateCustomerChangesOnlyThatCustomer` | app/controllers/customer_controller.go:205-210 | After a successful update the id finds the returned customer, and every other key finds what it did before. |
| `Customers.DeleteCustomer` | app/controllers/customer_controller.go:223-268 | A missing id gives 404 "Customer not found". Otherwise the answer is 200 "Customer deleted successfully". The orders left are exactly those of other customers, and the customers left are exactly the others. |
| `Customers.DeleteCustomerCascades` | app/controllers/customer_controller.go:246-264 | Key by key: the customer is gone, every order it placed is gone, and every other customer and order is found as before. |
| `Customers.GetCustomerDetail` | app/controllers/customer_controller.go:75-100 | 200 with the stored customer of that id exactly when it exists, else 404 "Customer not found". |
| `Customers.GetAllCustomers` | app/controllers/customer_controller.go:37-73 | The count is the number of customers whose lower-cased name, e-mail or phone number contains the lower-cased search, ignoring paging. The list is the page of those, and every listed customer is stored and matches. |
| `Customers.InsertCustomerKeepsConsistent` | app/controllers/customer_controller.go:128-145 | Inserting keeps the store consistent; in particular customer e-mails stay unique. |
| `Customers.ReplaceKeepsEmailsUnique` | app/controllers/customer_controller.go:205-208 | Rewriting a customer without touching its e-mail keeps e-mails unique. |
| `Customers.UpdateCustomerKeepsConsistent` | app/controllers/customer_controller.go:205-210 | Updating a customer keeps the store consistent. |
| `Customers.DeleteCustomerKeepsConsistent` | app/controllers/customer_controller.go:246-264 | Deleting a customer keeps the store consistent. No order is left pointing at the deleted customer, which needs the cascade. |
| `Auth.AuthChecks` | app/controllers/auth_controller.go:23-26 | One register/login body is checked Email then Password, and passes exactly when the e-mail is a non-empty address and the password has at least 8 characters. |
| `Auth.AuthRules` | app/controllers/auth_controller.go:23-26 | The rule set the binder applies, for every request: the body is checked field by field, Email then Password. It passes exactly when the e-mail is non-empty and an address, and the password has at least 8 characters. |
| `Auth.Authenticates` | app/controllers/auth_controller.go:147-166 | Login credentials hold only when some stored account has the e-mail and a digest matching the password. With unique e-mails, any such account makes them hold. |
| `Orders.OrderRules` | app/controllers/order_controller.go:22-28 | The order body is checked in the order CustomerID, ProductName, Quantity, TotalPrice, PaymentStatus. It passes exactly when the customer id is non-zero, the product name and status are non-empty, the quantity is at least 1 and the price is positive (`required` rejects 0). |
| `Orders.PaidAt` | app/controllers/order_controller.go:163-166 | The payment time is present exactly when the normalised status is "paid", and it is then the request time. The update path (lines 223-228) uses the same rule and clears it otherwise. |
| `Orders.ProductMatches` | app/controllers/order_controller.go:86-88 | An order matches a lower-cased search exactly when the search occurs in its lower-cased product name. |
| `Customers.CustomerChecks` | app/controllers/customer_controller.go:20-25 | One customer body is checked Name, Email, PhoneNumber, Gender, and passes exactly when the name and gender are non-empty, the e-mail is a non-empty address and the phone number has 7 to 14 characters. |
| `Customers.CustomerRules` | app/controllers/customer_controller.go:20-25 | The rule set the binder applies, for every request: the body is checked in the order Name, Email, PhoneNumber, Gender. It passes exactly when the name and gender are non-empty, the e-mail is a non-empty address and the phone number has 7 to 14 characters. |
| `Customers.UpdateCustomerRules` | app/controllers/customer_controller.go:27-31 | The update body is checked in the order Name, PhoneNumber, Gender. It passes exactly when the name and gender are non-empty and the phone number has 7 to 14 characters. There is no e-mail field. |
| `Customers.GenderCaseInsensitive` | app/controllers/customer_controller.go:118-126 | Gender is accepted or refused regardless of letter case, and normalising an accepted value again changes nothing. |
| `Customers.CustomerMatches` | app/controllers/customer_controller.go:51-53 | A customer matches a lower-cased search exactly when the search occurs in its lower-cased name, e-mail or phone number. |
| `Customers.CustomerCountIsCaseInsensitiveMatches` | app/controllers/customer_controller.go:45-56 | A stored customer is among the counted matches exactly when the lower-cased search occurs in its lower-cased name, e-mail or phone number. |
| `Paging.CountIgnoresPaging` | app/controllers/order_controller.go:90-91 | The count is taken before paging: two requests with the same search report the same count whatever their page and limit. |
| `Tables.First` | app/controllers/auth_controller.go:148 | `First` under a condition finds the earliest entry (smallest key) meeting it: every entry before it fails the condition. It finds nothing exactly when no entry meets it. |
| `Tables.Insert` | app/controllers/order_controller.go:167 | `Create` keeps every old entry in place and appends the new row under the next serial key. It advances the sequence and keeps keys ascending and below the sequence. |
| `Tables.Replace` | app/controllers/order_controller.go:230 | `Save` of a stored row rewrites the entry with that key and no other: keys, positions and every other entry are unchanged. |
| `Tables.Remove` | app/controllers/order_controller.go:266 | `Delete` by key leaves exactly the entries with other keys and keeps the table valid. |
| `Tables.RemoveWhere` | app/controllers/customer_controller.go:247 | `Where(..).Delete` leaves exactly the entries whose row does not meet the condition and keeps the table valid. |
| `Tokens.CreateToken` | app/controllers/auth_controller.go:61-71 | A created token parses back to its kind, expiry and subject, marked valid, at every instant before `exp`, and is refused at every instant after it. |
| `Guard.ExpiredTokenRefused` | app/controllers/auth_controller.go:32-43 | Lifetimes are enforced. Once the clock passes a created token's expiry, validation fails with "Invalid access token", the guard answers 401 to `Bearer <token>`, and refresh answers 401. |
| `Text.ToLower` | app/controllers/order_controller.go:56 | Lower-casing keeps the length, maps each character on its own (A-Z to a-z, everything else kept) and leaves no upper-case letter. |
| `Text.Contains` | app/controllers/order_controller.go:87 | The empty search is found in every text, and a found search is no longer than the text. `Text.ContainsMeansSubstring` gives the full meaning. |
| `Tables.Filter` | app/controllers/order_controller.go:86-91 | A `Where` condition keeps exactly the entries that meet it (both directions), never more than there were. |
| `Paging.PageOf` | app/controllers/order_controller.go:76-77 | The page is the parsed `page` parameter, or 1 when absent. |
| `Paging.LimitOf` | app/controllers/order_controller.go:78-79 | The limit is the parsed `limit` parameter, or 10 when absent. |
| `Paging.SearchOf` | app/controllers/order_controller.go:80-81 | The search has no upper-case letter, keeps the length of the parameter, and is the empty search when absent. An already lower-case parameter is used unchanged. |
| `Paging.OffsetOf` | app/controllers/order_controller.go:93 | The first page starts at offset 0, and for a page of at least 1 and a non-negative limit the offset is not negative. |
| `Paging.NextPageOffset` | app/controllers/order_controller.go:93 | Asking for the next page moves the offset forward by exactly one limit. |
| `Paging.Skipped` | app/controllers/order_controller.go:93 | Rows skipped before the window: none for an offset of at most 0, the offset itself when it fits, and every row when it is past the end. |
| `Binding.Field` | app/controllers/auth_controller.go:196 | Reading a key of the decoded `map[string]string` body gives its value, or "" when the key is absent (also at line 246). |
| `Customers.PlacedBy` | app/controllers/customer_controller.go:247 | The cascade's condition `customer_id = ?` holds of an order exactly when the order belongs to that customer. |
| `Models.EmptyStoreConsistent` | app/models/order.go:9-12 | A fresh database satisfies the store invariant, with no users sharing an e-mail. Together with the `*KeepsConsistent` lemmas this makes the invariant hold in every reachable store. |
| `Tables.Get` | app/controllers/order_controller.go:186-187 | A lookup by primary key finds a stored entry with that key, and finds nothing exactly when no entry has it. |
| `Tables.GetRemoveWhere` | app/controllers/customer_controller.go:247 | After deleting under a row condition, a key finds its old entry if that row did not meet the condition, and nothing otherwise. |

## Left out

- Password hashing and JWT signing/parsing are opaque parameters. The model
  assumes of them only `HasherSound`, `Verifies` and `Expires`. Which error
  golang-jwt reports for an expired token, and what it does at the `exp`
  instant itself, are not modelled.
- The clock is the parameter `now`. Login reads the clock twice (access and
  refresh expiry); the model uses one reading for both.
- Every database failure other than "not found", with its 500 response, is
  left out. That includes a unique-constraint violation when two
  registrations race: the race is a concurrency issue.
- Creation and update timestamps are left out. They carry no rule.
- SQL text, `ILIKE` collation and the `%`/`_` wildcards inside a search text
  are left out. The search is a plain case-insensitive substring test.
- `Text.ToLower` maps only ASCII A-Z, where Go's `strings.ToLower` folds all
  of Unicode.
- An unordered `SELECT` returns rows in primary-key order in the model; the
  database may use any order.
- Paging follows current gorm: `OFFSET` only for a positive value, `LIMIT`
  for any non-negative value. Older gorm releases also drop `LIMIT 0`.
  64-bit overflow of `(page-1)*limit` is not modelled.
- A non-numeric `page` or `limit` is modelled as the 0 that `strconv.Atoi`
  returns; the query text itself is not parsed.
- Path ids are natural numbers. gorm's treatment of a non-numeric `:id`
  string as a raw SQL condition is left out.
- JSON decoding is abstract: `Malformed` stands for every decode error, with
  its message.
- The second response write after a failed order validation is left out,
  because it is HTTP plumbing; only the returned error is modelled. The same
  goes for headers and `Content-Type`.
- Startup, environment and route wiring are not part of this model. The
  wiring only fixes which routes sit behind the guard (every customer and
  order route).
- `TotalPrice` is a float64 in the source and an integer here; only its
  sign and non-zero checks matter.
