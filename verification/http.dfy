/**
 * The uniform JSON envelope every handler answers with:
 * `{success, data}` on success, `{success: false, error}` on failure.
 */
module Http {
  import opened Tables
  import opened Models

  const StatusOK := 200
  const StatusCreated := 201
  const StatusBadRequest := 400
  const StatusUnauthorized := 401
  const StatusNotFound := 404
  const StatusInternalServerError := 500

  /** The duplicate e-mail message shared by registration and customer creation. */
  const EmailAlreadyExists: string := "Email already exists"

  /** The `data` payloads the handlers produce. */
  datatype Data =
    | UserInfo(userId: nat, email: string)
    | TokenPair(accessToken: string, refreshToken: string)
    | AccessToken(accessToken: string)
    | OrderData(order: Entry<Order>)
    | OrderList(orders: seq<Entry<Order>>, count: nat)
    | CustomerData(customer: Entry<Customer>)
    | CustomerList(customers: seq<Entry<Customer>>, count: nat)
    | Message(text: string)

  /** The response body. `NoBody` is what the client gets when a handler
      panics after gin has already written the status line. */
  datatype Envelope = Success(data: Data) | Failure(error: string) | NoBody

  datatype Response = Response(status: int, body: Envelope)

  /** A failure envelope with the given status and message. */
  function Fail(status: int, message: string): Response {
    Response(status, Failure(message))
  }
}
