/**
 * The bearer-token middleware in front of every customer and order route:
 * split the Authorization header on single spaces, demand exactly two
 * pieces, validate the second, and either answer 401 and stop the chain or
 * attach the user and run the handler.
 */
module Guard {
  import opened Wrappers
  import opened Tables
  import opened Models
  import opened Http
  import opened Binding
  import opened Text
  import opened Tokens
  import opened Auth

  const InvalidTokenMessage: string := "invalid token"

  /** The middleware's decision: abort with a response, or continue with the
      user stored in the request context under "user". */
  datatype Verdict = Abort(response: Response) | Next(user: Entry<Account>)

  /** `JWT()` applied to the Authorization header ("" when absent). */
  function Jwt(header: string, users: Table<Account>, keys: Keyring, now: int): (v: Verdict)
    ensures Count(header, ' ') != 1 ==> v == Abort(Fail(StatusUnauthorized, InvalidTokenMessage))
    ensures v.Abort? ==> v.response.status == StatusUnauthorized
    ensures v.Next? <==>
              Count(header, ' ') == 1 && ValidateAccessToken(users, keys, Split(header, ' ')[1], now).Ok?
    ensures v.Next? ==> ValidateAccessToken(users, keys, Split(header, ' ')[1], now) == Ok(v.user)
    ensures Count(header, ' ') == 1 && ValidateAccessToken(users, keys, Split(header, ' ')[1], now).Err? ==>
              v == Abort(Fail(StatusUnauthorized, ValidateAccessToken(users, keys, Split(header, ' ')[1], now).error))
  {
    var parts := Split(header, ' ');
    if |parts| != 2 then Abort(Fail(StatusUnauthorized, InvalidTokenMessage))
    else match ValidateAccessToken(users, keys, parts[1], now)
      case Err(msg) => Abort(Fail(StatusUnauthorized, msg))
      case Ok(user) => Next(user)
  }

  /** A protected route: the guard, then the handler only when the guard lets
      the request through. An aborted request leaves the store untouched. */
  function Serve(header: string, users: Table<Account>, keys: Keyring, now: int,
                 store: Store, handler: Store -> (Response, Store)): (r: (Response, Store))
    ensures Jwt(header, users, keys, now).Abort? ==> r == (Jwt(header, users, keys, now).response, store)
    ensures Jwt(header, users, keys, now).Next? ==> r == handler(store)
  {
    match Jwt(header, users, keys, now)
    case Abort(resp) => (resp, store)
    case Next(_) => handler(store)
  }

  /** A request without the header is refused before any token parsing. */
  lemma MissingHeaderRejected(users: Table<Account>, keys: Keyring, now: int, store: Store,
                              handler: Store -> (Response, Store))
    ensures Serve("", users, keys, now, store, handler) == (Fail(StatusUnauthorized, InvalidTokenMessage), store)
  {
  }

  /** The scheme word is never checked: any space-free word before the
      credential gives the same verdict, decided by the credential alone. */
  lemma SchemeIgnored(scheme: string, token: string, users: Table<Account>, keys: Keyring, now: int)
    requires ' ' !in scheme && ' ' !in token
    ensures Jwt(scheme + " " + token, users, keys, now) == Jwt("Bearer " + token, users, keys, now)
    ensures Jwt(scheme + " " + token, users, keys, now) ==
            match ValidateAccessToken(users, keys, token, now)
            case Err(msg) => Abort(Fail(StatusUnauthorized, msg))
            case Ok(user) => Next(user)
  {
    assert scheme + " " + token == scheme + [' '] + token;
    assert "Bearer " + token == "Bearer" + [' '] + token;
    SplitTwoWords(scheme, token, ' ');
    SplitTwoWords("Bearer", token, ' ');
  }

  /** More than one space anywhere (a doubled space, three words) is refused
      with "invalid token". */
  lemma ExtraSpaceRejected(a: string, b: string, c: string, users: Table<Account>, keys: Keyring, now: int)
    ensures Jwt(a + " " + b + " " + c, users, keys, now) == Abort(Fail(StatusUnauthorized, InvalidTokenMessage))
  {
    CountConcat(a + " " + b + " ", c, ' ');
    CountConcat(a + " " + b, " ", ' ');
    CountConcat(a + " ", b, ' ');
    CountConcat(a, " ", ' ');
  }

  /** End to end: a token created for a stored e-mail, sent as
      `Authorization: Bearer <token>` before it expires, runs the handler with
      that account attached. */
  lemma IssuedTokenPassesGuard(users: Table<Account>, keys: Keyring, kind: string, exp: int, email: string,
                               now: int, store: Store, handler: Store -> (Response, Store))
    requires Verifies(keys) && now < exp
    requires ' ' !in CreateToken(keys, kind, exp, email)
    requires FindByEmail(users, email).Some?
    ensures Jwt("Bearer " + CreateToken(keys, kind, exp, email), users, keys, now) == Next(FindByEmail(users, email).value)
    ensures Serve("Bearer " + CreateToken(keys, kind, exp, email), users, keys, now, store, handler) == handler(store)
  {
    var token := CreateToken(keys, kind, exp, email);
    SchemeIgnored("Bearer", token, users, keys, now);
    IssuedTokenValidates(users, keys, kind, exp, email, now);
  }

  /** Lifetimes are enforced: once the clock has passed a created token's
      expiry, the guard refuses it with 401, validation fails with "Invalid
      access token", and refresh answers 401. */
  lemma ExpiredTokenRefused(users: Table<Account>, keys: Keyring, kind: string, exp: int, email: string, now: int)
    requires Expires(keys) && exp < now
    ensures var token := CreateToken(keys, kind, exp, email);
            && ValidateAccessToken(users, keys, token, now) == Err(InvalidAccessToken)
            && Jwt("Bearer " + token, users, keys, now).Abort?
            && Jwt("Bearer " + token, users, keys, now).response.status == StatusUnauthorized
            && RefreshToken(Decoded(map["refresh_token" := token]), keys, now).status == StatusUnauthorized
  {
    var token := CreateToken(keys, kind, exp, email);
    assert Field(map["refresh_token" := token], "refresh_token") == token;
    if ' ' in token {
      CountConcat("Bearer ", token, ' ');
      CountPositive(token, ' ');
      CountConcat("Bearer", " ", ' ');
    } else {
      SchemeIgnored("Bearer", token, users, keys, now);
    }
  }
}
