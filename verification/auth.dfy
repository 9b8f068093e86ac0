/**
 * Registration, login, token refresh and token validation over an
 * in-memory users table. bcrypt is a `Hasher`, JWT signing a `Keyring`,
 * and the clock an explicit `now` in Unix seconds.
 */
module Auth {
  import opened Wrappers
  import opened Tables
  import opened Models
  import opened Http
  import opened Binding
  import opened Tokens

  /** The `{email, password}` body of register and login. */
  datatype ReqAuth = ReqAuth(email: string, password: string)

  /** bcrypt: `generate` may fail (None), `compare(digest, plain)` is true
      when the plain password matches the digest. */
  datatype Hasher = Hasher(generate: string -> Option<string>, compare: (string, string) -> bool)

  /** A digest produced from a password matches that password. */
  ghost predicate HasherSound(h: Hasher) {
    forall p :: h.generate(p).Some? ==> h.compare(h.generate(p).value, p)
  }

  const FailedToHashPassword: string := "Failed to hash password"
  const InvalidCredentials: string := "Invalid credentials"
  const InvalidRefreshToken: string := "Invalid refresh token"
  const ExpiredRefreshToken: string := "Expired refresh token"
  const InvalidAccessToken: string := "Invalid access token"
  const InvalidUserEmail: string := "Invalid user email in token claims"
  /** gorm's `ErrRecordNotFound` text, passed through unchanged. */
  const RecordNotFound: string := "record not found"

  /** The tags of `ReqAuth` on one request: email `required,email`, password
      `required,min=8`. A request passes exactly when the e-mail is a
      non-empty address and the password has at least eight characters. */
  function AuthChecks(isEmail: string -> bool, req: ReqAuth): (checks: seq<Check>)
    ensures |checks| == 2
    ensures checks[0].field == "Email" && checks[1].field == "Password"
    ensures AllValid(checks) <==> |req.email| > 0 && isEmail(req.email) && |req.password| >= 8
  {
    [ Check("Email", Required(req.email) && isEmail(req.email)),
      Check("Password", Required(req.password) && |req.password| >= 8) ]
  }

  /** The rule set the binder applies to register and login bodies. */
  function AuthRules(isEmail: string -> bool): (rules: ReqAuth -> seq<Check>)
    ensures forall req: ReqAuth ::
              && |rules(req)| == 2
              && rules(req)[0].field == "Email" && rules(req)[1].field == "Password"
              && (AllValid(rules(req)) <==> |req.email| > 0 && isEmail(req.email) && |req.password| >= 8)
  {
    var rules := (req: ReqAuth) => AuthChecks(isEmail, req);
    assert forall req: ReqAuth :: rules(req) == AuthChecks(isEmail, req);
    rules
  }

  function WithEmail(email: string): Entry<Account> -> bool {
    (e: Entry<Account>) => e.row.email == email
  }

  /** `Where("email = ?", email).First(&user)`: exact, case-sensitive match. */
  function FindByEmail(users: Table<Account>, email: string): (r: Option<Entry<Account>>)
    ensures r.Some? ==> r.value in users.entries && r.value.row.email == email
    ensures r.None? <==> forall e :: e in users.entries ==> e.row.email != email
  {
    First(users.entries, WithEmail(email))
  }

  // ---------------------------------------------------------------------
  // Register

  /** POST /api/auth/register. Returns the response and the users table after the call. */
  function Register(users: Table<Account>, body: Body<ReqAuth>, isEmail: string -> bool, hasher: Hasher)
    : (r: (Response, Table<Account>))
    ensures Bind(body, AuthRules(isEmail)).Err? ==> r == (Bind(body, AuthRules(isEmail)).error, users)
    ensures body.Decoded? && Bind(body, AuthRules(isEmail)).Ok? && FindByEmail(users, body.value.email).Some? ==>
                r == (Fail(StatusBadRequest, EmailAlreadyExists), users)
    ensures body.Decoded? && Bind(body, AuthRules(isEmail)).Ok? && FindByEmail(users, body.value.email).None?
              && hasher.generate(body.value.password).None? ==>
                r == (Fail(StatusInternalServerError, FailedToHashPassword), users)
    ensures r.0.status == StatusCreated <==>
              && Bind(body, AuthRules(isEmail)).Ok?
              && FindByEmail(users, body.value.email).None?
              && hasher.generate(body.value.password).Some?
    ensures r.0.status != StatusCreated ==> r.1 == users
    ensures r.0.status == StatusCreated ==>
              && r.0.body == Success(UserInfo(users.nextId, body.value.email))
              && |r.1.entries| == |users.entries| + 1
              && r.1.nextId == users.nextId + 1
  {
    match Bind(body, AuthRules(isEmail))
    case Err(resp) => (resp, users)
    case Ok(req) =>
      if FindByEmail(users, req.email).Some? then
        (Fail(StatusBadRequest, EmailAlreadyExists), users)
      else match hasher.generate(req.password)
        case None => (Fail(StatusInternalServerError, FailedToHashPassword), users)
        case Some(digest) =>
          (Response(StatusCreated, Success(UserInfo(users.nextId, req.email))),
           Insert(users, Account(req.email, digest)))
  }

  /** A successful registration stores exactly one new account: under the next
      key, with the request e-mail and the digest of the password; every other
      key and every other e-mail finds what it found before, and e-mails stay
      unique. */
  lemma RegisterAddsExactlyOne(users: Table<Account>, body: Body<ReqAuth>, isEmail: string -> bool, hasher: Hasher)
    requires Valid(users) && UniqueUserEmails(users.entries)
    requires Register(users, body, isEmail, hasher).0.status == StatusCreated
    ensures var after := Register(users, body, isEmail, hasher).1;
            var email := body.value.email;
            var digest := hasher.generate(body.value.password).value;
            && Valid(after)
            && UniqueUserEmails(after.entries)
            && FindByEmail(after, email) == Some(Entry(users.nextId, Account(email, digest)))
            && (forall k: nat :: k != users.nextId ==> Get(after.entries, k) == Get(users.entries, k))
            && (forall other :: other != email ==> FindByEmail(after, other) == FindByEmail(users, other))
  {
    var email := body.value.email;
    var digest := hasher.generate(body.value.password).value;
    var x := Entry(users.nextId, Account(email, digest));
    var after := Register(users, body, isEmail, hasher).1;
    assert after.entries == users.entries + [x];
    forall k: nat | k != users.nextId ensures Get(after.entries, k) == Get(users.entries, k) {
      GetInsert(users, Account(email, digest), k);
    }
    forall other ensures FindByEmail(after, other) == (if other == email then Some(x) else FindByEmail(users, other)) {
      FirstAppend(users.entries, x, WithEmail(other));
    }
    forall i, j | 0 <= i < j < |after.entries| ensures after.entries[i].row.email != after.entries[j].row.email {
      if j == |users.entries| {
        assert after.entries[i] in users.entries;
      }
    }
  }

  // ---------------------------------------------------------------------
  // Login

  /** Two stored accounts with the same e-mail are the same entry. */
  lemma SameEmailSameAccount(es: seq<Entry<Account>>, e: Entry<Account>, f: Entry<Account>)
    requires UniqueUserEmails(es) && e in es && f in es && e.row.email == f.row.email
    ensures e == f
  {
    var i :| 0 <= i < |es| && es[i] == e;
    var j :| 0 <= j < |es| && es[j] == f;
    assert !(i < j) && !(j < i);
  }

  /** The stored digest of the account with this e-mail matches the password.
      Some account with the e-mail and a matching digest is a witness, and
      with unique e-mails any such account is enough. */
  function Authenticates(users: Table<Account>, hasher: Hasher, req: ReqAuth): (b: bool)
    ensures b ==> exists e :: e in users.entries && e.row.email == req.email && hasher.compare(e.row.password, req.password)
    ensures UniqueUserEmails(users.entries) ==>
              (b <== exists e :: e in users.entries && e.row.email == req.email && hasher.compare(e.row.password, req.password))
  {
    assert UniqueUserEmails(users.entries) ==>
             forall e :: e in users.entries && e.row.email == req.email ==> FindByEmail(users, req.email) == Some(e) by {
      if UniqueUserEmails(users.entries) {
        forall e | e in users.entries && e.row.email == req.email ensures FindByEmail(users, req.email) == Some(e) {
          SameEmailSameAccount(users.entries, e, FindByEmail(users, req.email).value);
        }
      }
    }
    match FindByEmail(users, req.email)
    case None => false
    case Some(e) => hasher.compare(e.row.password, req.password)
  }

  /** POST /api/auth/login. The users table is only read: the result is a response alone. */
  function Login(users: Table<Account>, body: Body<ReqAuth>, isEmail: string -> bool, hasher: Hasher, keys: Keyring, now: int)
    : (r: Response)
    ensures Bind(body, AuthRules(isEmail)).Err? ==> r == Bind(body, AuthRules(isEmail)).error
    ensures r.status == StatusOK <==> Bind(body, AuthRules(isEmail)).Ok? && Authenticates(users, hasher, body.value)
    ensures Bind(body, AuthRules(isEmail)).Ok? && !Authenticates(users, hasher, body.value) ==>
                r == Fail(StatusBadRequest, InvalidCredentials)
    ensures r.status == StatusOK ==>
              r.body == Success(TokenPair(
                CreateToken(keys, AccessTokenType, now + AccessTokenTtl, body.value.email),
                CreateToken(keys, RefreshTokenType, now + RefreshTokenTtl, body.value.email)))
  {
    match Bind(body, AuthRules(isEmail))
    case Err(resp) => resp
    case Ok(req) =>
      match FindByEmail(users, req.email)
      case None => Fail(StatusBadRequest, InvalidCredentials)
      case Some(user) =>
        if !hasher.compare(user.row.password, req.password) then
          Fail(StatusBadRequest, InvalidCredentials)
        else
          Response(StatusOK, Success(TokenPair(
            CreateToken(keys, AccessTokenType, now + AccessTokenTtl, user.row.email),
            CreateToken(keys, RefreshTokenType, now + RefreshTokenTtl, user.row.email))))
  }

  /** Enumeration resistance: an unknown e-mail and a known e-mail with a wrong
      password get the very same response. */
  lemma LoginFailuresIndistinguishable(
    unknown: Table<Account>, known: Table<Account>, body: Body<ReqAuth>,
    isEmail: string -> bool, hasher: Hasher, keys: Keyring, now: int)
    requires Bind(body, AuthRules(isEmail)).Ok?
    requires FindByEmail(unknown, body.value.email).None?
    requires FindByEmail(known, body.value.email).Some?
    requires !hasher.compare(FindByEmail(known, body.value.email).value.row.password, body.value.password)
    ensures Login(unknown, body, isEmail, hasher, keys, now) == Login(known, body, isEmail, hasher, keys, now)
    ensures Login(unknown, body, isEmail, hasher, keys, now) == Fail(StatusBadRequest, InvalidCredentials)
  {
  }

  /** Register then log in with the same credentials: the login succeeds and
      yields two different tokens that both read back with the e-mail as
      subject, 15 minutes and 30 days from the login time. */
  lemma RegisterThenLogin(
    users: Table<Account>, body: Body<ReqAuth>, isEmail: string -> bool, hasher: Hasher, keys: Keyring, now: int)
    requires Valid(users) && UniqueUserEmails(users.entries)
    requires HasherSound(hasher) && Verifies(keys)
    requires Register(users, body, isEmail, hasher).0.status == StatusCreated
    ensures var r := Login(Register(users, body, isEmail, hasher).1, body, isEmail, hasher, keys, now);
            && r.status == StatusOK
            && r.body.data.accessToken != r.body.data.refreshToken
            && keys.parse(r.body.data.accessToken, now) ==
                 Parsed(NewClaims(AccessTokenType, now + AccessTokenTtl, body.value.email), true)
            && keys.parse(r.body.data.refreshToken, now) ==
                 Parsed(NewClaims(RefreshTokenType, now + RefreshTokenTtl, body.value.email), true)
  {
    RegisterAddsExactlyOne(users, body, isEmail, hasher);
    var email := body.value.email;
    KindsGiveDistinctTokens(keys, now + AccessTokenTtl, now + RefreshTokenTtl, email, now);
    CreatedTokenParses(keys, AccessTokenType, now + AccessTokenTtl, email, now);
    CreatedTokenParses(keys, RefreshTokenType, now + RefreshTokenTtl, email, now);
  }

  // ---------------------------------------------------------------------
  // Refresh

  /** POST /api/auth/refresh-token. Takes no users table: the subject is not
      looked up, and `token_type` is never read. */
  function RefreshToken(body: Body<map<string, string>>, keys: Keyring, now: int): (r: Response)
    ensures body.Malformed? ==> r == Fail(StatusBadRequest, body.reason)
    ensures body.Decoded? && keys.parse(Field(body.value, "refresh_token"), now).ParseError? ==>
                r == Fail(StatusUnauthorized, InvalidRefreshToken)
    ensures body.Decoded? && keys.parse(Field(body.value, "refresh_token"), now).Parsed?
              && !keys.parse(Field(body.value, "refresh_token"), now).valid ==>
                r == Fail(StatusUnauthorized, ExpiredRefreshToken)
    ensures r.status == StatusOK <==>
              && body.Decoded?
              && keys.parse(Field(body.value, "refresh_token"), now).Parsed?
              && keys.parse(Field(body.value, "refresh_token"), now).valid
              && Subject(keys.parse(Field(body.value, "refresh_token"), now).claims).Some?
    ensures r.status == StatusOK ==>
              r.body == Success(AccessToken(CreateToken(keys, AccessTokenType, now + AccessTokenTtl,
                Subject(keys.parse(Field(body.value, "refresh_token"), now).claims).value)))
    ensures r.status != StatusOK ==> r.status in {StatusBadRequest, StatusUnauthorized, StatusInternalServerError}
  {
    match body
    case Malformed(reason) => Fail(StatusBadRequest, reason)
    case Decoded(req) =>
      match keys.parse(Field(req, "refresh_token"), now)
      case ParseError => Fail(StatusUnauthorized, InvalidRefreshToken)
      case Parsed(claims, valid) =>
        if !valid then Fail(StatusUnauthorized, ExpiredRefreshToken)
        else match Subject(claims)
          // `claims["sub"].(string)` panics; gin's recovery answers 500 with no body
          case None => Response(StatusInternalServerError, NoBody)
          case Some(email) =>
            Response(StatusOK, Success(AccessToken(CreateToken(keys, AccessTokenType, now + AccessTokenTtl, email))))
  }

  /** Refresh never looks at `token_type`: two valid tokens whose claims agree
      apart from it are answered alike. */
  lemma RefreshIgnoresTokenType(t1: string, t2: string, keys: Keyring, now: int)
    requires keys.parse(t1, now).Parsed? && keys.parse(t1, now).valid
    requires keys.parse(t2, now).Parsed? && keys.parse(t2, now).valid
    requires keys.parse(t1, now).claims - {"token_type"} == keys.parse(t2, now).claims - {"token_type"}
    ensures RefreshToken(Decoded(map["refresh_token" := t1]), keys, now)
         == RefreshToken(Decoded(map["refresh_token" := t2]), keys, now)
  {
    var c1 := keys.parse(t1, now).claims;
    var c2 := keys.parse(t2, now).claims;
    assert Field(map["refresh_token" := t1], "refresh_token") == t1;
    assert Field(map["refresh_token" := t2], "refresh_token") == t2;
    assert "sub" in c1 <==> "sub" in (c1 - {"token_type"});
    assert "sub" in c2 <==> "sub" in (c2 - {"token_type"});
    if "sub" in c1 {
      assert c1["sub"] == (c1 - {"token_type"})["sub"] == (c2 - {"token_type"})["sub"] == c2["sub"];
    }
    assert Subject(c1) == Subject(c2);
  }

  /** The refresh token of a login, presented before it expires, mints an access
      token for the same e-mail that reads back for the next 15 minutes. An
      access token presented in its place is accepted just the same. */
  lemma LoginThenRefresh(kind: string, exp: int, email: string, keys: Keyring, now: int, later: int)
    requires Verifies(keys)
    requires now < exp && now <= later < now + AccessTokenTtl
    ensures var r := RefreshToken(Decoded(map["refresh_token" := CreateToken(keys, kind, exp, email)]), keys, now);
            && r.status == StatusOK
            && keys.parse(r.body.data.accessToken, later) ==
                 Parsed(NewClaims(AccessTokenType, now + AccessTokenTtl, email), true)
  {
    var t := CreateToken(keys, kind, exp, email);
    assert Field(map["refresh_token" := t], "refresh_token") == t;
    CreatedTokenParses(keys, kind, exp, email, now);
    CreatedTokenParses(keys, AccessTokenType, now + AccessTokenTtl, email, later);
  }

  // ---------------------------------------------------------------------
  // Validation

  /** `ValidateAccessToken`: parse, read `sub`, look the user up by e-mail.
      `token_type` is not checked, so a refresh token validates too. */
  function ValidateAccessToken(users: Table<Account>, keys: Keyring, token: string, now: int)
    : (r: Result<Entry<Account>, string>)
    ensures (keys.parse(token, now).ParseError? || !keys.parse(token, now).valid) ==> r == Err(InvalidAccessToken)
    ensures keys.parse(token, now).Parsed? && keys.parse(token, now).valid && Subject(keys.parse(token, now).claims).None? ==>
                r == Err(InvalidUserEmail)
    ensures keys.parse(token, now).Parsed? && keys.parse(token, now).valid && Subject(keys.parse(token, now).claims).Some?
              && FindByEmail(users, Subject(keys.parse(token, now).claims).value).None? ==>
                r == Err(RecordNotFound)
    ensures r.Ok? ==>
              && keys.parse(token, now).Parsed? && keys.parse(token, now).valid
              && r.value in users.entries
              && Subject(keys.parse(token, now).claims) == Some(r.value.row.email)
  {
    match keys.parse(token, now)
    case ParseError => Err(InvalidAccessToken)
    case Parsed(claims, valid) =>
      if !valid then Err(InvalidAccessToken)
      else match Subject(claims)
        case None => Err(InvalidUserEmail)
        case Some(email) =>
          match FindByEmail(users, email)
          case None => Err(RecordNotFound)
          case Some(user) => Ok(user)
  }

  /** Round trip: a token issued for an e-mail validates, until it expires, to
      the account holding that e-mail at validation time, whatever the kind of
      token; once the account is gone it fails with the lookup error (there is
      no revocation). */
  lemma IssuedTokenValidates(users: Table<Account>, keys: Keyring, kind: string, exp: int, email: string, now: int)
    requires Verifies(keys) && now < exp
    ensures var r := ValidateAccessToken(users, keys, CreateToken(keys, kind, exp, email), now);
            && (FindByEmail(users, email).Some? ==> r == Ok(FindByEmail(users, email).value) && r.value.row.email == email)
            && (FindByEmail(users, email).None? ==> r == Err(RecordNotFound))
  {
    CreatedTokenParses(keys, kind, exp, email, now);
  }

  /** POST /api/auth/match-token. */
  function MatchToken(users: Table<Account>, keys: Keyring, body: Body<map<string, string>>, now: int): (r: Response)
    ensures body.Malformed? ==> r == Fail(StatusBadRequest, body.reason)
    ensures body.Decoded? && ValidateAccessToken(users, keys, Field(body.value, "access_token"), now).Err? ==>
                r == Fail(StatusUnauthorized, ValidateAccessToken(users, keys, Field(body.value, "access_token"), now).error)
    ensures r.status == StatusOK <==> body.Decoded? && ValidateAccessToken(users, keys, Field(body.value, "access_token"), now).Ok?
    ensures r.status == StatusOK ==>
              var user := ValidateAccessToken(users, keys, Field(body.value, "access_token"), now).value;
              && r.body == Success(UserInfo(user.id, user.row.email))
              && user in users.entries
              && Subject(keys.parse(Field(body.value, "access_token"), now).claims) == Some(user.row.email)
  {
    match body
    case Malformed(reason) => Fail(StatusBadRequest, reason)
    case Decoded(req) =>
      match ValidateAccessToken(users, keys, Field(req, "access_token"), now)
      case Err(msg) => Fail(StatusUnauthorized, msg)
      case Ok(user) => Response(StatusOK, Success(UserInfo(user.id, user.row.email)))
  }
}
