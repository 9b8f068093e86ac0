/**
 * The JWT claims the service signs and reads back. Signing (HMAC-SHA256 with
 * the process-wide secret) and parsing are opaque: a `Keyring` carries both
 * as functions. `Verifies` and `Expires` state the two things the rest of
 * the model assumes of them: tokens work before their expiry and not after.
 */
module Tokens {
  import opened Wrappers

  /** A claim value as it appears in the decoded JSON payload. */
  datatype Claim = Str(s: string) | Num(n: int) | OtherValue

  /** The token payload: a free-form map from claim name to value. */
  type Claims = map<string, Claim>

  const AccessTokenType: string := "access_token"
  const RefreshTokenType: string := "refresh_token"

  /** Lifetimes in seconds: 15 minutes and 30 days. */
  const AccessTokenTtl: int := 15 * 60
  const RefreshTokenTtl: int := 30 * 24 * 60 * 60

  /** The `sub` claim, when it is present and a string. */
  function Subject(c: Claims): Option<string> {
    if "sub" in c && c["sub"].Str? then Some(c["sub"].s) else None
  }

  /** The `exp` claim, when it is present and a number. */
  function Expiry(c: Claims): Option<int> {
    if "exp" in c && c["exp"].Num? then Some(c["exp"].n) else None
  }

  /** The `token_type` claim, when it is present and a string. */
  function Kind(c: Claims): Option<string> {
    if "token_type" in c && c["token_type"].Str? then Some(c["token_type"].s) else None
  }

  /** The payload `createToken` signs: exactly a kind, an expiry and a subject. */
  function NewClaims(tokenType: string, exp: int, email: string): (c: Claims)
    ensures c.Keys == {"token_type", "exp", "sub"}
    ensures Kind(c) == Some(tokenType)
    ensures Expiry(c) == Some(exp)
    ensures Subject(c) == Some(email)
  {
    map["token_type" := Str(tokenType), "exp" := Num(exp), "sub" := Str(email)]
  }

  /** What `jwt.Parse` reports: an error, or the claims and the token's `Valid` flag. */
  datatype ParseOutcome = ParseError | Parsed(claims: Claims, valid: bool)

  /** Signing and parsing with the secret key. `parse` receives the clock
      reading because the library checks `exp` against it. */
  datatype Keyring = Keyring(sign: Claims -> string, parse: (string, int) -> ParseOutcome)

  /** The claims have not expired at `now`. */
  predicate Live(c: Claims, now: int) {
    Expiry(c).Some? && now < Expiry(c).value
  }

  /** A token signed with the key parses back to its claims, marked valid,
      while it has not expired. Nothing is assumed about foreign tokens. */
  ghost predicate Verifies(keys: Keyring) {
    forall c: Claims, now: int :: Live(c, now) ==> keys.parse(keys.sign(c), now) == Parsed(c, true)
  }

  /** A token signed with the key is refused, either as a parse error or as
      not valid, once the clock has passed its expiry. Which of the two the
      library reports is left open. */
  ghost predicate Expires(keys: Keyring) {
    forall c: Claims, now: int :: Expiry(c).Some? && Expiry(c).value < now ==>
      !(keys.parse(keys.sign(c), now).Parsed? && keys.parse(keys.sign(c), now).valid)
  }

  /** `createToken(tokenType, exp, email)`. The signing error is discarded in
      the source, so whatever `sign` yields is the token. The token reads back
      as its claims before `exp` and is refused after it. */
  function CreateToken(keys: Keyring, tokenType: string, exp: int, email: string): (t: string)
    ensures forall now: int :: Verifies(keys) && now < exp ==>
              keys.parse(t, now) == Parsed(NewClaims(tokenType, exp, email), true)
    ensures forall now: int :: Expires(keys) && exp < now ==>
              !(keys.parse(t, now).Parsed? && keys.parse(t, now).valid)
  {
    assert forall now: int :: now < exp ==> Live(NewClaims(tokenType, exp, email), now);
    keys.sign(NewClaims(tokenType, exp, email))
  }

  /** A freshly created token reads back with its kind, expiry and subject
      until it expires. */
  lemma CreatedTokenParses(keys: Keyring, tokenType: string, exp: int, email: string, now: int)
    requires Verifies(keys) && now < exp
    ensures keys.parse(CreateToken(keys, tokenType, exp, email), now) == Parsed(NewClaims(tokenType, exp, email), true)
  {
    assert Live(NewClaims(tokenType, exp, email), now);
  }

  /** Tokens of different kinds are different strings when the key verifies. */
  lemma KindsGiveDistinctTokens(keys: Keyring, exp1: int, exp2: int, email: string, now: int)
    requires Verifies(keys) && now < exp1 && now < exp2
    ensures CreateToken(keys, AccessTokenType, exp1, email) != CreateToken(keys, RefreshTokenType, exp2, email)
  {
    CreatedTokenParses(keys, AccessTokenType, exp1, email, now);
    CreatedTokenParses(keys, RefreshTokenType, exp2, email, now);
    assert Kind(NewClaims(AccessTokenType, exp1, email)) != Kind(NewClaims(RefreshTokenType, exp2, email));
  }
}
