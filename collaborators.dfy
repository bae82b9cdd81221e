/**
 * The injected collaborators the core calls but does not implement:
 * the configuration service (`ConfigService.get`) and the JWT library
 * (`sign`, `verify`, `decode`). The JWT library is a value holding three
 * total functions, so nothing is assumed about its cryptography; lemmas that
 * need a property of it (a token verifies under the secret it was signed
 * with, say) take that property as a hypothesis.
 */
module Collaborators {
  import opened Wrappers

  // ---------------------------------------------------------------------------
  // configuration
  // ---------------------------------------------------------------------------

  /** The process environment as `ConfigService` sees it. */
  type Config = map<string, string>

  /** `configService.get(key)`: the configured value, or `undefined` (`None`) when the key is not set. */
  function Get(config: Config, key: string): (value: Option<string>)
    ensures value.Some? <==> key in config
    ensures value.Some? ==> value.value == config[key]
  {
    if key in config then Some(config[key]) else None
  }

  const NodeEnvKey: string := "NODE_ENV"
  const AligoKeyKey: string := "ALIGO_KEY"
  const JwtAccessSecretKey: string := "JWT_ACCESS_SECRET"
  const JwtAccessExpiresInKey: string := "JWT_ACCESS_EXPIRES_IN"
  const JwtRefreshSecretKey: string := "JWT_REFRESH_SECRET"
  const JwtRefreshExpiresInKey: string := "JWT_REFRESH_EXPIRES_IN"

  /** Two configurations give the same answer for every key in `keys`. */
  predicate AgreeOn(c1: Config, c2: Config, keys: set<string>)
  {
    forall key :: key in keys ==> Get(c1, key) == Get(c2, key)
  }

  // ---------------------------------------------------------------------------
  // JWT library
  // ---------------------------------------------------------------------------

  /** A token's claims, by name (`sub`, `role`, ...). */
  type Claims = map<string, string>

  /** The `{ secret, expiresIn }` options object passed to `sign`; either may be `undefined`. */
  datatype SignOptions = SignOptions(secret: Option<string>, expiresIn: Option<string>)

  /** The `{ secret }` options object passed to `verify`. */
  datatype VerifyOptions = VerifyOptions(secret: Option<string>)

  /** What the library may throw. */
  datatype JwtError =
    | TokenExpiredError
    | NotBeforeError
    | JsonWebTokenError(message: string)
    | OtherError(name: string)

  /** A library call either returns a value or throws. */
  datatype Outcome<+T> = Returned(value: T) | Threw(error: JwtError)

  /** The JWT library as three opaque functions. */
  datatype JwtLibrary = JwtLibrary(
    sign: (Claims, SignOptions) -> Outcome<string>,
    verify: (string, VerifyOptions) -> Outcome<Claims>,
    decode: string -> Option<Claims>)

  /** Every claim of `claims` appears with the same value in `payload` (which may carry more, such as `iat` and `exp`). */
  predicate CarriesClaims(payload: Claims, claims: Claims)
  {
    forall name :: name in claims ==> name in payload && payload[name] == claims[name]
  }

  /** Hypothesis about the library: a token it signed with `secret` verifies under `secret` and carries the signed claims. */
  ghost predicate AcceptsOwnTokens(jwt: JwtLibrary, secret: string)
  {
    forall claims, expiresIn, token ::
      jwt.sign(claims, SignOptions(Some(secret), expiresIn)) == Returned(token) ==>
        jwt.verify(token, VerifyOptions(Some(secret))).Returned? &&
        CarriesClaims(jwt.verify(token, VerifyOptions(Some(secret))).value, claims)
  }

  /** Hypothesis about the library: a token it signed with `signedWith` does not verify under `checkedWith`. */
  ghost predicate RejectsForeignTokens(jwt: JwtLibrary, signedWith: string, checkedWith: string)
  {
    forall claims, expiresIn, token ::
      jwt.sign(claims, SignOptions(Some(signedWith), expiresIn)) == Returned(token) ==>
        jwt.verify(token, VerifyOptions(Some(checkedWith))).Threw?
  }
}
