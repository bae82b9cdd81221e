/**
 * `TokenService` of `src/auth/token.service.ts`: issues and checks access and
 * refresh tokens. Every operation is one call to the JWT library with options
 * read from the configuration at call time; the verifiers turn any error the
 * library throws into `null` (`None`).
 */
module TokenService {
  import opened Wrappers
  import opened Strings
  import opened Collaborators

  /** The payload `{ sub: userId.toString() }`: one claim, whose text reads back as the user id. */
  function SubjectClaims(userId: int): (claims: Claims)
    ensures claims.Keys == {"sub"}
    ensures ParseInteger(claims["sub"]) == Some(userId)
  {
    IntToDecimalRoundTrip(userId);
    map["sub" := IntToDecimal(userId)]
  }

  function AccessSignOptions(config: Config): SignOptions
  {
    SignOptions(Get(config, JwtAccessSecretKey), Get(config, JwtAccessExpiresInKey))
  }

  function RefreshSignOptions(config: Config): SignOptions
  {
    SignOptions(Get(config, JwtRefreshSecretKey), Get(config, JwtRefreshExpiresInKey))
  }

  function AccessVerifyOptions(config: Config): VerifyOptions
  {
    VerifyOptions(Get(config, JwtAccessSecretKey))
  }

  function RefreshVerifyOptions(config: Config): VerifyOptions
  {
    VerifyOptions(Get(config, JwtRefreshSecretKey))
  }

  /**
   * `generateAccessToken(userId)`: whatever the library's `sign` gives for the
   * subject payload under the access secret and lifetime (a thrown error
   * propagates). A token it returns verifies back to the same user id whenever
   * the library accepts its own tokens.
   */
  function GenerateAccessToken(jwt: JwtLibrary, config: Config, userId: int): (token: Outcome<string>)
    ensures token == jwt.sign(SubjectClaims(userId), AccessSignOptions(config))
    ensures forall secret :: Get(config, JwtAccessSecretKey) == Some(secret) && AcceptsOwnTokens(jwt, secret) && token.Returned? ==>
      var payload := VerifyAccessToken(jwt, config, token.value);
      payload.Some? && "sub" in payload.value && ParseInteger(payload.value["sub"]) == Some(userId)
  {
    jwt.sign(SubjectClaims(userId), AccessSignOptions(config))
  }

  /** `generateRefreshToken(userId)`: as `GenerateAccessToken`, under the refresh secret and lifetime. */
  function GenerateRefreshToken(jwt: JwtLibrary, config: Config, userId: int): (token: Outcome<string>)
    ensures token == jwt.sign(SubjectClaims(userId), RefreshSignOptions(config))
    ensures forall secret :: Get(config, JwtRefreshSecretKey) == Some(secret) && AcceptsOwnTokens(jwt, secret) && token.Returned? ==>
      var payload := VerifyRefreshToken(jwt, config, token.value);
      payload.Some? && "sub" in payload.value && ParseInteger(payload.value["sub"]) == Some(userId)
  {
    jwt.sign(SubjectClaims(userId), RefreshSignOptions(config))
  }

  /** `verifyAccessToken(token)`: the verified payload, or `null` whenever verification throws, whatever the error. */
  function VerifyAccessToken(jwt: JwtLibrary, config: Config, token: string): (payload: Option<Claims>)
    ensures payload.None? <==> jwt.verify(token, AccessVerifyOptions(config)).Threw?
    ensures payload.Some? ==> jwt.verify(token, AccessVerifyOptions(config)) == Returned(payload.value)
  {
    match jwt.verify(token, AccessVerifyOptions(config))
    case Returned(claims) => Some(claims)
    case Threw(_) => None
  }

  /** `verifyRefreshToken(token)`: as `VerifyAccessToken`, under the refresh secret. */
  function VerifyRefreshToken(jwt: JwtLibrary, config: Config, token: string): (payload: Option<Claims>)
    ensures payload.None? <==> jwt.verify(token, RefreshVerifyOptions(config)).Threw?
    ensures payload.Some? ==> jwt.verify(token, RefreshVerifyOptions(config)) == Returned(payload.value)
  {
    match jwt.verify(token, RefreshVerifyOptions(config))
    case Returned(claims) => Some(claims)
    case Threw(_) => None
  }

  /** `decodeToken(token)`: the library's unverified decoding, `null` included; no secret is involved. */
  function DecodeToken(jwt: JwtLibrary, token: string): (decoded: Option<Claims>)
    ensures decoded == jwt.decode(token)
  {
    jwt.decode(token)
  }

  // ---------------------------------------------------------------------------
  // properties
  // ---------------------------------------------------------------------------

  /**
   * Each generator reads only its own two configuration keys: configurations
   * that agree on those keys issue the same token.
   */
  lemma GeneratorsReadOnlyTheirKeys(jwt: JwtLibrary, c1: Config, c2: Config, userId: int)
    ensures AgreeOn(c1, c2, {JwtAccessSecretKey, JwtAccessExpiresInKey}) ==>
      GenerateAccessToken(jwt, c1, userId) == GenerateAccessToken(jwt, c2, userId)
    ensures AgreeOn(c1, c2, {JwtRefreshSecretKey, JwtRefreshExpiresInKey}) ==>
      GenerateRefreshToken(jwt, c1, userId) == GenerateRefreshToken(jwt, c2, userId)
  {
    if AgreeOn(c1, c2, {JwtAccessSecretKey, JwtAccessExpiresInKey}) {
      assert Get(c1, JwtAccessSecretKey) == Get(c2, JwtAccessSecretKey);
      assert Get(c1, JwtAccessExpiresInKey) == Get(c2, JwtAccessExpiresInKey);
    }
    if AgreeOn(c1, c2, {JwtRefreshSecretKey, JwtRefreshExpiresInKey}) {
      assert Get(c1, JwtRefreshSecretKey) == Get(c2, JwtRefreshSecretKey);
      assert Get(c1, JwtRefreshExpiresInKey) == Get(c2, JwtRefreshExpiresInKey);
    }
  }

  /** Each verifier reads only its own secret. */
  lemma VerifiersReadOnlyTheirSecret(jwt: JwtLibrary, c1: Config, c2: Config, token: string)
    ensures AgreeOn(c1, c2, {JwtAccessSecretKey}) ==>
      VerifyAccessToken(jwt, c1, token) == VerifyAccessToken(jwt, c2, token)
    ensures AgreeOn(c1, c2, {JwtRefreshSecretKey}) ==>
      VerifyRefreshToken(jwt, c1, token) == VerifyRefreshToken(jwt, c2, token)
  {
    if AgreeOn(c1, c2, {JwtAccessSecretKey}) {
      assert Get(c1, JwtAccessSecretKey) == Get(c2, JwtAccessSecretKey);
    }
    if AgreeOn(c1, c2, {JwtRefreshSecretKey}) {
      assert Get(c1, JwtRefreshSecretKey) == Get(c2, JwtRefreshSecretKey);
    }
  }

  /** Missing configuration does not fail the service: `sign` simply receives `undefined` secret and lifetime. */
  lemma MissingConfigurationPassesUndefined(jwt: JwtLibrary, userId: int)
    ensures GenerateAccessToken(jwt, map[], userId) == jwt.sign(SubjectClaims(userId), SignOptions(None, None))
    ensures GenerateRefreshToken(jwt, map[], userId) == jwt.sign(SubjectClaims(userId), SignOptions(None, None))
  {
  }

  /**
   * An access token is not a refresh token: when the two secrets differ and the
   * library rejects tokens checked under a foreign secret, `verifyRefreshToken`
   * returns `null` for an issued access token, and the other way round.
   */
  lemma TokensAreNotInterchangeable(jwt: JwtLibrary, config: Config, userId: int, accessSecret: string, refreshSecret: string)
    requires Get(config, JwtAccessSecretKey) == Some(accessSecret)
    requires Get(config, JwtRefreshSecretKey) == Some(refreshSecret)
    requires RejectsForeignTokens(jwt, accessSecret, refreshSecret)
    requires RejectsForeignTokens(jwt, refreshSecret, accessSecret)
    ensures GenerateAccessToken(jwt, config, userId).Returned? ==>
      VerifyRefreshToken(jwt, config, GenerateAccessToken(jwt, config, userId).value) == None
    ensures GenerateRefreshToken(jwt, config, userId).Returned? ==>
      VerifyAccessToken(jwt, config, GenerateRefreshToken(jwt, config, userId).value) == None
  {
  }

  /** The payload signed for user 123 is `{ sub: "123" }`. */
  lemma SubjectOfUser123()
    ensures SubjectClaims(123) == map["sub" := "123"]
  {
    assert NatToDecimal(1) == "1";
    assert NatToDecimal(12) == NatToDecimal(1) + [DigitChar(2)] == "12";
    assert NatToDecimal(123) == NatToDecimal(12) + [DigitChar(3)] == "123";
    assert IntToDecimal(123) == "123";
  }

  /**
   * `decodeToken` consults neither the configuration nor the library's
   * `verify`: two libraries that decode alike give the same result whatever
   * they sign and verify. In particular a token that fails both verifiers
   * (expired, or signed under another secret) is still decoded, `null` only
   * when the library's decoding gives `null`.
   */
  lemma DecodeSkipsVerification(jwt1: JwtLibrary, jwt2: JwtLibrary, token: string)
    requires jwt1.decode == jwt2.decode
    ensures DecodeToken(jwt1, token) == DecodeToken(jwt2, token)
    ensures DecodeToken(jwt1, token).None? <==> jwt2.decode(token).None?
  {
  }

  /** The subject of a large bigint id is its full decimal text. */
  lemma LargeSubject()
    ensures SubjectClaims(999999999999999)["sub"] == "999999999999999"
  {
    NinesNumeral(15);
    assert Pow10(15) - 1 == 999999999999999;
    assert seq(15, _ => '9') == "999999999999999";
  }

  /** The numeral of 10^k - 1 is k nines. */
  lemma {:induction false} NinesNumeral(k: nat)
    requires k >= 1
    ensures NatToDecimal(Pow10(k) - 1) == seq(k, _ => '9')
  {
    if k > 1 {
      NinesNumeral(k - 1);
      var n := Pow10(k) - 1;
      assert n == 10 * (Pow10(k - 1) - 1) + 9;
      assert n / 10 == Pow10(k - 1) - 1 && n % 10 == 9;
      assert seq(k, _ => '9') == seq(k - 1, _ => '9') + ['9'];
    }
  }
}
