/**
 * `JwtAuthGuard` of `src/auth/guards/jwt-auth.guard.ts`: admits a request
 * only if its `Authorization` header carries a bearer token that verifies
 * under the access secret, and then records the token's payload on the
 * request as `req.user`. Every failure is an `UnauthorizedException`, with
 * one message for a missing token and one for every verification failure.
 */
module AuthGuard {
  import opened Wrappers
  import opened Strings
  import opened Collaborators
  import TokenService

  const MissingTokenMessage: string := "Authorization 헤더의 Bearer 토큰이 없습니다."
  const InvalidTokenMessage: string := "유효하지 않거나 만료된 토큰입니다."

  /** NestJS's `UnauthorizedException` (HTTP 401) with its message. */
  datatype UnauthorizedException = UnauthorizedException(message: string)

  // ---------------------------------------------------------------------------
  // extractToken
  // ---------------------------------------------------------------------------

  /**
   * Reference description of a header from which a token is accepted: the
   * six letters of `bearer` in any case, one space, a non-empty token without
   * spaces, and then either the end of the header or a further space (what
   * follows that space is ignored).
   */
  predicate BearerCredentials(header: string, token: string)
  {
    && |token| > 0 && ' ' !in token
    && |header| >= 7 + |token|
    && ToLower(header[..6]) == "bearer"
    && header[6] == ' '
    && header[7..7 + |token|] == token
    && (|header| == 7 + |token| || header[7 + |token|] == ' ')
  }

  /**
   * `extractToken(req)`: no header or an empty one gives `null`; otherwise the
   * header is split on single spaces and the second piece is the token when the
   * first piece lower-cases to `bearer` and the second piece is non-empty.
   * Every token it returns is one `BearerCredentials` accepts.
   */
  function ExtractToken(authorization: Option<string>): (token: Option<string>)
    ensures token.Some? ==> authorization.Some? && BearerCredentials(authorization.value, token.value)
  {
    match authorization
    case None => None
    case Some(auth) =>
      if auth == [] then None
      else
        var pieces := Split(auth, ' ');
        var scheme := pieces[0];
        if ToLower(scheme) == "bearer" && |pieces| >= 2 && pieces[1] != [] then
          SplitLayout(auth, pieces);
          Some(pieces[1])
        else None
  }

  /** How the first two pieces of a split header sit in the header. */
  lemma SplitLayout(auth: string, pieces: seq<string>)
    requires pieces == Split(auth, ' ') && |pieces| >= 2
    ensures auth == pieces[0] + [' '] + pieces[1] + (if |pieces| == 2 then [] else [' '] + Join(pieces[2..], ' '))
  {
    var rest := pieces[1..];
    assert Join(pieces, ' ') == pieces[0] + [' '] + Join(rest, ' ');
    if |pieces| == 2 {
      assert Join(rest, ' ') == pieces[1];
    } else {
      assert rest[1..] == pieces[2..];
      assert Join(rest, ' ') == pieces[1] + [' '] + Join(pieces[2..], ' ');
    }
  }

  /** A character lower-cases to a space only if it is a space. */
  lemma NoSpaceInScheme(scheme: string)
    requires ToLower(scheme) == "bearer"
    ensures |scheme| == 6 && ' ' !in scheme
  {
    forall i | 0 <= i < |scheme|
      ensures scheme[i] != ' '
    {
      assert ToLower(scheme)[i] == LowerChar(scheme[i]);
    }
  }

  /** Completeness: every header `BearerCredentials` accepts yields its token. */
  lemma ExtractTokenComplete(header: string, token: string)
    requires BearerCredentials(header, token)
    ensures ExtractToken(Some(header)) == Some(token)
  {
    var scheme := header[..6];
    var tail := header[7 + |token|..];
    NoSpaceInScheme(scheme);
    assert header == scheme + [' '] + (token + tail);
    SplitAfterPiece(scheme, ' ', token + tail);
    if tail == [] {
      assert token + tail == token;
      SplitWithoutSeparator(token, ' ');
    } else {
      assert token + tail == token + [' '] + tail[1..];
      SplitAfterPiece(token, ' ', tail[1..]);
    }
    var pieces := Split(header, ' ');
    assert pieces[0] == scheme && pieces[1] == token;
  }

  /** A plain bearer header yields its token. */
  lemma ExtractTokenPlainExample()
    ensures ExtractToken(Some("Bearer abc")) == Some("abc")
  {
    Accepted("Bearer abc", "abc");
  }

  /** The scheme is matched in any letter case. */
  lemma ExtractTokenSchemeCaseExample()
    ensures ExtractToken(Some("bEaReR abc")) == Some("abc")
  {
    Accepted("bEaReR abc", "abc");
  }

  /** Pieces after the token are ignored. */
  lemma ExtractTokenExtraPiecesExample()
    ensures ExtractToken(Some("Bearer a b")) == Some("a")
  {
    Accepted("Bearer a b", "a");
  }

  /**
   * A doubled space, a missing token, another scheme, an empty or an absent
   * header all give `null`.
   */
  lemma ExtractTokenRefusesExamples()
    ensures ExtractToken(Some("Bearer  a")) == None
    ensures ExtractToken(Some("Bearer")) == None
    ensures ExtractToken(Some("Bearer ")) == None
    ensures ExtractToken(Some("Basic abc")) == None
    ensures ExtractToken(Some("")) == None
    ensures ExtractToken(None) == None
  {
    Refused("Bearer  a");
    Refused("Bearer");
    Refused("Bearer ");
    Refused("Basic abc");
  }

  lemma Accepted(header: string, token: string)
    requires BearerCredentials(header, token)
    ensures ExtractToken(Some(header)) == Some(token)
  {
    ExtractTokenComplete(header, token);
  }

  /** A header that `BearerCredentials` accepts for no token yields `null`. */
  lemma Refused(header: string)
    requires |header| < 8 || ToLower(header[..6]) != "bearer" || header[6] != ' ' || header[7] == ' '
    ensures ExtractToken(Some(header)) == None
  {
  }

  // ---------------------------------------------------------------------------
  // canActivate
  // ---------------------------------------------------------------------------

  /**
   * The guard's verdict on a header: the payload to record, or the exception to
   * throw. Verification uses the access secret only.
   */
  function Authenticate(jwt: JwtLibrary, config: Config, authorization: Option<string>): (verdict: Result<Claims, UnauthorizedException>)
    ensures verdict == Failure(UnauthorizedException(MissingTokenMessage)) <==> ExtractToken(authorization).None?
    ensures verdict.Failure? ==> verdict.error.message == MissingTokenMessage || verdict.error.message == InvalidTokenMessage
    ensures verdict.Success? <==>
      ExtractToken(authorization).Some? &&
      TokenService.VerifyAccessToken(jwt, config, ExtractToken(authorization).value).Some?
    ensures verdict.Success? ==>
      Some(verdict.value) == TokenService.VerifyAccessToken(jwt, config, ExtractToken(authorization).value)
  {
    match ExtractToken(authorization)
    case None => Failure(UnauthorizedException(MissingTokenMessage))
    case Some(token) =>
      match jwt.verify(token, VerifyOptions(Get(config, JwtAccessSecretKey)))
      case Returned(payload) => Success(payload)
      case Threw(_) => Failure(UnauthorizedException(InvalidTokenMessage))
  }

  /** The request object as the guard sees it: the header it reads and the `user` slot it fills. */
  class Request {
    const authorization: Option<string>
    var user: Option<Claims>

    constructor(authorization: Option<string>)
      ensures this.authorization == authorization && user == None
    {
      this.authorization := authorization;
      user := None;
    }
  }

  class JwtAuthGuard {
    const jwt: JwtLibrary
    const config: Config

    constructor(jwt: JwtLibrary, config: Config)
      ensures this.jwt == jwt && this.config == config
    {
      this.jwt := jwt;
      this.config := config;
    }

    /**
     * `canActivate(context)`: returns `true` after recording the verified payload
     * as `req.user`, or throws (`Failure`) leaving the request untouched. It
     * never returns `false`.
     */
    method CanActivate(req: Request) returns (r: Result<bool, UnauthorizedException>)
      modifies req
      ensures r != Success(false)
      ensures var verdict := Authenticate(jwt, config, req.authorization);
        && (verdict.Success? ==> r == Success(true) && req.user == Some(verdict.value))
        && (verdict.Failure? ==> r == Failure(verdict.error) && req.user == old(req.user))
    {
      var token := ExtractToken(req.authorization);
      if token.None? {
        return Failure(UnauthorizedException(MissingTokenMessage));
      }
      var outcome := jwt.verify(token.value, VerifyOptions(Get(config, JwtAccessSecretKey)));
      if outcome.Threw? {
        return Failure(UnauthorizedException(InvalidTokenMessage));
      }
      req.user := Some(outcome.value);
      return Success(true);
    }
  }

  // ---------------------------------------------------------------------------
  // properties
  // ---------------------------------------------------------------------------

  /** Without a token the verdict does not depend on the JWT library at all: the verifier is never consulted. */
  lemma MissingTokenSkipsVerifier(jwt1: JwtLibrary, jwt2: JwtLibrary, config: Config, authorization: Option<string>)
    requires ExtractToken(authorization).None?
    ensures Authenticate(jwt1, config, authorization) == Authenticate(jwt2, config, authorization)
  {
  }

  /** Configurations that agree on `JWT_ACCESS_SECRET` give the same verdict. */
  lemma VerdictReadsOnlyAccessSecret(jwt: JwtLibrary, c1: Config, c2: Config, authorization: Option<string>)
    requires AgreeOn(c1, c2, {JwtAccessSecretKey})
    ensures Authenticate(jwt, c1, authorization) == Authenticate(jwt, c2, authorization)
  {
    assert Get(c1, JwtAccessSecretKey) == Get(c2, JwtAccessSecretKey);
  }

  /**
   * An access token issued by `TokenService`, presented as `Bearer <token>`, is
   * admitted and its recorded subject is the user id, provided the library
   * accepts its own tokens and the token has no spaces (as a compact JWT has not).
   */
  lemma GuardAdmitsIssuedAccessToken(jwt: JwtLibrary, config: Config, userId: int, secret: string, token: string)
    requires Get(config, JwtAccessSecretKey) == Some(secret)
    requires AcceptsOwnTokens(jwt, secret)
    requires TokenService.GenerateAccessToken(jwt, config, userId) == Returned(token)
    requires token != [] && ' ' !in token
    ensures var verdict := Authenticate(jwt, config, Some("Bearer " + token));
      verdict.Success? && "sub" in verdict.value && ParseInteger(verdict.value["sub"]) == Some(userId)
  {
    BearerHeader(token);
  }

  /** `Bearer <token>` carries the token, for any non-empty token without spaces. */
  lemma BearerHeader(token: string)
    requires token != [] && ' ' !in token
    ensures ExtractToken(Some("Bearer " + token)) == Some(token)
  {
    var header := "Bearer " + token;
    assert header[..6] == "Bearer" && header[7..7 + |token|] == token;
    ExtractTokenComplete(header, token);
  }

  /**
   * A refresh token is refused by the guard when the refresh and access secrets
   * differ and the library rejects tokens checked under a foreign secret.
   */
  lemma GuardRejectsRefreshToken(jwt: JwtLibrary, config: Config, userId: int, accessSecret: string, refreshSecret: string, token: string)
    requires Get(config, JwtAccessSecretKey) == Some(accessSecret)
    requires Get(config, JwtRefreshSecretKey) == Some(refreshSecret)
    requires RejectsForeignTokens(jwt, refreshSecret, accessSecret)
    requires TokenService.GenerateRefreshToken(jwt, config, userId) == Returned(token)
    requires token != [] && ' ' !in token
    ensures Authenticate(jwt, config, Some("Bearer " + token)).Failure?
  {
    BearerHeader(token);
  }
}
