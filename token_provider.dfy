/** JwtTokenProvider: issues access and refresh tokens, refreshes them, extracts the
    bearer token of a request, validates expiry and builds the request's Authentication. */
module TokenProvider {
  import opened Exceptions
  import opened JavaStrings
  import opened JwtLibrary
  import Users

  const BearerPrefix: string := "Bearer "

  /** The incoming request, reduced to what the core reads: its path and its
      Authorization header (None when the header is absent). */
  datatype HttpRequest = HttpRequest(path: string, authorization: Option<string>)

  /** TokenVO: the response payload of sign-in and refresh. */
  datatype TokenVO = TokenVO(
    username: Option<string>,
    authenticated: bool,
    created: int,
    expiration: int,
    accessToken: string,
    refreshToken: string)

  /** UsernamePasswordAuthenticationToken(principal, credentials, authorities). */
  datatype Authentication = Authentication(
    principal: Users.UserDetails,
    credentials: string,
    authorities: seq<string>)

  /** The claims getAccessToken writes. */
  function AccessClaims(username: Option<string>, roles: Option<seq<string>>, now: int, validity: int,
                        issuerUrl: string): Claims
  {
    Claims(roles, Some(now), Some(validity), username, Some(issuerUrl))
  }

  /** The claims getRefreshToken writes: no issuer. */
  function RefreshClaims(username: Option<string>, roles: Option<seq<string>>, now: int, validity: int): Claims
  {
    Claims(roles, Some(now), Some(validity), username, None)
  }

  /** Access and refresh claims agree on subject, roles and issued-at; only the access
      claims carry an issuer, and they differ in nothing else but the expiry. */
  lemma AccessAndRefreshClaimsAgree(username: Option<string>, roles: Option<seq<string>>, now: int,
                                    accessValidity: int, refreshValidity: int, issuerUrl: string)
    ensures var a := AccessClaims(username, roles, now, accessValidity, issuerUrl);
            var r := RefreshClaims(username, roles, now, refreshValidity);
            a.subject == r.subject == username && a.roles == r.roles == roles
            && a.issuedAt == r.issuedAt == Some(now)
            && a.issuer == Some(issuerUrl) && r.issuer.None?
            && a.expiresAt == Some(accessValidity) && r.expiresAt == Some(refreshValidity)
            && a.(issuer := None, expiresAt := r.expiresAt) == r
  {
  }

  /** The token "refreshToken" reads once its "Bearer " handling is done (lines 59-60). */
  function StripBearerForRefresh(token: string): (r: string)
    ensures !Contains(token, BearerPrefix) ==> r == token
    ensures Contains(token, BearerPrefix) ==> |r| + |BearerPrefix| == |token| && r == token[|BearerPrefix|..]
    ensures StartsWith(token, BearerPrefix) ==> BearerPrefix + r == token
  {
    if Contains(token, BearerPrefix) then
      ContainsIsLongEnough(token, BearerPrefix);
      token[|BearerPrefix|..]
    else
      token
  }

  /** An occurrence of "Bearer " that is not at the front still costs the first seven
      characters: "xBearer abc" becomes " abc". */
  lemma RefreshDropsSevenCharsWherever()
    ensures StripBearerForRefresh("xBearer abc") == " abc"
  {
    var header := "xBearer abc";
    assert header[1..8] == BearerPrefix;
    OccurrenceContains(header, BearerPrefix, 1);
    assert header[7..] == " abc";
  }

  /** The header form a client sends to the refresh endpoint is stripped back to the token. */
  lemma RefreshStripsHeaderPrefix(token: string)
    ensures StripBearerForRefresh(BearerPrefix + token) == token
  {
    PrefixContains(BearerPrefix + token, BearerPrefix);
  }

  class JwtTokenProvider {
    /** The configured secret; replaced by its Base64 encoding in Init. */
    var secretKey: string
    /** The access-token lifetime in milliseconds. */
    const validityInMilliseconds: int
    /** The user lookup UserServices performs, through its repository. */
    const userRepository: Users.UserRepository
    /** The JWT and Base64 library calls. */
    const jwt: Library
    /** The signing algorithm; null until Init. */
    var algorithm: Option<Algorithm>

    /** The provider once Init has run: its algorithm is keyed by the current secretKey,
        the one decodedToken derives its verifier from. */
    ghost predicate Valid()
      reads this
    {
      algorithm == Some(HMAC256(secretKey))
    }

    constructor (secretKey: string, validityInMilliseconds: int, userRepository: Users.UserRepository, jwt: Library)
      ensures this.secretKey == secretKey && this.validityInMilliseconds == validityInMilliseconds
      ensures this.userRepository == userRepository && this.jwt == jwt
      ensures algorithm.None?
    {
      this.secretKey := secretKey;
      this.validityInMilliseconds := validityInMilliseconds;
      this.userRepository := userRepository;
      this.jwt := jwt;
      this.algorithm := None;
    }

    /** init (@PostConstruct): Base64-encode the secret, then key HMAC256 with the encoded bytes. */
    method Init()
      modifies this
      ensures secretKey == jwt.base64Encode(old(secretKey))
      ensures algorithm == Some(HMAC256(secretKey))
      ensures Valid()
    {
      secretKey := jwt.base64Encode(secretKey);
      algorithm := Some(HMAC256(secretKey));
    }

    /** getAccessToken: the signed, stripped access token; at the instant it is issued, a
        library that verifies what it signed decodes it to exactly the claims written. */
    function GetAccessToken(username: Option<string>, roles: Option<seq<string>>, now: int, validity: int,
                            issuerUrl: string): (t: string)
      reads this
      requires Valid()
      ensures RoundTrips(jwt, algorithm.value, AccessClaims(username, roles, now, validity, issuerUrl), now) ==>
        DecodedToken(t, now) == Success(AccessClaims(username, roles, now, validity, issuerUrl))
    {
      Strip(jwt.sign(algorithm.value, AccessClaims(username, roles, now, validity, issuerUrl)))
    }

    /** getRefreshToken: signed claims without an issuer, valid three times as long; at the
        instant it is issued, it decodes to exactly those claims. */
    function GetRefreshToken(username: Option<string>, roles: Option<seq<string>>, now: int): (t: string)
      reads this
      requires Valid()
      ensures RoundTrips(jwt, algorithm.value, RefreshClaims(username, roles, now, now + validityInMilliseconds * 3), now) ==>
        DecodedToken(t, now) == Success(RefreshClaims(username, roles, now, now + validityInMilliseconds * 3))
    {
      Strip(jwt.sign(algorithm.value, RefreshClaims(username, roles, now, now + validityInMilliseconds * 3)))
    }

    /** createAccessToken: the token pair issued at `now`. */
    function CreateAccessToken(username: Option<string>, roles: Option<seq<string>>, now: int,
                               issuerUrl: string): (r: TokenVO)
      reads this
      requires Valid()
      ensures r.username == username && r.authenticated
      ensures r.created == now && r.expiration == now + validityInMilliseconds
      ensures r.accessToken == GetAccessToken(username, roles, now, now + validityInMilliseconds, issuerUrl)
      ensures r.refreshToken == GetRefreshToken(username, roles, now)
    {
      TokenVO(username, true, now, now + validityInMilliseconds,
              GetAccessToken(username, roles, now, now + validityInMilliseconds, issuerUrl),
              GetRefreshToken(username, roles, now))
    }

    /** What refreshToken returns at time `now`: verify the stripped token under the current
        algorithm, then issue a fresh pair for its subject and roles claims. */
    function Refreshed(refreshToken: string, now: int, issuerUrl: string): (r: Result<TokenVO>)
      reads this
      requires Valid()
      ensures r.Success? <==> jwt.verify(algorithm.value, StripBearerForRefresh(refreshToken), now).Verified?
      ensures r.Success? ==>
        var c := jwt.verify(algorithm.value, StripBearerForRefresh(refreshToken), now).claims;
        r.value.username == c.subject && r.value.created == now
        && r.value.expiration == now + validityInMilliseconds
        && r.value == CreateAccessToken(c.subject, c.roles, now, issuerUrl)
      ensures r.Failure? ==>
        r.error == JWTVerification(jwt.verify(algorithm.value, StripBearerForRefresh(refreshToken), now).reason)
    {
      match jwt.verify(algorithm.value, StripBearerForRefresh(refreshToken), now)
      case Verified(c) => Success(CreateAccessToken(c.subject, c.roles, now, issuerUrl))
      case Rejected(reason) => Failure(JWTVerification(reason))
    }

    /** refreshToken: the parameter is reassigned, then verified. */
    method RefreshToken(refreshToken: string, now: int, issuerUrl: string) returns (r: Result<TokenVO>)
      requires Valid()
      ensures r == Refreshed(refreshToken, now, issuerUrl)
    {
      var token := refreshToken;
      if Contains(token, BearerPrefix) {
        ContainsIsLongEnough(token, BearerPrefix);
        token := token[|BearerPrefix|..];
      }
      var decoded := jwt.verify(algorithm.value, token, now);
      if decoded.Rejected? {
        return Failure(JWTVerification(decoded.reason));
      }
      var username := decoded.claims.subject;
      var roles := decoded.claims.roles;
      r := Success(CreateAccessToken(username, roles, now, issuerUrl));
    }

    /** decodedToken at time `now`: verify under a fresh HMAC256 keyed by the current secretKey. */
    function DecodedToken(token: string, now: int): (r: Result<Claims>)
      reads this
      ensures r.Success? <==> jwt.verify(HMAC256(secretKey), token, now).Verified?
      ensures r.Success? ==> Verified(r.value) == jwt.verify(HMAC256(secretKey), token, now)
      ensures r.Failure? ==> r.error == JWTVerification(jwt.verify(HMAC256(secretKey), token, now).reason)
    {
      match jwt.verify(HMAC256(secretKey), token, now)
      case Verified(c) => Success(c)
      case Rejected(reason) => Failure(JWTVerification(reason))
    }

    /** getAuthentication: the principal comes from looking up the token's subject, and its
        authorities from the stored user, never from the token's roles claim. */
    function GetAuthentication(token: string, now: int): (r: Result<Authentication>)
      reads this
      ensures DecodedToken(token, now).Failure? ==> r == Failure(DecodedToken(token, now).error)
      ensures DecodedToken(token, now).Success? ==>
        var lookup := Users.LoadUserByUsername(userRepository, DecodedToken(token, now).value.subject);
        (lookup.Failure? ==> r == Failure(lookup.error))
        && (lookup.Success? ==> r == Success(Authentication(lookup.value, "", lookup.value.authorities)))
    {
      match DecodedToken(token, now)
      case Failure(e) => Failure(e)
      case Success(claims) =>
        match Users.LoadUserByUsername(userRepository, claims.subject)
        case Failure(e) => Failure(e)
        case Success(details) => Success(Authentication(details, "", details.authorities))
    }

    /** resolveToken: the Authorization header minus "Bearer ", or null. */
    function ResolveToken(request: HttpRequest): (r: Option<string>)
      ensures r.None? <==> request.authorization.None? || !StartsWith(request.authorization.value, BearerPrefix)
      ensures r.Some? ==> BearerPrefix + r.value == request.authorization.value
    {
      match request.authorization
      case None => None
      case Some(header) =>
        if StartsWith(header, BearerPrefix) then
          assert header == header[..|BearerPrefix|] + header[|BearerPrefix|..];
          Some(header[|BearerPrefix|..])
        else None
    }

    /** validateToken: a decoding failure propagates as thrown; a missing expiry becomes
        InvalidJwtAuthenticationException; otherwise valid exactly when exp is not before now. */
    function ValidateToken(token: string, now: int): (r: Result<bool>)
      reads this
      ensures DecodedToken(token, now).Failure? ==> r == Failure(DecodedToken(token, now).error)
      ensures DecodedToken(token, now).Success? && DecodedToken(token, now).value.expiresAt.None? ==>
        r == Failure(InvalidJwtAuthentication(ExpiredOrInvalidMessage))
      ensures DecodedToken(token, now).Success? && DecodedToken(token, now).value.expiresAt.Some? ==>
        r == Success(now <= DecodedToken(token, now).value.expiresAt.value)
    {
      match DecodedToken(token, now)
      case Failure(e) => Failure(e)
      case Success(decoded) =>
        match decoded.expiresAt
        case None => Failure(InvalidJwtAuthentication(ExpiredOrInvalidMessage))
        case Some(exp) => if exp < now then Success(false) else Success(true)
    }
  }

  /** After Init, the verifier of decodedToken accepts what the provider signed: both use
      HMAC256 keyed by the same encoded secret. */
  lemma {:induction false} SignedTokensDecode(p: JwtTokenProvider, c: Claims, now: int)
    requires p.Valid()
    requires RoundTrips(p.jwt, p.algorithm.value, c, now)
    ensures p.DecodedToken(Strip(p.jwt.sign(p.algorithm.value, c)), now) == Success(c)
  {
  }

  /** The refresh token outlives the access token issued with it, by twice the TTL. */
  lemma RefreshOutlivesAccess(p: JwtTokenProvider, username: Option<string>, roles: Option<seq<string>>,
                              now: int, issuerUrl: string, at: int)
    requires p.Valid() && p.validityInMilliseconds >= 0
    requires RoundTrips(p.jwt, p.algorithm.value, RefreshClaims(username, roles, now, now + p.validityInMilliseconds * 3), at)
    ensures var pair := p.CreateAccessToken(username, roles, now, issuerUrl);
            var d := p.DecodedToken(pair.refreshToken, at);
            d.Success? && d.value.expiresAt == Some(now + p.validityInMilliseconds * 3)
            && d.value.expiresAt.value - pair.expiration == 2 * p.validityInMilliseconds
            && d.value.expiresAt.value >= pair.expiration
            && d.value.issuedAt == Some(pair.created)
  {
    var c := RefreshClaims(username, roles, now, now + p.validityInMilliseconds * 3);
    var pair := p.CreateAccessToken(username, roles, now, issuerUrl);
    assert pair.refreshToken == Strip(p.jwt.sign(p.algorithm.value, c));
    SignedTokensDecode(p, c, at);
    var ttl := p.validityInMilliseconds;
    assert p.DecodedToken(pair.refreshToken, at) == Success(c);
    assert pair.expiration == now + ttl && pair.created == now;
    assert c.expiresAt.value == now + ttl * 3;
  }

  /** Validation of an issued access token by a library that accepts it at `now`: true at
      every time up to and including its expiry, false (not an exception) at every later time. */
  lemma IssuedAccessTokenValidity(p: JwtTokenProvider, username: Option<string>, roles: Option<seq<string>>,
                                  issuedAt: int, issuerUrl: string, now: int)
    requires p.Valid()
    requires RoundTrips(p.jwt, p.algorithm.value,
                        AccessClaims(username, roles, issuedAt, issuedAt + p.validityInMilliseconds, issuerUrl), now)
    ensures p.ValidateToken(p.CreateAccessToken(username, roles, issuedAt, issuerUrl).accessToken, now)
            == Success(now <= issuedAt + p.validityInMilliseconds)
  {
    SignedTokensDecode(p, AccessClaims(username, roles, issuedAt, issuedAt + p.validityInMilliseconds, issuerUrl), now);
  }

  /** An issued access token presented after its expiry to a library that checks expiry:
      the verifier rejects it, and validateToken throws that rejection from line 121
      instead of returning false. */
  lemma {:induction false} ExpiredIssuedTokenThrows(p: JwtTokenProvider, username: Option<string>,
                                                    roles: Option<seq<string>>, issuedAt: int, issuerUrl: string, now: int)
    requires p.Valid()
    requires EnforcesExpiry(p.jwt)
    requires ReportsOnly(p.jwt, p.algorithm.value,
                         AccessClaims(username, roles, issuedAt, issuedAt + p.validityInMilliseconds, issuerUrl), now)
    requires issuedAt + p.validityInMilliseconds < now
    ensures var t := p.CreateAccessToken(username, roles, issuedAt, issuerUrl).accessToken;
            var v := p.jwt.verify(p.algorithm.value, t, now);
            v.Rejected? && p.ValidateToken(t, now) == Failure(JWTVerification(v.reason))
  {
    var c := AccessClaims(username, roles, issuedAt, issuedAt + p.validityInMilliseconds, issuerUrl);
    var t := Strip(p.jwt.sign(p.algorithm.value, c));
    assert p.CreateAccessToken(username, roles, issuedAt, issuerUrl).accessToken == t;
    if p.jwt.verify(p.algorithm.value, t, now).Verified? {
      assert false;
    }
  }

  /** Under a library that checks the expiry itself, validateToken never returns false: an
      expired token is rejected by the verifier, and that exception propagates from line 121. */
  lemma {:induction false} ExpiryCheckingLibraryNeverYieldsFalse(p: JwtTokenProvider, token: string, now: int)
    requires EnforcesExpiry(p.jwt)
    ensures p.ValidateToken(token, now) != Success(false)
  {
    var v := p.jwt.verify(HMAC256(p.secretKey), token, now);
    if v.Verified? && v.claims.expiresAt.Some? {
      assert now <= v.claims.expiresAt.value;
    }
  }

  /** The token's roles claim plays no part in the Authentication: two tokens whose claims
      differ only in roles authenticate identically. */
  lemma AuthenticationIgnoresRolesClaim(p: JwtTokenProvider, t1: string, t2: string, now: int)
    requires p.DecodedToken(t1, now).Success? && p.DecodedToken(t2, now).Success?
    requires p.DecodedToken(t1, now).value.subject == p.DecodedToken(t2, now).value.subject
    ensures p.GetAuthentication(t1, now) == p.GetAuthentication(t2, now)
  {
  }
}
