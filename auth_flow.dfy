/** End-to-end properties of the authentication layer: a token the provider issues
    authenticates its subject until it expires, the refresh token yields a new pair for
    the same subject, and the rule table then decides on what the filter established. */
module AuthFlow {
  import opened Exceptions
  import opened JavaStrings
  import opened JwtLibrary
  import Users
  import opened TokenProvider
  import opened TokenFilter
  import opened Security

  /** The header a client sends with a token. */
  function BearerHeader(token: string): (h: string)
    ensures StartsWith(h, BearerPrefix) && h[|BearerPrefix|..] == token
  {
    assert (BearerPrefix + token)[..|BearerPrefix|] == BearerPrefix;
    BearerPrefix + token
  }

  /** The details UserServices returns for a stored user. */
  function DetailsOf(u: Users.User): Users.UserDetails
  {
    Users.UserDetails(u.userName, u.password, u.authorities)
  }

  /** An issued access token, presented before it expires, installs the stored user as the
      request's principal, with the stored authorities and empty credentials. */
  lemma {:induction false} IssuedAccessTokenAuthenticates(p: JwtTokenProvider, username: string, roles: seq<string>,
                                        issuedAt: int, issuerUrl: string, path: string, now: int)
    requires p.Valid()
    requires username in p.userRepository
    requires RoundTrips(p.jwt, p.algorithm.value,
               AccessClaims(Some(username), Some(roles), issuedAt, issuedAt + p.validityInMilliseconds, issuerUrl), now)
    requires now <= issuedAt + p.validityInMilliseconds
    ensures var pair := p.CreateAccessToken(Some(username), Some(roles), issuedAt, issuerUrl);
            var u := p.userRepository[username];
            Authenticate(p, HttpRequest(path, Some(BearerHeader(pair.accessToken))), now)
            == Success(Some(Authentication(DetailsOf(u), "", u.authorities)))
  {
    var pair := p.CreateAccessToken(Some(username), Some(roles), issuedAt, issuerUrl);
    var request := HttpRequest(path, Some(BearerHeader(pair.accessToken)));
    assert p.ResolveToken(request) == Some(pair.accessToken);
    IssuedAccessTokenValidity(p, Some(username), Some(roles), issuedAt, issuerUrl, now);
    SignedTokensDecode(p, AccessClaims(Some(username), Some(roles), issuedAt,
                                       issuedAt + p.validityInMilliseconds, issuerUrl), now);
  }

  /** An issued access token presented after its expiry, to a library that still accepts it
      then, installs nothing and raises nothing: validateToken's own expiry test returns false. */
  lemma {:induction false} ExpiredAccessTokenIgnored(p: JwtTokenProvider, username: Option<string>, roles: Option<seq<string>>,
                                   issuedAt: int, issuerUrl: string, path: string, now: int)
    requires p.Valid()
    requires RoundTrips(p.jwt, p.algorithm.value,
               AccessClaims(username, roles, issuedAt, issuedAt + p.validityInMilliseconds, issuerUrl), now)
    requires issuedAt + p.validityInMilliseconds < now
    ensures var pair := p.CreateAccessToken(username, roles, issuedAt, issuerUrl);
            Authenticate(p, HttpRequest(path, Some(BearerHeader(pair.accessToken))), now) == Success(None)
  {
    var pair := p.CreateAccessToken(username, roles, issuedAt, issuerUrl);
    var request := HttpRequest(path, Some(BearerHeader(pair.accessToken)));
    assert p.ResolveToken(request) == Some(pair.accessToken);
    IssuedAccessTokenValidity(p, username, roles, issuedAt, issuerUrl, now);
  }

  /** The same expired token sent to a library that checks the expiry itself is rejected by
      the verifier inside decodedToken, and that exception escapes doFilter: the request is
      rejected, not passed on unauthenticated. */
  lemma {:induction false} ExpiredAccessTokenRaises(p: JwtTokenProvider, username: Option<string>, roles: Option<seq<string>>,
                                  issuedAt: int, issuerUrl: string, path: string, now: int)
    requires p.Valid()
    requires EnforcesExpiry(p.jwt)
    requires ReportsOnly(p.jwt, p.algorithm.value,
               AccessClaims(username, roles, issuedAt, issuedAt + p.validityInMilliseconds, issuerUrl), now)
    requires issuedAt + p.validityInMilliseconds < now
    ensures var pair := p.CreateAccessToken(username, roles, issuedAt, issuerUrl);
            var v := p.jwt.verify(p.algorithm.value, pair.accessToken, now);
            var request := HttpRequest(path, Some(BearerHeader(pair.accessToken)));
            v.Rejected?
            && Authenticate(p, request, now) == Failure(JWTVerification(v.reason))
            && RequestDecision(p, request, now) == RequestOutcome.Rejected(JWTVerification(v.reason))
  {
    var pair := p.CreateAccessToken(username, roles, issuedAt, issuerUrl);
    ExpiredIssuedTokenThrows(p, username, roles, issuedAt, issuerUrl, now);
    var request := HttpRequest(path, Some(BearerHeader(pair.accessToken)));
    assert p.ResolveToken(request) == Some(pair.accessToken);
  }

  /** A protected API request carrying a live access token of a stored user is permitted;
      once the token has expired, a library that still accepts it leaves the same request
      denied (a library that checks expiry rejects it instead: ExpiredAccessTokenRaises). */
  lemma {:induction false} ApiRequestWithIssuedToken(p: JwtTokenProvider, username: string, roles: seq<string>,
                                   issuedAt: int, issuerUrl: string, path: string, now: int)
    requires p.Valid()
    requires username in p.userRepository
    requires RoundTrips(p.jwt, p.algorithm.value,
               AccessClaims(Some(username), Some(roles), issuedAt, issuedAt + p.validityInMilliseconds, issuerUrl), now)
    requires Matches(Subtree("/api"), path)
    ensures var pair := p.CreateAccessToken(Some(username), Some(roles), issuedAt, issuerUrl);
            RequestDecision(p, HttpRequest(path, Some(BearerHeader(pair.accessToken))), now)
            == Decided(if now <= issuedAt + p.validityInMilliseconds then Permit else Deny)
  {
    var ttl := p.validityInMilliseconds;
    if now <= issuedAt + ttl {
      IssuedAccessTokenAuthenticates(p, username, roles, issuedAt, issuerUrl, path, now);
      ApiRequiresAuthentication(path, true);
    } else {
      ExpiredAccessTokenIgnored(p, Some(username), Some(roles), issuedAt, issuerUrl, path, now);
      ApiRequiresAuthentication(path, false);
    }
  }

  /** Without an Authorization header a protected API request is denied, while sign-in,
      refresh and the documentation are permitted. */
  lemma {:induction false} NoHeaderDecisions(p: JwtTokenProvider, path: string, now: int)
    ensures Matches(Subtree("/api"), path) ==> RequestDecision(p, HttpRequest(path, None), now) == Decided(Deny)
    ensures path == "/auth/signin" || Matches(Subtree("/auth/refresh"), path)
            || Matches(Subtree("/swagger-ui"), path) || Matches(Subtree("/v3/api-docs"), path)
            ==> RequestDecision(p, HttpRequest(path, None), now) == Decided(Permit)
  {
    NoTokenInstallsNothing(p, HttpRequest(path, None), now);
    if Matches(Subtree("/api"), path) {
      ApiRequiresAuthentication(path, false);
    }
    if path == "/auth/signin" || Matches(Subtree("/auth/refresh"), path)
       || Matches(Subtree("/swagger-ui"), path) || Matches(Subtree("/v3/api-docs"), path) {
      PublicPathsPermitted(path, false);
    }
  }

  /** Refreshing the refresh token of an issued pair, sent bare or as a bearer header,
      yields a new pair for the same subject and roles, issued at the refresh time; when
      that is later than the original issue, the new access token expires later. */
  lemma {:induction false} RefreshOfIssuedPair(p: JwtTokenProvider, username: Option<string>, roles: Option<seq<string>>,
                             issuedAt: int, issuerUrl: string, now: int)
    requires p.Valid()
    requires RoundTrips(p.jwt, p.algorithm.value,
               RefreshClaims(username, roles, issuedAt, issuedAt + p.validityInMilliseconds * 3), now)
    requires IsCompact(Strip(p.jwt.sign(p.algorithm.value,
                                        RefreshClaims(username, roles, issuedAt, issuedAt + p.validityInMilliseconds * 3))))
    ensures var pair := p.CreateAccessToken(username, roles, issuedAt, issuerUrl);
            var renewed := p.CreateAccessToken(username, roles, now, issuerUrl);
            p.Refreshed(pair.refreshToken, now, issuerUrl) == Success(renewed)
            && p.Refreshed(BearerHeader(pair.refreshToken), now, issuerUrl) == Success(renewed)
            && renewed.username == pair.username
            && renewed.accessToken == p.GetAccessToken(username, roles, now, now + p.validityInMilliseconds, issuerUrl)
            && (issuedAt < now ==> pair.expiration < renewed.expiration)
  {
    var pair := p.CreateAccessToken(username, roles, issuedAt, issuerUrl);
    CompactHasNoSpace(pair.refreshToken, BearerPrefix);
    RefreshStripsHeaderPrefix(pair.refreshToken);
    assert BearerHeader(pair.refreshToken) == BearerPrefix + pair.refreshToken;
  }

  /** A library that checks expiry refuses the refresh token of a pair once it has expired,
      three TTLs after issue: refreshToken then throws, bare token or bearer header alike. */
  lemma {:induction false} ExpiredRefreshTokenFails(p: JwtTokenProvider, username: Option<string>, roles: Option<seq<string>>,
                                  issuedAt: int, issuerUrl: string, now: int)
    requires p.Valid()
    requires EnforcesExpiry(p.jwt)
    requires ReportsOnly(p.jwt, p.algorithm.value,
               RefreshClaims(username, roles, issuedAt, issuedAt + p.validityInMilliseconds * 3), now)
    requires IsCompact(Strip(p.jwt.sign(p.algorithm.value,
                                        RefreshClaims(username, roles, issuedAt, issuedAt + p.validityInMilliseconds * 3))))
    requires issuedAt + p.validityInMilliseconds * 3 < now
    ensures var pair := p.CreateAccessToken(username, roles, issuedAt, issuerUrl);
            p.Refreshed(pair.refreshToken, now, issuerUrl).Failure?
            && p.Refreshed(BearerHeader(pair.refreshToken), now, issuerUrl).Failure?
  {
    var pair := p.CreateAccessToken(username, roles, issuedAt, issuerUrl);
    var c := RefreshClaims(username, roles, issuedAt, issuedAt + p.validityInMilliseconds * 3);
    assert pair.refreshToken == Strip(p.jwt.sign(p.algorithm.value, c));
    CompactHasNoSpace(pair.refreshToken, BearerPrefix);
    RefreshStripsHeaderPrefix(pair.refreshToken);
    assert BearerHeader(pair.refreshToken) == BearerPrefix + pair.refreshToken;
    var v := p.jwt.verify(p.algorithm.value, pair.refreshToken, now);
    if v.Verified? {
      assert false;
    }
  }
}
