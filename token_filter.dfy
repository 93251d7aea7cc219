/** JwtTokenFilter.doFilter: the per-request authentication step that runs before the
    authorization decision. */
module TokenFilter {
  import opened Exceptions
  import opened TokenProvider

  /** The response object handed to the chain; its content is not modelled. */
  datatype HttpResponse = HttpResponse(id: nat)

  /** One invocation of chain.doFilter: what was forwarded, and the authentication the
      security context held at that moment. */
  datatype ChainCall = ChainCall(request: HttpRequest, response: HttpResponse,
                                 authentication: Option<Authentication>)

  /** doFilter returns normally (having forwarded) or lets an exception escape. */
  datatype FilterOutcome = Forwarded | Raised(error: Error)

  /** SecurityContextHolder.getContext(): the ambient holder of the request's authentication. */
  class SecurityContext {
    var authentication: Option<Authentication>

    constructor ()
      ensures authentication.None?
    {
      authentication := None;
    }
  }

  /** The authentication doFilter installs for a request: None when it installs nothing,
      a Failure when validateToken or getAuthentication throws. */
  function Authenticate(p: JwtTokenProvider, request: HttpRequest, now: int): (r: Result<Option<Authentication>>)
    reads p
    ensures p.ResolveToken(request).None? ==> r == Success(None)
    ensures (r.Success? && r.value.Some?) <==>
      (p.ResolveToken(request).Some?
       && p.ValidateToken(p.ResolveToken(request).value, now) == Success(true)
       && p.GetAuthentication(p.ResolveToken(request).value, now).Success?)
    ensures r.Success? && r.value.Some? ==>
      r.value.value == p.GetAuthentication(p.ResolveToken(request).value, now).value
    ensures p.ResolveToken(request).Some? && p.ValidateToken(p.ResolveToken(request).value, now) == Success(false)
      ==> r == Success(None)
    ensures r.Failure? <==>
      (p.ResolveToken(request).Some?
       && (p.ValidateToken(p.ResolveToken(request).value, now).Failure?
           || (p.ValidateToken(p.ResolveToken(request).value, now) == Success(true)
               && p.GetAuthentication(p.ResolveToken(request).value, now).Failure?)))
    ensures r.Failure? ==>
      var t := p.ResolveToken(request).value;
      r.error == (if p.ValidateToken(t, now).Failure? then p.ValidateToken(t, now).error
                  else p.GetAuthentication(t, now).error)
  {
    match p.ResolveToken(request)
    case None => Success(None)
    case Some(token) =>
      match p.ValidateToken(token, now)
      case Failure(e) => Failure(e)
      case Success(valid) =>
        if !valid then Success(None)
        else
          match p.GetAuthentication(token, now)
          case Failure(e) => Failure(e)
          case Success(auth) => Success(Some(auth))
  }

  class JwtTokenFilter {
    const tokenProvider: JwtTokenProvider
    /** Every chain.doFilter call made so far, in order. */
    var chainCalls: seq<ChainCall>

    constructor (tokenProvider: JwtTokenProvider)
      ensures this.tokenProvider == tokenProvider && chainCalls == []
    {
      this.tokenProvider := tokenProvider;
      chainCalls := [];
    }

    /** doFilter: set the context's authentication only for a present, unexpired token whose
        subject is found; never clear it; forward exactly once unless an exception escapes. */
    method DoFilter(request: HttpRequest, response: HttpResponse, context: SecurityContext, now: int)
      returns (outcome: FilterOutcome)
      modifies this`chainCalls, context
      ensures var a := Authenticate(tokenProvider, request, now);
        match a
        case Failure(e) =>
          outcome == Raised(e)
          && context.authentication == old(context.authentication) && chainCalls == old(chainCalls)
        case Success(installed) =>
          outcome == Forwarded
          && context.authentication == (if installed.Some? then installed else old(context.authentication))
          && chainCalls == old(chainCalls) + [ChainCall(request, response, context.authentication)]
    {
      var token := tokenProvider.ResolveToken(request);
      if token.Some? {
        var valid := tokenProvider.ValidateToken(token.value, now);
        if valid.Failure? {
          return Raised(valid.error);
        }
        if valid.value {
          var auth := tokenProvider.GetAuthentication(token.value, now);
          if auth.Failure? {
            return Raised(auth.error);
          }
          // getAuthentication always returns a new object, so the null test always passes.
          context.authentication := Some(auth.value);
        }
      }
      chainCalls := chainCalls + [ChainCall(request, response, context.authentication)];
      outcome := Forwarded;
    }
  }

  /** A request without a usable bearer header leaves whatever authentication there was. */
  lemma NoTokenInstallsNothing(p: JwtTokenProvider, request: HttpRequest, now: int)
    requires request.authorization.None? || !JavaStrings.StartsWith(request.authorization.value, BearerPrefix)
    ensures Authenticate(p, request, now) == Success(None)
  {
  }

  /** An expired but well-formed token is silently ignored: no error, nothing installed. */
  lemma ExpiredTokenInstallsNothing(p: JwtTokenProvider, token: string, path: string, now: int)
    requires p.DecodedToken(token, now).Success?
    requires p.DecodedToken(token, now).value.expiresAt.Some?
    requires p.DecodedToken(token, now).value.expiresAt.value < now
    ensures Authenticate(p, HttpRequest(path, Some(BearerPrefix + token)), now) == Success(None)
  {
    var request := HttpRequest(path, Some(BearerPrefix + token));
    assert (BearerPrefix + token)[..|BearerPrefix|] == BearerPrefix;
    assert p.ResolveToken(request) == Some(token);
  }

  /** A token whose subject is not stored makes doFilter throw UsernameNotFoundException:
      the request is not passed on unauthenticated. */
  lemma UnknownSubjectRaises(p: JwtTokenProvider, token: string, path: string, now: int)
    requires p.ValidateToken(token, now) == Success(true)
    requires p.DecodedToken(token, now).value.subject.Some?
    requires p.DecodedToken(token, now).value.subject.value !in p.userRepository
    ensures Authenticate(p, HttpRequest(path, Some(BearerPrefix + token)), now)
            == Failure(UsernameNotFound(Users.NotFoundMessage(p.DecodedToken(token, now).value.subject)))
  {
    var request := HttpRequest(path, Some(BearerPrefix + token));
    assert (BearerPrefix + token)[..|BearerPrefix|] == BearerPrefix;
    assert p.ResolveToken(request) == Some(token);
  }
}
