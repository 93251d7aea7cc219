/** SecurityConfig.securityFilterChain: where the JWT filter sits, the stateless session
    policy, and the ordered table of path rules that decides each request. */
module Security {
  import opened Exceptions
  import opened JavaStrings
  import opened TokenProvider
  import opened TokenFilter

  // A request matcher pattern: an exact path, or "base/**" (the base itself and
  // everything below it).
  datatype PathPattern = Exact(path: string) | Subtree(base: string)

  predicate Matches(pattern: PathPattern, path: string)
  {
    match pattern
    case Exact(p) => path == p
    case Subtree(base) => path == base || StartsWith(path, base + "/")
  }

  datatype Access = PermitAll | Authenticated | DenyAll

  /** requestMatchers(patterns...).access() */
  datatype Rule = Rule(patterns: seq<PathPattern>, access: Access)

  predicate RuleMatches(rule: Rule, path: string)
  {
    exists i :: 0 <= i < |rule.patterns| && Matches(rule.patterns[i], path)
  }

  /** The rules in declaration order (lines 64-71). */
  const AuthorizationRules: seq<Rule> := [
    Rule([Exact("/auth/signin"), Subtree("/auth/refresh"), Subtree("/swagger-ui"), Subtree("/v3/api-docs")],
         PermitAll),
    Rule([Subtree("/api")], Authenticated),
    Rule([Exact("/users")], DenyAll)
  ]

  /** The index of the first rule, at or after `from`, that matches `path`. */
  function FirstMatchFrom(rules: seq<Rule>, path: string, from: nat): (r: Option<nat>)
    requires from <= |rules|
    ensures r.Some? ==> from <= r.value < |rules| && RuleMatches(rules[r.value], path)
                        && forall j :: from <= j < r.value ==> !RuleMatches(rules[j], path)
    ensures r.None? ==> forall j :: from <= j < |rules| ==> !RuleMatches(rules[j], path)
    decreases |rules| - from
  {
    if from == |rules| then None
    else if RuleMatches(rules[from], path) then Some(from)
    else FirstMatchFrom(rules, path, from + 1)
  }

  /** The first matching rule decides. */
  function FirstMatch(rules: seq<Rule>, path: string): (r: Option<nat>)
    ensures r.Some? ==> r.value < |rules| && RuleMatches(rules[r.value], path)
                        && forall j :: 0 <= j < r.value ==> !RuleMatches(rules[j], path)
    ensures r.None? ==> forall j :: 0 <= j < |rules| ==> !RuleMatches(rules[j], path)
  {
    FirstMatchFrom(rules, path, 0)
  }

  /** NoRuleMatches: the table does not decide; what the framework then does is not modelled. */
  datatype Decision = Permit | Deny | NoRuleMatches

  function Grant(access: Access, authenticated: bool): (d: Decision)
    ensures d == Permit <==> access == PermitAll || (access == Authenticated && authenticated)
    ensures d != NoRuleMatches
  {
    match access
    case PermitAll => Permit
    case Authenticated => if authenticated then Permit else Deny
    case DenyAll => Deny
  }

  /** The authorization decision for a path, given whether a principal was established. */
  function Decide(rules: seq<Rule>, path: string, authenticated: bool): (d: Decision)
    ensures d == NoRuleMatches <==> forall j :: 0 <= j < |rules| ==> !RuleMatches(rules[j], path)
    ensures forall i :: 0 <= i < |rules| && RuleMatches(rules[i], path)
                        && (forall j :: 0 <= j < i ==> !RuleMatches(rules[j], path))
                        ==> d == Grant(rules[i].access, authenticated)
  {
    match FirstMatch(rules, path)
    case None => NoRuleMatches
    case Some(i) => Grant(rules[i].access, authenticated)
  }

  /** The filters whose relative order matters here. */
  datatype FilterKind = JwtTokenFilterKind | UsernamePasswordAuthenticationFilter | AuthorizationFilter

  datatype SessionCreationPolicy = Always | IfRequired | Never | Stateless

  /** The configured SecurityFilterChain. */
  datatype SecurityFilterChain = SecurityFilterChain(
    httpBasic: bool,
    csrf: bool,
    filters: seq<FilterKind>,
    sessionPolicy: SessionCreationPolicy,
    rules: seq<Rule>,
    cors: bool)

  /** The position of the first occurrence of `x`. */
  function FirstIndex(filters: seq<FilterKind>, x: FilterKind): (i: nat)
    requires x in filters
    ensures i < |filters| && filters[i] == x && x !in filters[..i]
  {
    if filters[0] == x then 0
    else
      var i := FirstIndex(filters[1..], x);
      assert filters[..i + 1] == [filters[0]] + filters[1..][..i];
      i + 1
  }

  /** addFilterBefore: insert `f` immediately before the first `anchor`. */
  function AddFilterBefore(filters: seq<FilterKind>, f: FilterKind, anchor: FilterKind): (r: seq<FilterKind>)
    requires anchor in filters
    ensures |r| == |filters| + 1
    ensures var i := FirstIndex(filters, anchor); r[..i] == filters[..i] && r[i] == f && r[i + 1..] == filters[i..]
  {
    var i := FirstIndex(filters, anchor);
    filters[..i] + [f] + filters[i..]
  }

  /** The order slots of the standard filters the JWT filter is placed among. No form login
      is configured, so no UsernamePasswordAuthenticationFilter is installed: addFilterBefore
      only takes the slot before its position in Spring's filter order. */
  const StandardFilters: seq<FilterKind> := [UsernamePasswordAuthenticationFilter, AuthorizationFilter]

  /** securityFilterChain: basic auth and CSRF off, JWT filter before the username/password
      filter, stateless sessions, the rule table above, CORS on. */
  function BuildSecurityFilterChain(): (c: SecurityFilterChain)
    ensures !c.httpBasic && !c.csrf && c.cors
    ensures c.sessionPolicy == Stateless && c.rules == AuthorizationRules
    ensures c.filters == [JwtTokenFilterKind, UsernamePasswordAuthenticationFilter, AuthorizationFilter]
  {
    var filters := AddFilterBefore(StandardFilters, JwtTokenFilterKind, UsernamePasswordAuthenticationFilter);
    assert filters == [JwtTokenFilterKind] + StandardFilters;
    SecurityFilterChain(false, false, filters, Stateless, AuthorizationRules, true)
  }

  /** The fate of one request: an exception escaped the JWT filter, or the table decided. */
  datatype RequestOutcome = Rejected(error: Error) | Decided(decision: Decision)

  /** The outcome of a request under a stateless session: it starts with no authentication,
      so only what its own token establishes counts. */
  function RequestDecision(p: JwtTokenProvider, request: HttpRequest, now: int): (r: RequestOutcome)
    reads p
    ensures Authenticate(p, request, now).Failure? ==> r == Rejected(Authenticate(p, request, now).error)
    ensures Authenticate(p, request, now).Success? ==>
      r == Decided(Decide(AuthorizationRules, request.path, Authenticate(p, request, now).value.Some?))
  {
    match Authenticate(p, request, now)
    case Failure(e) => Rejected(e)
    case Success(installed) => Decided(Decide(AuthorizationRules, request.path, installed.Some?))
  }

  /** One request through the chain: a fresh, empty security context (no session is kept),
      the JWT filter, then the authorization decision on what the filter installed. */
  method ServeRequest(filter: JwtTokenFilter, request: HttpRequest, response: HttpResponse, now: int)
    returns (r: RequestOutcome)
    modifies filter`chainCalls
    ensures r == RequestDecision(filter.tokenProvider, request, now)
    ensures r.Rejected? ==> filter.chainCalls == old(filter.chainCalls)
    ensures r.Decided? ==>
      var installed := Authenticate(filter.tokenProvider, request, now).value;
      filter.chainCalls == old(filter.chainCalls) + [ChainCall(request, response, installed)]
  {
    var context := new SecurityContext();
    var outcome := filter.DoFilter(request, response, context, now);
    if outcome.Raised? {
      return Rejected(outcome.error);
    }
    r := Decided(Decide(BuildSecurityFilterChain().rules, request.path, context.authentication.Some?));
  }

  // ---- Properties of the rule table ----

  lemma PublicPathsMatchFirstRule(path: string)
    requires path == "/auth/signin" || Matches(Subtree("/auth/refresh"), path)
             || Matches(Subtree("/swagger-ui"), path) || Matches(Subtree("/v3/api-docs"), path)
    ensures RuleMatches(AuthorizationRules[0], path)
  {
    var ps := AuthorizationRules[0].patterns;
    if path == "/auth/signin" { assert Matches(ps[0], path); }
    else if Matches(Subtree("/auth/refresh"), path) { assert Matches(ps[1], path); }
    else if Matches(Subtree("/swagger-ui"), path) { assert Matches(ps[2], path); }
    else { assert Matches(ps[3], path); }
  }

  /** Sign-in, refresh and the API documentation are permitted with or without a principal. */
  lemma PublicPathsPermitted(path: string, authenticated: bool)
    requires path == "/auth/signin" || Matches(Subtree("/auth/refresh"), path)
             || Matches(Subtree("/swagger-ui"), path) || Matches(Subtree("/v3/api-docs"), path)
    ensures Decide(AuthorizationRules, path, authenticated) == Permit
  {
    PublicPathsMatchFirstRule(path);
  }

  // A path of the "/api/**" subtree starts with "/ap".
  lemma ApiPathPrefix(path: string)
    requires Matches(Subtree("/api"), path)
    ensures |path| >= 4 && path[0] == '/' && path[1] == 'a' && path[2] == 'p'
  {
    if path != "/api" {
      assert path[..5] == "/api/";
      assert path[0] == path[..5][0] && path[1] == path[..5][1] && path[2] == path[..5][2];
    }
  }

  /** A path that matches a pattern of the first rule has 'u', 'w' or '3' as its third character. */
  lemma PublicPathThirdChar(pattern: PathPattern, path: string)
    requires pattern in AuthorizationRules[0].patterns && Matches(pattern, path)
    ensures |path| > 2 && (path[2] == 'u' || path[2] == 'w' || path[2] == '3')
  {
    match pattern
    case Exact(p) =>
    case Subtree(base) =>
      if path != base {
        assert path[..|base| + 1] == base + "/";
        assert path[2] == (base + "/")[2];
      }
  }

  // "/api/**" is permitted exactly when a principal has been established.
  lemma ApiRequiresAuthentication(path: string, authenticated: bool)
    requires Matches(Subtree("/api"), path)
    ensures Decide(AuthorizationRules, path, authenticated) == (if authenticated then Permit else Deny)
  {
    ApiPathPrefix(path);
    if RuleMatches(AuthorizationRules[0], path) {
      var i :| 0 <= i < |AuthorizationRules[0].patterns| && Matches(AuthorizationRules[0].patterns[i], path);
      PublicPathThirdChar(AuthorizationRules[0].patterns[i], path);
      assert false;
    }
    assert Matches(AuthorizationRules[1].patterns[0], path);
  }

  /** "/users" is denied even to an authenticated principal. */
  lemma UsersAlwaysDenied(authenticated: bool)
    ensures Decide(AuthorizationRules, "/users", authenticated) == Deny
  {
    var path := "/users";
    if RuleMatches(AuthorizationRules[0], path) {
      var i :| 0 <= i < |AuthorizationRules[0].patterns| && Matches(AuthorizationRules[0].patterns[i], path);
      PublicPathThirdChar(AuthorizationRules[0].patterns[i], path);
      assert false;
    }
    if RuleMatches(AuthorizationRules[1], path) {
      ApiPathPrefix(path);
      assert false;
    }
    assert Matches(AuthorizationRules[2].patterns[0], path);
  }

  /** The JWT filter runs before the username/password filter and the authorization filter. */
  lemma JwtFilterRunsFirst()
    ensures var fs := BuildSecurityFilterChain().filters;
            fs[0] == JwtTokenFilterKind
            && forall i :: 0 < i < |fs| ==> fs[i] != JwtTokenFilterKind
  {
  }
}
