# JWT authentication and book service of the restful-api-course API, in Dafny

This project models the stateless JWT authentication layer of a Spring REST API, and the
book CRUD service behind it:

- **Token issuer** (`JwtTokenProvider`). `init` Base64-encodes the configured secret and keys
  an HMAC-SHA256 algorithm with it. `createAccessToken` signs an access token that expires at
  `now + TTL` and carries an issuer. It also signs a refresh token that expires at
  `now + 3·TTL` and carries no issuer. Both have the same subject, roles and issued-at.
- **Token checks** (`JwtTokenProvider`). `refreshToken` drops the first seven characters when
  the token contains `"Bearer "` anywhere, verifies the result, and issues a new pair.
  `resolveToken` strips the `"Bearer "` prefix of the Authorization header. `validateToken`
  compares the expiry strictly against now. `getAuthentication` builds the principal from the
  user lookup.
- **Request filter** (`JwtTokenFilter.doFilter`). It installs an Authentication in the security
  context only for a present token that is unexpired and whose subject is found. Then it
  forwards to the chain. Any exception escapes, and the chain is then not called.
- **Authorization policy** (`SecurityConfig.securityFilterChain`). The JWT filter takes the order
  slot before `UsernamePasswordAuthenticationFilter`, a filter that is not itself installed.
  Sessions are stateless, and an ordered rule table is decided by its first matching rule.
- **User lookup** (`UserServices.loadUserByUsername`) and **books** (`BookServices` over a
  repository modelled as a `map<int, Book>`).

The JWT library (HMAC-SHA256 JWS signing and verification, RFC 7515, in the compact form of
section 3 of RFC 7519) and `java.util.Base64` are modelled as a datatype of function values,
`JwtLibrary.Library`. The model passes it in. Its verifier reads the clock it is called at,
so it may accept a token at one time and reject it later. The end-to-end lemmas state what
they need of it as hypotheses about one claims set at one time:
- `JwtLibrary.RoundTrips`: the library verifies what it signed, at that time.
- `JwtLibrary.ReportsOnly`: the library may reject what it signed, but never reports other claims.
- `JwtLibrary.EnforcesExpiry`: the library rejects a token whose `exp` is before its clock,
  as the auth0 verifier does by default.

The wall clock (`new Date()`), the issuer URL
(`ServletUriComponentsBuilder.fromCurrentContextPath`) and the id the database generates are
parameters.

Files: `exceptions.dfy` (Option, Result, the exceptions), `java_strings.dfy` (`startsWith`,
`contains`, `strip`, `Long.toString`), `jwt_library.dfy`, `users.dfy`, `token_provider.dfy`,
`token_filter.dfy`, `security_config.dfy`, `book_services.dfy`, `auth_flow.dfy` (end-to-end
properties).

Three behaviours of the Java code worth knowing:

- A token that fails decoding in `validateToken` is not turned into
  `InvalidJwtAuthenticationException`. The call at line 121 is outside the `try`, so the
  verifier's own exception escapes. Only a missing expiry becomes
  `InvalidJwtAuthenticationException("Expired or invalid JWT token!")`.
  Under a library that checks expiry itself, and at a single clock reading, an expired
  token therefore makes `validateToken` throw rather than return false, and the request is rejected
  (`TokenProvider.ExpiredIssuedTokenThrows`, `AuthFlow.ExpiredAccessTokenRaises`).
- A valid token whose subject is not a stored user does not leave the request
  unauthenticated. `loadUserByUsername` throws `UsernameNotFoundException`, and the exception
  escapes `doFilter` before the chain is called (`TokenFilter.UnknownSubjectRaises`).
- The `auth != null` test in `doFilter` always passes, because `getAuthentication` always
  returns a new object.

## Model

| member | source | states |
|---|---|---|
| `TokenProvider.JwtTokenProvider.constructor` | src/main/java/com/example/api/security/jwt/JwtTokenProvider.java:28-38 | The provider starts with the configured secret and TTL, the user lookup and the library; the algorithm is null until `init`. |
| `TokenProvider.JwtTokenProvider.Init` | src/main/java/com/example/api/security/jwt/JwtTokenProvider.java:42-45 | The secret becomes its Base64 encoding and the algorithm is HMAC256 keyed by that encoded secret, so Valid holds: signing and `decodedToken` use the same key. |
| `TokenProvider.JwtTokenProvider.GetAccessToken` | src/main/java/com/example/api/security/jwt/JwtTokenProvider.java:70-81 | At the instant it is issued, and when the library verifies what it signed, the stripped signed access token decodes under the verifier's key to exactly {roles, iat = now, exp = validity, sub = username, iss = issuer URL}. |
| `TokenProvider.JwtTokenProvider.GetRefreshToken` | src/main/java/com/example/api/security/jwt/JwtTokenProvider.java:84-93 | At the instant it is issued, and when the library verifies what it signed, the refresh token decodes under the verifier's key to exactly {roles, iat = now, exp = now + 3·TTL, sub = username} with no issuer. |
| `TokenProvider.AccessAndRefreshClaimsAgree` | src/main/java/com/example/api/security/jwt/JwtTokenProvider.java:70-92 | Access and refresh claims agree on subject, roles and issued-at; only the access claims carry an issuer, and otherwise they differ only in expiry. |
| `TokenProvider.JwtTokenProvider.CreateAccessToken` | src/main/java/com/example/api/security/jwt/JwtTokenProvider.java:48-55 | The pair keeps the username, has authenticated = true, created = now and expiration = now + TTL, and holds the access and refresh tokens of that same instant. |
| `TokenProvider.RefreshOutlivesAccess` | src/main/java/com/example/api/security/jwt/JwtTokenProvider.java:84-89 | The issued refresh token decodes with expiry now + 3·TTL and the pair's issued-at; for TTL ≥ 0 it expires 2·TTL after, and so no earlier than, the access token. |
| `TokenProvider.StripBearerForRefresh` | src/main/java/com/example/api/security/jwt/JwtTokenProvider.java:59-60 | A token without "Bearer " is unchanged; one containing it anywhere loses its first seven characters; for a token starting with "Bearer ", prefix + result = token. |
| `TokenProvider.RefreshDropsSevenCharsWherever` | src/main/java/com/example/api/security/jwt/JwtTokenProvider.java:59-60 | "Bearer " not at position 0 still drops the first seven characters: "xBearer abc" becomes " abc". |
| `TokenProvider.RefreshStripsHeaderPrefix` | src/main/java/com/example/api/security/jwt/JwtTokenProvider.java:59-60 | "Bearer " + t becomes t. |
| `TokenProvider.JwtTokenProvider.Refreshed` | src/main/java/com/example/api/security/jwt/JwtTokenProvider.java:58-67 | Refreshing at `now` succeeds exactly when the library verifies the stripped token at `now`. The new pair then carries the verified sub and roles, created = now and expiration = now + TTL. A verification failure propagates as the result, with no pair. |
| `TokenProvider.JwtTokenProvider.RefreshToken` | src/main/java/com/example/api/security/jwt/JwtTokenProvider.java:58-67 | The imperative method, which reassigns its parameter and verifies with the `algorithm` field, returns exactly what `Refreshed` specifies. |
| `TokenProvider.JwtTokenProvider.DecodedToken` | src/main/java/com/example/api/security/jwt/JwtTokenProvider.java:104-108 | Decoding at time `now` succeeds exactly when the library, at `now`, verifies under a fresh HMAC256 of the current secretKey, and yields its claims; a rejection propagates as the library's exception. |
| `TokenProvider.SignedTokensDecode` | src/main/java/com/example/api/security/jwt/JwtTokenProvider.java:104-108 | After `init`, a token the provider signed with `algorithm` is decoded by `decodedToken`, at any time the library accepts it, to the same claims, since both derive the key from the same encoded secret. |
| `TokenProvider.JwtTokenProvider.GetAuthentication` | src/main/java/com/example/api/security/jwt/JwtTokenProvider.java:96-101 | Decoding errors and not-found propagate. Otherwise the principal is the looked-up user of the token's subject, with credentials "" and the stored authorities. |
| `TokenProvider.AuthenticationIgnoresRolesClaim` | src/main/java/com/example/api/security/jwt/JwtTokenProvider.java:96-101 | Two decodable tokens with the same subject give the same Authentication, whatever their roles claims. |
| `TokenProvider.JwtTokenProvider.ResolveToken` | src/main/java/com/example/api/security/jwt/JwtTokenProvider.java:111-117 | Null exactly when the header is absent or does not start with "Bearer "; otherwise "Bearer " + result = header (so "Bearer " alone gives ""). |
| `TokenProvider.JwtTokenProvider.ValidateToken` | src/main/java/com/example/api/security/jwt/JwtTokenProvider.java:120-130 | Decoding failure propagates unwrapped; a missing exp becomes InvalidJwtAuthenticationException("Expired or invalid JWT token!"); otherwise true exactly when now ≤ exp (false only when exp < now). |
| `TokenProvider.IssuedAccessTokenValidity` | src/main/java/com/example/api/security/jwt/JwtTokenProvider.java:120-130 | When the library accepts the issued access token at `now`, it validates to true at every time up to issuedAt + TTL and to false (not an exception) at every later time. |
| `TokenProvider.ExpiredIssuedTokenThrows` | src/main/java/com/example/api/security/jwt/JwtTokenProvider.java:120-123 | Under a library that checks expiry, an issued access token presented after issuedAt + TTL is rejected by the verifier, and `validateToken` throws that rejection. |
| `TokenProvider.ExpiryCheckingLibraryNeverYieldsFalse` | src/main/java/com/example/api/security/jwt/JwtTokenProvider.java:121-125 | Under a library that checks expiry itself, and at a single clock reading, `validateToken` never returns false: an expired token makes the verifier throw at line 121 first. |
| `JavaStrings.Strip` | src/main/java/com/example/api/security/jwt/JwtTokenProvider.java:80 | The result is an infix of the signed token: everything before it and after it is whitespace, and it neither starts nor ends with whitespace. |
| `Users.FindByUsername` | src/main/java/com/example/api/services/UserServices.java:29 | The repository is asked for exactly the given name; it finds the stored user exactly when a non-null name is stored. |
| `Users.NotFoundMessage` | src/main/java/com/example/api/services/UserServices.java:37 | The message is "Username " + name + " not found!", with null rendered as "null". |
| `Users.LoadUserByUsername` | src/main/java/com/example/api/services/UserServices.java:27-39 | Success exactly when the user is stored. The details then have the stored username, password and authorities. Otherwise it throws UsernameNotFoundException with the message above. It never returns null. |
| `TokenFilter.Authenticate` | src/main/java/com/example/api/security/jwt/JwtTokenFilter.java:29-36 | No token: nothing is installed and nothing else is called. An Authentication is installed exactly when the token is present, validateToken returns true and getAuthentication succeeds, and it is that value. Expired: nothing is installed. It fails exactly when validateToken throws, or getAuthentication throws after validateToken returned true, and the error is the one that call threw. |
| `TokenFilter.JwtTokenFilter.constructor` | src/main/java/com/example/api/security/jwt/JwtTokenFilter.java:20-22 | The filter keeps the given token provider and has forwarded nothing yet. |
| `TokenFilter.JwtTokenFilter.DoFilter` | src/main/java/com/example/api/security/jwt/JwtTokenFilter.java:26-38 | On an exception it escapes, and the context and the chain calls are unchanged. Otherwise the context is set to the installed Authentication, or left as it was, and never cleared. The chain is then called exactly once with the same request and response, after the update. |
| `TokenFilter.NoTokenInstallsNothing` | src/main/java/com/example/api/security/jwt/JwtTokenFilter.java:29-30 | A missing or non-"Bearer " header installs nothing and raises nothing. |
| `TokenFilter.ExpiredTokenInstallsNothing` | src/main/java/com/example/api/security/jwt/JwtTokenFilter.java:30-36 | A decodable token whose exp is before now is passed over silently: no error, no Authentication. |
| `TokenFilter.UnknownSubjectRaises` | src/main/java/com/example/api/security/jwt/JwtTokenFilter.java:32 | A valid token whose subject is not stored makes the filter throw UsernameNotFoundException. |
| `Security.FirstMatch` | src/main/java/com/example/api/config/SecurityConfig.java:63-71 | The found rule matches and no earlier rule does; when none is found, no rule matches. |
| `Security.Grant` | src/main/java/com/example/api/config/SecurityConfig.java:69-71 | permitAll permits; authenticated permits exactly when a principal exists; denyAll denies. |
| `Security.Decide` | src/main/java/com/example/api/config/SecurityConfig.java:63-71 | The rules are read in declaration order and the first matching rule decides; the table is silent exactly when no rule matches. |
| `Security.AddFilterBefore` | src/main/java/com/example/api/config/SecurityConfig.java:59 | The filter is inserted immediately before the first occurrence of the anchor, and the rest keeps its order. |
| `Security.BuildSecurityFilterChain` | src/main/java/com/example/api/config/SecurityConfig.java:52-76 | Basic auth and CSRF are off, CORS is on, sessions are STATELESS, the rules are the table, and the JWT filter takes the order slot before the username/password filter (not installed, as there is no form login) and so before the authorization filter. |
| `Security.JwtFilterRunsFirst` | src/main/java/com/example/api/config/SecurityConfig.java:59 | The JWT filter is the first filter and occurs once. |
| `Security.RequestDecision` | src/main/java/com/example/api/config/SecurityConfig.java:60-61 | Stateless: a request's outcome depends only on its own path and on what its own token establishes. |
| `Security.ServeRequest` | src/main/java/com/example/api/config/SecurityConfig.java:59-61 | A fresh, empty security context goes through the JWT filter and then the table, which sees the principal `doFilter` installed. The outcome is `RequestDecision`. A rejected request leaves the chain calls unchanged; a decided one appends exactly one call, carrying the Authentication its own token installed. |
| `Security.PublicPathsPermitted` | src/main/java/com/example/api/config/SecurityConfig.java:64-69 | /auth/signin, /auth/refresh/**, /swagger-ui/** and /v3/api-docs/** are permitted with or without a principal. |
| `Security.ApiRequiresAuthentication` | src/main/java/com/example/api/config/SecurityConfig.java:70 | A path under /api/** is permitted exactly when a principal has been established, and denied otherwise. |
| `Security.UsersAlwaysDenied` | src/main/java/com/example/api/config/SecurityConfig.java:71 | /users is denied even when authenticated. |
| `AuthFlow.IssuedAccessTokenAuthenticates` | src/main/java/com/example/api/security/jwt/JwtTokenFilter.java:29-35 | A stored user's issued access token, presented before expiry, installs that user's details as principal, with "" credentials and the stored authorities. |
| `AuthFlow.ExpiredAccessTokenIgnored` | src/main/java/com/example/api/security/jwt/JwtTokenProvider.java:123-125 | The same token presented after its expiry, to a library that still accepts it then, installs nothing and raises nothing. |
| `AuthFlow.ExpiredAccessTokenRaises` | src/main/java/com/example/api/security/jwt/JwtTokenProvider.java:121 | Presented after its expiry to a library that checks expiry, the token is rejected by the verifier; the exception escapes the filter and the request is rejected. |
| `AuthFlow.ApiRequestWithIssuedToken` | src/main/java/com/example/api/config/SecurityConfig.java:70 | An /api/** request with a stored user's issued access token, which the library accepts at `now`, is permitted up to the expiry and denied after it. |
| `AuthFlow.NoHeaderDecisions` | src/main/java/com/example/api/config/SecurityConfig.java:64-70 | Without an Authorization header, /api/** is denied, while sign-in, refresh and the documentation are permitted. |
| `AuthFlow.RefreshOfIssuedPair` | src/main/java/com/example/api/security/jwt/JwtTokenProvider.java:58-67 | Refreshing an issued refresh token the library accepts at the refresh time, bare or as "Bearer " + token, yields the pair freshly issued at that time, with the same username and roles. If that time is later, the new access token expires later. |
| `AuthFlow.ExpiredRefreshTokenFails` | src/main/java/com/example/api/security/jwt/JwtTokenProvider.java:62-63 | Under a library that checks expiry, refreshing an issued refresh token after its expiry (issuedAt + 3·TTL) fails, bare or as "Bearer " + token. |
| `Books.SelfLink` | src/main/java/com/example/api/services/BookServices.java:62 | The self link is "/api/book/v1/" followed by the decimal id. |
| `JavaStrings.NatToStringValue` | src/main/java/com/example/api/services/BookServices.java:62 | The digits written for a non-negative id denote exactly that id. |
| `JavaStrings.LongToStringValue` | src/main/java/com/example/api/services/BookServices.java:62 | Long.toString writes digits that denote exactly the value, with no leading zero, preceded by a minus sign and denoting its magnitude when it is negative. |
| `Books.CopyFieldsKeepsId` | src/main/java/com/example/api/services/BookServices.java:86-89 | The four setters keep the stored id and give the VO's author, launch date, price and title. |
| `Books.BookServices.FindById` | src/main/java/com/example/api/services/BookServices.java:55-64 | Fails exactly when the id is absent, with ResourceNotFoundException("No records found for this ID!"). Otherwise it returns the stored key, author, title, price and launch date with the self link for the id. |
| `Books.FindMockBook` | src/test/java/com/example/api/unittests/mockito/services/BookServicesTest.java:46-63 | The test fixture's book 1 is found with "Some Author1", "Some Title1", price 25.0 and link "/api/book/v1/1". |
| `Books.BookServices.Save` | src/main/java/com/example/api/services/BookServices.java:72 | The entity is stored under its id, or under the generated id when it has none, and returned as saved; the ids stay consistent with their keys. |
| `Books.BookServices.Create` | src/main/java/com/example/api/services/BookServices.java:66-75 | Null throws RequiredObjectIsNullException ("It is not allowed to persist a null object!") and leaves the store unchanged. Otherwise the mapped entity is stored under its key, and the returned VO and a subsequent findById agree. |
| `Books.BookServices.Update` | src/main/java/com/example/api/services/BookServices.java:77-94 | Null → RequiredObjectIsNullException and a null key → IllegalArgument, both with the store unchanged. An absent key → ResourceNotFoundException, store unchanged. Otherwise only that entry changes: its four fields, its id kept. Result = findById. |
| `Books.BookServices.Delete` | src/main/java/com/example/api/services/BookServices.java:96-103 | An absent id throws ResourceNotFoundException with the store unchanged. A present id removes exactly that entry, and findById then fails. |

## Left out

- The cryptography and encoding (HMAC-SHA256, JWS/JWT serialization, Base64 in `init`).
  These are library calls, kept uninterpreted in `JwtLibrary.Library`. `verify` may reject a
  token for any reason at any time. Only the lemmas that assume `EnforcesExpiry` depend on the
  library checking `exp`. The others hold for any library that accepts the token at that time.
- The library's second-level truncation of `iat`/`exp`: the model treats timestamps as exact milliseconds.
- `String.getBytes` and the platform charset: they are taken to keep the characters.
- Java `long` overflow of `now + TTL` and `now + 3·TTL`: the model uses unbounded integers.
- JavaStrings.Strip: only the ASCII whitespace of `Character.isWhitespace` is stripped. The
  other Unicode space separators are not.
- `GetAccessToken`, `GetRefreshToken`, `CreateAccessToken`, `Refreshed` and `RefreshToken`
  require `init` to have run (Valid), because they use the `algorithm` field. The container
  calls `@PostConstruct` before the bean is used, so their pre-init null-algorithm path is
  not modelled. `decodedToken`, `validateToken` and `getAuthentication` key their verifier
  from `secretKey`, and `resolveToken` reads only the header. They, and the filter that calls
  them, carry no such requirement.
- TokenProvider.ExpiryCheckingLibraryNeverYieldsFalse holds only at a single clock reading.
  `validateToken` verifies at line 121 with the verifier's clock, and then compares the
  expiry with a second `new Date()` at line 123. The model uses one time for the whole call,
  so a token that expires between those two readings does not appear in it. In Java that
  token passes the verifier and `validateToken` returns false.
- TokenFilter.Authenticate and TokenFilter.JwtTokenFilter.DoFilter use one clock per
  `doFilter` call. The Java code verifies the token twice, once in `validateToken` and once
  in `getAuthentication`, and each verification reads the clock. So a token that expires
  between the two calls, under a library that checks expiry, makes `getAuthentication`
  throw. The model cannot express that, and `AuthFlow.IssuedAccessTokenAuthenticates` rests
  on the single time.
- TokenProvider.JwtTokenProvider.Refreshed and TokenProvider.JwtTokenProvider.RefreshToken
  use one clock per `refreshToken` call. The Java code verifies at line 63 and then reads
  `new Date()` again in `createAccessToken`.
- Books.BookServices.FindById and Books.BookServices.Delete take a non-null id. The null id
  that `findById(Long)` and `delete(Long)` accept, and on which the repository throws, is
  not modelled. TokenProvider.JwtTokenProvider.Refreshed takes a non-null token, so the
  NullPointerException of `refreshToken(null)` at line 59 is not modelled either.
- Spring Security's own machinery is not modelled: `SecurityContextHolder`'s thread-locals,
  the servlet `FilterChain`, and every filter but the JWT filter. The context is an explicit
  `SecurityContext` object, and forwarding is recorded as `chainCalls`.
- The filter list holds the order slots of `UsernamePasswordAuthenticationFilter` and the
  authorization filter. No form login is configured, so no username/password filter is
  installed. `addFilterBefore` only places the JWT filter at the slot before its position.
- The exact Ant/PathPattern matching is not modelled beyond exact paths and `base/**`. Nor is
  the outcome for a path no rule matches, which the model reports as `NoRuleMatches`.
- That a principal counts as authenticated: the model takes any installed Authentication to
  be one. The three-argument `UsernamePasswordAuthenticationToken` constructor marks it so.
- `passwordEncoder` and `authenticationManagerBean`: PBKDF2 and framework configuration.
- Spring's `User` constructor rejects an empty username or a null password. That check is
  library behaviour and is not modelled.
- The user entity and `UserRepository` are not part of this model. The repository is a map
  from user name to the stored name, password and authorities.
- `BookServices.findAll` (pagination, the HATEOAS assembler, Dozer mapping): not modelled.
  Logging is left out too.
- Books.BookServices.Save: JPA `save` of an entity whose id is set but not stored is
  modelled as an insert under that id.
- Books.BookServices.Update: `findById(null)` makes the repository throw; the model reports
  this as an `IllegalArgument` error. The exact exception type is library behaviour.
- Spring's `User` keeps its authorities as a sorted set without duplicates. The model copies
  the stored sequence as it is, so order and duplicates are not normalised.
- The self link is rendered relative, as `"/api/book/v1/" + id`. Inside a request, `linkTo`
  prefixes it with the request's base URL; that prefix is not modelled.
- `launchDate` is an opaque millisecond count and `price` the opaque bit pattern of the
  `double`. Both are only copied.
- Null author or title strings of a book are not distinguished from other strings.
