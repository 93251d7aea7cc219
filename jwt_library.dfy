/** The JWT library the provider calls: key derivation, signing and verification of a
    JWS (RFC 7515) in the JWT compact serialization (section 3 of RFC 7519). The library's
    internals are not part of this model, so its operations are values of a datatype that
    callers pass in; nothing is assumed about them except where a lemma says so. */
module JwtLibrary {
  import opened Exceptions
  import opened JavaStrings

  /** Algorithm.HMAC256(secret): an HMAC-SHA256 signer/verifier keyed by the secret's bytes.
      String.getBytes is taken to keep the characters as they are. */
  datatype Algorithm = HMAC256(secret: string)

  /** The claims the core writes (roles, iat, exp, sub, iss) as the verifier reports them;
      None is a claim that is absent (the library's getters return null). Times are in
      milliseconds since the epoch. */
  datatype Claims = Claims(
    roles: Option<seq<string>>,
    issuedAt: Option<int>,
    expiresAt: Option<int>,
    subject: Option<string>,
    issuer: Option<string>)

  /** What JWTVerifier.verify does with a token: it returns the decoded claims or throws. */
  datatype Verification = Verified(claims: Claims) | Rejected(reason: string)

  /** The library calls the core makes. The verifier reads the clock (milliseconds since
      the epoch) when it verifies, so it may accept a token at one time and reject it later. */
  datatype Library = Library(
    base64Encode: string -> string,                  // Base64.getEncoder().encodeToString
    sign: (Algorithm, Claims) -> string,             // JWT.create()...sign(algorithm)
    verify: (Algorithm, string, int) -> Verification) // JWT.require(algorithm).build().verify

  /** At time `now` the library verifies, under the same algorithm, the stripped token it
      signed for `c` and reports exactly `c`. This is a hypothesis about one claims set at
      one time, used by the end-to-end lemmas; the model never assumes it for all claims. */
  predicate RoundTrips(lib: Library, alg: Algorithm, c: Claims, now: int)
  {
    lib.verify(alg, Strip(lib.sign(alg, c)), now) == Verified(c)
  }

  /** Whatever the library accepts at `now` under `alg`, from the token it signed for `c`,
      it reports as `c`: it may reject that token, but it never reports other claims. */
  predicate ReportsOnly(lib: Library, alg: Algorithm, c: Claims, now: int)
  {
    lib.verify(alg, Strip(lib.sign(alg, c)), now).Verified? ==>
      lib.verify(alg, Strip(lib.sign(alg, c)), now) == Verified(c)
  }

  /** A library that checks the expiry itself: it never accepts a token whose exp claim is
      before its clock. */
  ghost predicate EnforcesExpiry(lib: Library)
  {
    forall alg, t, now :: lib.verify(alg, t, now).Verified? && lib.verify(alg, t, now).claims.expiresAt.Some?
      ==> now <= lib.verify(alg, t, now).claims.expiresAt.value
  }

  /** A character of the base64url alphabet (section 5 of RFC 4648). */
  predicate IsBase64UrlChar(c: char)
  {
    ('A' <= c <= 'Z') || ('a' <= c <= 'z') || ('0' <= c <= '9') || c == '-' || c == '_'
  }

  /** The JWS compact serialization: base64url segments separated by dots. */
  predicate IsCompact(t: string)
  {
    forall i :: 0 <= i < |t| ==> IsBase64UrlChar(t[i]) || t[i] == '.'
  }

  /** A compact token never contains a space, so it never contains "Bearer "
      and stripping leaves it as it is. */
  lemma CompactHasNoSpace(t: string, sub: string)
    requires IsCompact(t)
    requires ' ' in sub
    ensures !Contains(t, sub)
    ensures Strip(t) == t
  {
    if Contains(t, sub) {
      var i := ContainsHasOccurrence(t, sub);
      assert false;
    }
    if t != [] {
      assert IsBase64UrlChar(t[0]) || t[0] == '.';
      assert IsBase64UrlChar(t[|t| - 1]) || t[|t| - 1] == '.';
    }
    StripOfTrimmed(t);
  }
}
