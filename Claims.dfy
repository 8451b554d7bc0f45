/**
  includes/functions.php `validateJwsClaims`: the issuer and audience must be
  exactly the expected strings; a truthy `exp` must not be more than the clock
  skew in the past and a truthy `iat` not more than the skew in the future
  (sections 4.1.4 and 4.1.6 of RFC 7519).  The current time, `time()` in the
  source, is a parameter.
*/
module Claims {
  import opened Json

  const ExpectedIssuer: string := "https://languagecloud.rws.com/"
  const ExpectedAudience: string := "https://api.filkin.com"
  const ClockSkew: int := 60

  datatype ClaimsOutcome = ClaimsValid | InvalidIssuer | InvalidAudience | TokenExpired | IssuedInFuture

  /** `$exp && $exp < $bound` under PHP 8 comparison: an integer is compared
      numerically; `true` compared with an integer compares it as a bool and
      is never less.  Claims of other JSON types are not checked. */
  predicate ExpiredBefore(exp: JsonValue, bound: int)
  {
    match exp
    case JInt(i) => i != 0 && i < bound
    case _ => false
  }

  /** `$iat && $iat > $bound`: an integer is compared numerically; `true` is
      greater than the integer only when that integer is 0 (false as a bool). */
  predicate IssuedAfter(iat: JsonValue, bound: int)
  {
    match iat
    case JInt(i) => i != 0 && i > bound
    case JBool(b) => b && bound == 0
    case _ => false
  }

  /** includes/functions.php `validateJwsClaims`, checks in source order. */
  function ValidateJwsClaims(header: JsonValue, now: int): (r: ClaimsOutcome)
    ensures r == InvalidIssuer <==> Lookup(header, "iss") != JStr(ExpectedIssuer)
    ensures r == InvalidAudience <==>
              Lookup(header, "iss") == JStr(ExpectedIssuer) && Lookup(header, "aud") != JStr(ExpectedAudience)
    ensures r == TokenExpired <==>
              && Lookup(header, "iss") == JStr(ExpectedIssuer) && Lookup(header, "aud") == JStr(ExpectedAudience)
              && ExpiredBefore(Lookup(header, "exp"), now - ClockSkew)
    ensures r == IssuedInFuture <==>
              && Lookup(header, "iss") == JStr(ExpectedIssuer) && Lookup(header, "aud") == JStr(ExpectedAudience)
              && !ExpiredBefore(Lookup(header, "exp"), now - ClockSkew)
              && IssuedAfter(Lookup(header, "iat"), now + ClockSkew)
    ensures r == ClaimsValid ==>
              Lookup(header, "iss") == JStr(ExpectedIssuer) && Lookup(header, "aud") == JStr(ExpectedAudience)
  {
    if Lookup(header, "iss") != JStr(ExpectedIssuer) then InvalidIssuer
    else if Lookup(header, "aud") != JStr(ExpectedAudience) then InvalidAudience
    else if ExpiredBefore(Lookup(header, "exp"), now - ClockSkew) then TokenExpired
    else if IssuedAfter(Lookup(header, "iat"), now + ClockSkew) then IssuedInFuture
    else ClaimsValid
  }

  /** With issuer and audience right and non-zero integer `exp` and `iat`, the
      claims hold exactly while `now` lies in [iat - 60, exp + 60]. */
  lemma ClaimsTimeWindow(header: JsonValue, now: int, exp: int, iat: int)
    requires Lookup(header, "iss") == JStr(ExpectedIssuer)
    requires Lookup(header, "aud") == JStr(ExpectedAudience)
    requires exp != 0 && Lookup(header, "exp") == JInt(exp)
    requires iat != 0 && Lookup(header, "iat") == JInt(iat)
    ensures ValidateJwsClaims(header, now) == ClaimsValid <==> iat - ClockSkew <= now <= exp + ClockSkew
  {
  }

  /** With `exp` and `iat` each absent or an integer, in any combination:
      the claims hold iff issuer and audience are right, a non-zero `exp` is
      at least `now - 60`, and a non-zero `iat` at most `now + 60`. */
  lemma ClaimsTimeChecks(header: JsonValue, now: int)
    requires Lookup(header, "exp").JNull? || Lookup(header, "exp").JInt?
    requires Lookup(header, "iat").JNull? || Lookup(header, "iat").JInt?
    ensures ValidateJwsClaims(header, now) == ClaimsValid <==>
              && Lookup(header, "iss") == JStr(ExpectedIssuer)
              && Lookup(header, "aud") == JStr(ExpectedAudience)
              && (Lookup(header, "exp").JInt? && Lookup(header, "exp").i != 0 ==> now - ClockSkew <= Lookup(header, "exp").i)
              && (Lookup(header, "iat").JInt? && Lookup(header, "iat").i != 0 ==> Lookup(header, "iat").i <= now + ClockSkew)
  {
  }

  /** A header without `exp` and `iat` (or with them 0) is never rejected on
      time: the outcome is the same at every instant. */
  lemma MissingTimesTolerated(header: JsonValue, now1: int, now2: int)
    requires !Truthy(Lookup(header, "exp")) && !Truthy(Lookup(header, "iat"))
    ensures ValidateJwsClaims(header, now1) == ValidateJwsClaims(header, now2)
    ensures ValidateJwsClaims(header, now1) == ClaimsValid <==>
              Lookup(header, "iss") == JStr(ExpectedIssuer) && Lookup(header, "aud") == JStr(ExpectedAudience)
  {
  }

  /** The instants at which the claims hold form an interval: validity at two
      instants implies validity at every instant between them.  (An `iat` of
      JSON `true` is the exception: it fails only at now == -60.) */
  lemma ClaimsValidBetween(header: JsonValue, t1: int, t: int, t2: int)
    requires !Lookup(header, "iat").JBool?
    requires t1 <= t <= t2
    requires ValidateJwsClaims(header, t1) == ClaimsValid
    requires ValidateJwsClaims(header, t2) == ClaimsValid
    ensures ValidateJwsClaims(header, t) == ClaimsValid
  {
  }
}
