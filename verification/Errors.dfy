/** Go error values as finite trees. `Is` is `errors.Is`: some node of the tree is the sentinel.
    Message text is not modelled: an error that wraps no sentinel is `Plain`. */
module Errors {
  datatype Sentinel =
    // package jws
    | JwsInvalidConfig | JwsMissingPayload | JwsPayloadTooLarge | JwsTooManySignatures | JwsMalformedToken
    | JwsUnexpectedType | JwsUnexpectedContentType | JwsKeyNotFound | JwsVerificationPolicy | JwsSign | JwsVerify
    // package jwt
    | JwtInvalidConfig | JwtInvalidKey | JwtInvalidKeyID | JwtDuplicateKeyID | JwtMissingKeyID | JwtUnknownKey
    | JwtKeyUnavailable | JwtMalformedToken | JwtInvalidHeader | JwtUnexpectedAlgorithm | JwtInvalidSignature
    | JwtInvalidClaims | JwtExpiredToken | JwtNotYetValid | JwtIssuedInFuture | JwtInvalidLifetime | JwtVerify
    // package jwe
    | JweInvalidConfig | JweMalformedToken | JweUnexpectedType | JweUnexpectedContentType
    | JweUnexpectedCompression | JwePlaintextTooLarge | JweDecrypt
    // package context
    | ContextCanceled | ContextDeadlineExceeded
    // golang-jwt
    | LibTokenMalformed | LibTokenExpired | LibTokenNotValidYet | LibTokenUsedBeforeIssued
    | LibTokenSignatureInvalid | LibTokenRequiredClaimMissing | LibTokenInvalidAudience
    | LibTokenInvalidIssuer | LibTokenInvalidSubject | LibTokenInvalidClaims
    // any sentinel of the application or of another library
    | OtherSentinel(tag: nat)

  datatype Error =
    | Root(id: Sentinel)
    | Plain
    | Wrap(causes: seq<Error>)

  predicate Is(e: Error, target: Sentinel) {
    match e
    case Root(id) => id == target
    case Plain => false
    case Wrap(causes) => exists c | c in causes :: Is(c, target)
  }

  /** Nothing a caller can ask with `errors.Is` tells the two apart. */
  ghost predicate SameSentinels(a: Error, b: Error) {
    forall s :: Is(a, s) <==> Is(b, s)
  }

  /** The one sentinel a caller finds in the error. */
  ghost predicate ReachesExactly(e: Error, sentinel: Sentinel) {
    forall s :: Is(e, s) <==> s == sentinel
  }

  /** A caller finds the sentinel, and what it would find in the cause. */
  ghost predicate ReachesAlso(e: Error, sentinel: Sentinel, cause: Error) {
    forall s :: Is(e, s) <==> s == sentinel || Is(cause, s)
  }

  ghost predicate ReachesNothing(e: Error) {
    forall s :: !Is(e, s)
  }

  /** `fmt.Errorf("...: %w", cause)`. */
  function Context(cause: Error): (e: Error)
    ensures forall s :: Is(e, s) <==> Is(cause, s)
  {
    assert forall s :: Is(cause, s) ==> Is(Wrap([cause]), s) by {
      assert cause in [cause];
    }
    Wrap([cause])
  }

  /** `fmt.Errorf("%w: ...", sentinel)`. */
  function Marked(sentinel: Sentinel): (e: Error)
    ensures forall s :: Is(e, s) <==> s == sentinel
  {
    Context(Root(sentinel))
  }

  /** `fmt.Errorf("%w: ... %w", sentinel, cause)`. */
  function Classified(sentinel: Sentinel, cause: Error): (e: Error)
    ensures forall s :: Is(e, s) <==> s == sentinel || Is(cause, s)
  {
    var e := Wrap([Root(sentinel), cause]);
    assert Root(sentinel) in e.causes && cause in e.causes;
    e
  }
}
