/** `validateLifetime` of jwt/verifier.go, with the arithmetic of Go's `time` package: duration arithmetic wraps at
    64 bits and `Time.Sub` saturates. Times are integers of nanoseconds. */
module JwtLifetime {
  import opened Wrappers
  import opened Errors
  import opened JwtKeys
  import opened JwtOptions
  import opened OptionFold

  const TWO63 := 0x8000_0000_0000_0000
  const TWO64 := 0x1_0000_0000_0000_0000

  /** What a claims value answers: a claim may be unreadable, absent or present. */
  datatype Claims = Claims(
    iat: Result<Option<int>, Error>, exp: Result<Option<int>, Error>, nbf: Result<Option<int>, Error>)

  /** Two's-complement reduction of an integer to a `Duration`. */
  function Wrapped(x: int): (d: Duration)
    ensures MIN_DURATION <= x <= MAX_DURATION ==> d == x
  {
    (x + TWO63) % TWO64 - TWO63
  }

  /** `Time.Sub`. */
  function Elapsed(later: int, earlier: int): Duration {
    var d := later - earlier;
    if d < MIN_DURATION then MIN_DURATION else if d > MAX_DURATION then MAX_DURATION else d
  }

  /** `now.Add(-maxAge - leeway)`. */
  function OldestAllowed(s: Settings, now: int): int {
    var age: int := s.maxAge;
    now + Wrapped(Wrapped(-age) - s.leeway)
  }

  function ValidateLifetime(claims: Claims, s: Settings, now: int): Option<Error> {
    if !s.requireIAT && !s.validateIAT && s.maxAge == 0 && s.maxLifetime == 0 then None
    else match claims.iat
      case Failure(e) => Some(Classified(JwtInvalidLifetime, e))
      case Success(None) => if s.requireIAT then Some(Marked(JwtInvalidLifetime)) else None
      case Success(Some(issuedAt)) =>
        if (s.validateIAT || s.maxAge > 0) && issuedAt > now + s.leeway then Some(Root(JwtIssuedInFuture))
        else if s.maxAge > 0 && issuedAt < OldestAllowed(s, now) then Some(Root(JwtInvalidLifetime))
        else if s.maxLifetime == 0 then None
        else match claims.exp
          case Failure(e) => Some(Classified(JwtInvalidLifetime, e))
          case Success(None) => None
          case Success(Some(expiresAt)) =>
            var lifetime := Elapsed(expiresAt, issuedAt);
            if lifetime <= 0 || lifetime > s.maxLifetime then Some(Root(JwtInvalidLifetime)) else None
  }

  predicate Accepts(claims: Claims, s: Settings, now: int) {
    ValidateLifetime(claims, s, now).None?
  }

  /** What golang-jwt checks of exp and nbf under the settings handed to its parser. The library is not modelled: this
      is the assumption made about it. Both claims are checked when present, and required when configured. */
  predicate Current(claims: Claims, s: Settings, now: int) {
    && claims.exp.Success? && claims.nbf.Success?
    && (if claims.exp.value.Some? then now < claims.exp.value.value + s.leeway else !s.requireExp)
    && (if claims.nbf.value.Some? then claims.nbf.value.value - s.leeway <= now else !s.requireNBF)
  }

  /** The claims of a token pass the parser and then the lifetime policy. */
  predicate VerifierAccepts(claims: Claims, s: Settings, now: int) {
    Current(claims, s, now) && Accepts(claims, s, now)
  }

  function Stamped(iat: int, exp: int): Claims {
    Claims(Success(Some(iat)), Success(Some(exp)), Success(None))
  }

  /** The documented window, over the integers. */
  predicate Intended(s: Settings, iat: int, exp: int, now: int) {
    now - s.maxAge - s.leeway <= iat <= now + s.leeway && 0 < exp - iat <= s.maxLifetime
  }

  /** The bounds under which the arithmetic neither wraps nor saturates into the window. */
  predicate Representable(s: Settings) {
    s.maxAge + s.leeway <= TWO63 && s.maxLifetime < MAX_DURATION
  }

  lemma OldestAllowedIs(s: Settings, now: int)
    requires Coherent(s) && s.maxAge > 0
    ensures OldestAllowed(s, now)
         == now - s.maxAge - s.leeway + (if s.maxAge + s.leeway <= TWO63 then 0 else TWO64)
  {
    var x := -s.maxAge - s.leeway;
    if x < MIN_DURATION {
      assert 0 <= x + TWO63 + TWO64 < TWO64;
      assert (x + TWO63) % TWO64 == x + TWO63 + TWO64;
    }
  }

  /** With both limits configured and both claims present, the check is the documented window for all times exactly
      when the configured durations are representable. */
  lemma WindowIsExactIffRepresentable(s: Settings)
    requires Coherent(s) && s.maxAge > 0 && s.maxLifetime > 0
    ensures (forall iat: int, exp: int, now: int ::
               Accepts(Stamped(iat, exp), s, now) <==> Intended(s, iat, exp, now))
       <==> Representable(s)
  {
    if Representable(s) {
      forall iat: int, exp: int, now: int
        ensures Accepts(Stamped(iat, exp), s, now) <==> Intended(s, iat, exp, now)
      {
        OldestAllowedIs(s, now);
      }
    } else if s.maxAge + s.leeway > TWO63 {
      OldestAllowedIs(s, 0);
      assert Intended(s, 0, 1, 0) && !Accepts(Stamped(0, 1), s, 0);
    } else {
      OldestAllowedIs(s, 0);
      assert Accepts(Stamped(0, TWO63), s, 0) && !Intended(s, 0, TWO63, 0);
    }
  }

  predicate Within(claim: Option<int>, lowest: int, highest: int) {
    claim.Some? ==> lowest <= claim.value <= highest
  }

  /** What each option asks of the claims on its own, as documented. The age and lifetime limits apply to the claims
      that are present. */
  predicate MeetsEveryOption(claims: Claims, s: Settings, now: int) {
    var consulted := s.requireIAT || s.validateIAT || s.maxAge > 0 || s.maxLifetime > 0;
    && (consulted ==> claims.iat.Success?)
    && (s.requireIAT ==> claims.iat.value.Some?)
    && (s.validateIAT && claims.iat.value.Some? ==> claims.iat.value.value <= now + s.leeway)
    && (s.maxAge > 0 ==> Within(claims.iat.value, now - s.maxAge - s.leeway, now + s.leeway))
    && (s.maxLifetime > 0 && claims.iat.value.Some? ==> claims.exp.Success?)
    && (s.maxLifetime > 0 && claims.iat.value.Some?
        ==> Within(claims.exp.value, claims.iat.value.value + 1, claims.iat.value.value + s.maxLifetime))
  }

  /** For every combination of options whose durations are representable, a token is accepted iff it meets each
      option on its own: options neither switch each other off nor ask for more together. */
  lemma {:induction false} OptionsActIndependently(claims: Claims, s: Settings, now: int)
    requires Coherent(s) && Representable(s)
    ensures Accepts(claims, s, now) <==> MeetsEveryOption(claims, s, now)
  {
    if s.maxAge > 0 {
      OldestAllowedIs(s, now);
    }
  }

  /** Once `maxAge + leeway` exceeds 2^63, the tokens still accepted are dated in the future, or carry no iat and do
      not have to: whatever was issued up to now with an iat is refused, however fresh. */
  lemma OverflowRefusesEveryIssuedToken(claims: Claims, s: Settings, now: int)
    requires Coherent(s) && s.maxAge > 0 && s.maxAge + s.leeway > TWO63
    requires Accepts(claims, s, now)
    ensures claims.iat.Success?
    ensures if claims.iat.value.Some? then claims.iat.value.value > now else !s.requireIAT
  {
    OldestAllowedIs(s, now);
  }

  /** The options impose no such bound: with these, which require iat, everything issued up to now is refused. */
  function OverflowingOptions(m: Method): seq<VerifierOption> {
    [WithMethods([Some(m)]), WithLeeway(MAX_DURATION), WithMaxTokenAge(MAX_DURATION), RequireIssuedAt]
  }

  lemma OptionsAllowOverflow(m: Method)
    requires m.alg != ""
    ensures VerifierSettings(OverflowingOptions(m)) == Success(OverflowingSettings(m))
  {
    var a, b, c := WithMethods([Some(m)]), WithLeeway(MAX_DURATION), WithMaxTokenAge(MAX_DURATION);
    var x := Defaults().(methods := [Some(m)]);
    var y := x.(leeway := MAX_DURATION);
    assert Applied(Defaults(), a) == Success(x);
    assert Applied(x, b) == Success(y);
    FoldOfThree(Defaults(), Applied, a, b, c, x, y);
    FoldOfOneMore(Defaults(), Applied, [a, b, c], RequireIssuedAt);
    assert [a, b, c] + [RequireIssuedAt] == OverflowingOptions(m);
  }

  function OverflowingSettings(m: Method): Settings {
    Defaults().(
      methods := [Some(m)], leeway := MAX_DURATION, maxAge := MAX_DURATION, validateIAT := true, requireIAT := true)
  }

  lemma OverflowingSettingsRefuseEverythingIssued(m: Method, claims: Claims, now: int)
    requires m.alg != ""
    requires Accepts(claims, OverflowingSettings(m), now)
    ensures claims.iat.Success? && claims.iat.value.Some? && claims.iat.value.value > now
  {
    OverflowRefusesEveryIssuedToken(claims, OverflowingSettings(m), now);
  }

  /** For fixed claims and settings the accepting clock readings form an interval, wrap-around or not. */
  lemma AcceptanceIsAnInterval(claims: Claims, s: Settings, early: int, between: int, late: int)
    requires early <= between <= late
    requires Accepts(claims, s, early) && Accepts(claims, s, late)
    ensures Accepts(claims, s, between)
  {
  }

  /** More leeway never rejects more, as long as the larger leeway is representable. */
  lemma AcceptanceIsMonotoneInLeeway(claims: Claims, s: Settings, leeway: Duration, now: int)
    requires Coherent(s) && s.leeway <= leeway
    requires s.maxAge > 0 ==> s.maxAge + leeway <= TWO63
    requires Accepts(claims, s, now)
    ensures Accepts(claims, s.(leeway := leeway), now)
  {
    if s.maxAge > 0 {
      OldestAllowedIs(s, now);
      OldestAllowedIs(s.(leeway := leeway), now);
    }
  }

  /** And exactly then: raising the leeway of a representable age limit keeps every accepted token accepted iff
      the sum stays representable. */
  lemma LeewayMonotonicityIsExact(s: Settings, leeway: Duration)
    requires Coherent(s) && s.maxAge > 0 && s.maxAge + s.leeway <= TWO63 && s.leeway <= leeway
    ensures (forall claims: Claims, now: int {:trigger Accepts(claims, s, now)} ::
               Accepts(claims, s, now) ==> Accepts(claims, s.(leeway := leeway), now))
       <==> s.maxAge + leeway <= TWO63
  {
    if s.maxAge + leeway <= TWO63 {
      forall claims: Claims, now: int | Accepts(claims, s, now)
        ensures Accepts(claims, s.(leeway := leeway), now)
      {
        AcceptanceIsMonotoneInLeeway(claims, s, leeway, now);
      }
    } else {
      var justIssued := Claims(Success(Some(0)), Success(None), Success(None));
      OldestAllowedIs(s, 0);
      assert Accepts(justIssued, s, 0);
      assert !Accepts(justIssued, s.(leeway := leeway), 0) by {
        OldestAllowedIs(s.(leeway := leeway), 0);
      }
    }
  }

  /** What a refused token is told: that it is issued in the future, or else that its lifetime is invalid, together with
      what made a claim unreadable. */
  lemma LifetimeRefusalMeaning(claims: Claims, s: Settings, now: int)
    requires Coherent(s) && ValidateLifetime(claims, s, now).Some?
    ensures var e := ValidateLifetime(claims, s, now).value;
            if claims.iat.Failure? then ReachesAlso(e, JwtInvalidLifetime, claims.iat.error)
            else if claims.iat.value.None? then s.requireIAT && ReachesExactly(e, JwtInvalidLifetime)
            else
              var iat := claims.iat.value.value;
              if (s.validateIAT || s.maxAge > 0) && iat > now + s.leeway then ReachesExactly(e, JwtIssuedInFuture)
              else if (s.maxAge > 0 && iat < OldestAllowed(s, now)) || claims.exp.Success?
              then ReachesExactly(e, JwtInvalidLifetime)
              else ReachesAlso(e, JwtInvalidLifetime, claims.exp.error)
  {
  }
}
