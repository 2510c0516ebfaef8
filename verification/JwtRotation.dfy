/** Key rotation as a state machine: a clock, the key set verifiers use, the signing key in use and the tokens issued
    so far. DESIGN.md asks operators to retain a key until its tokens are outside the acceptance window. */
module JwtRotation {
  import opened Wrappers
  import opened Errors
  import opened Text
  import opened JwtKeys
  import opened JwtKeySet
  import opened JwtOptions
  import opened JwtLifetime
  import opened JwkSet

  type Claim = Result<Option<int>, Error>

  datatype Token = Token(header: Header, claims: Claims, issuer: VerificationKey, issuedAt: int)

  datatype State = State(now: int, keys: StaticKeySet, current: VerificationKey, tokens: set<Token>)

  /** Every rebuild goes through the key set constructor, over a listing of the previous set. */
  datatype Step =
    | Tick(elapsed: nat)
    | Issue(stamped: bool, exp: Claim, nbf: Claim)
    | Promote(next: VerificationKey)
    | Add(added: VerificationKey, listing: Keys)
    | Retire(index: nat, listing: Keys)

  /** A token signed with `k` at `time`, with or without an iat claim. */
  function TokenBy(k: VerificationKey, time: int, stamped: bool, exp: Claim, nbf: Claim): Token
    requires k.signingMethod.Some?
  {
    Token(Header(k.signingMethod.value.alg, k.id),
          Claims(Success(if stamped then Some(time) else None), exp, nbf), k, time)
  }

  function Rebuilt(s: State, keys: Keys): State {
    match Constructed(keys)
    case Success(rebuilt) => s.(keys := rebuilt)
    case Failure(_) => s
  }

  function Without(keys: Keys, i: nat): Keys
    requires i < |keys|
  {
    keys[..i] + keys[i + 1..]
  }

  predicate Initial(s: State) {
    WellFormed(s.keys) && s.current in Members(s.keys) && s.tokens == {}
  }

  /** A key may be retired once strictly more than `margin` has passed since it last signed. */
  predicate Next(margin: nat, s: State, step: Step, s': State) {
    match step
    case Tick(elapsed) => s' == s.(now := s.now + elapsed)
    case Issue(stamped, exp, nbf) =>
      && s.current in Members(s.keys) && s.current.signingMethod.Some?
      && s' == s.(tokens := s.tokens + {TokenBy(s.current, s.now, stamped, exp, nbf)})
    case Promote(next) => next in Members(s.keys) && s' == s.(current := next)
    case Add(added, listing) => Lists(listing, s.keys) && s' == Rebuilt(s, listing + [added])
    case Retire(index, listing) =>
      && Lists(listing, s.keys) && index < |listing|
      && (forall t | t in s.tokens && t.issuer == listing[index] :: t.issuedAt + margin < s.now)
      && s' == Rebuilt(s, Without(listing, index))
  }

  ghost predicate Run(margin: nat, states: seq<State>, steps: seq<Step>) {
    && |states| == |steps| + 1
    && Initial(states[0])
    && forall i :: 0 <= i < |steps| ==> Next(margin, states[i], steps[i], states[i + 1])
  }

  /** What a verifier may rely on: a token whose claims it still accepts resolves to the key that issued it. */
  predicate SafeToken(cfg: Settings, s: State, t: Token) {
    VerifierAccepts(t.claims, cfg, s.now) ==> Resolve(s.keys, t.header) == Success(t.issuer)
  }

  predicate SafeState(cfg: Settings, s: State) {
    forall t | t in s.tokens :: SafeToken(cfg, s, t)
  }

  /* ---- the invariant ---- */

  predicate Tracked(margin: nat, s: State, t: Token) {
    && t.issuer.signingMethod.Some? && t.claims.iat.Success?
    && t.header == Header(t.issuer.signingMethod.value.alg, t.issuer.id)
    && (t.claims.iat.value.Some? ==> t.claims.iat.value.value == t.issuedAt)
    && t.issuedAt <= s.now
    && (t.issuer in Members(s.keys) || t.issuedAt + margin < s.now)
  }

  predicate Invariant(margin: nat, s: State) {
    WellFormed(s.keys) && forall t | t in s.tokens :: Tracked(margin, s, t)
  }

  lemma {:induction false} RebuildKeepsMembers(s: State, keys: Keys)
    requires WellFormed(s.keys)
    ensures WellFormed(Rebuilt(s, keys).keys)
    ensures forall k :: k in Members(s.keys) && k in keys ==> k in Members(Rebuilt(s, keys).keys)
  {
    if Constructed(keys).Success? {
      ConstructedIsWellFormed(keys);
    }
  }

  lemma {:induction false} AddKeepsInvariant(margin: nat, s: State, added: VerificationKey, listing: Keys)
    requires Invariant(margin, s) && Lists(listing, s.keys)
    ensures Invariant(margin, Rebuilt(s, listing + [added]))
  {
    RebuildKeepsMembers(s, listing + [added]);
    forall k | k in Members(s.keys)
      ensures k in listing + [added]
    {
      assert k in (set x | x in listing);
    }
    assert Rebuilt(s, listing + [added]).tokens == s.tokens;
  }

  lemma {:induction false} RetireKeepsInvariant(margin: nat, s: State, index: nat, listing: Keys)
    requires Invariant(margin, s) && Lists(listing, s.keys) && index < |listing|
    requires forall t | t in s.tokens && t.issuer == listing[index] :: t.issuedAt + margin < s.now
    ensures Invariant(margin, Rebuilt(s, Without(listing, index)))
  {
    RebuildKeepsMembers(s, Without(listing, index));
    OthersRemain(s.keys, listing, index);
    forall t | t in s.tokens
      ensures Tracked(margin, Rebuilt(s, Without(listing, index)), t)
    {
      assert Tracked(margin, s, t);
    }
  }

  lemma OthersRemain(keys: StaticKeySet, listing: Keys, index: nat)
    requires Lists(listing, keys) && index < |listing|
    ensures forall k :: k in Members(keys) && k != listing[index] ==> k in Without(listing, index)
  {
    forall k | k in Members(keys) && k != listing[index]
      ensures k in Without(listing, index)
    {
      assert k in (set x | x in listing);
      var i :| 0 <= i < |listing| && listing[i] == k;
      assert Without(listing, index)[if i < index then i else i - 1] == k;
    }
  }

  lemma {:induction false} StepKeepsInvariant(margin: nat, s: State, step: Step, s': State)
    requires Invariant(margin, s) && Next(margin, s, step, s')
    ensures Invariant(margin, s')
  {
    match step
    case Tick(elapsed) =>
      assert forall t :: Tracked(margin, s, t) ==> Tracked(margin, s', t);
    case Add(added, listing) => AddKeepsInvariant(margin, s, added, listing);
    case Retire(index, listing) => RetireKeepsInvariant(margin, s, index, listing);
    case _ =>
  }

  lemma {:induction false} RunKeepsInvariant(margin: nat, states: seq<State>, steps: seq<Step>, i: nat)
    requires Run(margin, states, steps) && i < |states|
    ensures Invariant(margin, states[i])
  {
    if i > 0 {
      RunKeepsInvariant(margin, states, steps, i - 1);
      StepKeepsInvariant(margin, states[i - 1], steps[i - 1], states[i]);
    }
  }

  lemma {:induction false} MemberResolves(s: StaticKeySet, k: VerificationKey)
    requires WellFormed(s) && k in Members(s)
    ensures k.signingMethod.Some? && Resolve(s, Header(k.signingMethod.value.alg, k.id)) == Success(k)
  {
  }

  /* ---- safety ---- */

  /** The age limit keeps a token of known age from outliving the margin. A window so large that the arithmetic wraps
      does so too, by refusing everything. */
  predicate AgeCovered(cfg: Settings, margin: nat) {
    cfg.maxAge > 0 && (cfg.maxAge + cfg.leeway <= margin || cfg.maxAge + cfg.leeway > TWO63)
  }

  /** A required exp does the same through the lifetime limit, below the one value at which saturation makes that
      limit vacuous. The bound is one larger because expiry excludes its last instant. */
  predicate LifetimeCovered(cfg: Settings, margin: nat) {
    cfg.requireExp && 0 < cfg.maxLifetime < MAX_DURATION && cfg.maxLifetime + cfg.leeway <= margin + 1
  }

  /** The retirement margins that make rotation safe under a verifier's settings. */
  predicate SafeMargin(cfg: Settings, margin: nat) {
    cfg.requireIAT && (AgeCovered(cfg, margin) || LifetimeCovered(cfg, margin))
  }

  lemma {:induction false} TrackedTokenIsSafe(cfg: Settings, margin: nat, s: State, t: Token)
    requires Coherent(cfg) && SafeMargin(cfg, margin)
    requires Invariant(margin, s) && t in s.tokens
    ensures SafeToken(cfg, s, t)
  {
    if t.issuer in Members(s.keys) {
      MemberResolves(s.keys, t.issuer);
    } else if cfg.maxAge > 0 {
      OldestAllowedIs(cfg, s.now);
    }
  }

  lemma {:induction false} RotationIsSafe(cfg: Settings, margin: nat, states: seq<State>, steps: seq<Step>, i: nat)
    requires Coherent(cfg) && SafeMargin(cfg, margin)
    requires Run(margin, states, steps) && i < |states|
    ensures SafeState(cfg, states[i])
  {
    RunKeepsInvariant(margin, states, steps, i);
    forall t | t in states[i].tokens
      ensures SafeToken(cfg, states[i], t)
    {
      TrackedTokenIsSafe(cfg, margin, states[i], t);
    }
  }

  /** The same holds for a service that verifies against a published JWK set, exported from the key set in use: if
      the method registry is faithful, a token still accepted resolves to the key that issued it there too. */
  lemma {:induction false} PublishedSetIsSafe(
      cfg: Settings, margin: nat, states: seq<State>, steps: seq<Step>, i: nat, t: Token,
      listing: Keys, published: PublicSet, registry: Registry)
    requires Coherent(cfg) && SafeMargin(cfg, margin)
    requires Run(margin, states, steps) && i < |states| && t in states[i].tokens
    requires VerifierAccepts(t.claims, cfg, states[i].now)
    requires Lists(listing, states[i].keys) && IsExport(published, listing)
    requires forall k | k in Members(states[i].keys) :: Genuine(k) && k.signingMethod.Some? && Faithful(registry, k)
    ensures ResolvePublic(published, registry, t.header) == Success(t.issuer)
  {
    RotationIsSafe(cfg, margin, states, steps, i);
    RunKeepsInvariant(margin, states, steps, i);
    ExportAgreesExactly(states[i].keys, listing, published, registry);
    assert SafeToken(cfg, states[i], t);
    assert Agree(Resolve(states[i].keys, t.header), ResolvePublic(published, registry, t.header));
  }

  /* ---- and only then ---- */

  function DemoKey(id: string): VerificationKey {
    VerificationKey(id, Some(Method("EdDSA", 0)), Some(PublicKey(0, false, true, true)))
  }

  lemma DemoSets()
    ensures var a, b := DemoKey("a"), DemoKey("b");
            && Constructed([a]).Success? && Constructed([b]).Success? && Constructed([a, b]).Success?
            && Lists([a], Constructed([a]).value) && Lists([a, b], Constructed([a, b]).value)
            && WellFormed(Constructed([a]).value) && WellFormed(Constructed([a, b]).value)
            && a in Members(Constructed([a]).value) && a in Members(Constructed([a, b]).value)
            && Resolve(Constructed([b]).value, Header("EdDSA", "a")).Failure?
  {
    var a, b := DemoKey("a"), DemoKey("b");
    assert a.id[0] == 'a' && b.id[0] == 'b';
    assert IDsOf([a, b]) == {"a", "b"};
    AcceptedExactly([a]);
    AcceptedExactly([b]);
    AcceptedExactly([a, b]);
    ConstructedIsWellFormed([a]);
    ConstructedIsWellFormed([b]);
    ConstructedIsWellFormed([a, b]);
    assert Less("a", "b");
    assert a in [a] && a in [a, b];
    NamedHoldsTheIDs([b]);
    assert IDsOf([b]) == {"b"};
  }

  /** An exp under which a token outlives the margin: none where none is required, as late as the lifetime limit
      allows otherwise. */
  function LastingExp(cfg: Settings, margin: nat): Claim {
    if !cfg.requireExp then Success(None)
    else if !cfg.requireIAT || cfg.maxLifetime == 0 then Success(Some(margin + 2))
    else if cfg.maxLifetime < MAX_DURATION then Success(Some(cfg.maxLifetime))
    else Success(Some(margin + 2 + MAX_DURATION))
  }

  /** Issue a token, wait just past the margin, retire the key. */
  function UnsafeStates(cfg: Settings, margin: nat): seq<State>
    requires Constructed([DemoKey("a")]).Success?
    requires Constructed([DemoKey("b")]).Success?
    requires Constructed([DemoKey("a"), DemoKey("b")]).Success?
  {
    var a, b := DemoKey("a"), DemoKey("b");
    var t := TokenBy(a, 0, cfg.requireIAT, LastingExp(cfg, margin), Success(Some(0)));
    var s0 := State(0, Constructed([a]).value, a, {});
    var s1 := s0.(keys := Constructed([a, b]).value);
    var s2 := s1.(tokens := {t});
    var s3 := s2.(now := margin + 1);
    [s0, s1, s2, s3, s3.(keys := Constructed([b]).value)]
  }

  function UnsafeSteps(cfg: Settings, margin: nat): seq<Step> {
    var a, b := DemoKey("a"), DemoKey("b");
    [Add(b, [a]), Issue(cfg.requireIAT, LastingExp(cfg, margin), Success(Some(0))), Tick(margin + 1),
     Retire(0, [a, b])]
  }

  lemma UnsafeStatesAreARun(cfg: Settings, margin: nat)
    requires Constructed([DemoKey("a")]).Success?
    requires Constructed([DemoKey("b")]).Success?
    requires Constructed([DemoKey("a"), DemoKey("b")]).Success?
    ensures Run(margin, UnsafeStates(cfg, margin), UnsafeSteps(cfg, margin))
  {
    DemoSets();
    var a, b := DemoKey("a"), DemoKey("b");
    var states, steps := UnsafeStates(cfg, margin), UnsafeSteps(cfg, margin);
    assert [a] + [b] == [a, b];
    assert Without([a, b], 0) == [b];
    assert Next(margin, states[0], steps[0], states[1]);
    assert Next(margin, states[1], steps[1], states[2]);
    assert Next(margin, states[2], steps[2], states[3]);
    assert Next(margin, states[3], steps[3], states[4]);
  }

  lemma UnsafeRunExists(cfg: Settings, margin: nat)
    requires Coherent(cfg) && !SafeMargin(cfg, margin)
    ensures exists states, steps :: Run(margin, states, steps) && !SafeState(cfg, states[|states| - 1])
  {
    DemoSets();
    UnsafeStatesAreARun(cfg, margin);
    var states := UnsafeStates(cfg, margin);
    var t := TokenBy(DemoKey("a"), 0, cfg.requireIAT, LastingExp(cfg, margin), Success(Some(0)));
    if cfg.maxAge > 0 && cfg.maxAge + cfg.leeway <= TWO63 {
      OldestAllowedIs(cfg, margin + 1);
    }
    assert Current(t.claims, cfg, margin + 1);
    assert t in states[4].tokens && !SafeToken(cfg, states[4], t);
  }

  /** Rotation is safe in every run exactly for the safe margins: nothing weaker will do. */
  lemma RotationIsSafeExactly(cfg: Settings, margin: nat)
    requires Coherent(cfg)
    ensures (forall states, steps, i :: Run(margin, states, steps) && 0 <= i < |states| ==> SafeState(cfg, states[i]))
       <==> SafeMargin(cfg, margin)
  {
    if SafeMargin(cfg, margin) {
      forall states, steps, i | Run(margin, states, steps) && 0 <= i < |states|
        ensures SafeState(cfg, states[i])
      {
        RotationIsSafe(cfg, margin, states, steps, i);
      }
    } else {
      UnsafeRunExists(cfg, margin);
    }
  }

  /** Rotation also keeps service: with representable durations and a safe margin, the dated tokens accepted in a
      reachable state are exactly those that are current, of allowed age and of allowed lifetime, and each of them
      resolves to its issuer. Retiring keys takes none of them away. */
  lemma {:induction false} RotationKeepsService(
      cfg: Settings, margin: nat, states: seq<State>, steps: seq<Step>, i: nat, t: Token)
    requires Coherent(cfg) && Representable(cfg) && SafeMargin(cfg, margin)
    requires Run(margin, states, steps) && i < |states| && t in states[i].tokens
    requires t.claims.iat.Success? && t.claims.iat.value.Some?
    ensures var now := states[i].now;
            VerifierAccepts(t.claims, cfg, now) <==>
              && Current(t.claims, cfg, now)
              && (cfg.maxAge > 0 ==> now - t.issuedAt <= cfg.maxAge + cfg.leeway)
              && (cfg.maxLifetime > 0 ==> Within(t.claims.exp.value, t.issuedAt + 1, t.issuedAt + cfg.maxLifetime))
    ensures VerifierAccepts(t.claims, cfg, states[i].now) ==> Resolve(states[i].keys, t.header) == Success(t.issuer)
  {
    RunKeepsInvariant(margin, states, steps, i);
    OptionsActIndependently(t.claims, cfg, states[i].now);
    TrackedTokenIsSafe(cfg, margin, states[i], t);
  }

  /* ---- the verifier's own check ---- */

  /** `resolveKey` of the verifier, for any resolver. */
  function ResolveForVerifier(resolve: Header -> Result<VerificationKey, Error>, header: Header)
    : Result<Material, Error>
  {
    match resolve(header)
    case Failure(e) => Failure(e)
    case Success(k) =>
      if k.signingMethod.None? || k.key.None? then Failure(Marked(JwtInvalidKey))
      else if k.signingMethod.value.alg != header.algorithm then Failure(Root(JwtUnexpectedAlgorithm))
      else Success(k.key.value)
  }

  /** Whatever the resolver, its own error is passed on, and its key is used only if it is initialized and of the
      header's algorithm. */
  lemma VerifierUsesResolvedKeyExactly(resolve: Header -> Result<VerificationKey, Error>, header: Header)
    ensures var r := ResolveForVerifier(resolve, header);
            match resolve(header)
            case Failure(e) => r == Failure(e)
            case Success(k) =>
              if !Initialized(k) then r.Failure? && ReachesExactly(r.error, JwtInvalidKey)
              else if header.algorithm == k.signingMethod.value.alg then r == Success(k.key.value)
              else r.Failure? && ReachesExactly(r.error, JwtUnexpectedAlgorithm)
  {
  }

  /** Over a key set the extra check never fires: whatever the set resolves, the verifier uses, and a safe token is
      checked with the material of its issuer. */
  lemma {:induction false} VerifierTakesWhatTheSetResolves(s: StaticKeySet, header: Header)
    requires WellFormed(s)
    ensures var resolved := Resolve(s, header);
            && (resolved.Failure? ==> ResolveForVerifier(h => Resolve(s, h), header) == Failure(resolved.error))
            && (resolved.Success? ==> ResolveForVerifier(h => Resolve(s, h), header)
                                      == Success(resolved.value.key.value))
  {
  }
}
