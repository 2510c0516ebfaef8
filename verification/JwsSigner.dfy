/** jws/key.go and jws/signer.go: from a signing key and options to a protected header and a signature. */
module JwsSigner {
  import opened Wrappers
  import opened Errors
  import opened Text
  import opened Jose
  import opened JwsHeader
  import opened JwsMaterial
  import opened JwsResolver
  import opened JwsOptions
  import opened JwsVerifier

  datatype SigningKey = SigningKey(algorithm: string, keyID: string, key: Material)

  /** `jose.SigningKey`. */
  datatype BuiltKey = BuiltKey(algorithm: string, key: Material)

  function ValidateKey(key: SigningKey): Option<Error> {
    if key.algorithm == "" then Some(INVALID)
    else if key.key.NilKey? then Some(INVALID)
    else if key.keyID != "" && !AcceptableValue(key.keyID, MAX_KEY_ID_LENGTH)
    then Some(Classified(JwsInvalidConfig, Plain))
    else None
  }

  function MergeJWKMetadata(jwk: JSONWebKey, key: SigningKey): Result<JSONWebKey, Error> {
    if jwk.key.NilKey? then Failure(INVALID)
    else if key.keyID != "" && jwk.keyID != "" && key.keyID != jwk.keyID then Failure(INVALID)
    else if jwk.algorithm != "" && jwk.algorithm != key.algorithm then Failure(INVALID)
    else if jwk.use != "" && jwk.use != KEY_USE_SIGNATURE then Failure(INVALID)
    else
      var identified := if key.keyID != "" then jwk.(keyID := key.keyID) else jwk;
      Success(identified.(algorithm := key.algorithm, use := KEY_USE_SIGNATURE))
  }

  /** A JWK that contradicts neither the original JWK nor the signing key it is used for. */
  predicate Consistent(merged: JSONWebKey, jwk: JSONWebKey, key: SigningKey) {
    && merged.key == jwk.key && !merged.key.NilKey?
    && (jwk.keyID != "" ==> merged.keyID == jwk.keyID)
    && (key.keyID != "" ==> merged.keyID == key.keyID)
    && merged.algorithm == key.algorithm && (jwk.algorithm != "" ==> merged.algorithm == jwk.algorithm)
    && merged.use == KEY_USE_SIGNATURE && (jwk.use != "" ==> merged.use == jwk.use)
  }

  /** Metadata merges exactly when the two sources can be reconciled, and then into a JWK consistent with both that
      invents no identity. */
  lemma {:induction false} MergeReconcilesExactly(jwk: JSONWebKey, key: SigningKey)
    ensures MergeJWKMetadata(jwk, key).Success? <==> exists merged :: Consistent(merged, jwk, key)
    ensures var r := MergeJWKMetadata(jwk, key);
            r.Success? ==> Consistent(r.value, jwk, key)
                           && (jwk.keyID == "" && key.keyID == "" ==> r.value.keyID == "")
  {
    var r := MergeJWKMetadata(jwk, key);
    if r.Success? {
      assert Consistent(r.value, jwk, key);
    }
  }

  function MergedMaterial(jwk: JSONWebKey, key: SigningKey): Result<Material, Error> {
    if jwk.key.OpaqueSigner? then Failure(INVALID)
    else match MergeJWKMetadata(jwk, key)
      case Failure(e) => Failure(e)
      case Success(merged) => Success(Jwk(merged))
  }

  function BuildKeyMaterial(key: SigningKey): Result<Material, Error> {
    match key.key
    case Jwk(jwk) => MergedMaterial(jwk, key)
    case JwkPointer(None) => Failure(INVALID)
    case JwkPointer(Some(jwk)) => MergedMaterial(jwk, key)
    case OpaqueSigner(_, _) => if key.keyID != "" then Failure(INVALID) else Success(key.key)
    case _ =>
      if key.keyID == "" then Success(key.key)
      else Success(Jwk(JSONWebKey(key.key, key.keyID, key.algorithm, KEY_USE_SIGNATURE)))
  }

  /** `SigningKey.build`. */
  function Built(key: SigningKey): Result<BuiltKey, Error> {
    var key := key.(key := Cloned(key.key));
    if ValidateKey(key).Some? then Failure(ValidateKey(key).value)
    else match BuildKeyMaterial(key)
      case Failure(e) => Failure(e)
      case Success(material) => Success(BuiltKey(key.algorithm, material))
  }

  predicate FailsFirst(keys: seq<SigningKey>, i: nat) {
    && i < |keys| && Built(keys[i]).Failure?
    && forall j :: 0 <= j < i ==> Built(keys[j]).Success?
  }

  /** `buildSigningKeys`: keys are built in order and the first refusal stops the construction. */
  method BuildSigningKeys(keys: seq<SigningKey>) returns (r: Result<seq<BuiltKey>, Error>)
    ensures r.Success? <==> forall i :: 0 <= i < |keys| ==> Built(keys[i]).Success?
    ensures r.Success? ==> |r.value| == |keys|
                           && forall i :: 0 <= i < |keys| ==> Built(keys[i]) == Success(r.value[i])
    ensures r.Failure? ==> exists i: nat :: FailsFirst(keys, i) && r.error == Context(Built(keys[i]).error)
  {
    var signingKeys: seq<BuiltKey> := [];
    for index := 0 to |keys|
      invariant |signingKeys| == index
      invariant forall i :: 0 <= i < index ==> Built(keys[i]) == Success(signingKeys[i])
    {
      var built := Built(keys[index]);
      if built.Failure? {
        assert FailsFirst(keys, index);
        return Failure(Context(built.error));
      }
      signingKeys := signingKeys + [built.value];
    }
    return Success(signingKeys);
  }

  /** The key identifier that built material carries: a JWK's own, or that of an opaque signer's public key. */
  function CarriedKeyID(material: Material): string {
    match material
    case Jwk(jwk) => jwk.keyID
    case OpaqueSigner(_, publicKeyID) => publicKeyID
    case _ => ""
  }

  /** A configured key identifier is the one the built material carries, whatever kind of key it comes with, and it is
      within the parser's limits; without one, the material carries the key's own identifier. */
  lemma {:induction false} ConfiguredKeyIDIsCarried(key: SigningKey)
    requires Built(key).Success?
    ensures var carried := CarriedKeyID(Built(key).value.key);
            && (key.keyID != "" ==> carried == key.keyID && AcceptableValue(carried, MAX_KEY_ID_LENGTH))
            && (key.keyID == "" ==> carried == match key.key
                  case JwkPointer(Some(jwk)) => jwk.keyID
                  case material => CarriedKeyID(material))
    ensures Built(key).value.algorithm == key.algorithm != ""
  {
    match key.key
    case Jwk(jwk) => assert Cloned(key.key) == Jwk(ClonedKey(jwk));
    case JwkPointer(Some(jwk)) => assert Cloned(key.key) == JwkPointer(Some(ClonedKey(jwk)));
    case _ =>
  }

  /** A key built as a JWK is bound to its algorithm and to signing, and holds its material directly. */
  lemma {:induction false} BuiltKeysAreBound(key: SigningKey)
    requires Built(key).Success? && Built(key).value.key.Jwk?
    ensures var jwk := Built(key).value.key.jwk;
            jwk.algorithm == key.algorithm && jwk.use == KEY_USE_SIGNATURE && !jwk.key.OpaqueSigner? && !jwk.key.NilKey?
  {
  }

  /** Material that a signing key may come with, given its metadata. */
  predicate Buildable(key: SigningKey) {
    && key.algorithm != "" && (key.keyID == "" || (|key.keyID| <= 256 && ValidUTF8(key.keyID)))
    && match key.key
       case NilKey => false
       case OpaqueSigner(_, _) => key.keyID == ""
       case Jwk(jwk) => Reconcilable(jwk, key)
       case JwkPointer(target) => target.Some? && Reconcilable(target.value, key)
       case _ => true
  }

  predicate Reconcilable(jwk: JSONWebKey, key: SigningKey) {
    && !jwk.key.OpaqueSigner? && !jwk.key.NilKey? && jwk.key != JwkPointer(None)
    && (jwk.keyID == "" || key.keyID == "" || jwk.keyID == key.keyID)
    && (jwk.algorithm == "" || jwk.algorithm == key.algorithm)
    && (jwk.use == "" || jwk.use == "sig")
  }

  /** The key a built key signs with, out of whatever JWK it comes in. */
  function InnerKey(m: Material): Material {
    match m
    case Jwk(jwk) => jwk.key
    case JwkPointer(Some(jwk)) => jwk.key
    case _ => m
  }

  /** A key builds exactly when it is buildable, and is refused as an invalid configuration. What is built signs with
      the caller's key, and is a JWK if and only if the caller gave one or an identifier to put into one. */
  lemma {:induction false} BuildsExactly(key: SigningKey)
    ensures Built(key).Success? <==> Buildable(key)
    ensures Built(key).Failure? ==> ReachesExactly(Built(key).error, JwsInvalidConfig)
    ensures Built(key).Success? ==> BuiltFrom(key, Built(key).value)
  {
    ClonedKind(key.key);
    if WrappingJWK(key.key).Some? {
      ClonedKind(WrappingJWK(key.key).value.key);
    }
    if Built(key).Success? {
      BuiltKeepsTheKey(key);
    }
  }

  lemma ClonedKind(m: Material)
    ensures Cloned(m).NilKey? <==> m.NilKey? || m == JwkPointer(None)
    ensures Cloned(m).OpaqueSigner? <==> m.OpaqueSigner?
    ensures Cloned(m).Jwk? <==> m.Jwk?
    ensures WrappingJWK(Cloned(m)) == if WrappingJWK(m).Some? then Some(ClonedKey(WrappingJWK(m).value)) else None
  {
  }

  predicate BuiltFrom(key: SigningKey, built: BuiltKey) {
    && built.algorithm == key.algorithm
    && SameButForNilPointers(InnerKey(key.key), InnerKey(built.key))
    && (built.key.Jwk? <==> WrappingJWK(key.key).Some? || key.keyID != "")
    && (!built.key.Jwk? ==> SameButForNilPointers(key.key, built.key))
  }

  lemma {:induction false} BuiltKeepsTheKey(key: SigningKey)
    requires Built(key).Success?
    ensures BuiltFrom(key, Built(key).value)
  {
    CloneIsSameButForNilPointers(key.key, Cloned(key.key));
    CloneIsSameButForNilPointers(InnerKey(key.key), Cloned(InnerKey(key.key)));
  }

  /* ---- opaque signers inside JWKs ---- */

  /** How many JWKs are wrapped around an opaque signer, if there is one. */
  function OpaqueDepth(m: Material): Option<nat> {
    match m
    case OpaqueSigner(_, _) => Some(0)
    case Jwk(jwk) => OneDeeper(OpaqueDepth(jwk.key))
    case JwkPointer(Some(jwk)) => OneDeeper(OpaqueDepth(jwk.key))
    case _ => None
  }

  function OneDeeper(depth: Option<nat>): Option<nat> {
    if depth.Some? then Some(depth.value + 1) else None
  }

  lemma {:induction false} CloningKeepsOpaqueDepth(m: Material)
    ensures OpaqueDepth(Cloned(m)) == OpaqueDepth(m)
  {
    match m
    case Jwk(jwk) => CloningKeepsOpaqueDepth(jwk.key);
    case JwkPointer(Some(jwk)) => CloningKeepsOpaqueDepth(jwk.key);
    case _ =>
  }

  /** The JWK that wraps the material of a signing key, if any. */
  function WrappingJWK(m: Material): Option<JSONWebKey> {
    match m
    case Jwk(jwk) => Some(jwk)
    case JwkPointer(target) => target
    case _ => None
  }

  /** The guard against opaque signers in JWKs looks one level deep: of the signing keys whose JWK metadata would
      merge, it refuses exactly those with an opaque signer in one JWK. The built key keeps the depth, so it still
      hides an opaque signer exactly when there were two or more JWKs around it. */
  lemma {:induction false} OpaqueGuardIsOneLevelDeep(key: SigningKey)
    requires WrappingJWK(key.key).Some?
    requires ValidateKey(key).None? && MergeJWKMetadata(ClonedKey(WrappingJWK(key.key).value), key).Success?
    ensures Built(key).Success? <==> OpaqueDepth(key.key) != Some(1)
    ensures Built(key).Success? ==>
              && OpaqueDepth(Built(key).value.key) == OpaqueDepth(key.key)
              && (OpaqueDepth(Built(key).value.key).Some? <==>
                    OpaqueDepth(key.key).Some? && OpaqueDepth(key.key).value >= 2)
  {
    var jwk := WrappingJWK(key.key).value;
    CloningKeepsOpaqueDepth(jwk.key);
    assert WrappingJWK(Cloned(key.key)) == Some(ClonedKey(jwk));
    assert OpaqueDepth(key.key) == OneDeeper(OpaqueDepth(jwk.key));
    assert OpaqueDepth(jwk.key) == Some(0) <==> jwk.key.OpaqueSigner?;
  }

  /** A signing key that slips past the guard. */
  lemma NestedOpaqueSignerIsBuilt()
    ensures var inner := JSONWebKey(OpaqueSigner(1, "p"), "", "", "");
            var key := SigningKey("RS256", "", Jwk(JSONWebKey(Jwk(inner), "", "", "")));
            Built(key).Success? && OpaqueDepth(Built(key).value.key) == Some(2)
  {
    var inner := JSONWebKey(OpaqueSigner(1, "p"), "", "", "");
    var middle := Jwk(inner);
    var outer := JSONWebKey(middle, "", "", "");
    assert OpaqueDepth(middle) == Some(1);
    assert Cloned(middle) == middle;
    assert Cloned(Jwk(outer)) == Jwk(outer);
    OpaqueGuardIsOneLevelDeep(SigningKey("RS256", "", Jwk(outer)));
  }

  /** `signerOptions`: extra headers are copied in whatever order the map yields them. */
  method SignerOptions(extraHeaders: Parameters) returns (options: Parameters)
    ensures options == extraHeaders
  {
    options := map[];
    var pending := extraHeaders.Keys;
    while pending != {}
      invariant pending <= extraHeaders.Keys
      invariant options == map name | name in extraHeaders && name !in pending :: extraHeaders[name]
      decreases |pending|
    {
      var name :| name in pending;
      options := options[name := extraHeaders[name]];
      pending := pending - {name};
    }
  }

  /** What go-jose writes as kid for given key material, the empty string when it writes none. The library decides
      this, so it is a parameter. */
  type KeyIDWriter = Material -> string

  /** The assumption about it: it writes the identifier the material carries, or none. */
  predicate WritesCarriedOrNone(write: KeyIDWriter, material: Material) {
    write(material) == CarriedKeyID(material) || write(material) == ""
  }

  /** The protected header of a signature, as a parser reads it back: go-jose extracts alg and kid, and every
      other parameter has gone through JSON. */
  function WrittenHeader(s: Settings, key: BuiltKey, write: KeyIDWriter): JoseHeader {
    JoseHeader(key.algorithm, write(key.key), "", ParametersOnWire(s.extraHeaders))
  }

  /** go-jose signing: algorithm, material, protected header and payload to a signature. */
  type SignFunction = (BuiltKey, JoseHeader, seq<byte>) -> seq<byte>

  /** `NewSigner` followed by `Sign` and a parse of the compact form. */
  function Signed(sign: SignFunction, write: KeyIDWriter, key: SigningKey,
                  options: seq<ConfigOption>, payload: seq<byte>): Result<Message, Error>
  {
    match Folded(options)
    case Failure(e) => Failure(e)
    case Success(s) =>
      if ValidateSigner(s).Some? then Failure(ValidateSigner(s).value)
      else match Built(key)
        case Failure(e) => Failure(e)
        case Success(built) =>
          if |payload| > s.maxPayloadSize then Failure(Marked(JwsPayloadTooLarge))
          else
            var header := WrittenHeader(s, built, write);
            Success(Message([Entry(header, sign(built, header, payload))], payload))
  }

  /** Whatever options a signer accepts, its header names the built key's algorithm and the kid go-jose writes, and
      carries of every other parameter what the last option to write it gave, as JSON renders it, and no others. */
  lemma {:induction false} HeaderCarriesLastWrites(
      options: seq<ConfigOption>, key: BuiltKey, write: KeyIDWriter, name: string, i: nat)
    requires Folded(options).Success?
    ensures var header := WrittenHeader(Folded(options).value, key, write);
            && header.algorithm == key.algorithm && header.keyID == write(key.key)
            && (name in header.extra <==> exists j :: 0 <= j < |options| && Written(options[j], name).Some?)
            && (i < |options| && Written(options[i], name).Some?
                && (forall j :: i < j < |options| ==> Written(options[j], name).None?)
                ==> name in header.extra && header.extra[name] == OnWire(Written(options[i], name).value))
  {
    LastWriteWins(options, name);
  }

  /** Signing succeeds exactly for an accepted option list without a policy, a buildable key and a payload within the
      limit; what is made is one signature, by the built key, over that header and that payload. */
  lemma {:induction false} SignsExactly(
      sign: SignFunction, write: KeyIDWriter, key: SigningKey, options: seq<ConfigOption>, payload: seq<byte>)
    ensures var r := Signed(sign, write, key, options, payload);
            && (r.Success? <==>
                  && Folded(options).Success?
                  && (forall i :: 0 <= i < |options| ==> !options[i].WithSignaturePolicy?)
                  && Buildable(key)
                  && |payload| <= Folded(options).value.maxPayloadSize)
            && (r.Success? ==>
                  var built := Built(key).value;
                  var header := WrittenHeader(Folded(options).value, built, write);
                  r.value == Message([Entry(header, sign(built, header, payload))], payload))
            && (r.Failure? ==> ReachesExactly(r.error, JwsInvalidConfig) || ReachesExactly(r.error, JwsPayloadTooLarge))
  {
    OptionsAreAcceptedOneByOne(options);
    BuildsExactly(key);
    if Folded(options).Success? {
      ConstructorsRefuseByKind(options);
    }
  }

  predicate AcceptedByBoth(options: seq<ConfigOption>) {
    && Folded(options).Success?
    && ValidateSigner(Folded(options).value).None?
    && ValidateVerifier(Folded(options).value).None?
  }

  lemma StandardHeadersOnWire(typ: string, cty: string)
    ensures var wire := ParametersOnWire(StandardHeaders(typ, cty));
            && HEADER_CRITICAL !in wire && HEADER_BASE64 !in wire
            && (if typ == "" then HEADER_TYPE !in wire
                else HEADER_TYPE in wire && wire[HEADER_TYPE] == JSONString(typ))
            && (if cty == "" then HEADER_CONTENT_TYPE !in wire
                else HEADER_CONTENT_TYPE in wire && wire[HEADER_CONTENT_TYPE] == JSONString(cty))
  {
    assert HEADER_CRITICAL[1] == 'r' && HEADER_CONTENT_TYPE[1] == 't';
    assert HEADER_TYPE[0] == 't' && HEADER_BASE64[0] == 'b' && HEADER_CONTENT_TYPE[0] == 'c';
  }

  /** For every option list both constructors take, the header the signer writes parses exactly when algorithm and
      written kid are within the parser's limits, and then it satisfies the typ/cty policy of that same list. */
  lemma SignerHeaderMeetsVerifierPolicy(options: seq<ConfigOption>, key: BuiltKey, write: KeyIDWriter)
    requires AcceptedByBoth(options)
    ensures var s := Folded(options).value;
            var parsed := ParseProtectedHeader(WrittenHeader(s, key, write));
            && (parsed.Success? <==> AcceptableValue(key.algorithm, MAX_ALGORITHM_LENGTH)
                                     && AcceptableIfPresent(write(key.key), MAX_KEY_ID_LENGTH))
            && (parsed.Success? ==>
                  && ValidateHeaderPolicy(s.typ, s.cty, parsed.value).None?
                  && parsed.value.algorithm == key.algorithm
                  && parsed.value.keyID == write(key.key)
                  && parsed.value.typ == s.typ && parsed.value.contentType == s.cty)
  {
    AcceptedOptionsAreCoherent(options);
    var s := Folded(options).value;
    StandardHeadersOnWire(s.typ, s.cty);
    ParseAcceptsExactlySupported(WrittenHeader(s, key, write));
  }

  /** Sign, then verify with the same options: if the resolver returns material that checks this one signature,
      the payload comes back, under the resolver's identity and with the configured typ and cty. */
  lemma SignThenVerify(
      sign: SignFunction, write: KeyIDWriter, env: Environment, options: seq<ConfigOption>,
      key: SigningKey, payload: seq<byte>, resolved: ResolvedKey)
    requires AcceptedByBoth(options)
    requires Signed(sign, write, key, options, payload).Success?
    requires AcceptableValue(key.algorithm, MAX_ALGORITHM_LENGTH)
    requires AcceptableIfPresent(write(Built(key).value.key), MAX_KEY_ID_LENGTH)
    // Matching key: the resolver answers this algorithm and kid with material that checks the signature.
    requires forall header: Header ::
               header.algorithm == key.algorithm && header.keyID == write(Built(key).value.key)
               ==> env.resolve(header) == Success(resolved)
    requires !resolved.key.NilKey?
    requires var message := Signed(sign, write, key, options, payload).value;
             env.check(resolved.key, message.signatures[0], payload).None?
    ensures var message, s := Signed(sign, write, key, options, payload).value, Folded(options).value;
            var r := CompactVerification(env, s, message);
            && r.Success?
            && r.value.payload == payload
            && r.value.keyID == resolved.keyID
            && r.value.header.typ == s.typ && r.value.header.contentType == s.cty
  {
    SignerHeaderMeetsVerifierPolicy(options, Built(key).value, write);
  }

  /** A signer's header resolves to its own key. A resolver over the built JWK alone answers it whether or not go-jose
      wrote a kid, and under the carried identity either way. A resolver over a set with this one JWK answers the same
      if a kid was written, and key-not-found if none was. */
  lemma {:induction false} BuiltKeyResolvesItsOwnHeader(
      key: SigningKey, write: KeyIDWriter, header: Header, keysByID: map<string, seq<JSONWebKey>>)
    requires Built(key).Success? && Built(key).value.key.Jwk?
    requires WritesCarriedOrNone(write, Built(key).value.key)
    requires header.algorithm == key.algorithm && header.keyID == write(Built(key).value.key)
    requires Grouped(keysByID, [Built(key).value.key.jwk])
    ensures var jwk := Built(key).value.key.jwk;
            var resolved := ResolvedKey(CarriedKeyID(Jwk(jwk)), Jwk(jwk));
            && !jwk.key.NilKey?
            && (key.keyID != "" ==> resolved.keyID == key.keyID)
            && JWKResolution(jwk, header) == Success(resolved)
            && SetResolution(keysByID, header)
               == (if header.keyID != "" then Success(resolved) else Failure(Marked(JwsKeyNotFound)))
  {
    var jwk := Built(key).value.key.jwk;
    CloningIsIdempotent(key.key);
    if header.keyID != "" {
      SingletonSetActsAsItsKey(jwk, keysByID, header);
    }
  }
}
