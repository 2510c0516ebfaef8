/** jwt/key.go: verification keys and how one key answers a header. */
module JwtKeys {
  import opened Wrappers
  import opened Errors

  const MAX_KEY_ID_LENGTH := 256

  /** A `jwt.SigningMethod`: an object with a name. Two methods may report the same name. */
  datatype Method = Method(alg: string, identity: nat)

  /** Go `any` key material that is not nil. `PublicKey` stands for every type other than `[]byte`: whether it is
      a typed nil pointer, and what go-jose says about it, are attributes of the object. */
  datatype Material =
    | Symmetric(secret: seq<byte>)
    | PublicKey(identity: nat, nilPointer: bool, valid: bool, isPublic: bool)

  datatype VerificationKey = VerificationKey(id: string, signingMethod: Option<Method>, key: Option<Material>)

  const NO_KEY := VerificationKey("", None, None)

  datatype Header = Header(algorithm: string, keyID: string)

  predicate Initialized(k: VerificationKey) {
    k.signingMethod.Some? && k.key.Some?
  }

  function NewVerificationKey(id: string, m: Option<Method>, key: Option<Material>)
    : (r: Result<VerificationKey, Error>)
    ensures r.Success? <==> |id| <= MAX_KEY_ID_LENGTH && m.Some? && key.Some?
    ensures r.Success? ==> Initialized(r.value)
    ensures r.Success? ==> r.value.id == id && r.value.signingMethod == m && r.value.key == key
    ensures r.Failure? ==> ReachesExactly(r.error, if |id| > MAX_KEY_ID_LENGTH then JwtInvalidKeyID else JwtInvalidKey)
  {
    if |id| > MAX_KEY_ID_LENGTH then Failure(Marked(JwtInvalidKeyID))
    else if m.None? then Failure(Marked(JwtInvalidKey))
    else if key.None? then Failure(Marked(JwtInvalidKey))
    else Success(VerificationKey(id, m, key))
  }

  /** Values of the type can only come from its constructor, apart from the zero value. */
  predicate Genuine(k: VerificationKey) {
    k == NO_KEY || NewVerificationKey(k.id, k.signingMethod, k.key) == Success(k)
  }

  /** `VerificationKey.Resolve`. */
  function ResolveKey(k: VerificationKey, header: Header): Result<VerificationKey, Error> {
    if k.signingMethod.None? || k.key.None? then Failure(Marked(JwtInvalidKey))
    else if k.id != "" && header.keyID == "" then Failure(Root(JwtMissingKeyID))
    else if header.keyID != k.id then Failure(Root(JwtUnknownKey))
    else if header.algorithm != k.signingMethod.value.alg then Failure(Root(JwtUnexpectedAlgorithm))
    else Success(k)
  }

  /* ---- signing keys ---- */

  /** Local signing material: a `crypto.Signer` reports a public key, anything else verifies with itself. */
  datatype SigningMaterial =
    | SharedKey(material: Material)
    | CryptoSigner(publicKey: Option<Material>)

  /** `external` is a non-nil `SignFunc`. */
  datatype SigningKey = SigningKey(
    id: string, signingMethod: Option<Method>, key: Option<SigningMaterial>, external: bool,
    verification: VerificationKey)

  function VerificationMaterial(key: Option<SigningMaterial>): Result<Option<Material>, Error> {
    match key
    case None => Failure(Marked(JwtInvalidKey))
    case Some(SharedKey(material)) => Success(Some(material))
    case Some(CryptoSigner(None)) => Failure(Marked(JwtInvalidKey))
    case Some(CryptoSigner(publicKey)) => Success(publicKey)
  }

  function NewSigningKey(id: string, m: Option<Method>, key: Option<SigningMaterial>): Result<SigningKey, Error> {
    if |id| > MAX_KEY_ID_LENGTH then Failure(Marked(JwtInvalidKeyID))
    else if m.None? then Failure(Marked(JwtInvalidKey))
    else match VerificationMaterial(key)
      case Failure(e) => Failure(e)
      case Success(material) =>
        match NewVerificationKey(id, m, material)
        case Failure(e) => Failure(e)
        case Success(verification) => Success(SigningKey(id, m, key, false, verification))
  }

  function NewExternalSigningKey(id: string, m: Option<Method>, publicKey: Option<Material>, sign: bool)
    : Result<SigningKey, Error>
  {
    if |id| > MAX_KEY_ID_LENGTH then Failure(Marked(JwtInvalidKeyID))
    else if m.None? || publicKey.None? || !sign then Failure(Marked(JwtInvalidKey))
    else match NewVerificationKey(id, m, publicKey)
      case Failure(e) => Failure(e)
      case Success(verification) => Success(SigningKey(id, m, None, true, verification))
  }

  /** `SigningKey.validate`. */
  function ValidateSigningKey(k: SigningKey): Option<Error> {
    if k.signingMethod.None? then Some(Marked(JwtInvalidKey))
    else if k.key.None? && !k.external then Some(Marked(JwtInvalidKey))
    else if k.key.Some? && k.external then Some(Marked(JwtInvalidKey))
    else if !Initialized(k.verification) then Some(Marked(JwtInvalidKey))
    else if k.id != k.verification.id then Some(Marked(JwtInvalidKey))
    else if k.signingMethod.value.alg != k.verification.signingMethod.value.alg then Some(Marked(JwtInvalidKey))
    else None
  }

  /** The header a signer writes for a key. */
  function OwnHeader(k: SigningKey): Header
    requires k.signingMethod.Some?
  {
    Header(k.signingMethod.value.alg, k.id)
  }

  /** Both constructors make signing keys that pass the signer's validation. */
  lemma ConstructorsMakeValidSigningKeys(
      id: string, m: Option<Method>, key: Option<SigningMaterial>, publicKey: Option<Material>, sign: bool)
    ensures NewSigningKey(id, m, key).Success? ==> ValidateSigningKey(NewSigningKey(id, m, key).value).None?
    ensures NewExternalSigningKey(id, m, publicKey, sign).Success?
        ==> ValidateSigningKey(NewExternalSigningKey(id, m, publicKey, sign).value).None?
  {
  }

  /** A signing key that passes validation has exactly one signing backend, and a verification key that resolves the
      headers its signer writes and no others. */
  lemma ValidSigningKeyResolvesItsHeader(k: SigningKey, header: Header)
    requires ValidateSigningKey(k).None?
    ensures k.key.Some? != k.external
    ensures ResolveKey(k.verification, header) == Success(k.verification) <==> header == OwnHeader(k)
  {
  }

  /** The public material a signer reports: a `crypto.Signer` its public key, anything else itself. */
  function ReportedMaterial(key: Option<SigningMaterial>): Option<Material> {
    match key
    case Some(SharedKey(material)) => Some(material)
    case Some(CryptoSigner(publicKey)) => publicKey
    case None => None
  }

  /** A signing key is made exactly when identifier, method and material are in order, and carries what it was given:
      one backend, and the verification key for the same identifier and method. */
  lemma SigningKeysAreMadeExactly(
      id: string, m: Option<Method>, key: Option<SigningMaterial>, publicKey: Option<Material>, sign: bool)
    ensures var local := NewSigningKey(id, m, key);
            && (local.Success? <==> |id| <= 256 && m.Some? && ReportedMaterial(key).Some?)
            && (local.Success? ==>
                  local.value == SigningKey(id, m, key, false, VerificationKey(id, m, ReportedMaterial(key))))
            && (local.Failure? ==> ReachesExactly(local.error, if |id| > 256 then JwtInvalidKeyID else JwtInvalidKey))
    ensures var remote := NewExternalSigningKey(id, m, publicKey, sign);
            && (remote.Success? <==> |id| <= 256 && m.Some? && publicKey.Some? && sign)
            && (remote.Success? ==> remote.value == SigningKey(id, m, None, true, VerificationKey(id, m, publicKey)))
            && (remote.Failure? ==> ReachesExactly(remote.error, if |id| > 256 then JwtInvalidKeyID else JwtInvalidKey))
  {
  }

  /** A signing key is valid exactly when it has a method, one backend, and a verification key for its own identifier
      and algorithm. */
  lemma SigningKeyIsValidExactly(k: SigningKey)
    ensures ValidateSigningKey(k).None? <==>
              && k.signingMethod.Some? && (k.key.Some? != k.external)
              && k.verification.signingMethod.Some? && k.verification.key.Some?
              && k.verification.id == k.id
              && k.verification.signingMethod.value.alg == k.signingMethod.value.alg
    ensures ValidateSigningKey(k).Some? ==> ReachesExactly(ValidateSigningKey(k).value, JwtInvalidKey)
  {
  }

  /** One key answers exactly the headers with its identifier and algorithm, and says why it does not answer another. */
  lemma KeyAnswersExactly(k: VerificationKey, header: Header)
    ensures var r := ResolveKey(k, header);
            if !Initialized(k) then r.Failure? && ReachesExactly(r.error, JwtInvalidKey)
            else
              && (r.Success? <==> header.keyID == k.id && header.algorithm == k.signingMethod.value.alg)
              && (r.Success? ==> r.value == k)
              && (r.Failure? ==> ReachesExactly(r.error,
                    if header.keyID == k.id then JwtUnexpectedAlgorithm
                    else if header.keyID == "" then JwtMissingKeyID
                    else JwtUnknownKey))
  {
  }
}
