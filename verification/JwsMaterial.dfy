/** Key material of package jws, as values. */
module JwsMaterial {
  import opened Wrappers

  /** The dynamic types a Go `any` holding a key is switched on. RSA, ECDSA and custom key objects are `Retained`:
      the package never looks inside them. */
  datatype Material =
    | NilKey
    | Bytes(bytes: seq<byte>)
    | Ed25519(bytes: seq<byte>)
    | Jwk(jwk: JSONWebKey)
    | JwkPointer(target: Option<JSONWebKey>)
    | OpaqueSigner(identity: nat, publicKeyID: string)
    | Retained(identity: nat)

  datatype JSONWebKey = JSONWebKey(key: Material, keyID: string, algorithm: string, use: string)

  const KEY_USE_SIGNATURE := "sig"

  predicate SignatureUse(key: JSONWebKey) {
    key.use == "" || key.use == KEY_USE_SIGNATURE
  }

  predicate CompatibleAlgorithm(key: JSONWebKey, algorithm: string) {
    key.algorithm == "" || key.algorithm == algorithm
  }

  /** The value `cloneKeyMaterial` returns: the same content, except that a nil JWK pointer becomes a nil key. */
  function Cloned(m: Material): Material {
    match m
    case Jwk(jwk) => Jwk(ClonedKey(jwk))
    case JwkPointer(None) => NilKey
    case JwkPointer(Some(jwk)) => JwkPointer(Some(ClonedKey(jwk)))
    case _ => m
  }

  function ClonedKey(jwk: JSONWebKey): JSONWebKey {
    jwk.(key := Cloned(jwk.key))
  }

  lemma {:induction false} CloningIsIdempotent(m: Material)
    ensures Cloned(Cloned(m)) == Cloned(m)
  {
    match m
    case Jwk(jwk) => CloningIsIdempotent(jwk.key);
    case JwkPointer(Some(jwk)) => CloningIsIdempotent(jwk.key);
    case _ =>
  }

  /** A nil JWK pointer, at any depth. */
  predicate HoldsNilPointer(m: Material) {
    match m
    case JwkPointer(None) => true
    case JwkPointer(Some(jwk)) => HoldsNilPointer(jwk.key)
    case Jwk(jwk) => HoldsNilPointer(jwk.key)
    case _ => false
  }

  /** Nil JWK pointers are all that a clone changes. */
  lemma {:induction false} CloneIsExactExceptNilPointers(m: Material)
    ensures Cloned(m) == m <==> !HoldsNilPointer(m)
  {
    match m
    case JwkPointer(Some(jwk)) => CloneIsExactExceptNilPointers(jwk.key);
    case Jwk(jwk) => CloneIsExactExceptNilPointers(jwk.key);
    case _ =>
  }

  /** The same kind of key with the same fields at every level, a nil JWK pointer being answered by a nil key. */
  predicate SameButForNilPointers(a: Material, b: Material) {
    match a
    case NilKey => b.NilKey?
    case Bytes(bytes) => b.Bytes? && b.bytes == bytes
    case Ed25519(bytes) => b.Ed25519? && b.bytes == bytes
    case Jwk(jwk) => b.Jwk? && SameMetadata(jwk, b.jwk) && SameButForNilPointers(jwk.key, b.jwk.key)
    case JwkPointer(None) => b.NilKey?
    case JwkPointer(Some(jwk)) =>
      && b.JwkPointer? && b.target.Some? && SameMetadata(jwk, b.target.value)
      && SameButForNilPointers(jwk.key, b.target.value.key)
    case OpaqueSigner(identity, publicKeyID) => b == OpaqueSigner(identity, publicKeyID)
    case Retained(identity) => b == Retained(identity)
  }

  predicate SameMetadata(a: JSONWebKey, b: JSONWebKey) {
    a.keyID == b.keyID && a.algorithm == b.algorithm && a.use == b.use
  }

  /** A clone is that value, and no other value is. */
  lemma {:induction false} CloneIsSameButForNilPointers(m: Material, copy: Material)
    ensures SameButForNilPointers(m, copy) <==> copy == Cloned(m)
  {
    match m
    case Jwk(jwk) =>
      if copy.Jwk? {
        CloneIsSameButForNilPointers(jwk.key, copy.jwk.key);
      }
    case JwkPointer(Some(jwk)) =>
      if copy.JwkPointer? && copy.target.Some? {
        CloneIsSameButForNilPointers(jwk.key, copy.target.value.key);
      }
    case _ =>
  }
}
