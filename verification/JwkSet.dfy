/** jwk/key.go and jwk/set.go: public JWK sets, and the export of a JWT key set as one. */
module JwkSet {
  import opened Wrappers
  import opened Errors
  import opened JwtKeys
  import opened JwtKeySet

  datatype Key = Key(material: Option<Material>, keyID: string, algorithm: string, use: string)

  /** `gojwt.GetSigningMethod`: the process-wide registry of signing methods, by name. */
  type Registry = string -> Option<Method>

  const KEY_USE_SIGNATURE := "sig"

  /* ---- conversion ---- */

  /** `Validate`: typed nil pointers first, then go-jose's own verdict. */
  predicate IsValid(key: Key) {
    key.material.Some? && key.material.value.PublicKey?
    && !key.material.value.nilPointer && key.material.value.valid && key.material.value.isPublic
  }

  function FromVerificationKey(k: VerificationKey): Result<Key, Error> {
    if k.signingMethod.None? then Failure(Marked(JwtInvalidKey))
    else if k.key.None? then Failure(Marked(JwtInvalidKey))
    else if k.key.value.Symmetric? then Failure(Marked(JwtInvalidKey))
    else
      var result := Key(k.key, k.id, k.signingMethod.value.alg, KEY_USE_SIGNATURE);
      if !IsValid(result) then Failure(Marked(JwtInvalidKey)) else Success(result)
  }

  function ToVerificationKey(key: Key, m: Option<Method>): Result<VerificationKey, Error> {
    if m.None? then Failure(Marked(JwtInvalidConfig))
    else if !IsValid(key) then Failure(Marked(JwtInvalidKey))
    else if key.use != "" && key.use != KEY_USE_SIGNATURE then Failure(Marked(JwtInvalidKey))
    else if key.algorithm != "" && key.algorithm != m.value.alg then Failure(Root(JwtUnexpectedAlgorithm))
    else NewVerificationKey(key.keyID, m, key.material)
  }

  /** A key that the export takes comes back unchanged when it is imported for its own method. */
  lemma ConversionRoundTrip(k: VerificationKey)
    requires Genuine(k) && FromVerificationKey(k).Success?
    ensures ToVerificationKey(FromVerificationKey(k).value, k.signingMethod) == Success(k)
  {
  }

  /** Material that is a public key: not symmetric, not a nil pointer, valid, and without a private part. */
  predicate PublicMaterial(m: Option<Material>) {
    match m
    case Some(PublicKey(_, nilPointer, valid, isPublic)) => !nilPointer && valid && isPublic
    case _ => false
  }

  /** Exporting takes exactly initialized keys with public material, and writes their identifier, algorithm and use. */
  lemma ExportAcceptsExactly(k: VerificationKey)
    ensures FromVerificationKey(k).Success? <==> k.signingMethod.Some? && PublicMaterial(k.key)
    ensures FromVerificationKey(k).Success?
        ==> FromVerificationKey(k).value == Key(k.key, k.id, k.signingMethod.value.alg, "sig")
    ensures FromVerificationKey(k).Failure? ==> ReachesExactly(FromVerificationKey(k).error, JwtInvalidKey)
  {
  }

  /** Conversely, importing takes exactly valid public keys whose metadata allows this verification, and exporting the
      result restores the JWK with its algorithm and use filled in. */
  lemma ImportAcceptsExactly(key: Key, m: Method)
    ensures ToVerificationKey(key, Some(m)).Success? <==>
              && PublicMaterial(key.material) && |key.keyID| <= 256
              && (key.use == "" || key.use == "sig")
              && (key.algorithm == "" || key.algorithm == m.alg)
    ensures var imported := ToVerificationKey(key, Some(m));
            imported.Success? ==> FromVerificationKey(imported.value) == Success(key.(algorithm := m.alg, use := "sig"))
  {
  }

  /* ---- sets ---- */

  datatype PublicSet = PublicSet(keys: seq<Key>, keyByID: map<string, nat>)

  function KeyIDsOf(keys: seq<Key>): set<string> {
    set k | k in keys :: k.keyID
  }

  function SetFault(keys: seq<Key>, i: nat): Option<Error>
    requires i < |keys|
  {
    if !IsValid(keys[i]) then Some(Context(Marked(JwtInvalidKey)))
    else if keys[i].keyID == "" && |keys| > 1 then Some(Marked(JwtInvalidKey))
    else if keys[i].keyID != "" && keys[i].keyID in KeyIDsOf(keys[..i]) then Some(Marked(JwtDuplicateKeyID))
    else None
  }

  function FirstSetFault(keys: seq<Key>, n: nat): Option<Error>
    requires n <= |keys|
  {
    if n == 0 then None
    else if FirstSetFault(keys, n - 1).Some? then FirstSetFault(keys, n - 1)
    else SetFault(keys, n - 1)
  }

  lemma {:induction false} SetFaultIsFinal(keys: seq<Key>, i: nat, n: nat)
    requires i < n <= |keys|
    requires FirstSetFault(keys, i).None? && SetFault(keys, i).Some?
    ensures FirstSetFault(keys, n) == SetFault(keys, i)
    decreases n
  {
    if i + 1 < n {
      SetFaultIsFinal(keys, i, n - 1);
    }
  }

  /** `keyByID`: the position of each identified key. */
  ghost predicate Indexes(keyByID: map<string, nat>, keys: seq<Key>) {
    && (forall id | id in keyByID :: id != "" && keyByID[id] < |keys| && keys[keyByID[id]].keyID == id)
    && (forall i :: 0 <= i < |keys| && keys[i].keyID != "" ==>
          keys[i].keyID in keyByID && keyByID[keys[i].keyID] == i)
  }

  ghost predicate IsSetOf(s: PublicSet, keys: seq<Key>) {
    s.keys == keys && Indexes(s.keyByID, keys)
  }

  lemma IndexOneMore(keyByID: map<string, nat>, keys: seq<Key>, key: Key)
    requires Indexes(keyByID, keys)
    requires key.keyID != "" ==> key.keyID !in KeyIDsOf(keys)
    ensures Indexes(if key.keyID == "" then keyByID else keyByID[key.keyID := |keys|], keys + [key])
  {
    assert forall i :: 0 <= i < |keys| ==> keys[i] in keys && (keys + [key])[i] == keys[i];
    forall id | id in keyByID
      ensures id in KeyIDsOf(keys)
    {
      assert keys[keyByID[id]] in keys;
    }
  }

  /** `newSet`: the first fault decides the error; otherwise the list itself is kept, indexed by kid. */
  method NewSet(keys: seq<Key>) returns (r: Result<PublicSet, Error>)
    ensures keys == [] ==> r == Failure(Marked(JwtInvalidKey))
    ensures keys != [] && FirstSetFault(keys, |keys|).Some? ==> r == Failure(FirstSetFault(keys, |keys|).value)
    ensures keys != [] && FirstSetFault(keys, |keys|).None? ==> r.Success? && IsSetOf(r.value, keys)
  {
    if |keys| == 0 {
      return Failure(Marked(JwtInvalidKey));
    }
    var keyByID: map<string, nat> := map[];
    for index := 0 to |keys|
      invariant FirstSetFault(keys, index).None?
      invariant Indexes(keyByID, keys[..index])
    {
      var key := keys[index];
      assert keys[..index + 1] == keys[..index] + [key];
      if !IsValid(key) {
        SetFaultIsFinal(keys, index, |keys|);
        return Failure(Context(Marked(JwtInvalidKey)));
      }
      if key.keyID == "" {
        if |keys| > 1 {
          SetFaultIsFinal(keys, index, |keys|);
          return Failure(Marked(JwtInvalidKey));
        }
        IndexOneMore(keyByID, keys[..index], key);
        continue;
      }
      if key.keyID in keyByID {
        assert keys[..index][keyByID[key.keyID]] in keys[..index];
        SetFaultIsFinal(keys, index, |keys|);
        return Failure(Marked(JwtDuplicateKeyID));
      }
      IndexOneMore(keyByID, keys[..index], key);
      keyByID := keyByID[key.keyID := index];
    }
    assert keys[..|keys|] == keys;
    return Success(PublicSet(keys, keyByID));
  }

  function ResolveKeyID(s: PublicSet, keyID: string): Result<Key, Error>
    requires forall id | id in s.keyByID :: s.keyByID[id] < |s.keys|
  {
    if keyID == "" then
      if |s.keys| != 1 || s.keys[0].keyID != "" then Failure(Root(JwtMissingKeyID)) else Success(s.keys[0])
    else if keyID !in s.keyByID then Failure(Marked(JwtUnknownKey))
    else Success(s.keys[s.keyByID[keyID]])
  }

  /** The second half of `Set.Resolve`, once the key is selected. */
  function Answer(key: Key, registry: Registry, algorithm: string): Result<VerificationKey, Error> {
    var m := registry(algorithm);
    if m.None? then Failure(Root(JwtUnexpectedAlgorithm)) else ToVerificationKey(key, m)
  }

  /** `Set.Resolve`. */
  function ResolvePublic(s: PublicSet, registry: Registry, header: Header): Result<VerificationKey, Error>
    requires forall id | id in s.keyByID :: s.keyByID[id] < |s.keys|
  {
    if |s.keys| == 0 then Failure(Marked(JwtInvalidConfig))
    else match ResolveKeyID(s, header.keyID)
      case Failure(e) => Failure(e)
      case Success(key) =>
        Answer(key, registry, header.algorithm)
  }

  /* ---- export ---- */

  predicate Exportable(k: VerificationKey) {
    FromVerificationKey(k).Success?
  }

  function ExportedKeys(listing: Keys): (keys: seq<Key>)
    requires forall i :: 0 <= i < |listing| ==> Exportable(listing[i])
    ensures |keys| == |listing|
  {
    seq(|listing|, i requires 0 <= i < |listing| && Exportable(listing[i]) => FromVerificationKey(listing[i]).value)
  }

  ghost predicate IsExport(s: PublicSet, listing: Keys) {
    && (forall i :: 0 <= i < |listing| ==> Exportable(listing[i]))
    && IsSetOf(s, ExportedKeys(listing))
  }

  lemma {:induction false} NoSetFault(keys: seq<Key>, n: nat)
    requires n <= |keys|
    ensures FirstSetFault(keys, n).None? <==> forall i :: 0 <= i < n ==> SetFault(keys, i).None?
  {
    if n > 0 {
      NoSetFault(keys, n - 1);
    }
  }

  /** The converted listing of a key set never trips the JWK set constructor. */
  lemma ExportHasNoFault(s: StaticKeySet, listing: Keys)
    requires WellFormed(s) && Lists(listing, s)
    requires forall i :: 0 <= i < |listing| ==> Exportable(listing[i])
    ensures listing != []
    ensures FirstSetFault(ExportedKeys(listing), |listing|).None?
  {
    RebuildingIsIdentity(s, listing);
    AcceptedExactly(listing);
    var keys := ExportedKeys(listing);
    forall i | 0 <= i < |keys|
      ensures SetFault(keys, i).None?
    {
      assert listing[i] in listing && listing[i].id in IDsOf(listing);
      forall k | k in keys[..i]
        ensures k.keyID != keys[i].keyID
      {
        var j :| 0 <= j < i && keys[j] == k;
        assert listing[j].id != listing[i].id;
      }
    }
    NoSetFault(keys, |keys|);
  }

  /** `FromStaticKeySet`: succeeds iff every member is exportable, and then holds the members in listing order. */
  method FromStaticKeySet(s: StaticKeySet) returns (r: Result<PublicSet, Error>, ghost listing: Keys)
    requires WellFormed(s)
    ensures Lists(listing, s)
    ensures r.Success? <==> forall k | k in Members(s) :: Exportable(k)
    ensures r.Success? ==> IsExport(r.value, listing)
    ensures r.Failure? ==> ReachesExactly(r.error, JwtInvalidKey)
  {
    var verificationKeys := ListKeys(s);
    listing := verificationKeys;
    assert forall k :: k in listing <==> k in Members(s) by {
      assert forall k :: k in listing <==> k in (set x | x in listing);
    }
    var keys: seq<Key> := [];
    for index := 0 to |verificationKeys|
      invariant |keys| == index
      invariant forall i :: 0 <= i < index ==> FromVerificationKey(listing[i]) == Success(keys[i])
    {
      var key := FromVerificationKey(verificationKeys[index]);
      if key.Failure? {
        assert verificationKeys[index] in listing;
        return Failure(Context(key.error)), listing;
      }
      keys := keys + [key.value];
    }
    assert keys == ExportedKeys(listing);
    ExportHasNoFault(s, listing);
    r := NewSet(keys);
  }

  /* ---- agreement ---- */

  ghost predicate Agree(a: Result<VerificationKey, Error>, b: Result<VerificationKey, Error>) {
    match (a, b)
    case (Success(x), Success(y)) => x == y
    case (Failure(e), Failure(f)) => SameSentinels(e, f)
    case _ => false
  }

  /** The registry knows a key's method under its name, and no other registered name leads to a method the exported
      JWK would take for it. A nameless method exports as a JWK without `alg`, which takes any method. */
  ghost predicate Faithful(registry: Registry, k: VerificationKey)
    requires k.signingMethod.Some?
  {
    var alg := k.signingMethod.value.alg;
    && registry(alg) == k.signingMethod
    && forall a: string :: a != alg && registry(a).Some? ==> alg != "" && registry(a).value.alg != alg
  }

  ghost predicate AgreeOnAll(s: StaticKeySet, exported: PublicSet, registry: Registry)
    requires forall id | id in exported.keyByID :: exported.keyByID[id] < |exported.keys|
  {
    forall header: Header :: Agree(Resolve(s, header), ResolvePublic(exported, registry, header))
  }

  /** How the two sets answer a header with a member's kid. */
  lemma AnswersForMember(s: StaticKeySet, listing: Keys, exported: PublicSet, registry: Registry,
                         i: nat, algorithm: string)
    requires WellFormed(s) && Lists(listing, s) && IsExport(exported, listing)
    requires i < |listing|
    ensures var header := Header(algorithm, listing[i].id);
            && Resolve(s, header) == ResolveKey(listing[i], header)
            && ResolvePublic(exported, registry, header) == Answer(exported.keys[i], registry, algorithm)
            && listing[i] in Members(s)
  {
    RebuildingIsIdentity(s, listing);
    AcceptedExactly(listing);
    NamedOfDistinct(listing);
    var k := listing[i];
    assert k in listing && k.id in IDsOf(listing);
    assert k in (set x | x in listing);
    assert exported.keys[i].keyID == k.id;
  }

  lemma AnswersForStranger(s: StaticKeySet, listing: Keys, exported: PublicSet, registry: Registry, header: Header)
    requires WellFormed(s) && Lists(listing, s) && IsExport(exported, listing)
    requires forall i :: 0 <= i < |listing| ==> listing[i].id != header.keyID
    ensures Agree(Resolve(s, header), ResolvePublic(exported, registry, header))
  {
    RebuildingIsIdentity(s, listing);
    NamedHoldsTheIDs(listing);
    assert header.keyID !in IDsOf(listing);
    assert header.keyID in exported.keyByID ==> listing[exported.keyByID[header.keyID]].id == header.keyID;
  }

  lemma FaithfulKeyAnswersAlike(registry: Registry, k: VerificationKey, algorithm: string)
    requires Genuine(k) && Exportable(k)
    ensures Faithful(registry, k) ==>
              Agree(ResolveKey(k, Header(algorithm, k.id)), Answer(FromVerificationKey(k).value, registry, algorithm))
  {
  }

  /** An algorithm on which an unfaithful registry makes the exported key answer differently. */
  lemma UnfaithfulKeyDiffers(registry: Registry, k: VerificationKey) returns (algorithm: string)
    requires Genuine(k) && Exportable(k) && !Faithful(registry, k)
    ensures !Agree(ResolveKey(k, Header(algorithm, k.id)), Answer(FromVerificationKey(k).value, registry, algorithm))
  {
    var alg := k.signingMethod.value.alg;
    if registry(alg) != k.signingMethod {
      algorithm := alg;
    } else {
      algorithm :| algorithm != alg && registry(algorithm).Some? && (alg == "" || registry(algorithm).value.alg == alg);
    }
  }

  /** The exported JWK set answers every header as the key set does, with the same key or the same class of error,
      exactly when the registry is faithful to every method in the set. */
  lemma ExportAgreesExactly(s: StaticKeySet, listing: Keys, exported: PublicSet, registry: Registry)
    requires WellFormed(s) && Lists(listing, s) && IsExport(exported, listing)
    requires forall k | k in Members(s) :: Genuine(k)
    ensures forall k | k in Members(s) :: k.signingMethod.Some?
    ensures AgreeOnAll(s, exported, registry) <==> forall k | k in Members(s) :: Faithful(registry, k)
  {
    assert forall k :: k in listing <==> k in Members(s) by {
      assert forall k :: k in listing <==> k in (set x | x in listing);
    }
    if forall k | k in Members(s) :: Faithful(registry, k) {
      forall header: Header
        ensures Agree(Resolve(s, header), ResolvePublic(exported, registry, header))
      {
        if i: nat :| i < |listing| && listing[i].id == header.keyID {
          AnswersForMember(s, listing, exported, registry, i, header.algorithm);
          FaithfulKeyAnswersAlike(registry, listing[i], header.algorithm);
        } else {
          AnswersForStranger(s, listing, exported, registry, header);
        }
      }
    } else {
      var k :| k in Members(s) && !Faithful(registry, k);
      var i: nat :| i < |listing| && listing[i] == k;
      var algorithm := UnfaithfulKeyDiffers(registry, k);
      AnswersForMember(s, listing, exported, registry, i, algorithm);
      assert !Agree(Resolve(s, Header(algorithm, k.id)), ResolvePublic(exported, registry, Header(algorithm, k.id)));
    }
  }

  /** A registry in which a method also has a second name, and a set of one key for it. */
  function AliasRegistry(m: Method, alias: string): Registry {
    name => if name == m.alg || name == alias then Some(m) else None
  }

  /** A second name is enough for the two to differ: for a header that names the method by its alias, the key set
      objects to the algorithm, and its export returns the key. */
  lemma AliasExample()
    ensures var k := VerificationKey("a", Some(Method("RS256", 1)), Some(PublicKey(1, false, true, true)));
            var s, registry := StaticKeySet(None, map["a" := k]), AliasRegistry(Method("RS256", 1), "alias");
            var exported := PublicSet([Key(k.key, "a", "RS256", KEY_USE_SIGNATURE)], map["a" := 0]);
            && Constructed([k]) == Success(s) && Lists([k], s) && IsExport(exported, [k])
            && registry("RS256") == k.signingMethod
            && Resolve(s, Header("alias", "a")) == Failure(Root(JwtUnexpectedAlgorithm))
            && ResolvePublic(exported, registry, Header("alias", "a")) == Success(k)
  {
    var k := VerificationKey("a", Some(Method("RS256", 1)), Some(PublicKey(1, false, true, true)));
    var s := StaticKeySet(None, map["a" := k]);
    assert Named([k]) == map["a" := k] by {
      assert [k][..0] == [];
    }
    assert FirstFault([k], 1) == Fault([k], 0);
    assert s.named["a"] == k && Members(s) == {k};
    assert (set x | x in [k]) == {k};
    assert ExportedKeys([k]) == [FromVerificationKey(k).value];
    assert "alias" != "RS256" by {
      assert "alias"[0] != "RS256"[0];
    }
  }

  /* ---- sets that are no export ---- */

  /** A JWK that verifies with a method: neither its use nor its algorithm says otherwise. */
  predicate Permits(key: Key, m: Method) {
    && (key.use == "" || key.use == "sig") && (key.algorithm == "" || key.algorithm == m.alg)
    && |key.keyID| <= 256
  }

  /** The key a kid selects: the one with that identifier, or the only key of an anonymous set when there is no kid. */
  ghost predicate Selects(keys: seq<Key>, keyID: string, i: nat) {
    i < |keys| && keys[i].keyID == keyID && (keyID == "" ==> |keys| == 1)
  }

  lemma SelectionIsExact(s: PublicSet, keys: seq<Key>, keyID: string)
    requires IsSetOf(s, keys)
    ensures forall id | id in s.keyByID :: s.keyByID[id] < |s.keys|
    ensures var r := ResolveKeyID(s, keyID);
            && (r.Success? <==> exists i: nat :: Selects(keys, keyID, i))
            && (forall i: nat :: Selects(keys, keyID, i) ==> r == Success(keys[i]))
            && (r.Failure? ==> ReachesExactly(r.error, if keyID == "" then JwtMissingKeyID else JwtUnknownKey))
  {
    if keyID == "" {
      assert |keys| == 1 && keys[0].keyID == "" ==> Selects(keys, keyID, 0);
    } else {
      assert keyID in s.keyByID ==> Selects(keys, keyID, s.keyByID[keyID]);
      forall i: nat | Selects(keys, keyID, i)
        ensures keyID in s.keyByID && s.keyByID[keyID] == i
      {
        assert keys[i].keyID != "";
      }
    }
  }

  /** A set of no keys is uninitialized. A set of whatever valid JWKs answers a header exactly with the selected key,
      for the registered method of the header's algorithm if the JWK permits it, and says why it does not. */
  lemma {:induction false} PublicSetAnswersExactly(
      s: PublicSet, keys: seq<Key>, registry: Registry, header: Header, i: nat)
    requires IsSetOf(s, keys) && forall k | k in keys :: PublicMaterial(k.material)
    ensures forall id | id in s.keyByID :: s.keyByID[id] < |s.keys|
    ensures var r, m := ResolvePublic(s, registry, header), registry(header.algorithm);
            && (keys == [] ==> r.Failure? && ReachesExactly(r.error, JwtInvalidConfig))
            && (keys != [] && !(exists j: nat :: Selects(keys, header.keyID, j)) ==>
                  r.Failure?
                  && ReachesExactly(r.error, if header.keyID == "" then JwtMissingKeyID else JwtUnknownKey))
            && (Selects(keys, header.keyID, i) ==>
                  && (r.Success? <==> m.Some? && Permits(keys[i], m.value))
                  && (r.Success? ==> r.value == VerificationKey(header.keyID, m, keys[i].material))
                  && (r.Failure? ==> ReachesExactly(r.error, RefusalOf(keys[i], m))))
  {
    SelectionIsExact(s, keys, header.keyID);
    if Selects(keys, header.keyID, i) {
      assert keys[i] in keys;
    }
  }

  function RefusalOf(key: Key, m: Option<Method>): Sentinel {
    if m.None? then JwtUnexpectedAlgorithm
    else if key.use != "" && key.use != "sig" then JwtInvalidKey
    else if key.algorithm != "" && key.algorithm != m.value.alg then JwtUnexpectedAlgorithm
    else JwtInvalidKeyID
  }

  /* ---- which fault a refused list is told of ---- */

  function SetOffence(keys: seq<Key>, i: nat): Option<Sentinel>
    requires i < |keys|
  {
    if !PublicMaterial(keys[i].material) || (keys[i].keyID == "" && |keys| > 1) then Some(JwtInvalidKey)
    else if exists j :: 0 <= j < i && keys[j].keyID == keys[i].keyID then Some(JwtDuplicateKeyID)
    else None
  }

  ghost predicate FirstSetOffence(keys: seq<Key>, i: nat) {
    i < |keys| && SetOffence(keys, i).Some? && forall j: nat :: j < i ==> SetOffence(keys, j).None?
  }

  /** A list of JWKs makes a set exactly when no key offends, and is refused for the first one that does. */
  lemma {:induction false} SetFaultIsFirstOffence(keys: seq<Key>, n: nat)
    requires n <= |keys|
    ensures FirstSetFault(keys, n).None? <==> forall i: nat :: i < n ==> SetOffence(keys, i).None?
    ensures FirstSetFault(keys, n).Some? ==>
              exists i: nat :: FirstSetOffence(keys, i)
                && ReachesExactly(FirstSetFault(keys, n).value, SetOffence(keys, i).value)
  {
    if n > 0 {
      SetFaultIsFirstOffence(keys, n - 1);
      SetFaultIsOffence(keys, n - 1);
      if FirstSetFault(keys, n - 1).None? && SetFault(keys, n - 1).Some? {
        assert FirstSetOffence(keys, n - 1);
      }
    }
  }

  lemma SetFaultIsOffence(keys: seq<Key>, i: nat)
    requires i < |keys|
    ensures SetFault(keys, i).None? <==> SetOffence(keys, i).None?
    ensures SetFault(keys, i).Some? ==> ReachesExactly(SetFault(keys, i).value, SetOffence(keys, i).value)
  {
    if j :| 0 <= j < i && keys[j].keyID == keys[i].keyID {
      assert keys[..i][j] in keys[..i];
    }
  }
}
