/** jws/resolver.go: static key resolvers. */
module JwsResolver {
  import opened Wrappers
  import opened Errors
  import opened JwsHeader
  import opened JwsMaterial

  datatype ResolvedKey = ResolvedKey(keyID: string, key: Material)

  type Resolution = Result<ResolvedKey, Error>

  /** The key argument of `NewVerifier` and `NewMultiVerifier`. */
  datatype StaticKey =
    | Single(material: Material)
    | KeySet(keys: seq<JSONWebKey>)
    | KeySetPointer(target: Option<seq<JSONWebKey>>)

  datatype Resolver =
    | StaticResolver(key: Material)
    | JWKResolver(jwk: JSONWebKey)
    | JWKSResolver(keysByID: map<string, seq<JSONWebKey>>)

  /* ---- grouping a JWK set by kid ---- */

  predicate Usable(key: JSONWebKey) {
    key.keyID != "" && !key.key.NilKey? && SignatureUse(key)
  }

  /** The usable keys of a set with the given kid, in order. */
  function Group(keys: seq<JSONWebKey>, keyID: string): seq<JSONWebKey> {
    if keys == [] then []
    else
      var last := keys[|keys| - 1];
      Group(keys[..|keys| - 1], keyID) + (if Usable(last) && last.keyID == keyID then [ClonedKey(last)] else [])
  }

  /** The same keys as they are in the set. */
  function Selected(keys: seq<JSONWebKey>, keyID: string): seq<JSONWebKey> {
    if keys == [] then []
    else
      var last := keys[|keys| - 1];
      Selected(keys[..|keys| - 1], keyID) + (if Usable(last) && last.keyID == keyID then [last] else [])
  }

  predicate FreeOfNilPointers(keys: seq<JSONWebKey>) {
    forall i :: 0 <= i < |keys| ==> !HoldsNilPointer(keys[i].key)
  }

  /** A group holds the keys themselves, apart from nil JWK pointers inside them. */
  lemma {:induction false} GroupIsSelected(keys: seq<JSONWebKey>, keyID: string)
    requires FreeOfNilPointers(keys)
    ensures Group(keys, keyID) == Selected(keys, keyID)
  {
    if keys != [] {
      var n := |keys| - 1;
      GroupIsSelected(keys[..n], keyID);
      CloneIsExactExceptNilPointers(keys[n].key);
    }
  }

  predicate Grouped(keysByID: map<string, seq<JSONWebKey>>, keys: seq<JSONWebKey>) {
    && (forall id | id in keysByID :: keysByID[id] == Group(keys, id))
    && (forall key | key in keys && Usable(key) :: key.keyID in keysByID)
  }

  lemma {:induction false} NoGroup(keys: seq<JSONWebKey>, keyID: string)
    requires forall key | key in keys && Usable(key) :: key.keyID != keyID
    ensures Group(keys, keyID) == []
  {
    if keys != [] {
      assert keys[|keys| - 1] in keys;
      NoGroup(keys[..|keys| - 1], keyID);
    }
  }

  function CandidatesIn<K>(keysByID: map<string, seq<K>>, keyID: string): seq<K> {
    if keyID in keysByID then keysByID[keyID] else []
  }

  lemma CandidatesAreTheGroup(keysByID: map<string, seq<JSONWebKey>>, keys: seq<JSONWebKey>, keyID: string)
    requires Grouped(keysByID, keys)
    ensures CandidatesIn(keysByID, keyID) == Group(keys, keyID)
  {
    if keyID !in keysByID {
      NoGroup(keys, keyID);
    }
  }

  /** One more key of the set: an unusable one leaves the index as it is, a usable one goes to the end of its group. */
  lemma GroupedStep(keysByID: map<string, seq<JSONWebKey>>, keys: seq<JSONWebKey>, key: JSONWebKey)
    requires Grouped(keysByID, keys)
    ensures !Usable(key) ==> Grouped(keysByID, keys + [key])
    ensures Usable(key) ==>
              Grouped(keysByID[key.keyID := CandidatesIn(keysByID, key.keyID) + [ClonedKey(key)]], keys + [key])
  {
    assert (keys + [key])[..|keys|] == keys;
    CandidatesAreTheGroup(keysByID, keys, key.keyID);
  }

  method NewJWKSResolver(keys: seq<JSONWebKey>) returns (resolver: Resolver)
    ensures resolver.JWKSResolver? && Grouped(resolver.keysByID, keys)
  {
    var keysByID: map<string, seq<JSONWebKey>> := map[];
    for i := 0 to |keys|
      invariant Grouped(keysByID, keys[..i])
    {
      var key := keys[i];
      assert keys[..i + 1] == keys[..i] + [key];
      GroupedStep(keysByID, keys[..i], key);
      if key.keyID == "" || key.key.NilKey? {
        continue;
      }
      if key.use != "" && key.use != KEY_USE_SIGNATURE {
        continue;
      }
      var group := if key.keyID in keysByID then keysByID[key.keyID] else [];
      keysByID := keysByID[key.keyID := group + [key.(key := Cloned(key.key))]];
    }
    assert keys[..|keys|] == keys;
    return JWKSResolver(keysByID);
  }

  /** The candidates an algorithm leaves over, in order. */
  function Matching(candidates: seq<JSONWebKey>, algorithm: string): seq<JSONWebKey> {
    if candidates == [] then []
    else
      var last := candidates[|candidates| - 1];
      Matching(candidates[..|candidates| - 1], algorithm)
      + (if CompatibleAlgorithm(last, algorithm) then [last] else [])
  }

  lemma MatchingOfSnoc(candidates: seq<JSONWebKey>, last: JSONWebKey, algorithm: string)
    ensures Matching(candidates + [last], algorithm)
         == Matching(candidates, algorithm) + (if CompatibleAlgorithm(last, algorithm) then [last] else [])
  {
    var all := candidates + [last];
    assert all[..|all| - 1] == candidates;
  }

  lemma MatchingOfNext(candidates: seq<JSONWebKey>, i: nat, algorithm: string)
    requires i < |candidates|
    ensures Matching(candidates[..i + 1], algorithm)
         == Matching(candidates[..i], algorithm)
            + (if CompatibleAlgorithm(candidates[i], algorithm) then [candidates[i]] else [])
  {
    assert candidates[..i + 1] == candidates[..i] + [candidates[i]];
    MatchingOfSnoc(candidates[..i], candidates[i], algorithm);
  }

  lemma {:induction false} MatchingGrows(candidates: seq<JSONWebKey>, n: nat, algorithm: string)
    requires n <= |candidates|
    ensures |Matching(candidates[..n], algorithm)| <= |Matching(candidates, algorithm)|
  {
    if n < |candidates| {
      var front := candidates[..|candidates| - 1];
      MatchingGrows(front, n, algorithm);
      assert front[..n] == candidates[..n];
    } else {
      assert candidates[..n] == candidates;
    }
  }

  /** Exactly one applicable key, or an error of the right class. */
  function ExactlyOne(applicable: seq<JSONWebKey>): Resolution {
    if |applicable| == 0 then Failure(Marked(JwsKeyNotFound))
    else if |applicable| == 1 then Success(ResolvedKey(applicable[0].keyID, Jwk(applicable[0])))
    else Failure(Marked(JwsInvalidConfig))
  }

  function SetResolution(keysByID: map<string, seq<JSONWebKey>>, header: Header): Resolution {
    if header.keyID == "" then Failure(Marked(JwsKeyNotFound))
    else if header.keyID !in keysByID then Failure(Marked(JwsKeyNotFound))
    else ExactlyOne(Matching(keysByID[header.keyID], header.algorithm))
  }

  method ResolveInSet(keysByID: map<string, seq<JSONWebKey>>, header: Header) returns (r: Resolution)
    ensures r == SetResolution(keysByID, header)
  {
    if header.keyID == "" {
      return Failure(Marked(JwsKeyNotFound));
    }
    var candidates := CandidatesIn(keysByID, header.keyID);
    var matchedKey: Option<JSONWebKey> := None;
    for i := 0 to |candidates|
      invariant Matching(candidates[..i], header.algorithm)
             == if matchedKey.Some? then [matchedKey.value] else []
    {
      var key := candidates[i];
      MatchingOfNext(candidates, i, header.algorithm);
      if key.algorithm != "" && key.algorithm != header.algorithm {
        continue;
      }
      if matchedKey.Some? {
        MatchingGrows(candidates, i + 1, header.algorithm);
        return Failure(Marked(JwsInvalidConfig));
      }
      matchedKey := Some(key);
    }
    assert candidates[..|candidates|] == candidates;
    if matchedKey.None? {
      return Failure(Marked(JwsKeyNotFound));
    }
    return Success(ResolvedKey(matchedKey.value.keyID, Jwk(matchedKey.value)));
  }

  /* ---- the index is a linear scan ---- */

  /** A key that is there, is identified as the header says, and is restricted neither to another use nor to another
      algorithm. */
  predicate Applicable(key: JSONWebKey, header: Header) {
    && key.keyID != "" && key.keyID == header.keyID && !key.key.NilKey?
    && (key.use == "" || key.use == "sig")
    && (key.algorithm == "" || key.algorithm == header.algorithm)
  }

  /** The keys of the original list a header may select, by scanning the list. */
  function Scan(keys: seq<JSONWebKey>, header: Header): seq<JSONWebKey> {
    if keys == [] then []
    else
      var last := keys[|keys| - 1];
      Scan(keys[..|keys| - 1], header) + (if Applicable(last, header) then [ClonedKey(last)] else [])
  }

  lemma {:induction false} MatchingOfGroup(keys: seq<JSONWebKey>, header: Header)
    ensures Matching(Group(keys, header.keyID), header.algorithm) == Scan(keys, header)
  {
    if keys != [] {
      var front, last := keys[..|keys| - 1], keys[|keys| - 1];
      MatchingOfGroup(front, header);
      var before := Group(front, header.keyID);
      if Usable(last) && last.keyID == header.keyID {
        MatchingOfSnoc(before, ClonedKey(last), header.algorithm);
      } else {
        assert Group(keys, header.keyID) == before;
      }
    }
  }

  /** The grouped index answers every header as the scan of the original list does: the key itself when exactly one
      applies, not-found when none does, a configuration error when several do. */
  lemma {:induction false} IndexRefinesScan(
      keysByID: map<string, seq<JSONWebKey>>, keys: seq<JSONWebKey>, header: Header)
    requires Grouped(keysByID, keys)
    ensures SetResolution(keysByID, header) == ExactlyOne(Scan(keys, header))
  {
    MatchingOfGroup(keys, header);
    CandidatesAreTheGroup(keysByID, keys, header.keyID);
    if header.keyID == "" {
      NoGroup(keys, header.keyID);
    }
  }

  /** Positions of the applicable keys of a list. */
  function Positions(keys: seq<JSONWebKey>, header: Header): (s: set<nat>) {
    set i: nat | i < |keys| && Applicable(keys[i], header)
  }

  lemma PositionsOneMore(keys: seq<JSONWebKey>, last: JSONWebKey, header: Header)
    ensures Positions(keys + [last], header)
         == Positions(keys, header) + (if Applicable(last, header) then {|keys| as nat} else {})
    ensures forall i :: i in Positions(keys, header) ==> i < |keys| && (keys + [last])[i] == keys[i]
  {
    assert forall i: nat :: i < |keys| ==> (keys + [last])[i] == keys[i];
  }

  lemma {:induction false} ScanCountsPositions(keys: seq<JSONWebKey>, header: Header)
    ensures |Scan(keys, header)| == |Positions(keys, header)|
    ensures forall i :: i in Positions(keys, header) ==> ClonedKey(keys[i]) in Scan(keys, header)
  {
    if keys == [] {
      assert Positions(keys, header) == {};
    } else {
      var n := |keys| - 1;
      ScanCountsPositions(keys[..n], header);
      PositionsOneMore(keys[..n], keys[n], header);
      assert keys[..n] + [keys[n]] == keys;
    }
  }

  /** Success means that one position of the original list, and no other, applies; the three outcomes are
      decided by the number of applicable positions alone. */
  lemma {:induction false} ResolutionCountsApplicableKeys(
      keysByID: map<string, seq<JSONWebKey>>, keys: seq<JSONWebKey>, header: Header)
    requires Grouped(keysByID, keys)
    ensures var r, applicable := SetResolution(keysByID, header), Positions(keys, header);
            && (r.Success? <==> |applicable| == 1)
            && (|applicable| == 0 ==> r.Failure? && ReachesExactly(r.error, JwsKeyNotFound))
            && (|applicable| >= 2 ==> r.Failure? && ReachesExactly(r.error, JwsInvalidConfig))
            && (forall i :: r.Success? && i in applicable
                  ==> r.value == ResolvedKey(keys[i].keyID, Jwk(ClonedKey(keys[i]))))
  {
    IndexRefinesScan(keysByID, keys, header);
    ScanCountsPositions(keys, header);
    ExactlyOneCounts(Scan(keys, header));
  }

  lemma ExactlyOneCounts(applicable: seq<JSONWebKey>)
    ensures var r := ExactlyOne(applicable);
            && (r.Success? <==> |applicable| == 1)
            && (|applicable| == 0 ==> r.Failure? && ReachesExactly(r.error, JwsKeyNotFound))
            && (|applicable| >= 2 ==> r.Failure? && ReachesExactly(r.error, JwsInvalidConfig))
            && (forall key :: r.Success? && key in applicable ==> r.value == ResolvedKey(key.keyID, Jwk(key)))
  {
  }

  lemma {:induction false} ScanMultiplicity(keys: seq<JSONWebKey>, header: Header, x: JSONWebKey)
    ensures multiset(ScanRaw(keys, header))[x] == if Applicable(x, header) then multiset(keys)[x] else 0
  {
    if keys != [] {
      ScanMultiplicity(keys[..|keys| - 1], header, x);
      assert keys == keys[..|keys| - 1] + [keys[|keys| - 1]];
    }
  }

  /** The scan before cloning. */
  function ScanRaw(keys: seq<JSONWebKey>, header: Header): (r: seq<JSONWebKey>)
    ensures |r| == |Scan(keys, header)|
    ensures forall i :: 0 <= i < |r| ==> ClonedKey(r[i]) == Scan(keys, header)[i]
  {
    if keys == [] then []
    else
      var last := keys[|keys| - 1];
      ScanRaw(keys[..|keys| - 1], header) + (if Applicable(last, header) then [last] else [])
  }

  lemma {:induction false} ScansArePermutations(a: seq<JSONWebKey>, b: seq<JSONWebKey>, header: Header)
    requires multiset(a) == multiset(b)
    ensures multiset(ScanRaw(a, header)) == multiset(ScanRaw(b, header))
  {
    forall x
      ensures multiset(ScanRaw(a, header))[x] == multiset(ScanRaw(b, header))[x]
    {
      ScanMultiplicity(a, header, x);
      ScanMultiplicity(b, header, x);
    }
  }

  lemma SingletonsAgree(a: seq<JSONWebKey>, b: seq<JSONWebKey>)
    requires multiset(a) == multiset(b)
    ensures |a| == |b|
    ensures |a| == 1 ==> a == b
  {
    assert |a| == |multiset(a)| == |multiset(b)| == |b|;
    if |a| == 1 {
      assert a[0] in multiset(b);
    }
  }

  /** Resolution does not depend on the order of the JWK set. */
  lemma {:induction false} ResolutionIgnoresOrder(
      a: seq<JSONWebKey>, indexA: map<string, seq<JSONWebKey>>,
      b: seq<JSONWebKey>, indexB: map<string, seq<JSONWebKey>>, header: Header)
    requires Grouped(indexA, a) && Grouped(indexB, b)
    requires multiset(a) == multiset(b)
    ensures SetResolution(indexA, header) == SetResolution(indexB, header)
  {
    if header.keyID != "" {
      IndexRefinesScan(indexA, a, header);
      IndexRefinesScan(indexB, b, header);
      ScansArePermutations(a, b, header);
      SingletonsAgree(ScanRaw(a, header), ScanRaw(b, header));
    }
  }

  /* ---- single keys and construction ---- */

  function JWKResolution(key: JSONWebKey, header: Header): Resolution {
    if header.keyID != "" && key.keyID != "" && header.keyID != key.keyID then Failure(Marked(JwsKeyNotFound))
    else if key.algorithm != "" && key.algorithm != header.algorithm then Failure(Marked(JwsKeyNotFound))
    else if key.use != "" && key.use != KEY_USE_SIGNATURE then Failure(Marked(JwsKeyNotFound))
    else Success(ResolvedKey(key.keyID, Jwk(key)))
  }

  /** The metadata of a single JWK constrains what it verifies only where both sides say something: kid against kid,
      alg and use where the JWK has them. Every refusal is local to the signature. */
  lemma {:induction false} SingleKeyConstraints(key: JSONWebKey, header: Header)
    ensures JWKResolution(key, header).Success? <==>
              && (header.keyID == key.keyID || header.keyID == "" || key.keyID == "")
              && CompatibleAlgorithm(key, header.algorithm) && SignatureUse(key)
    ensures JWKResolution(key, header).Success? ==> JWKResolution(key, header).value == ResolvedKey(key.keyID, Jwk(key))
    ensures JWKResolution(key, header).Failure? ==> ReachesExactly(JWKResolution(key, header).error, JwsKeyNotFound)
  {
  }

  method NewJWKResolver(key: JSONWebKey) returns (r: Result<Resolver, Error>)
    ensures r == if Cloned(key.key).NilKey? then Failure(Marked(JwsInvalidConfig))
                 else Success(JWKResolver(ClonedKey(key)))
  {
    var cloned := key.(key := Cloned(key.key));
    if cloned.key.NilKey? {
      return Failure(Marked(JwsInvalidConfig));
    }
    return Success(JWKResolver(cloned));
  }

  /** The resolver each kind of key argument gets. */
  predicate Represents(resolver: Resolver, key: StaticKey) {
    match key
    case Single(Jwk(jwk)) => resolver == JWKResolver(ClonedKey(jwk))
    case Single(JwkPointer(Some(jwk))) => resolver == JWKResolver(ClonedKey(jwk))
    case Single(material) => resolver == StaticResolver(Cloned(material))
    case KeySet(keys) => resolver.JWKSResolver? && Grouped(resolver.keysByID, keys)
    case KeySetPointer(target) => target.Some? && resolver.JWKSResolver? && Grouped(resolver.keysByID, target.value)
  }

  /** `newStaticResolver`: nil is refused at every level where the source looks for it, and a set is grouped. */
  method NewStaticResolver(key: StaticKey) returns (r: Result<Resolver, Error>)
    ensures r.Failure? <==> match key
      case Single(Jwk(jwk)) => Cloned(jwk.key).NilKey?
      case Single(JwkPointer(Some(jwk))) => Cloned(jwk.key).NilKey?
      case Single(material) => Cloned(material).NilKey?
      case KeySet(_) => false
      case KeySetPointer(target) => target.None?
    ensures r.Failure? ==> ReachesExactly(r.error, JwsInvalidConfig)
    ensures r.Success? ==> Represents(r.value, key)
  {
    match key {
      case Single(NilKey) => return Failure(Marked(JwsInvalidConfig));
      case Single(Jwk(jwk)) => r := NewJWKResolver(jwk);
      case Single(JwkPointer(None)) => return Failure(Marked(JwsInvalidConfig));
      case Single(JwkPointer(Some(jwk))) => r := NewJWKResolver(jwk);
      case Single(material) =>
        var cloned := Cloned(material);
        if cloned.NilKey? {
          return Failure(Marked(JwsInvalidConfig));
        }
        return Success(StaticResolver(cloned));
      case KeySet(keys) =>
        var resolver := NewJWKSResolver(keys);
        return Success(resolver);
      case KeySetPointer(None) => return Failure(Marked(JwsInvalidConfig));
      case KeySetPointer(Some(keys)) =>
        var resolver := NewJWKSResolver(keys);
        return Success(resolver);
    }
  }

  /** `Resolve` of the static resolvers. */
  function Resolve(resolver: Resolver, header: Header): Resolution {
    match resolver
    case StaticResolver(key) => Success(ResolvedKey("", key))
    case JWKResolver(jwk) => JWKResolution(jwk, header)
    case JWKSResolver(keysByID) => SetResolution(keysByID, header)
  }

  /** The JWK of a key argument that is one, by value or by pointer. */
  function SingleJWK(key: StaticKey): Option<JSONWebKey> {
    match key
    case Single(Jwk(jwk)) => Some(jwk)
    case Single(JwkPointer(target)) => target
    case _ => None
  }

  /** What a key argument verifies, whatever resolver it got. Raw material answers every header, itself and without an
      identity. A JWK answers under its own identity the headers its metadata allows. A set answers under the identity
      of the one applicable key. Every refusal is key-not-found, or an invalid configuration for an ambiguous set. */
  lemma {:induction false} StaticKeyMeaning(key: StaticKey, resolver: Resolver, header: Header)
    requires Represents(resolver, key)
    ensures key.Single? && SingleJWK(key).None? && !HoldsNilPointer(key.material)
        ==> Resolve(resolver, header) == Success(ResolvedKey("", key.material))
    ensures SingleJWK(key).Some? ==>
              var jwk, r := SingleJWK(key).value, Resolve(resolver, header);
              && (r.Success? <==> && (jwk.keyID == "" || header.keyID == "" || jwk.keyID == header.keyID)
                                  && (jwk.algorithm == "" || jwk.algorithm == header.algorithm)
                                  && (jwk.use == "" || jwk.use == "sig"))
              && (r.Success? ==> r.value == ResolvedKey(jwk.keyID, Cloned(Jwk(jwk))))
              && (r.Failure? ==> ReachesExactly(r.error, JwsKeyNotFound))
    ensures !key.Single? ==>
              var keys := if key.KeySet? then key.keys else key.target.value;
              var r, applicable := Resolve(resolver, header), Positions(keys, header);
              && (r.Success? <==> |applicable| == 1)
              && (forall i :: r.Success? && i in applicable
                    ==> r.value == ResolvedKey(header.keyID, Cloned(Jwk(keys[i]))))
              && (r.Failure? ==>
                    ReachesExactly(r.error, if |applicable| == 0 then JwsKeyNotFound else JwsInvalidConfig))
  {
    if key.Single? {
      CloneIsExactExceptNilPointers(key.material);
    } else {
      var keys := if key.KeySet? then key.keys else key.target.value;
      ResolutionCountsApplicableKeys(resolver.keysByID, keys, header);
    }
  }

  /** For a header with a kid, a JWK set of one identified key resolves as that key alone does. */
  lemma {:induction false} SingletonSetActsAsItsKey(
      key: JSONWebKey, keysByID: map<string, seq<JSONWebKey>>, header: Header)
    requires key.keyID != "" && !Cloned(key.key).NilKey?
    requires Grouped(keysByID, [key])
    requires header.keyID != ""
    ensures SetResolution(keysByID, header).Success? <==> JWKResolution(ClonedKey(key), header).Success?
    ensures SetResolution(keysByID, header).Success?
        ==> SetResolution(keysByID, header) == JWKResolution(ClonedKey(key), header)
  {
    IndexRefinesScan(keysByID, [key], header);
    assert [key][..0] == [];
    assert Scan([key][..0], header) == [];
  }
}
