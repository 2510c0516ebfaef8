/** jwt/keyset.go: a set of verification keys indexed by identifier, and its deterministic listing. */
module JwtKeySet {
  import opened Wrappers
  import opened Errors
  import opened Text
  import opened JwtKeys

  type Keys = seq<VerificationKey>

  datatype StaticKeySet = StaticKeySet(anonymous: Option<VerificationKey>, named: map<string, VerificationKey>)

  /* ---- construction ---- */

  function IDsOf(keys: Keys): set<string> {
    set k | k in keys :: k.id
  }

  /** What the constructor objects to in key `i`, given the keys before it. */
  function Fault(keys: Keys, i: nat): Option<Error>
    requires i < |keys|
  {
    if !Initialized(keys[i]) then Some(Marked(JwtInvalidKey))
    else if keys[i].id == "" && |keys| != 1 then Some(Marked(JwtInvalidConfig))
    else if keys[i].id != "" && keys[i].id in IDsOf(keys[..i]) then Some(Marked(JwtDuplicateKeyID))
    else None
  }

  /** The first objection among the first `n` keys. */
  function FirstFault(keys: Keys, n: nat): Option<Error>
    requires n <= |keys|
  {
    if n == 0 then None
    else if FirstFault(keys, n - 1).Some? then FirstFault(keys, n - 1)
    else Fault(keys, n - 1)
  }

  /** The index over the named keys of a list. */
  function Named(keys: Keys): map<string, VerificationKey> {
    if keys == [] then map[]
    else
      var last := keys[|keys| - 1];
      var before := Named(keys[..|keys| - 1]);
      if last.id == "" then before else before[last.id := last]
  }

  function SetOf(keys: Keys): StaticKeySet {
    StaticKeySet(if |keys| == 1 && keys[0].id == "" then Some(keys[0]) else None, Named(keys))
  }

  /** `NewStaticKeySet` on values. */
  function Constructed(keys: Keys): Result<StaticKeySet, Error> {
    if keys == [] then Failure(Marked(JwtInvalidConfig))
    else match FirstFault(keys, |keys|)
      case Some(e) => Failure(e)
      case None => Success(SetOf(keys))
  }

  lemma {:induction false} FaultIsFinal(keys: Keys, i: nat, n: nat)
    requires i < n <= |keys|
    requires FirstFault(keys, i).None? && Fault(keys, i).Some?
    ensures FirstFault(keys, n) == Fault(keys, i)
    decreases n
  {
    if i + 1 < n {
      FaultIsFinal(keys, i, n - 1);
    }
  }

  lemma {:induction false} NamedHoldsTheIDs(keys: Keys)
    ensures forall id :: id in Named(keys) <==> id != "" && id in IDsOf(keys)
    ensures forall id :: id in Named(keys) ==> Named(keys)[id].id == id && Named(keys)[id] in keys
  {
    if keys != [] {
      NamedHoldsTheIDs(keys[..|keys| - 1]);
      assert keys == keys[..|keys| - 1] + [keys[|keys| - 1]];
      assert IDsOf(keys) == IDsOf(keys[..|keys| - 1]) + {keys[|keys| - 1].id};
    }
  }

  method NewStaticKeySet(keys: Keys) returns (r: Result<StaticKeySet, Error>)
    ensures r == Constructed(keys)
  {
    if |keys| == 0 {
      return Failure(Marked(JwtInvalidConfig));
    }
    var anonymous: Option<VerificationKey> := None;
    var named: map<string, VerificationKey> := map[];
    for i := 0 to |keys|
      invariant FirstFault(keys, i).None?
      invariant named == Named(keys[..i])
      invariant anonymous == if i == 1 && keys[0].id == "" then Some(keys[0]) else None
      invariant i > 0 && keys[0].id == "" ==> |keys| == 1
    {
      var key := keys[i];
      assert keys[..i + 1][..i] == keys[..i];
      NamedHoldsTheIDs(keys[..i]);
      if key.signingMethod.None? || key.key.None? {
        FaultIsFinal(keys, i, |keys|);
        return Failure(Marked(JwtInvalidKey));
      }
      if key.id == "" {
        if |keys| != 1 {
          FaultIsFinal(keys, i, |keys|);
          return Failure(Marked(JwtInvalidConfig));
        }
        anonymous := Some(key);
        continue;
      }
      if key.id in named {
        FaultIsFinal(keys, i, |keys|);
        return Failure(Marked(JwtDuplicateKeyID));
      }
      named := named[key.id := key];
    }
    assert keys[..|keys|] == keys;
    return Success(StaticKeySet(anonymous, named));
  }

  /** What a caller has to know: a list is accepted iff it is non-empty, every key is initialized, no identifier
      repeats, and an anonymous key stands alone. */
  predicate Acceptable(keys: Keys) {
    && keys != []
    && (forall k | k in keys :: Initialized(k))
    && (|keys| == 1 || "" !in IDsOf(keys))
    && DistinctIDs(keys)
  }

  predicate DistinctIDs(keys: Keys) {
    forall i, j :: 0 <= i < j < |keys| ==> keys[i].id != keys[j].id
  }

  lemma {:induction false} NoFaultMeans(keys: Keys, n: nat)
    requires n <= |keys|
    ensures FirstFault(keys, n).None? <==> forall i :: 0 <= i < n ==> Fault(keys, i).None?
  {
    if n > 0 {
      NoFaultMeans(keys, n - 1);
    }
  }

  lemma FaultFreeListIsAcceptable(keys: Keys)
    requires keys != []
    requires forall i :: 0 <= i < |keys| ==> Fault(keys, i).None?
    ensures Acceptable(keys)
  {
    forall i, j | 0 <= i < j < |keys|
      ensures keys[i].id != keys[j].id
    {
      assert Fault(keys, i).None? && Fault(keys, j).None?;
      assert keys[..j][i] in keys[..j];
    }
    forall k | k in keys
      ensures Initialized(k) && (|keys| == 1 || k.id != "")
    {
      var i :| 0 <= i < |keys| && keys[i] == k;
      assert Fault(keys, i).None?;
    }
  }

  lemma {:induction false} AcceptedExactly(keys: Keys)
    ensures Constructed(keys).Success? <==> Acceptable(keys)
  {
    NoFaultMeans(keys, |keys|);
    if Acceptable(keys) {
      forall i | 0 <= i < |keys|
        ensures Fault(keys, i).None?
      {
        assert keys[i] in keys && keys[i].id in IDsOf(keys);
      }
    } else if keys != [] && FirstFault(keys, |keys|).None? {
      FaultFreeListIsAcceptable(keys);
    }
  }

  /* ---- lookup ---- */

  function Resolve(s: StaticKeySet, header: Header): Result<VerificationKey, Error> {
    if s.anonymous.Some? then ResolveKey(s.anonymous.value, header)
    else if header.keyID == "" then Failure(Root(JwtMissingKeyID))
    else if header.keyID !in s.named then Failure(Root(JwtUnknownKey))
    else ResolveKey(s.named[header.keyID], header)
  }

  function Len(s: StaticKeySet): nat {
    if s.anonymous.Some? then 1 else |s.named|
  }

  /** What every constructed set satisfies. */
  predicate WellFormed(s: StaticKeySet) {
    && (s.anonymous.Some? ==> s.named == map[] && s.anonymous.value.id == "" && Initialized(s.anonymous.value))
    && (s.anonymous.None? ==> s.named != map[])
    && forall id | id in s.named :: id != "" && s.named[id].id == id && Initialized(s.named[id])
  }

  /** The keys a set holds. */
  function Members(s: StaticKeySet): set<VerificationKey> {
    if s.anonymous.Some? then {s.anonymous.value} else s.named.Values
  }

  lemma {:induction false} NamedOfDistinct(keys: Keys)
    requires DistinctIDs(keys)
    ensures forall k :: k in keys && k.id != "" ==> k.id in Named(keys) && Named(keys)[k.id] == k
  {
    if keys != [] {
      var front := keys[..|keys| - 1];
      NamedOfDistinct(front);
      assert keys == front + [keys[|keys| - 1]];
    }
  }

  lemma ConstructedIsWellFormed(keys: Keys)
    requires Constructed(keys).Success?
    ensures WellFormed(Constructed(keys).value)
    ensures Members(Constructed(keys).value) == set k | k in keys
  {
    AcceptedExactly(keys);
    NamedHoldsTheIDs(keys);
    NamedOfDistinct(keys);
    var s := Constructed(keys).value;
    if s.anonymous.Some? {
      assert keys == [keys[0]];
      assert IDsOf(keys) == {""};
    } else {
      assert keys[0] in keys && keys[0].id in IDsOf(keys);
      forall k | k in keys
        ensures k in s.named.Values
      {
        assert k.id in IDsOf(keys);
        assert s.named[k.id] == k;
      }
    }
  }

  /** The index answers every header as a scan of the list would: the key with that identifier, provided that its
      algorithm is the header's, and unexpected algorithm otherwise. When no key has the identifier the header has a
      missing kid or an unknown key. */
  lemma ResolveIsAScan(keys: Keys, header: Header, k: VerificationKey)
    requires Constructed(keys).Success?
    ensures Resolve(Constructed(keys).value, header) == Success(k)
       <==> k in keys && k.id == header.keyID && k.signingMethod.Some? && k.signingMethod.value.alg == header.algorithm
    ensures k in keys && k.id == header.keyID && k.signingMethod.Some? && k.signingMethod.value.alg != header.algorithm
        ==> Resolve(Constructed(keys).value, header) == Failure(Root(JwtUnexpectedAlgorithm))
    ensures header.keyID !in IDsOf(keys)
        ==> Resolve(Constructed(keys).value, header)
            == Failure(Root(if header.keyID == "" then JwtMissingKeyID else JwtUnknownKey))
  {
    AcceptedExactly(keys);
    ConstructedIsWellFormed(keys);
    NamedOfDistinct(keys);
    NamedHoldsTheIDs(keys);
    if k in keys {
      assert k.id in IDsOf(keys);
    }
  }

  /** A set of one key answers every header as that key does, errors included. */
  lemma {:induction false} SingletonSetActsAsItsKey(k: VerificationKey, header: Header)
    requires Initialized(k)
    ensures Constructed([k]).Success? && Resolve(Constructed([k]).value, header) == ResolveKey(k, header)
  {
    AcceptedExactly([k]);
    NamedOfDistinct([k]);
    NamedHoldsTheIDs([k]);
    assert IDsOf([k]) == {k.id};
    assert k in [k];
  }

  /* ---- deterministic listing ---- */

  predicate SortedByID(keys: Keys) {
    forall i, j :: 0 <= i < j < |keys| ==> Less(keys[i].id, keys[j].id)
  }

  /** A listing of a set: its members, each once, strictly by identifier. */
  predicate Lists(keys: Keys, s: StaticKeySet) {
    SortedByID(keys) && (set k | k in keys) == Members(s)
  }

  /** Insertion of one key into a sorted list, and insertion sort, which stand for `slices.SortFunc`. */
  function Inserted(keys: Keys, k: VerificationKey): Keys {
    if keys == [] || Less(k.id, keys[0].id) then [k] + keys else [keys[0]] + Inserted(keys[1..], k)
  }

  function Sorted(keys: Keys): Keys {
    if keys == [] then [] else Inserted(Sorted(keys[1..]), keys[0])
  }

  lemma {:induction false} InsertedMembers(keys: Keys, k: VerificationKey)
    ensures multiset(Inserted(keys, k)) == multiset(keys) + multiset{k}
  {
    if keys != [] && !Less(k.id, keys[0].id) {
      InsertedMembers(keys[1..], k);
      assert keys == [keys[0]] + keys[1..];
    }
  }

  lemma {:induction false} InsertedIsSorted(keys: Keys, k: VerificationKey)
    requires SortedByID(keys) && k.id !in IDsOf(keys)
    ensures SortedByID(Inserted(keys, k))
  {
    if keys == [] {
    } else if Less(k.id, keys[0].id) {
      forall j | 0 <= j < |keys|
        ensures Less(k.id, keys[j].id)
      {
        if j > 0 {
          LessIsTransitive(k.id, keys[0].id, keys[j].id);
        }
      }
    } else {
      var rest := keys[1..];
      assert keys[0].id in IDsOf(keys) && IDsOf(rest) <= IDsOf(keys);
      InsertedIsSorted(rest, k);
      InsertedMembers(rest, k);
      LessIsTotal(k.id, keys[0].id);
      forall x | x in Inserted(rest, k)
        ensures Less(keys[0].id, x.id)
      {
        assert x in multiset(Inserted(rest, k));
        assert x in rest || x == k;
      }
    }
  }

  lemma {:induction false} SortedProperties(keys: Keys)
    requires DistinctIDs(keys)
    ensures multiset(Sorted(keys)) == multiset(keys)
    ensures SortedByID(Sorted(keys))
  {
    if keys != [] {
      var rest := keys[1..];
      SortedProperties(rest);
      assert keys == [keys[0]] + rest;
      InsertedMembers(Sorted(rest), keys[0]);
      assert keys[0].id !in IDsOf(Sorted(rest)) by {
        forall k | k in Sorted(rest)
          ensures k.id != keys[0].id
        {
          assert k in multiset(Sorted(rest));
          assert k in rest;
        }
      }
      InsertedIsSorted(Sorted(rest), keys[0]);
    }
  }

  /** At most one strictly sorted sequence lists a set, so no map iteration order and no sorting algorithm can
      change the export. */
  lemma {:induction false} ListingIsUnique(a: Keys, b: Keys)
    requires SortedByID(a) && SortedByID(b)
    requires forall k :: k in a <==> k in b
    ensures a == b
  {
    assert |b| > 0 ==> b[0] in a;
    if a != [] {
      assert a[0] in b && b != [] && b[0] in a;
      var i :| 0 <= i < |b| && b[i] == a[0];
      var j :| 0 <= j < |a| && a[j] == b[0];
      LessIsStrict(a[0].id);
      if i > 0 && j > 0 {
        LessIsTransitive(a[0].id, b[0].id, a[0].id);
      }
      assert a[0] == b[0];
      HeadIsNotInTail(a);
      HeadIsNotInTail(b);
      forall k
        ensures k in a[1..] <==> k in b[1..]
      {
        assert k in a <==> k == a[0] || k in a[1..];
        assert k in b <==> k == b[0] || k in b[1..];
      }
      ListingIsUnique(a[1..], b[1..]);
      assert a == [a[0]] + a[1..];
      assert b == [b[0]] + b[1..];
    }
  }

  lemma HeadIsNotInTail(keys: Keys)
    requires SortedByID(keys) && keys != []
    ensures keys[0] !in keys[1..]
  {
    LessIsStrict(keys[0].id);
  }

  /** `Keys`: map entries are taken in an arbitrary order, then sorted. */
  method ListKeys(s: StaticKeySet) returns (keys: Keys)
    requires WellFormed(s)
    ensures Lists(keys, s)
    ensures |keys| == Len(s)
    ensures forall other :: Lists(other, s) ==> other == keys
  {
    if s.anonymous.Some? {
      keys := [s.anonymous.value];
    } else {
      keys := [];
      var pending := s.named.Keys;
      while pending != {}
        invariant pending <= s.named.Keys
        invariant |keys| + |pending| == |s.named.Keys|
        invariant forall k :: k in keys <==> k.id in s.named && k.id !in pending && s.named[k.id] == k
        invariant DistinctIDs(keys)
        decreases |pending|
      {
        var id :| id in pending;
        keys := keys + [s.named[id]];
        pending := pending - {id};
      }
      ghost var collected := keys;
      SortedProperties(keys);
      keys := Sorted(keys);
      SameMembers(collected, keys);
      assert |keys| == |multiset(keys)| == |multiset(collected)|;
    }
    forall other | Lists(other, s)
      ensures other == keys
    {
      assert forall k :: k in other <==> k in Members(s);
      ListingIsUnique(other, keys);
    }
  }

  lemma SameMembers(a: Keys, b: Keys)
    requires multiset(a) == multiset(b)
    ensures forall k :: k in a <==> k in b
  {
    forall k
      ensures k in a <==> k in b
    {
      assert k in a <==> k in multiset(a);
      assert k in b <==> k in multiset(b);
    }
  }

  /* ---- laws ---- */

  lemma {:induction false} DistinctCount(keys: Keys)
    ensures |IDsOf(keys)| <= |keys|
    ensures |IDsOf(keys)| == |keys| <==> DistinctIDs(keys)
  {
    if keys == [] {
      assert IDsOf(keys) == {};
    } else {
      var rest := keys[1..];
      DistinctCount(rest);
      IDsOfTail(keys);
      DistinctTail(keys);
    }
  }

  lemma IDsOfTail(keys: Keys)
    requires keys != []
    ensures IDsOf(keys) == {keys[0].id} + IDsOf(keys[1..])
  {
    assert keys == [keys[0]] + keys[1..];
  }

  lemma DistinctTail(keys: Keys)
    requires keys != []
    ensures DistinctIDs(keys) <==> DistinctIDs(keys[1..]) && keys[0].id !in IDsOf(keys[1..])
  {
    var rest := keys[1..];
    assert forall i :: 1 <= i < |keys| ==> keys[i] == rest[i - 1] && rest[i - 1] in rest;
    if keys[0].id in IDsOf(rest) {
      var k :| k in rest && k.id == keys[0].id;
      var i :| 0 <= i < |rest| && rest[i] == k;
      assert keys[i + 1].id == keys[0].id;
    }
    if DistinctIDs(keys) {
      assert forall i :: 0 <= i < |rest| ==> rest[i] == keys[i + 1];
    }
  }

  lemma {:induction false} SetsWithSameMembersAreEqual(s: StaticKeySet, t: StaticKeySet)
    requires WellFormed(s) && WellFormed(t)
    requires Members(s) == Members(t)
    ensures s == t
  {
    MembersIDs(t);
    if s.anonymous.Some? {
      assert s.anonymous.value in Members(t);
    } else {
      var some :| some in s.named;
      assert s.named[some] in Members(t);
      forall id | id in s.named
        ensures id in t.named && t.named[id] == s.named[id]
      {
        assert s.named[id] in Members(t);
      }
      forall id | id in t.named
        ensures id in s.named
      {
        assert t.named[id] in Members(s);
      }
      assert s.named == t.named;
    }
  }

  lemma MembersIDs(s: StaticKeySet)
    requires WellFormed(s)
    ensures s.anonymous.Some? ==> forall k | k in Members(s) :: k.id == ""
    ensures s.anonymous.None? ==> forall k | k in Members(s) :: k.id != ""
  {
  }

  /** Order is irrelevant to the constructor: a permutation of the keys is accepted too, and gives the same set. */
  lemma {:induction false} ConstructionIgnoresOrder(a: Keys, b: Keys)
    requires multiset(a) == multiset(b)
    ensures Constructed(a).Success? <==> Constructed(b).Success?
    ensures Constructed(a).Success? ==> Constructed(a) == Constructed(b)
  {
    SameMembers(a, b);
    assert |a| == |multiset(a)| == |multiset(b)| == |b|;
    assert IDsOf(a) == IDsOf(b);
    AcceptedExactly(a);
    AcceptedExactly(b);
    DistinctCount(a);
    DistinctCount(b);
    if Constructed(a).Success? {
      ConstructedIsWellFormed(a);
      ConstructedIsWellFormed(b);
      SetsWithSameMembersAreEqual(Constructed(a).value, Constructed(b).value);
    }
  }

  /** Rebuilding a set from its own listing gives the set back. */
  lemma RebuildingIsIdentity(s: StaticKeySet, keys: Keys)
    requires WellFormed(s) && Lists(keys, s)
    ensures Constructed(keys) == Success(s)
  {
    forall k
      ensures k in keys <==> k in Members(s)
    {
      assert k in (set x | x in keys) <==> k in keys;
    }
    MembersIDs(s);
    forall i, j | 0 <= i < j < |keys|
      ensures keys[i].id != keys[j].id
    {
      LessIsStrict(keys[i].id);
    }
    if s.anonymous.Some? {
      assert s.anonymous.value in keys;
      forall i | 0 <= i < |keys|
        ensures keys[i] == s.anonymous.value
      {
        assert keys[i] in keys;
      }
      assert |keys| > 1 ==> keys[0].id != keys[1].id;
    } else {
      var id :| id in s.named;
      assert s.named[id] in Members(s);
      assert s.named[id] in keys;
    }
    assert Acceptable(keys);
    AcceptedExactly(keys);
    ConstructedIsWellFormed(keys);
    SetsWithSameMembersAreEqual(Constructed(keys).value, s);
  }

  /* ---- which fault a refused list is told of ---- */

  /** What is wrong with the key at a position: it is not initialized, it is anonymous among others, or its identifier
      has been seen. */
  function Offence(keys: Keys, i: nat): Option<Sentinel>
    requires i < |keys|
  {
    if keys[i].signingMethod.None? || keys[i].key.None? then Some(JwtInvalidKey)
    else if keys[i].id == "" && |keys| > 1 then Some(JwtInvalidConfig)
    else if exists j :: 0 <= j < i && keys[j].id == keys[i].id then Some(JwtDuplicateKeyID)
    else None
  }

  /** The empty list is an invalid configuration. Any other refused list is refused for its first offending key. */
  lemma RefusalNamesTheFirstOffence(keys: Keys)
    requires Constructed(keys).Failure?
    ensures keys == [] ==> ReachesExactly(Constructed(keys).error, JwtInvalidConfig)
    ensures keys != [] ==>
              exists i: nat :: FirstOffence(keys, i) && Offence(keys, i).Some?
                && ReachesExactly(Constructed(keys).error, Offence(keys, i).value)
  {
    if keys != [] {
      var i := FaultPosition(keys, |keys|);
      FaultIsOffence(keys, i);
      forall j: nat | j < i
        ensures Offence(keys, j).None?
      {
        FaultIsOffence(keys, j);
      }
      assert FirstOffence(keys, i);
    }
  }

  ghost predicate FirstOffence(keys: Keys, i: nat) {
    i < |keys| && forall j: nat :: j < i ==> Offence(keys, j).None?
  }

  ghost predicate FaultIs(keys: Keys, i: nat) {
    && i < |keys|
    && (Fault(keys, i).None? <==> Offence(keys, i).None?)
    && (Fault(keys, i).Some? ==> ReachesExactly(Fault(keys, i).value, Offence(keys, i).value))
  }

  lemma FaultIsOffence(keys: Keys, i: nat)
    requires i < |keys|
    ensures FaultIs(keys, i)
  {
    if j :| 0 <= j < i && keys[j].id == keys[i].id {
      assert keys[..i][j] in keys[..i];
    }
  }

  lemma {:induction false} FaultPosition(keys: Keys, n: nat) returns (i: nat)
    requires n <= |keys| && FirstFault(keys, n).Some?
    ensures i < n && FirstFault(keys, n) == Fault(keys, i)
    ensures forall j: nat :: j < i ==> Fault(keys, j).None?
  {
    NoFaultMeans(keys, n - 1);
    if FirstFault(keys, n - 1).Some? {
      i := FaultPosition(keys, n - 1);
    } else {
      i := n - 1;
    }
  }
}
