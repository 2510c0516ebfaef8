/** jws/key.go and jws/resolver.go: key material as it lies in memory. Byte slices are arrays and a `*jose.JSONWebKey`
    is an object, so copying, aliasing and later writes by the caller are visible. */
module JwsKeyHeap {
  import opened Wrappers
  import opened JwsMaterial
  import opened JwsResolver

  datatype Handle =
    | NilHandle
    | ByteSlice(slice: array<byte>)
    | Ed25519Slice(slice: array<byte>)
    | JwkValue(jwk: KeyHandle)
    | JwkReference(cell: JWKCell?)
    | OpaqueHandle(identity: nat, publicKeyID: string)
    | RetainedHandle(identity: nat)

  datatype KeyHandle = KeyHandle(key: Handle, keyID: string, algorithm: string, use: string)

  /** A heap-allocated `jose.JSONWebKey`. */
  class JWKCell {
    var jwk: KeyHandle

    constructor (jwk: KeyHandle)
      ensures this.jwk == jwk
    {
      this.jwk := jwk;
    }
  }

  /** Everything reachable from `h` through slices and JWK pointers lies in `region`, crossing at most `depth`
      pointers. Finite nesting is what makes a recursive copy possible: a cyclic JWK has no such depth. */
  ghost predicate Within(h: Handle, region: set<object>, depth: nat)
    reads region
    decreases depth, h
  {
    match h
    case ByteSlice(slice) => slice in region
    case Ed25519Slice(slice) => slice in region
    case JwkValue(jwk) => Within(jwk.key, region, depth)
    case JwkReference(cell) =>
      cell == null || (cell in region && depth > 0 && Within(cell.jwk.key, region, depth - 1))
    case _ => true
  }

  /** The value a handle stands for now. */
  ghost function Content(h: Handle, region: set<object>, depth: nat): Material
    requires Within(h, region, depth)
    reads region
    decreases depth, h
  {
    match h
    case NilHandle => NilKey
    case ByteSlice(slice) => Bytes(slice[..])
    case Ed25519Slice(slice) => Ed25519(slice[..])
    case JwkValue(jwk) => Jwk(KeyContent(jwk, Content(jwk.key, region, depth)))
    case JwkReference(cell) =>
      if cell == null then JwkPointer(None)
      else JwkPointer(Some(KeyContent(cell.jwk, Content(cell.jwk.key, region, depth - 1))))
    case OpaqueHandle(identity, publicKeyID) => OpaqueSigner(identity, publicKeyID)
    case RetainedHandle(identity) => Retained(identity)
  }

  function KeyContent(jwk: KeyHandle, key: Material): JSONWebKey {
    JSONWebKey(key, jwk.keyID, jwk.algorithm, jwk.use)
  }

  lemma {:induction false} LargerRegion(h: Handle, region: set<object>, larger: set<object>, depth: nat)
    requires Within(h, region, depth) && region <= larger
    ensures Within(h, larger, depth) && Content(h, larger, depth) == Content(h, region, depth)
    decreases depth, h
  {
    match h
    case JwkValue(jwk) => LargerRegion(jwk.key, region, larger, depth);
    case JwkReference(cell) =>
      if cell != null {
        LargerRegion(cell.jwk.key, region, larger, depth - 1);
      }
    case _ =>
  }

  /** A JWK that points at itself is nested at no depth: copying it is outside every contract below. */
  lemma {:induction false} SelfReferenceHasNoDepth(cell: JWKCell, region: set<object>, depth: nat)
    requires cell.jwk.key == JwkReference(cell)
    ensures !Within(JwkReference(cell), region, depth)
    decreases depth
  {
    if depth > 0 {
      SelfReferenceHasNoDepth(cell, region, depth - 1);
    }
  }

  /** `bytes.Clone`. */
  method CloneBytes(source: array<byte>) returns (copy: array<byte>)
    ensures fresh(copy) && copy[..] == source[..]
  {
    copy := new byte[source.Length](i requires 0 <= i < source.Length reads source => source[i]);
  }

  /** `cloneKeyMaterial`: all storage of the copy is new, nothing the caller holds is written, and the value is kept
      except that a nil JWK pointer becomes nil. */
  method CloneKeyMaterial(h: Handle, ghost region: set<object>, ghost depth: nat)
    returns (copy: Handle, ghost storage: set<object>)
    requires Within(h, region, depth)
    ensures fresh(storage)
    ensures Within(copy, storage, depth)
    ensures Content(copy, storage, depth) == Cloned(old(Content(h, region, depth)))
    ensures !HoldsNilPointer(old(Content(h, region, depth)))
        ==> Content(copy, storage, depth) == old(Content(h, region, depth))
    ensures copy.NilHandle? <==> Cloned(old(Content(h, region, depth))).NilKey?
    decreases depth, h
  {
    CloneIsExactExceptNilPointers(Content(h, region, depth));
    match h {
      case ByteSlice(slice) =>
        var bytes := CloneBytes(slice);
        return ByteSlice(bytes), {bytes};
      case Ed25519Slice(slice) =>
        var bytes := CloneBytes(slice);
        return Ed25519Slice(bytes), {bytes};
      case JwkValue(jwk) =>
        var key, inner := CloneKeyMaterial(jwk.key, region, depth);
        return JwkValue(jwk.(key := key)), inner;
      case JwkReference(cell) =>
        if cell == null {
          return NilHandle, {};
        }
        var key, inner := CloneKeyMaterial(cell.jwk.key, region, depth - 1);
        var cloned := new JWKCell(cell.jwk.(key := key));
        storage := inner + {cloned};
        LargerRegion(key, inner, storage, depth - 1);
        return JwkReference(cloned), storage;
      case _ =>
        return h, {};
    }
  }

  /** What `staticResolver`, `jwkResolver` and a built signing key have in common: one private copy of the
      caller's key material. */
  class KeySnapshot {
    var key: Handle
    ghost var storage: set<object>
    ghost var depth: nat

    ghost predicate Valid()
      reads this, storage
    {
      this !in storage && Within(key, storage, depth)
    }

    ghost function Snapshot(): Material
      requires Valid()
      reads this, storage
    {
      Content(key, storage, depth)
    }

    constructor (h: Handle, ghost region: set<object>, ghost depth: nat)
      requires Within(h, region, depth)
      ensures Valid() && fresh(storage) && this.depth == depth
      ensures Snapshot() == Cloned(old(Content(h, region, depth)))
    {
      var copy, owned := CloneKeyMaterial(h, region, depth);
      key, storage, this.depth := copy, owned, depth;
    }

    /** `Resolve`: hands out the stored material. */
    method Resolve() returns (resolved: Handle)
      requires Valid()
      ensures Within(resolved, storage, depth)
      ensures Content(resolved, storage, depth) == Snapshot()
    {
      return key;
    }
  }

  /** One later write by the caller: a byte of a slice, or a whole JWK behind a pointer. */
  datatype CallerWrite =
    | WriteByte(slice: array<byte>, index: int, value: byte)
    | WriteKey(cell: JWKCell, jwk: KeyHandle)
  {
    function Target(): object {
      match this
      case WriteByte(slice, _, _) => slice
      case WriteKey(cell, _) => cell
    }
  }

  method PerformWrites(writes: seq<CallerWrite>, ghost region: set<object>)
    requires forall w | w in writes :: w.Target() in region
    modifies region
  {
    for i := 0 to |writes| {
      assert writes[i] in writes;
      match writes[i] {
        case WriteByte(slice, index, value) =>
          if 0 <= index < slice.Length {
            slice[index] := value;
          }
        case WriteKey(cell, jwk) =>
          cell.jwk := jwk;
      }
    }
  }

  /** Whatever the caller later writes to the slices and JWKs it passed in, before or between resolutions, every
      resolution yields the material as it was at construction. */
  method SnapshotIsolation(h: Handle, ghost region: set<object>, ghost depth: nat,
                           before: seq<CallerWrite>, between: seq<CallerWrite>)
    returns (first: Handle, second: Handle, ghost storage: set<object>)
    requires Within(h, region, depth)
    requires forall w | w in before :: w.Target() in region
    requires forall w | w in between :: w.Target() in region
    modifies region
    ensures fresh(storage)
    ensures Within(first, storage, depth) && Within(second, storage, depth)
    ensures Content(first, storage, depth) == Content(second, storage, depth)
         == Cloned(old(Content(h, region, depth)))
    ensures !HoldsNilPointer(old(Content(h, region, depth)))
        ==> Content(first, storage, depth) == old(Content(h, region, depth))
  {
    CloneIsExactExceptNilPointers(Content(h, region, depth));
    var snapshot := new KeySnapshot(h, region, depth);
    storage := snapshot.storage;
    assert snapshot !in region && storage !! region;
    PerformWrites(before, region);
    first := snapshot.Resolve();
    PerformWrites(between, region);
    second := snapshot.Resolve();
  }

  /* ---- a whole JWK set ---- */

  ghost predicate AllWithin(keys: seq<KeyHandle>, region: set<object>, depth: nat)
    reads region
  {
    forall i :: 0 <= i < |keys| ==> Within(keys[i].key, region, depth)
  }

  ghost function Contents(keys: seq<KeyHandle>, region: set<object>, depth: nat): seq<JSONWebKey>
    requires AllWithin(keys, region, depth)
    reads region
  {
    if keys == [] then []
    else
      var n := |keys| - 1;
      Contents(keys[..n], region, depth) + [KeyContent(keys[n], Content(keys[n].key, region, depth))]
  }

  ghost predicate IndexWithin(keysByID: map<string, seq<KeyHandle>>, region: set<object>, depth: nat)
    reads region
  {
    forall id | id in keysByID :: AllWithin(keysByID[id], region, depth)
  }

  ghost function IndexContents(keysByID: map<string, seq<KeyHandle>>, region: set<object>, depth: nat)
    : map<string, seq<JSONWebKey>>
    requires IndexWithin(keysByID, region, depth)
    reads region
  {
    map id | id in keysByID :: Contents(keysByID[id], region, depth)
  }

  lemma {:induction false} ContentsOfNext(keys: seq<KeyHandle>, i: nat, region: set<object>, depth: nat)
    requires AllWithin(keys, region, depth) && i < |keys|
    ensures Contents(keys[..i + 1], region, depth)
         == Contents(keys[..i], region, depth) + [KeyContent(keys[i], Content(keys[i].key, region, depth))]
  {
    assert keys[..i + 1][..i] == keys[..i];
  }

  lemma ContentsOfSnoc(keys: seq<KeyHandle>, last: KeyHandle, region: set<object>, depth: nat)
    requires AllWithin(keys, region, depth) && Within(last.key, region, depth)
    ensures AllWithin(keys + [last], region, depth)
    ensures Contents(keys + [last], region, depth)
         == Contents(keys, region, depth) + [KeyContent(last, Content(last.key, region, depth))]
  {
    assert (keys + [last])[..|keys|] == keys;
  }

  lemma {:induction false} LargerRegionForAll(
      keys: seq<KeyHandle>, region: set<object>, larger: set<object>, depth: nat)
    requires AllWithin(keys, region, depth) && region <= larger
    ensures AllWithin(keys, larger, depth) && Contents(keys, larger, depth) == Contents(keys, region, depth)
  {
    if keys != [] {
      var n := |keys| - 1;
      LargerRegionForAll(keys[..n], region, larger, depth);
      LargerRegion(keys[n].key, region, larger, depth);
      ContentsOfSnoc(keys[..n], keys[n], larger, depth);
      assert keys == keys[..n] + [keys[n]];
    }
  }

  lemma LargerRegionForIndex(
      keysByID: map<string, seq<KeyHandle>>, region: set<object>, larger: set<object>, depth: nat)
    requires IndexWithin(keysByID, region, depth) && region <= larger
    ensures IndexWithin(keysByID, larger, depth)
    ensures IndexContents(keysByID, larger, depth) == IndexContents(keysByID, region, depth)
  {
    forall id | id in keysByID
      ensures AllWithin(keysByID[id], larger, depth)
      ensures Contents(keysByID[id], larger, depth) == Contents(keysByID[id], region, depth)
    {
      LargerRegionForAll(keysByID[id], region, larger, depth);
    }
  }

  lemma ExtendedIndex(keysByID: map<string, seq<KeyHandle>>, key: KeyHandle, region: set<object>, depth: nat)
    requires IndexWithin(keysByID, region, depth) && Within(key.key, region, depth)
    ensures var extended := keysByID[key.keyID := CandidatesIn(keysByID, key.keyID) + [key]];
            && IndexWithin(extended, region, depth)
            && var before := IndexContents(keysByID, region, depth);
               var content := KeyContent(key, Content(key.key, region, depth));
               IndexContents(extended, region, depth)
               == before[key.keyID := CandidatesIn(before, key.keyID) + [content]]
  {
    var group := CandidatesIn(keysByID, key.keyID);
    assert AllWithin(group, region, depth);
    ContentsOfSnoc(group, key, region, depth);
    assert Contents(group, region, depth) == CandidatesIn(IndexContents(keysByID, region, depth), key.keyID);
  }

  /** One usable key of a set: its private copy goes to the end of its group. */
  method AddCopy(keysByID: map<string, seq<KeyHandle>>, ghost owned: set<object>,
                 key: KeyHandle, ghost region: set<object>, ghost depth: nat)
    returns (extended: map<string, seq<KeyHandle>>, ghost storage: set<object>)
    requires IndexWithin(keysByID, owned, depth) && Within(key.key, region, depth)
    ensures owned <= storage && fresh(storage - owned)
    ensures IndexWithin(extended, storage, depth)
    ensures var before := old(IndexContents(keysByID, owned, depth));
            var clone := ClonedKey(old(KeyContent(key, Content(key.key, region, depth))));
            IndexContents(extended, storage, depth)
            == before[key.keyID := CandidatesIn(before, key.keyID) + [clone]]
  {
    var material, more := CloneKeyMaterial(key.key, region, depth);
    storage := owned + more;
    LargerRegionForIndex(keysByID, owned, storage, depth);
    LargerRegion(material, more, storage, depth);
    var copy := key.(key := material);
    ExtendedIndex(keysByID, copy, storage, depth);
    extended := keysByID[key.keyID := CandidatesIn(keysByID, key.keyID) + [copy]];
  }

  /** The loop of `newJWKSResolver`. */
  method CopyUsable(keys: seq<KeyHandle>, ghost region: set<object>, ghost depth: nat)
    returns (keysByID: map<string, seq<KeyHandle>>, ghost storage: set<object>)
    requires AllWithin(keys, region, depth)
    ensures fresh(storage) && IndexWithin(keysByID, storage, depth)
    ensures Grouped(IndexContents(keysByID, storage, depth), old(Contents(keys, region, depth)))
  {
    keysByID, storage := map[], {};
    for i := 0 to |keys|
      invariant fresh(storage)
      invariant IndexWithin(keysByID, storage, depth)
      invariant Grouped(IndexContents(keysByID, storage, depth), old(Contents(keys[..i], region, depth)))
    {
      var key := keys[i];
      ghost var seen, content := Contents(keys[..i], region, depth), KeyContent(key, Content(key.key, region, depth));
      ContentsOfNext(keys, i, region, depth);
      GroupedStep(IndexContents(keysByID, storage, depth), seen, content);
      if key.keyID == "" || key.key.NilHandle? {
        continue;
      }
      if key.use != "" && key.use != KEY_USE_SIGNATURE {
        continue;
      }
      keysByID, storage := AddCopy(keysByID, storage, key, region, depth);
    }
    assert keys[..|keys|] == keys;
  }

  /** `jwksResolver`: private copies of the usable keys, grouped by kid. */
  class KeySetSnapshot {
    var keysByID: map<string, seq<KeyHandle>>
    ghost var storage: set<object>
    ghost var depth: nat

    ghost predicate Valid()
      reads this, storage
    {
      this !in storage && IndexWithin(keysByID, storage, depth)
    }

    ghost function Snapshot(): map<string, seq<JSONWebKey>>
      requires Valid()
      reads this, storage
    {
      IndexContents(keysByID, storage, depth)
    }

    constructor (keys: seq<KeyHandle>, ghost region: set<object>, ghost depth: nat)
      requires AllWithin(keys, region, depth)
      ensures Valid() && fresh(storage) && this.depth == depth
      ensures Grouped(Snapshot(), old(Contents(keys, region, depth)))
    {
      var index, owned := CopyUsable(keys, region, depth);
      keysByID, storage, this.depth := index, owned, depth;
    }

    /** The candidates `Resolve` looks at for a kid. */
    method Candidates(keyID: string) returns (candidates: seq<KeyHandle>)
      requires Valid()
      ensures AllWithin(candidates, storage, depth)
      ensures Contents(candidates, storage, depth) == CandidatesIn(Snapshot(), keyID)
    {
      return CandidatesIn(keysByID, keyID);
    }
  }

  method CandidatesAfter(snapshot: KeySetSnapshot, ghost region: set<object>, writes: seq<CallerWrite>, keyID: string)
    returns (candidates: seq<KeyHandle>)
    requires snapshot.Valid() && snapshot !in region && snapshot.storage !! region
    requires forall w | w in writes :: w.Target() in region
    modifies region
    ensures AllWithin(candidates, snapshot.storage, snapshot.depth)
    ensures Contents(candidates, snapshot.storage, snapshot.depth) == CandidatesIn(old(snapshot.Snapshot()), keyID)
  {
    PerformWrites(writes, region);
    candidates := snapshot.Candidates(keyID);
  }

  /** Whatever the caller later writes to the slices and JWKs of the set it passed in, the candidates for a kid are
      those of the set as it was at construction, and so is every resolution, which looks at nothing else. */
  method KeySetIsolation(keys: seq<KeyHandle>, ghost region: set<object>, ghost depth: nat, keyID: string,
                         before: seq<CallerWrite>, between: seq<CallerWrite>)
    returns (first: seq<KeyHandle>, second: seq<KeyHandle>, ghost storage: set<object>)
    requires AllWithin(keys, region, depth)
    requires forall w | w in before :: w.Target() in region
    requires forall w | w in between :: w.Target() in region
    modifies region
    ensures fresh(storage)
    ensures AllWithin(first, storage, depth) && AllWithin(second, storage, depth)
    ensures Contents(first, storage, depth) == Contents(second, storage, depth)
         == Group(old(Contents(keys, region, depth)), keyID)
    ensures FreeOfNilPointers(old(Contents(keys, region, depth)))
        ==> Contents(first, storage, depth) == Selected(old(Contents(keys, region, depth)), keyID)
  {
    if FreeOfNilPointers(Contents(keys, region, depth)) {
      GroupIsSelected(Contents(keys, region, depth), keyID);
    }
    var snapshot := new KeySetSnapshot(keys, region, depth);
    storage := snapshot.storage;
    CandidatesAreTheGroup(snapshot.Snapshot(), old(Contents(keys, region, depth)), keyID);
    assert snapshot !in region && storage !! region;
    first := CandidatesAfter(snapshot, region, before, keyID);
    second := CandidatesAfter(snapshot, region, between, keyID);
  }
}
