/** Laws of the policy language, by induction over policy trees. */
module JwsPolicyLaws {
  import opened Wrappers
  import opened Errors
  import opened Text
  import opened JwsHeader
  import opened JwsPolicy

  /* ---- shape of a tree ---- */

  predicate CustomFree(p: Policy) {
    match p
    case AllOf(policies) => forall i :: 0 <= i < |policies| ==> CustomFree(policies[i])
    case Func(_) => false
    case Foreign(_) => false
    case _ => true
  }

  predicate MentionsAllSignatures(p: Policy) {
    match p
    case AllSignatures => true
    case AllOf(policies) => exists i :: 0 <= i < |policies| && MentionsAllSignatures(policies[i])
    case _ => false
  }

  /** The tree with its `AllOf` nodes flattened away, in evaluation order. */
  function Leaves(p: Policy): seq<Policy>
    decreases p, 1
  {
    match p
    case AllOf(policies) => LeavesOfAll(policies)
    case _ => [p]
  }

  function LeavesOfAll(policies: seq<Policy>): seq<Policy>
    decreases policies, 0
  {
    if policies == [] then [] else Leaves(policies[0]) + LeavesOfAll(policies[1..])
  }

  lemma {:induction false} NestedAcceptance(policies: seq<Policy>, results: Results)
    requires NoNil(policies)
    ensures NestedEvaluation(policies, results).None? <==> AllAccept(policies, results)
  {
    if policies != [] {
      NestedAcceptance(policies[1..], results);
      assert forall i :: 1 <= i < |policies| ==> policies[i] == policies[1..][i - 1];
    }
  }

  /* ---- the set of results decides ---- */

  /** Without application code in the tree, acceptance depends on nothing but which results occur:
      neither their order nor how often one is repeated can matter. */
  lemma {:induction false} AcceptanceDependsOnResultSet(p: Policy, a: Results, b: Results)
    requires !p.Nil? && CustomFree(p)
    requires forall r :: r in a <==> r in b
    ensures Accepts(p, a) <==> Accepts(p, b)
    decreases p
  {
    assert ValidIDs(a) == ValidIDs(b);
    match p
    case AllSignatures =>
      AllSignaturesAccepts(a);
      AllSignaturesAccepts(b);
      if a != [] {
        assert a[0] in b;
      }
      if b != [] {
        assert b[0] in a;
      }
    case AllOf(policies) =>
      if Validation(p).None? {
        ValidListHasNoNil(policies);
        NestedAcceptance(policies, a);
        NestedAcceptance(policies, b);
        forall i | 0 <= i < |policies|
          ensures Accepts(policies[i], a) <==> Accepts(policies[i], b)
        {
          AcceptanceDependsOnResultSet(policies[i], a, b);
        }
      }
    case _ =>
  }

  lemma AllSignaturesAccepts(results: Results)
    ensures Accepts(AllSignatures, results) <==> results != [] && forall r | r in results :: r.Valid()
  {
    var i := FirstInvalid(results);
    if i < |results| {
      assert results[i] in results;
    }
  }

  lemma {:induction false} AcceptanceIsPermutationInvariant(p: Policy, a: Results, b: Results)
    requires !p.Nil? && CustomFree(p)
    requires multiset(a) == multiset(b)
    ensures Accepts(p, a) <==> Accepts(p, b)
  {
    forall r
      ensures r in a <==> r in b
    {
      assert r in a <==> r in multiset(a);
      assert r in b <==> r in multiset(b);
    }
    AcceptanceDependsOnResultSet(p, a, b);
  }

  /** A signature added to an accepted message keeps it accepted, except that an all-signatures leaf
      anywhere in the tree turns an invalid addition into a rejection. */
  lemma {:induction false} AcceptanceIsMonotoneExactly(p: Policy, results: Results, more: Results)
    requires !p.Nil? && CustomFree(p)
    requires Accepts(p, results)
    ensures Accepts(p, results + more)
       <==> (MentionsAllSignatures(p) ==> forall r | r in more :: r.Valid())
    decreases p
  {
    assert forall r :: r in results + more <==> r in results || r in more;
    assert ValidIDs(results + more) == ValidIDs(results) + ValidIDs(more);
    match p
    case AllSignatures =>
      AllSignaturesAccepts(results);
      AllSignaturesAccepts(results + more);
    case Threshold(_, keyIDs) =>
      CountOfPart(IDs(keyIDs) * ValidIDs(results), IDs(keyIDs) * ValidIDs(results + more));
    case AllOf(policies) =>
      ValidListHasNoNil(policies);
      NestedAcceptance(policies, results);
      NestedAcceptance(policies, results + more);
      forall i | 0 <= i < |policies|
        ensures Accepts(policies[i], results + more)
           <==> (MentionsAllSignatures(policies[i]) ==> forall r | r in more :: r.Valid())
      {
        AcceptanceIsMonotoneExactly(policies[i], results, more);
      }
    case _ =>
  }

  /* ---- constructor-time validation is enough ---- */

  /** `Evaluate` with every nested `validate` call dropped. */
  function UncheckedEvaluation(p: Policy, results: Results): Option<Error>
    requires !p.Nil?
    decreases p, 1
  {
    match p
    case Threshold(minimum, keyIDs) => RejectUnless(|IDs(keyIDs) * ValidIDs(results)| >= minimum)
    case AllOf(policies) => UncheckedNested(policies, results)
    case _ => Evaluation(p, results)
  }

  function UncheckedNested(policies: seq<Policy>, results: Results): Option<Error>
    decreases policies, 0
  {
    if policies == [] then None
    else if policies[0].Nil? then Some(Plain)
    else match UncheckedEvaluation(policies[0], results)
      case Some(e) => Some(Context(e))
      case None => UncheckedNested(policies[1..], results)
  }

  /** Once the constructor validated a tree, the validation repeated by every `Evaluate` never decides anything. */
  lemma {:induction false} ValidatedTreesNeedNoRecheck(p: Policy, results: Results)
    requires !p.Nil? && Validation(p).None?
    ensures Evaluation(p, results) == UncheckedEvaluation(p, results)
    decreases p, 1
  {
    if p.AllOf? {
      ValidListHasNoNil(p.policies);
      ValidatedListsNeedNoRecheck(p.policies, results);
    }
  }

  lemma {:induction false} ValidatedListsNeedNoRecheck(policies: seq<Policy>, results: Results)
    requires NestedValidation(policies).None? && NoNil(policies)
    ensures NestedEvaluation(policies, results) == UncheckedNested(policies, results)
    decreases policies, 0
  {
    if policies != [] {
      ValidatedTreesNeedNoRecheck(policies[0], results);
      ValidatedListsNeedNoRecheck(policies[1..], results);
    }
  }

  predicate SoundLeaf(leaf: Policy) {
    && !leaf.Nil? && !leaf.AllOf? && Validation(leaf).None?
    && (leaf.RequiredKeyIDs? ==> leaf.keyIDs != [])
    && (leaf.Threshold? ==> 0 < leaf.minimum <= |IDs(leaf.keyIDs)|)
  }

  lemma {:induction false} DistinctCount(keyIDs: seq<string>)
    requires Distinct(keyIDs)
    ensures |IDs(keyIDs)| == |keyIDs|
  {
    if keyIDs == [] {
      assert IDs(keyIDs) == {};
    } else {
      DistinctCount(keyIDs[1..]);
      assert keyIDs == [keyIDs[0]] + keyIDs[1..];
      assert IDs(keyIDs) == {keyIDs[0]} + IDs(keyIDs[1..]);
      assert keyIDs[0] !in keyIDs[1..];
    }
  }

  /** A validated tree is non-empty and hides no nil, vacuous or unsatisfiable leaf at any depth. */
  lemma {:induction false} ValidatedLeavesAreSound(p: Policy)
    requires !p.Nil? && Validation(p).None?
    ensures Leaves(p) != []
    ensures forall i :: 0 <= i < |Leaves(p)| ==> SoundLeaf(Leaves(p)[i])
    decreases p, 1
  {
    match p
    case AllOf(policies) => ValidatedLeavesOfAllAreSound(policies);
    case Threshold(_, keyIDs) => DistinctCount(keyIDs);
    case _ =>
  }

  lemma {:induction false} ValidatedLeavesOfAllAreSound(policies: seq<Policy>)
    requires NestedValidation(policies).None?
    ensures policies != [] ==> LeavesOfAll(policies) != []
    ensures forall i :: 0 <= i < |LeavesOfAll(policies)| ==> SoundLeaf(LeavesOfAll(policies)[i])
    decreases policies, 0
  {
    if policies != [] {
      ValidatedLeavesAreSound(policies[0]);
      ValidatedLeavesOfAllAreSound(policies[1..]);
    }
  }

  /* ---- flattening, and where a rejection comes from ---- */

  predicate AllAccept(policies: seq<Policy>, results: Results)
    requires NoNil(policies)
  {
    forall i :: 0 <= i < |policies| ==> Accepts(policies[i], results)
  }

  /** The leftmost leaf that rejects, if any. */
  function FirstRejecting(leaves: seq<Policy>, results: Results): (leaf: Option<Policy>)
    requires NoNil(leaves)
    ensures leaf.None? <==> AllAccept(leaves, results)
    ensures leaf.Some? ==> !leaf.value.Nil? && !Accepts(leaf.value, results)
  {
    if leaves == [] then None
    else if !Accepts(leaves[0], results) then Some(leaves[0])
    else
      assert forall i :: 1 <= i < |leaves| ==> leaves[i] == leaves[1..][i - 1];
      FirstRejecting(leaves[1..], results)
  }

  lemma {:induction false} FirstRejectingOfConcat(a: seq<Policy>, b: seq<Policy>, results: Results)
    requires NoNil(a) && NoNil(b)
    ensures NoNil(a + b)
    ensures FirstRejecting(a + b, results)
         == if FirstRejecting(a, results).Some? then FirstRejecting(a, results) else FirstRejecting(b, results)
  {
    if a == [] {
      assert a + b == b;
    } else {
      assert (a + b)[1..] == a[1..] + b;
      FirstRejectingOfConcat(a[1..], b, results);
    }
  }

  /** `err` is the error of the leftmost rejecting leaf, possibly under more context: it reaches the same sentinels. */
  ghost predicate ComesFrom(err: Option<Error>, leaf: Option<Policy>, results: Results)
    requires leaf.Some? ==> !leaf.value.Nil? && !Accepts(leaf.value, results)
  {
    && (err.None? <==> leaf.None?)
    && (err.Some? ==> SameSentinels(err.value, Evaluation(leaf.value, results).value))
  }

  /** A validated tree, however deep, behaves as the flat list of its leaves: it accepts iff every leaf accepts,
      and it rejects with the sentinels of the leftmost rejecting leaf, no more and no fewer. */
  lemma {:induction false} TreeActsAsItsLeaves(p: Policy, results: Results)
    requires !p.Nil? && Validation(p).None?
    ensures NoNil(Leaves(p))
    ensures ComesFrom(Evaluation(p, results), FirstRejecting(Leaves(p), results), results)
    decreases p, 1
  {
    if p.AllOf? {
      ValidListHasNoNil(p.policies);
      ListActsAsItsLeaves(p.policies, results);
    }
  }

  lemma {:induction false} ListActsAsItsLeaves(policies: seq<Policy>, results: Results)
    requires NestedValidation(policies).None? && NoNil(policies)
    ensures NoNil(LeavesOfAll(policies))
    ensures ComesFrom(NestedEvaluation(policies, results), FirstRejecting(LeavesOfAll(policies), results), results)
    decreases policies, 0
  {
    if policies != [] {
      TreeActsAsItsLeaves(policies[0], results);
      ListActsAsItsLeaves(policies[1..], results);
      FirstRejectingOfConcat(Leaves(policies[0]), LeavesOfAll(policies[1..]), results);
    }
  }

  /** Acceptance of a validated tree is acceptance by all leaves of the flattened tree. */
  lemma {:induction false} FlattenedAcceptance(p: Policy, results: Results)
    requires !p.Nil? && Validation(p).None?
    ensures NoNil(Leaves(p))
    ensures Accepts(p, results) <==> AllAccept(Leaves(p), results)
  {
    TreeActsAsItsLeaves(p, results);
  }

  /** When the leftmost rejecting leaf is all-signatures, the cause recorded for the first invalid signature
      stays reachable at every `AllOf` depth. */
  lemma {:induction false} InvalidSignatureStaysReachable(p: Policy, results: Results, s: Sentinel)
    requires !p.Nil? && Validation(p).None? && results != []
    requires NoNil(Leaves(p))
    requires FirstRejecting(Leaves(p), results).Some? && FirstRejecting(Leaves(p), results).value.AllSignatures?
    ensures FirstInvalid(results) < |results|
    ensures Evaluation(p, results).Some?
    ensures Is(Evaluation(p, results).value, s) <==> Is(results[FirstInvalid(results)].err.value, s)
  {
    TreeActsAsItsLeaves(p, results);
  }

  /* ---- thresholds ---- */

  /** Identities of the allowlist that the results approve. */
  function Approved(keyIDs: seq<string>, results: Results): set<string> {
    IDs(keyIDs) * ValidIDs(results)
  }

  lemma {:induction false} Pigeonhole<T>(a: set<T>, b: set<T>, whole: set<T>)
    requires a <= whole && b <= whole && |a| + |b| > |whole|
    ensures exists x :: x in a && x in b
  {
    CountOfPart(a + b, whole);
    assert |a + b| == |a| + |b| - |a * b|;
    var x :| x in a * b;
  }

  /** Two quorums over overlapping allowlists share a listed identity. */
  lemma {:induction false} QuorumsIntersect(m: int, ids: seq<string>, a: Results, n: int, ids': seq<string>, b: Results)
    requires AcceptableThreshold(m, ids) && AcceptableThreshold(n, ids')
    requires m + n > |IDs(ids) + IDs(ids')|
    requires Accepts(Threshold(m, ids), a) && Accepts(Threshold(n, ids'), b)
    ensures exists id :: id in IDs(ids) * IDs(ids') && id in ValidIDs(a) && id in ValidIDs(b)
  {
    Pigeonhole(Approved(ids, a), Approved(ids', b), IDs(ids) + IDs(ids'));
    var id :| id in Approved(ids, a) && id in Approved(ids', b);
    assert id in IDs(ids) * IDs(ids') && id in ValidIDs(a) && id in ValidIDs(b);
  }

  /** One valid signature for each of the given identities. */
  function SignedBy(ids: seq<string>): (results: Results) {
    seq(|ids|, i requires 0 <= i < |ids| => SignatureResult(i, ids[i], NO_HEADER, None))
  }

  lemma ValidIDsOfSignedBy(ids: seq<string>)
    requires "" !in ids
    ensures ValidIDs(SignedBy(ids)) == IDs(ids)
  {
    forall id | id in IDs(ids)
      ensures id in ValidIDs(SignedBy(ids))
    {
      var i :| 0 <= i < |ids| && ids[i] == id;
      assert SignedBy(ids)[i] in SignedBy(ids);
    }
  }

  lemma QuorumOfPart(m: int, ids: seq<string>, part: seq<string>)
    requires AcceptableThreshold(m, ids)
    requires Distinct(part) && |part| == m && forall id | id in part :: id in ids
    ensures Accepts(Threshold(m, ids), SignedBy(part))
    ensures ValidIDs(SignedBy(part)) == IDs(part)
  {
    ValidIDsOfSignedBy(part);
    DistinctCount(part);
    assert IDs(ids) * IDs(part) == IDs(part);
  }

  predicate Share(a: Results, b: Results) {
    ValidIDs(a) * ValidIDs(b) != {}
  }

  lemma {:induction false} PartOfSize(whole: set<string>, k: nat) returns (part: set<string>)
    requires k <= |whole|
    ensures part <= whole && |part| == k
  {
    part := {};
    if k > 0 {
      var x :| x in whole;
      var rest := PartOfSize(whole - {x}, k - 1);
      part := rest + {x};
    }
  }

  lemma {:induction false} Listed(s: set<string>) returns (listing: seq<string>)
    ensures Distinct(listing) && |listing| == |s| && IDs(listing) == s
  {
    listing := [];
    if s != {} {
      var x :| x in s;
      var rest := Listed(s - {x});
      assert forall y :: y in rest <==> y in IDs(rest);
      listing := rest + [x];
    }
  }

  /** Disjoint parts of two sets, of the given sizes: the first avoids the second set as long as it can. */
  lemma DisjointParts(a: set<string>, m: nat, b: set<string>, n: nat) returns (x: set<string>, y: set<string>)
    requires m <= |a| && n <= |b| && m + n <= |a + b|
    ensures x <= a && |x| == m && y <= b && |y| == n && x !! y
  {
    var own, shared := a - b, a * b;
    assert a == own + shared && a + b == own + b;
    if m <= |own| {
      x := PartOfSize(own, m);
      y := PartOfSize(b, n);
    } else {
      var more := PartOfSize(shared, m - |own|);
      x := own + more;
      assert |b - more| == |b| - |more|;
      y := PartOfSize(b - more, n);
    }
  }

  /** Two thresholds always force a common signer exactly when their minimums add up to more than the number of
      identities in both allowlists together. */
  lemma QuorumsIntersectExactly(m: int, ids: seq<string>, n: int, ids': seq<string>)
    requires AcceptableThreshold(m, ids) && AcceptableThreshold(n, ids')
    ensures (forall a, b :: Accepts(Threshold(m, ids), a) && Accepts(Threshold(n, ids'), b) ==> Share(a, b))
       <==> m + n > |IDs(ids) + IDs(ids')|
  {
    if m + n > |IDs(ids) + IDs(ids')| {
      forall a, b | Accepts(Threshold(m, ids), a) && Accepts(Threshold(n, ids'), b)
        ensures Share(a, b)
      {
        QuorumsIntersect(m, ids, a, n, ids', b);
        var id :| id in ValidIDs(a) && id in ValidIDs(b);
        assert id in ValidIDs(a) * ValidIDs(b);
      }
    } else {
      DistinctCount(ids);
      DistinctCount(ids');
      var x, y := DisjointParts(IDs(ids), m, IDs(ids'), n);
      var left := Listed(x);
      var right := Listed(y);
      assert forall id | id in left :: id in IDs(left);
      assert forall id | id in right :: id in IDs(right);
      QuorumOfPart(m, ids, left);
      QuorumOfPart(n, ids', right);
      assert !Share(SignedBy(left), SignedBy(right));
    }
  }

  /* ---- when exactly each policy accepts, over positions ---- */

  /** A valid result with this identity. */
  ghost predicate Vouched(id: string, results: Results) {
    id != "" && exists j :: 0 <= j < |results| && results[j].err.None? && results[j].keyID == id
  }

  /** The identity leaves accept exactly when the valid signatures they ask for are there. */
  lemma IdentityLeavesAcceptExactly(keyIDs: seq<string>, results: Results)
    ensures Accepts(AnySignature, results) <==> exists j :: 0 <= j < |results| && results[j].err.None?
    ensures Accepts(RequiredKeyIDs(keyIDs), results) <==> forall i :: 0 <= i < |keyIDs| ==> Vouched(keyIDs[i], results)
  {
    VouchedAreValidIDs(results);
    if Accepts(AnySignature, results) {
      var r :| r in results && r.Valid();
      var j :| 0 <= j < |results| && results[j] == r;
    }
    if j :| 0 <= j < |results| && results[j].err.None? {
      assert results[j] in results && results[j].Valid();
    }
    assert forall i :: 0 <= i < |keyIDs| ==> keyIDs[i] in IDs(keyIDs);
  }

  lemma VouchedAreValidIDs(results: Results)
    ensures forall id :: Vouched(id, results) <==> id in ValidIDs(results)
  {
    forall id
      ensures Vouched(id, results) <==> id in ValidIDs(results)
    {
      if j :| 0 <= j < |results| && results[j].err.None? && results[j].keyID == id {
        assert results[j] in results;
      }
    }
  }

  /** So many different listed identities, each vouched for. */
  ghost predicate Quorum(chosen: seq<string>, keyIDs: seq<string>, results: Results) {
    && (forall i, j :: 0 <= i < j < |chosen| ==> chosen[i] != chosen[j])
    && (forall i :: 0 <= i < |chosen| ==> chosen[i] in keyIDs && Vouched(chosen[i], results))
  }

  /** A threshold accepts exactly when it is satisfiable at all and a quorum of its size can be named. */
  lemma ThresholdAcceptsExactly(minimum: int, keyIDs: seq<string>, results: Results)
    ensures Accepts(Threshold(minimum, keyIDs), results)
       <==> ProperPolicy(Threshold(minimum, keyIDs))
            && exists chosen :: |chosen| == minimum && Quorum(chosen, keyIDs, results)
  {
    ValidationIsExact(Threshold(minimum, keyIDs));
    VouchedAreValidIDs(results);
    var approved := Approved(keyIDs, results);
    if ProperPolicy(Threshold(minimum, keyIDs)) {
      if |approved| >= minimum {
        var part := PartOfSize(approved, minimum);
        var chosen := Listed(part);
        assert forall i :: 0 <= i < |chosen| ==> chosen[i] in IDs(chosen);
        assert Quorum(chosen, keyIDs, results);
      }
      if chosen :| |chosen| == minimum && Quorum(chosen, keyIDs, results) {
        DistinctCount(chosen);
        CountOfPart(IDs(chosen), approved);
      }
    }
  }

  /** Application code decides for itself, on exactly the results. A nil function, an empty or improper list and an
      improper threshold never accept, validated or not, and tell the caller nothing. */
  lemma ApplicationAndImproperPolicies(p: Policy, results: Results)
    requires !p.Nil?
    ensures p.Foreign? ==> Evaluation(p, results) == p.evaluate(results)
    ensures p.Func? && p.fn.Some? ==> Evaluation(p, results) == p.fn.value(results)
    ensures !ProperPolicy(p) && !p.RequiredKeyIDs?
        ==> Evaluation(p, results).Some? && ReachesNothing(Evaluation(p, results).value)
  {
    ValidationIsExact(p);
  }

  /** What a rejection by a leaf tells the caller: nothing, except that all-signatures passes on the first invalid
      result's error and an application's policy its own. */
  lemma LeafRejection(leaf: Policy, results: Results)
    requires !leaf.Nil? && !leaf.AllOf? && !Accepts(leaf, results)
    ensures var e := Evaluation(leaf, results).value;
            match leaf
            case AllSignatures =>
              if results == [] then ReachesNothing(e)
              else exists i :: 0 <= i < |results| && results[i].err.Some? && SameSentinels(e, results[i].err.value)
                     && forall k :: 0 <= k < i ==> results[k].err.None?
            case Func(_) => if leaf.fn.None? then ReachesNothing(e) else leaf.fn.value(results) == Some(e)
            case Foreign(_) => leaf.evaluate(results) == Some(e)
            case _ => ReachesNothing(e)
  {
    if leaf.AllSignatures? && results != [] {
      var i := FirstInvalid(results);
      assert results[i].err.Some? && forall k :: 0 <= k < i ==> results[k].Valid();
    }
  }

  /* ---- what validation asks for ---- */

  predicate ProperKeyIDs(keyIDs: seq<string>) {
    && |keyIDs| > 0
    && (forall i :: 0 <= i < |keyIDs| ==> 0 < |keyIDs[i]| <= 256 && ValidUTF8(keyIDs[i]))
    && (forall i, j :: 0 <= i < j < |keyIDs| ==> keyIDs[i] != keyIDs[j])
  }

  /** No nil member, no empty list of members or identities, no repetition, no threshold out of range, at any depth. */
  predicate ProperPolicy(p: Policy) {
    match p
    case Nil => false
    case RequiredKeyIDs(keyIDs) => ProperKeyIDs(keyIDs)
    case Threshold(minimum, keyIDs) => ProperKeyIDs(keyIDs) && 1 <= minimum <= |keyIDs|
    case AllOf(policies) => |policies| > 0 && forall i :: 0 <= i < |policies| ==> ProperPolicy(policies[i])
    case Func(fn) => fn.Some?
    case _ => true
  }

  /** Validation accepts exactly the proper trees, and its error reaches no sentinel. */
  lemma {:induction false} ValidationIsExact(p: Policy)
    requires !p.Nil?
    ensures Validation(p).None? <==> ProperPolicy(p)
    ensures Validation(p).Some? ==> ReachesNothing(Validation(p).value)
    decreases p, 1
  {
    match p
    case RequiredKeyIDs(keyIDs) => ProperMeansAcceptable(keyIDs);
    case Threshold(_, keyIDs) => ProperMeansAcceptable(keyIDs);
    case AllOf(policies) => NestedValidationIsExact(policies);
    case _ =>
  }

  lemma ProperMeansAcceptable(keyIDs: seq<string>)
    ensures ProperKeyIDs(keyIDs) <==> AcceptableKeyIDs(keyIDs)
  {
    if AcceptableKeyIDs(keyIDs) {
      assert forall i :: 0 <= i < |keyIDs| ==> keyIDs[i] in keyIDs;
    }
  }

  lemma {:induction false} NestedValidationIsExact(policies: seq<Policy>)
    ensures NestedValidation(policies).None? <==> forall i :: 0 <= i < |policies| ==> ProperPolicy(policies[i])
    ensures NestedValidation(policies).Some? ==> ReachesNothing(NestedValidation(policies).value)
    decreases policies, 0
  {
    if policies != [] {
      if !policies[0].Nil? {
        ValidationIsExact(policies[0]);
      }
      NestedValidationIsExact(policies[1..]);
      assert forall i :: 1 <= i < |policies| ==> policies[i] == policies[1..][i - 1];
    }
  }
}
