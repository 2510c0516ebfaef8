/** Properties of whole verification runs. */
module JwsVerifierLaws {
  import opened Wrappers
  import opened Errors
  import opened Jose
  import opened JwsHeader
  import opened JwsPolicy
  import opened JwsPolicyLaws
  import opened JwsOptions
  import opened JwsVerifier

  /* ---- one signature ---- */

  predicate HeaderAllowed(s: Settings, source: JoseHeader) {
    && Supported(source)
    && ValidateHeaderPolicy(s.typ, s.cty, ParseProtectedHeader(source).value).None?
  }

  /** A signature is valid exactly when every stage passes, aborts exactly on cancellation, resolver failure or a
      nil key, and anything else stays local to it. A valid one carries the resolver's identity. */
  lemma {:induction false} OutcomeMeaning(env: Environment, s: Settings, message: Message, index: nat)
    requires index < |message.signatures|
    ensures var o, entry := OutcomeOf(env, s, message, index), message.signatures[index];
            var header := ParseProtectedHeader(entry.protectedHeader);
            var reached := env.interrupted(index).None? && HeaderAllowed(s, entry.protectedHeader);
            && (o.Decided? ==> o.result.index == index)
            && (o.Aborted? <==>
                  || env.interrupted(index).Some?
                  || (reached && match env.resolve(header.value)
                                 case Failure(e) => !Is(e, JwsKeyNotFound)
                                 case Success(resolved) => resolved.key.NilKey?))
            && (o.IsValid() <==> reached && match env.resolve(header.value)
                                 case Failure(_) => false
                                 case Success(resolved) =>
                                   !resolved.key.NilKey? && env.check(resolved.key, entry, message.payload).None?)
            && (o.IsValid() ==> o.result.keyID == env.resolve(header.value).value.keyID
                                && o.result.header == header.value)
  {
    ParseAcceptsExactlySupported(message.signatures[index].protectedHeader);
  }

  /** The stages a signature passes before its key is looked for, and what stops it there. */
  predicate ReachesResolver(env: Environment, s: Settings, message: Message, index: nat)
    requires index < |message.signatures|
  {
    env.interrupted(index).None? && HeaderAllowed(s, message.signatures[index].protectedHeader)
  }

  /** With which error a signature aborts the run: the caller finds what it would find in the context's error, in the
      resolver's own error, or a verification error for a nil key. */
  lemma {:induction false} AbortErrorMeaning(env: Environment, s: Settings, message: Message, index: nat)
    requires index < |message.signatures|
    requires OutcomeOf(env, s, message, index).Aborted?
    ensures var e := OutcomeOf(env, s, message, index).error;
            if env.interrupted(index).Some? then e == env.interrupted(index).value
            else
              && ReachesResolver(env, s, message, index)
              && match env.resolve(AsRead(message.signatures[index].protectedHeader))
                 case Failure(cause) => SameSentinels(e, cause)
                 case Success(_) => ReachesExactly(e, JwsVerify)
  {
    ParseAcceptsExactlySupported(message.signatures[index].protectedHeader);
  }

  /** What a result records: the header once it parses, the resolver's identity once a key is found, and the sentinels
      of the stage that failed. */
  lemma {:induction false} ResultMeaning(env: Environment, s: Settings, message: Message, index: nat)
    requires index < |message.signatures|
    requires OutcomeOf(env, s, message, index).Decided?
    ensures var r, source := OutcomeOf(env, s, message, index).result, message.signatures[index].protectedHeader;
            && r.index == index
            && (!Supported(source) ==> r.header == NO_HEADER && r.keyID == "" && r.err.Some?
                                       && ReachesExactly(r.err.value, JwsMalformedToken))
            && (Supported(source) ==> r.header == AsRead(source))
            && (Supported(source) && !HeaderAllowed(s, source) ==>
                  r.keyID == "" && r.err.Some?
                  && ReachesExactly(r.err.value, if s.typ != "" && r.header.typ != s.typ then JwsUnexpectedType
                                                 else JwsUnexpectedContentType))
            && (HeaderAllowed(s, source) ==> match env.resolve(AsRead(source))
                  case Failure(cause) => r.keyID == "" && r.err.Some? && SameSentinels(r.err.value, cause)
                  case Success(resolved) =>
                    && r.keyID == resolved.keyID
                    && match env.check(resolved.key, message.signatures[index], message.payload)
                       case None => r.err.None?
                       case Some(cause) => r.err.Some? && ReachesAlso(r.err.value, JwsVerify, cause))
  {
    ParseAcceptsExactlySupported(message.signatures[index].protectedHeader);
  }

  /* ---- early stop ---- */

  /** Stopping at the first valid signature returns exactly the prefix of the full scan that ends there. It accepts
      whenever the full scan does, and the full scan accepts too exactly when no signature aborts it later. */
  lemma EarlyStopRefinesFullScan(outcomes: seq<Outcome>)
    ensures var full, early := RunOver(outcomes, AnySignature, false), RunOver(outcomes, AnySignature, true);
            var first := FirstValid(outcomes);
            && (full.Success? ==> early.Success? && early.value == full.value[..first + 1])
            && (early.Success? ==> |early.value| == first + 1 && early.value[first].Valid())
            && (early.Success? ==> forall i :: 0 <= i < first ==> !early.value[i].Valid())
            && (early.Success? ==> (full.Success? <==> FirstAborted(outcomes) == |outcomes|))
  {
    FullScanAccepts(outcomes);
    EarlyStopAccepts(outcomes);
  }

  lemma FullScanAccepts(outcomes: seq<Outcome>)
    ensures var full := RunOver(outcomes, AnySignature, false);
            && (full.Success? <==> FirstAborted(outcomes) == |outcomes| && FirstValid(outcomes) < |outcomes|)
            && (full.Success? ==> full.value == ResultsOf(outcomes, |outcomes|))
  {
    if FirstAborted(outcomes) == |outcomes| {
      ValidResultSeen(outcomes, |outcomes|);
    }
  }

  lemma EarlyStopAccepts(outcomes: seq<Outcome>)
    ensures var early, first := RunOver(outcomes, AnySignature, true), FirstValid(outcomes);
            && (early.Success? <==> first < FirstAborted(outcomes))
            && (early.Success? ==> early.value == ResultsOf(outcomes, first + 1))
  {
    var extent := Extent(outcomes, true);
    if extent <= FirstAborted(outcomes) {
      ValidResultSeen(outcomes, extent);
    }
  }

  /* ---- whole runs ---- */

  /** The limits are looked at first and nothing else then matters: no signature, too many of them, or a payload that is
      too large. */
  lemma LimitsDecideFirst(env: Environment, s: Settings, message: Message)
    requires !s.policy.Nil?
    ensures var r, n := MultiVerification(env, s, message), |message.signatures|;
            && (n == 0 ==> r.Failure? && ReachesExactly(r.error, JwsMalformedToken))
            && (n > 0 && n > s.maxSignatures ==> r.Failure? && ReachesExactly(r.error, JwsTooManySignatures))
            && (0 < n <= s.maxSignatures && |message.payload| > s.maxPayloadSize ==>
                  r.Failure? && ReachesExactly(r.error, JwsPayloadTooLarge))
    ensures WithinLimits(s, message).None?
       <==> 0 < |message.signatures| <= s.maxSignatures && |message.payload| <= s.maxPayloadSize
  {
  }

  /** One result for each signature, in order. */
  ghost predicate InOrder(results: Results, outcomes: seq<Outcome>) {
    && |results| == |outcomes|
    && forall i :: 0 <= i < |results| ==> outcomes[i] == Decided(results[i]) && results[i].index == i
  }

  /** Without the early stop, the lowest aborting signature decides the error; otherwise the policy is given one
      result for each signature, in order, and the verdict is its verdict. */
  lemma FullRunCharacterisation(env: Environment, s: Settings, message: Message) returns (results: Results)
    requires !s.policy.Nil? && !s.policy.AnySignature?
    requires WithinLimits(s, message).None?
    ensures var r, outcomes := MultiVerification(env, s, message), Outcomes(env, s, message);
            var lowest := FirstAborted(outcomes);
            if exists i :: 0 <= i < |outcomes| && outcomes[i].Aborted?
            then lowest < |outcomes| && r == Failure(outcomes[lowest].error)
            else
              && InOrder(results, outcomes)
              && (r.Success? <==> (exists x | x in results :: x.Valid()) && Accepts(s.policy, results))
              && (r.Success? ==> r.value == MultiVerified(message.payload, results))
              && (r.Failure? ==>
                    if exists x | x in results :: x.Valid()
                    then ReachesAlso(r.error, JwsVerificationPolicy, Evaluation(s.policy, results).value)
                    else ReachesExactly(r.error, JwsVerificationPolicy))
  {
    var outcomes := Outcomes(env, s, message);
    results := [];
    if FirstAborted(outcomes) == |outcomes| {
      results := ResultsOf(outcomes, |outcomes|);
      forall i | 0 <= i < |results|
        ensures outcomes[i] == Decided(results[i]) && results[i].index == i
      {
        OutcomeMeaning(env, s, message, i);
      }
    }
  }

  /** No policy, not even one that accepts everything, lets a message through without a valid signature. */
  lemma AcceptanceNeedsAValidSignature(env: Environment, s: Settings, message: Message)
    requires !s.policy.Nil?
    requires MultiVerification(env, s, message).Success?
    ensures var r := MultiVerification(env, s, message).value;
            && r.payload == message.payload
            && |r.signatures| <= |message.signatures|
            && (forall i :: 0 <= i < |r.signatures| ==>
                  OutcomeOf(env, s, message, i) == Decided(r.signatures[i]) && r.signatures[i].index == i)
            && exists i :: 0 <= i < |r.signatures| && OutcomeOf(env, s, message, i).IsValid()
  {
    var outcomes := Outcomes(env, s, message);
    var r := MultiVerification(env, s, message).value;
    ValidResultSeen(outcomes, |r.signatures|);
    assert outcomes[FirstValid(outcomes)].IsValid();
    forall i | 0 <= i < |r.signatures|
      ensures OutcomeOf(env, s, message, i) == Decided(r.signatures[i]) && r.signatures[i].index == i
    {
      assert outcomes[i] == Decided(r.signatures[i]);
      OutcomeMeaning(env, s, message, i);
    }
  }

  /** The results end with the first valid one under the top-level any-policy, and cover every signature under any
      other. */
  lemma ResultsCoverTheRun(env: Environment, s: Settings, message: Message)
    requires !s.policy.Nil?
    requires MultiVerification(env, s, message).Success?
    ensures var results := MultiVerification(env, s, message).value.signatures;
            if s.policy.AnySignature? then
              && results != [] && results[|results| - 1].Valid()
              && forall i :: 0 <= i < |results| - 1 ==> !results[i].Valid()
            else |results| == |message.signatures|
  {
    if s.policy.AnySignature? {
      EarlyStopRefinesFullScan(Outcomes(env, s, message));
    }
  }

  /** Signatures appended to an accepted message cannot get it rejected, as long as none of them aborts the run
      and the policy holds neither application code nor an all-signatures leaf. */
  lemma MoreSignaturesDoNotHurt(env: Environment, s: Settings, message: Message, more: seq<Entry>)
    requires !s.policy.Nil? && !s.policy.AnySignature?
    requires CustomFree(s.policy) && !MentionsAllSignatures(s.policy)
    requires MultiVerification(env, s, message).Success?
    requires var longer := message.(signatures := message.signatures + more);
             WithinLimits(s, longer).None?
             && forall i :: 0 <= i < |longer.signatures| ==> OutcomeOf(env, s, longer, i).Decided?
    ensures MultiVerification(env, s, message.(signatures := message.signatures + more)).Success?
  {
    var longer := message.(signatures := message.signatures + more);
    var short, long := Outcomes(env, s, message), Outcomes(env, s, longer);
    var n := |short|;
    forall i | 0 <= i < n
      ensures short[i] == long[i]
    {
      OutcomeIsLocal(env, s, message, longer, i);
    }
    assert FirstAborted(long) == |long|;
    var before, after := ResultsOf(short, n), ResultsOf(long, |long|);
    assert after == before + after[n..];
    AcceptanceIsMonotoneExactly(s.policy, before, after[n..]);
    ValidResultSeen(short, n);
    ValidResultSeen(long, |long|);
  }

  /** Under the top-level any-policy not even an abort can: the run never reaches what was appended. */
  lemma MoreSignaturesAreNotLookedAt(env: Environment, s: Settings, message: Message, more: seq<Entry>)
    requires s.policy.AnySignature?
    requires MultiVerification(env, s, message).Success?
    requires WithinLimits(s, message.(signatures := message.signatures + more)).None?
    ensures MultiVerification(env, s, message.(signatures := message.signatures + more))
         == MultiVerification(env, s, message)
  {
    var longer := message.(signatures := message.signatures + more);
    var short, long := Outcomes(env, s, message), Outcomes(env, s, longer);
    forall i | 0 <= i < |short|
      ensures short[i] == long[i]
    {
      OutcomeIsLocal(env, s, message, longer, i);
    }
    assert short == long[..|short|];
    EarlyRunIgnoresTheRest(short, long[|short|..]);
    assert long == short + long[|short|..];
  }

  lemma EarlyRunIgnoresTheRest(outcomes: seq<Outcome>, more: seq<Outcome>)
    requires RunOver(outcomes, AnySignature, true).Success?
    ensures RunOver(outcomes + more, AnySignature, true) == RunOver(outcomes, AnySignature, true)
  {
    var all, first := outcomes + more, FirstValid(outcomes);
    ValidResultSeen(outcomes, Extent(outcomes, true));
    assert all[first] == outcomes[first];
    assert FirstValid(all) == first && FirstAborted(all) > first;
    assert ResultsOf(all, first + 1) == ResultsOf(outcomes, first + 1);
  }

  lemma OutcomeIsLocal(env: Environment, s: Settings, a: Message, b: Message, index: nat)
    requires index < |a.signatures| && index < |b.signatures|
    requires a.payload == b.payload && a.signatures[index] == b.signatures[index]
    ensures OutcomeOf(env, s, a, index) == OutcomeOf(env, s, b, index)
  {
  }

  /* ---- what acceptance says about keys and signatures ---- */

  /** Signature `i` has an allowed header, and checks with the key the resolver assigns to it. */
  predicate GenuinelySigned(env: Environment, s: Settings, message: Message, i: nat)
    requires i < |message.signatures|
  {
    var entry := message.signatures[i];
    && HeaderAllowed(s, entry.protectedHeader)
    && var resolution := env.resolve(ParseProtectedHeader(entry.protectedHeader).value);
    && resolution.Success? && !resolution.value.key.NilKey?
    && env.check(resolution.value.key, entry, message.payload).None?
  }

  /** The identity the resolver gives the key of signature `i`. */
  function SignerOf(env: Environment, s: Settings, message: Message, i: nat): string
    requires i < |message.signatures| && GenuinelySigned(env, s, message, i)
  {
    env.resolve(ParseProtectedHeader(message.signatures[i].protectedHeader).value).value.keyID
  }

  /** The named identities that genuinely signed. */
  function Signers(env: Environment, s: Settings, message: Message): set<string> {
    set i: nat | i < |message.signatures| && GenuinelySigned(env, s, message, i)
                 && SignerOf(env, s, message, i) != "" :: SignerOf(env, s, message, i)
  }

  /** The compact verifier accepts exactly a message within its limit whose one signature is genuine, and reports its
      signer, its header and the signed payload. */
  lemma {:induction false} CompactAcceptsExactlyGenuine(env: Environment, s: Settings, message: Message)
    ensures CompactVerification(env, s, message).Success? <==>
              |message.signatures| == 1 && |message.payload| <= s.maxPayloadSize && GenuinelySigned(env, s, message, 0)
    ensures CompactVerification(env, s, message).Success? ==>
              CompactVerification(env, s, message).value == Verified(
                SignerOf(env, s, message, 0), AsRead(message.signatures[0].protectedHeader), message.payload)
  {
    if |message.signatures| == 1 {
      ParseAcceptsExactlySupported(message.signatures[0].protectedHeader);
    }
  }

  lemma AcceptedIdentitiesSigned(env: Environment, s: Settings, message: Message)
    requires !s.policy.Nil? && MultiVerification(env, s, message).Success?
    ensures ValidIDs(MultiVerification(env, s, message).value.signatures) <= Signers(env, s, message)
  {
    var results := MultiVerification(env, s, message).value.signatures;
    AcceptanceNeedsAValidSignature(env, s, message);
    forall id | id in ValidIDs(results)
      ensures id in Signers(env, s, message)
    {
      var r :| r in results && r.Valid() && r.keyID == id && id != "";
      var i: nat :| i < |results| && results[i] == r;
      OutcomeMeaning(env, s, message, i);
      assert GenuinelySigned(env, s, message, i) && SignerOf(env, s, message, i) == id;
    }
  }

  /** What a leaf of the policy tree demands of the signatures themselves. */
  predicate LeafIsSigned(leaf: Policy, env: Environment, s: Settings, message: Message) {
    match leaf
    case AnySignature => exists i: nat :: i < |message.signatures| && GenuinelySigned(env, s, message, i)
    case AllSignatures => forall i: nat :: i < |message.signatures| ==> GenuinelySigned(env, s, message, i)
    case RequiredKeyIDs(keyIDs) => IDs(keyIDs) <= Signers(env, s, message)
    case Threshold(minimum, keyIDs) => |IDs(keyIDs) * Signers(env, s, message)| >= minimum
    case _ => true
  }

  /** An accepted message genuinely carries the signatures that every leaf of its policy tree asks for, at any depth
      and whatever application code sits elsewhere in the tree. */
  lemma {:induction false} AcceptedPolicyIsSigned(env: Environment, s: Settings, message: Message, k: nat)
    requires !s.policy.Nil? && Validation(s.policy).None?
    requires MultiVerification(env, s, message).Success?
    requires k < |Leaves(s.policy)|
    ensures LeafIsSigned(Leaves(s.policy)[k], env, s, message)
  {
    var results := MultiVerification(env, s, message).value.signatures;
    var leaf := Leaves(s.policy)[k];
    FlattenedAcceptance(s.policy, results);
    AcceptanceNeedsAValidSignature(env, s, message);
    AcceptedIdentitiesSigned(env, s, message);
    match leaf
    case AnySignature =>
      var i: nat :| i < |results| && OutcomeOf(env, s, message, i).IsValid();
      OutcomeMeaning(env, s, message, i);
      assert GenuinelySigned(env, s, message, i);
    case AllSignatures =>
      AllSignaturesAccepts(results);
      assert |results| == |message.signatures|;
      forall i: nat | i < |message.signatures|
        ensures GenuinelySigned(env, s, message, i)
      {
        assert results[i] in results;
        OutcomeMeaning(env, s, message, i);
      }
    case Threshold(_, keyIDs) =>
      CountOfPart(IDs(keyIDs) * ValidIDs(results), IDs(keyIDs) * Signers(env, s, message));
    case _ =>
  }

  /** A leaf gets what it asks for: genuine signatures, or the consent of the application's function. */
  ghost predicate LeafIsMet(leaf: Policy, env: Environment, s: Settings, message: Message, results: Results) {
    match leaf
    case Func(_) => leaf.fn.Some? && leaf.fn.value(results).None?
    case Foreign(_) => leaf.evaluate(results).None?
    case _ => LeafIsSigned(leaf, env, s, message)
  }

  /** And conversely: when no signature aborts the run, a message within the limits is accepted exactly when some
      signature is genuine and every leaf of the policy tree gets what it asks for. */
  lemma {:induction false} AcceptedExactlyWhenSigned(env: Environment, s: Settings, message: Message, results: Results)
    requires !s.policy.Nil? && Validation(s.policy).None?
    requires WithinLimits(s, message).None? && InOrder(results, Outcomes(env, s, message))
    ensures MultiVerification(env, s, message).Success?
       <==> && (exists i: nat :: i < |message.signatures| && GenuinelySigned(env, s, message, i))
            && forall k: nat :: k < |Leaves(s.policy)| ==> LeafIsMet(Leaves(s.policy)[k], env, s, message, results)
  {
    AcceptedByResults(env, s, message, results);
    FlattenedAcceptance(s.policy, results);
    ValidatedLeavesAreSound(s.policy);
    LeafIsMetExactly(AnySignature, env, s, message, results);
    forall k: nat | k < |Leaves(s.policy)|
      ensures LeafIsMet(Leaves(s.policy)[k], env, s, message, results) <==> Accepts(Leaves(s.policy)[k], results)
    {
      LeafIsMetExactly(Leaves(s.policy)[k], env, s, message, results);
    }
  }

  lemma {:induction false} AcceptedByResults(env: Environment, s: Settings, message: Message, results: Results)
    requires !s.policy.Nil? && WithinLimits(s, message).None?
    requires InOrder(results, Outcomes(env, s, message))
    ensures MultiVerification(env, s, message).Success?
       <==> Accepts(AnySignature, results) && Accepts(s.policy, results)
  {
    var outcomes := Outcomes(env, s, message);
    assert FirstAborted(outcomes) == |outcomes| && ResultsOf(outcomes, |outcomes|) == results;
    if s.policy.AnySignature? {
      EarlyStopRefinesFullScan(outcomes);
    }
  }

  lemma {:induction false} ValidIDsAreSigners(env: Environment, s: Settings, message: Message, results: Results)
    requires InOrder(results, Outcomes(env, s, message))
    ensures ValidIDs(results) == Signers(env, s, message)
  {
    forall i: nat | i < |message.signatures|
      ensures results[i] in results
      ensures GenuinelySigned(env, s, message, i) <==> results[i].Valid()
      ensures results[i].Valid() ==> SignerOf(env, s, message, i) == results[i].keyID
    {
      OutcomeMeaning(env, s, message, i);
    }
    forall id | id in ValidIDs(results)
      ensures id in Signers(env, s, message)
    {
      var r :| r in results && r.Valid() && r.keyID == id;
      var i: nat :| i < |results| && results[i] == r;
      assert SignerOf(env, s, message, i) == id;
    }
  }

  lemma {:induction false} LeafIsMetExactly(
      leaf: Policy, env: Environment, s: Settings, message: Message, results: Results)
    requires !leaf.Nil? && !leaf.AllOf? && Validation(leaf).None?
    requires |message.signatures| > 0 && InOrder(results, Outcomes(env, s, message))
    ensures LeafIsMet(leaf, env, s, message, results) <==> Accepts(leaf, results)
  {
    match leaf
    case AnySignature => AnyIsMetExactly(env, s, message, results);
    case AllSignatures => AllIsMetExactly(env, s, message, results);
    case RequiredKeyIDs(_) =>
      ValidIDsAreSigners(env, s, message, results);
    case Threshold(_, _) =>
      ValidIDsAreSigners(env, s, message, results);
    case _ =>
      ApplicationAndImproperPolicies(leaf, results);
  }

  lemma AnyIsMetExactly(env: Environment, s: Settings, message: Message, results: Results)
    requires InOrder(results, Outcomes(env, s, message))
    ensures LeafIsSigned(AnySignature, env, s, message) <==> Accepts(AnySignature, results)
  {
    IdentityLeavesAcceptExactly([], results);
    if j: nat :| j < |results| && results[j].err.None? {
      ValidMeansGenuine(env, s, message, results, j);
    }
    if i: nat :| i < |message.signatures| && GenuinelySigned(env, s, message, i) {
      ValidMeansGenuine(env, s, message, results, i);
    }
  }

  lemma AllIsMetExactly(env: Environment, s: Settings, message: Message, results: Results)
    requires |message.signatures| > 0 && InOrder(results, Outcomes(env, s, message))
    ensures LeafIsSigned(AllSignatures, env, s, message) <==> Accepts(AllSignatures, results)
  {
    AllSignaturesAccepts(results);
    forall i: nat | i < |message.signatures|
      ensures GenuinelySigned(env, s, message, i) <==> results[i].Valid()
      ensures results[i] in results
    {
      ValidMeansGenuine(env, s, message, results, i);
    }
  }

  lemma ValidMeansGenuine(env: Environment, s: Settings, message: Message, results: Results, i: nat)
    requires i < |message.signatures| && InOrder(results, Outcomes(env, s, message))
    ensures GenuinelySigned(env, s, message, i) <==> results[i].Valid()
  {
    OutcomeMeaning(env, s, message, i);
  }

  /** Two accepted messages whose policies hold, anywhere, thresholds that add up to more than the number of
      identities in the two allowlists together were both genuinely signed by one identity of both lists. */
  lemma {:induction false} AcceptedMessagesShareASigner(
      env: Environment, s: Settings, message: Message, k: nat,
      env': Environment, s': Settings, message': Message, k': nat)
    requires !s.policy.Nil? && Validation(s.policy).None? && MultiVerification(env, s, message).Success?
    requires !s'.policy.Nil? && Validation(s'.policy).None? && MultiVerification(env', s', message').Success?
    requires k < |Leaves(s.policy)| && Leaves(s.policy)[k].Threshold?
    requires k' < |Leaves(s'.policy)| && Leaves(s'.policy)[k'].Threshold?
    requires var leaf, leaf' := Leaves(s.policy)[k], Leaves(s'.policy)[k'];
             leaf.minimum + leaf'.minimum > |IDs(leaf.keyIDs) + IDs(leaf'.keyIDs)|
    ensures exists id :: id in Leaves(s.policy)[k].keyIDs && id in Leaves(s'.policy)[k'].keyIDs
              && id in Signers(env, s, message) && id in Signers(env', s', message')
  {
    AcceptedPolicyIsSigned(env, s, message, k);
    AcceptedPolicyIsSigned(env', s', message', k');
    var ids, ids' := IDs(Leaves(s.policy)[k].keyIDs), IDs(Leaves(s'.policy)[k'].keyIDs);
    Pigeonhole(ids * Signers(env, s, message), ids' * Signers(env', s', message'), ids + ids');
  }

  /** The error of a rejected run keeps the cause of the first invalid signature reachable whenever the leftmost
      rejecting leaf of the policy tree is all-signatures, at any depth, and it is marked as a policy error. */
  lemma RejectionKeepsTheCause(env: Environment, s: Settings, message: Message, cause: Sentinel)
    requires !s.policy.Nil? && Validation(s.policy).None? && !s.policy.AnySignature?
    requires WithinLimits(s, message).None?
    requires var outcomes := Outcomes(env, s, message);
             && FirstAborted(outcomes) == |outcomes| && FirstValid(outcomes) < |outcomes|
             && var results := ResultsOf(outcomes, |outcomes|);
             && NoNil(Leaves(s.policy))
             && FirstRejecting(Leaves(s.policy), results).Some?
             && FirstRejecting(Leaves(s.policy), results).value.AllSignatures?
    ensures var results := ResultsOf(Outcomes(env, s, message), |Outcomes(env, s, message)|);
            var r := MultiVerification(env, s, message);
            && FirstInvalid(results) < |results|
            && r.Failure?
            && (Is(r.error, cause)
                <==> cause == JwsVerificationPolicy || Is(results[FirstInvalid(results)].err.value, cause))
  {
    var outcomes := Outcomes(env, s, message);
    InvalidSignatureStaysReachable(s.policy, ResultsOf(outcomes, |outcomes|), cause);
    ValidResultSeen(outcomes, |outcomes|);
  }

  /* ---- one signature, two verifiers ---- */

  /** On a message with one signature the default multi-verifier and the compact verifier agree on acceptance,
      identity, header and payload. The one difference is cancellation, which only the multi-verifier looks at. */
  lemma SingleSignatureRefinement(env: Environment, s: Settings, message: Message)
    requires |message.signatures| == 1 && s.maxSignatures >= 1 && s.policy.AnySignature?
    ensures var multi, compact := MultiVerification(env, s, message), CompactVerification(env, s, message);
            && (multi.Success? <==> compact.Success? && env.interrupted(0).None?)
            && (multi.Success? ==>
                  var v := compact.value;
                  multi.value == MultiVerified(v.payload, [SignatureResult(0, v.keyID, v.header, None)]))
  {
    var outcomes := Outcomes(env, s, message);
    assert outcomes == [OutcomeOf(env, s, message, 0)];
    if outcomes[0].Decided? {
      assert ResultsOf(outcomes, 1) == [outcomes[0].result];
      ValidResultSeen(outcomes, 1);
      assert [outcomes[0].result][0] in ResultsOf(outcomes, 1);
    }
  }

  /** A failure the multi-verifier treats as local is reported by the compact verifier with its cause, and by the
      multi-verifier as a policy error from which the cause can no longer be recovered. */
  lemma LocalFailureIsReportedDifferently(env: Environment, s: Settings, message: Message)
    requires |message.signatures| == 1 && s.maxSignatures >= 1 && s.policy.AnySignature?
    requires |message.payload| <= s.maxPayloadSize
    requires OutcomeOf(env, s, message, 0).Decided? && !OutcomeOf(env, s, message, 0).IsValid()
    ensures MultiVerification(env, s, message) == Failure(Marked(JwsVerificationPolicy))
    ensures CompactVerification(env, s, message).Failure?
    ensures SameSentinels(CompactVerification(env, s, message).error, OutcomeOf(env, s, message, 0).result.err.value)
  {
    var outcomes := Outcomes(env, s, message);
    assert outcomes == [OutcomeOf(env, s, message, 0)];
    ValidResultSeen(outcomes, 1);
  }

  /** What the compact verifier reports when it refuses: the first stage that failed, with exactly the sentinels of that
      stage and of its cause. */
  lemma {:induction false} CompactRefusalMeaning(env: Environment, s: Settings, message: Message)
    requires CompactVerification(env, s, message).Failure?
    ensures var e := CompactVerification(env, s, message).error;
            if |message.signatures| != 1 then ReachesExactly(e, JwsMalformedToken)
            else if |message.payload| > s.maxPayloadSize then ReachesExactly(e, JwsPayloadTooLarge)
            else
              var source := message.signatures[0].protectedHeader;
              var header := AsRead(source);
              if !Supported(source) then ReachesExactly(e, JwsMalformedToken)
              else if s.typ != "" && header.typ != s.typ then ReachesExactly(e, JwsUnexpectedType)
              else if s.cty != "" && header.contentType != s.cty then ReachesExactly(e, JwsUnexpectedContentType)
              else match env.resolve(header)
                case Failure(cause) => SameSentinels(e, cause)
                case Success(resolved) =>
                  if resolved.key.NilKey? then ReachesExactly(e, JwsVerify)
                  else
                    var failed := env.check(resolved.key, message.signatures[0], message.payload);
                    failed.Some? && ReachesAlso(e, JwsVerify, failed.value)
  {
    if |message.signatures| == 1 {
      ParseAcceptsExactlySupported(message.signatures[0].protectedHeader);
    }
  }
}
