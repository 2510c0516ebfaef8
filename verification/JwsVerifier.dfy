/** jws/multi_verifier.go and jws/verifier.go: verification of one signature, of all of them, and of a compact JWS. */
module JwsVerifier {
  import opened Wrappers
  import opened Errors
  import opened Jose
  import opened JwsHeader
  import opened JwsMaterial
  import opened JwsPolicy
  import opened JwsResolver
  import opened JwsOptions

  /** One signature of a parsed JWS. */
  datatype Entry = Entry(protectedHeader: JoseHeader, signature: seq<byte>)

  /** `jose.JSONWebSignature` after parsing. */
  datatype Message = Message(signatures: seq<Entry>, payload: seq<byte>)

  /** Everything outside the package: the resolver, go-jose's check of one signature, and `ctx.Err()` as seen
      when a given signature is started. */
  datatype Environment = Environment(
    resolve: Header -> Resolution,
    check: (Material, Entry, seq<byte>) -> Option<Error>,
    interrupted: nat -> Option<Error>)

  datatype MultiVerified = MultiVerified(payload: seq<byte>, signatures: Results)

  datatype Verified = Verified(keyID: string, header: Header, payload: seq<byte>)

  /** A signature is either decided, validly or not, or stops the whole run. */
  datatype Outcome = Decided(result: SignatureResult) | Aborted(error: Error) {
    predicate IsValid() {
      Decided? && result.Valid()
    }
  }

  /* ---- one signature ---- */

  function Invalid(index: nat, header: Header, keyID: string, cause: Error): Outcome {
    Decided(SignatureResult(index, keyID, header, Some(cause)))
  }

  /** The outcome of signature `index`, as a function of its protected header, the resolver and the check. */
  function OutcomeOf(env: Environment, s: Settings, message: Message, index: nat): Outcome
    requires index < |message.signatures|
  {
    var entry := message.signatures[index];
    if env.interrupted(index).Some? then Aborted(env.interrupted(index).value)
    else match ParseProtectedHeader(entry.protectedHeader)
      case Failure(e) => Invalid(index, NO_HEADER, "", Context(e))
      case Success(header) =>
        match ValidateHeaderPolicy(s.typ, s.cty, header)
        case Some(e) => Invalid(index, header, "", Context(e))
        case None =>
          match env.resolve(header)
          case Failure(e) =>
            if Is(e, JwsKeyNotFound) then Invalid(index, header, "", Context(e)) else Aborted(Context(e))
          case Success(resolved) =>
            if resolved.key.NilKey? then Aborted(Marked(JwsVerify))
            else match env.check(resolved.key, entry, message.payload)
              case Some(e) => Invalid(index, header, resolved.keyID, Classified(JwsVerify, e))
              case None => Decided(SignatureResult(index, resolved.keyID, header, None))
  }

  method VerifySignature(env: Environment, s: Settings, message: Message, index: nat) returns (o: Outcome)
    requires index < |message.signatures|
    ensures o == OutcomeOf(env, s, message, index)
  {
    var result := SignatureResult(index, "", NO_HEADER, None);
    var cancelled := env.interrupted(index);
    if cancelled.Some? {
      return Aborted(cancelled.value);
    }
    var parsed := ParseProtectedHeader(message.signatures[index].protectedHeader);
    if parsed.Failure? {
      result := result.(err := Some(Context(parsed.error)));
      return Decided(result);
    }
    var header := parsed.value;
    result := result.(header := header);
    var policy := ValidateHeaderPolicy(s.typ, s.cty, header);
    if policy.Some? {
      result := result.(err := Some(Context(policy.value)));
      return Decided(result);
    }
    var resolved := env.resolve(header);
    if resolved.Failure? && Is(resolved.error, JwsKeyNotFound) {
      result := result.(err := Some(Context(resolved.error)));
      return Decided(result);
    }
    if resolved.Failure? {
      return Aborted(Context(resolved.error));
    }
    if resolved.value.key.NilKey? {
      return Aborted(Marked(JwsVerify));
    }
    result := result.(keyID := resolved.value.keyID);
    var failed := env.check(resolved.value.key, message.signatures[index], message.payload);
    if failed.Some? {
      result := result.(err := Some(Classified(JwsVerify, failed.value)));
    }
    return Decided(result);
  }

  /* ---- the whole run ---- */

  function Outcomes(env: Environment, s: Settings, message: Message): (outcomes: seq<Outcome>)
    ensures |outcomes| == |message.signatures|
    ensures forall i :: 0 <= i < |outcomes| ==> outcomes[i] == OutcomeOf(env, s, message, i)
  {
    seq(|message.signatures|, i requires 0 <= i < |message.signatures| => OutcomeOf(env, s, message, i))
  }

  /** Lowest aborting signature, or the number of signatures. */
  function FirstAborted(outcomes: seq<Outcome>): (n: nat)
    ensures n <= |outcomes|
    ensures forall i :: 0 <= i < n ==> outcomes[i].Decided?
    ensures n < |outcomes| ==> outcomes[n].Aborted?
  {
    if outcomes == [] || outcomes[0].Aborted? then 0
    else
      var n := FirstAborted(outcomes[1..]);
      assert forall i :: 1 <= i < n + 1 ==> outcomes[i] == outcomes[1..][i - 1];
      n + 1
  }

  /** Lowest valid signature, or the number of signatures. */
  function FirstValid(outcomes: seq<Outcome>): (n: nat)
    ensures n <= |outcomes|
    ensures forall i :: 0 <= i < n ==> !outcomes[i].IsValid()
    ensures n < |outcomes| ==> outcomes[n].IsValid()
  {
    if outcomes == [] || outcomes[0].IsValid() then 0
    else
      var n := FirstValid(outcomes[1..]);
      assert forall i :: 1 <= i < n + 1 ==> outcomes[i] == outcomes[1..][i - 1];
      n + 1
  }

  /** How many signatures a run looks at: up to and including the first valid one when it stops early. */
  function Extent(outcomes: seq<Outcome>, stopEarly: bool): (n: nat)
    ensures n <= |outcomes|
  {
    if stopEarly && FirstValid(outcomes) < |outcomes| then FirstValid(outcomes) + 1 else |outcomes|
  }

  function ResultsOf(outcomes: seq<Outcome>, n: nat): (results: Results)
    requires n <= FirstAborted(outcomes)
    ensures |results| == n
  {
    seq(n, i requires 0 <= i < n => outcomes[i].result)
  }

  /** What the run concludes from the outcomes it saw. */
  function Concluded(policy: Policy, results: Results): Result<Results, Error>
    requires !policy.Nil?
  {
    if !exists r | r in results :: r.Valid() then Failure(Marked(JwsVerificationPolicy))
    else match Evaluation(policy, results)
      case Some(e) => Failure(Classified(JwsVerificationPolicy, e))
      case None => Success(results)
  }

  /** The run over given outcomes, early stop or not. */
  function RunOver(outcomes: seq<Outcome>, policy: Policy, stopEarly: bool): Result<Results, Error>
    requires !policy.Nil?
  {
    var extent := Extent(outcomes, stopEarly);
    var aborted := FirstAborted(outcomes);
    if aborted < extent then Failure(outcomes[aborted].error)
    else Concluded(policy, ResultsOf(outcomes, extent))
  }

  function WithinLimits(s: Settings, message: Message): Option<Error> {
    if message.signatures == [] then Some(Marked(JwsMalformedToken))
    else if |message.signatures| > s.maxSignatures then Some(Marked(JwsTooManySignatures))
    else if |message.payload| > s.maxPayloadSize then Some(Marked(JwsPayloadTooLarge))
    else None
  }

  function MultiVerification(env: Environment, s: Settings, message: Message): Result<MultiVerified, Error>
    requires !s.policy.Nil?
  {
    if WithinLimits(s, message).Some? then Failure(WithinLimits(s, message).value)
    else match RunOver(Outcomes(env, s, message), s.policy, s.policy.AnySignature?)
      case Failure(e) => Failure(e)
      case Success(results) => Success(MultiVerified(message.payload, results))
  }

  lemma ValidResultSeen(outcomes: seq<Outcome>, n: nat)
    requires n <= FirstAborted(outcomes)
    ensures (exists r | r in ResultsOf(outcomes, n) :: r.Valid()) <==> FirstValid(outcomes) < n
  {
    if FirstValid(outcomes) < n {
      assert ResultsOf(outcomes, n)[FirstValid(outcomes)].Valid();
    }
  }

  /** One step of the loop, on outcomes alone. */
  lemma StepOver(outcomes: seq<Outcome>, index: nat)
    requires index < |outcomes| && index <= FirstAborted(outcomes)
    ensures outcomes[index].Aborted? ==> FirstAborted(outcomes) == index
    ensures outcomes[index].Decided? ==> ExtendsBy(outcomes, index)
    ensures FirstValid(outcomes) < index + 1 <==> FirstValid(outcomes) < index || outcomes[index].IsValid()
  {
    if outcomes[index].Decided? {
      ResultsGrow(outcomes, index);
    }
  }

  lemma ResultsGrow(outcomes: seq<Outcome>, index: nat)
    requires index < FirstAborted(outcomes)
    ensures ExtendsBy(outcomes, index)
  {
    assert ResultsOf(outcomes, index + 1)[..index] == ResultsOf(outcomes, index);
  }

  predicate ExtendsBy(outcomes: seq<Outcome>, index: nat)
    requires index < |outcomes| && index <= FirstAborted(outcomes)
  {
    && index < FirstAborted(outcomes)
    && ResultsOf(outcomes, index + 1) == ResultsOf(outcomes, index) + [outcomes[index].result]
  }

  /** The loop of `MultiVerifier.verify`, up to the first valid signature or the end. */
  method CollectResults(env: Environment, s: Settings, message: Message, stopAfterFirstValid: bool)
    returns (results: Results, hasValidSignature: bool, aborted: Option<Error>)
    ensures var outcomes := Outcomes(env, s, message);
            var extent := Extent(outcomes, stopAfterFirstValid);
            if FirstAborted(outcomes) < extent then aborted == Some(outcomes[FirstAborted(outcomes)].error)
            else aborted.None? && results == ResultsOf(outcomes, extent)
                 && (hasValidSignature <==> FirstValid(outcomes) < extent)
  {
    results, hasValidSignature, aborted := [], false, None;
    ghost var outcomes := Outcomes(env, s, message);
    for index := 0 to |message.signatures|
      invariant index <= FirstAborted(outcomes) && results == ResultsOf(outcomes, index)
      invariant hasValidSignature <==> FirstValid(outcomes) < index
      invariant stopAfterFirstValid ==> !hasValidSignature
    {
      var o := VerifySignature(env, s, message, index);
      StepOver(outcomes, index);
      if o.Aborted? {
        return results, hasValidSignature, Some(o.error);
      }
      results := results + [o.result];
      if !o.result.Valid() {
        continue;
      }
      hasValidSignature := true;
      if stopAfterFirstValid {
        break;
      }
    }
    return results, hasValidSignature, None;
  }

  /** `MultiVerifier.verify`: the loop and the policy compute the run described by `MultiVerification`. */
  method VerifyMulti(env: Environment, s: Settings, message: Message) returns (r: Result<MultiVerified, Error>)
    requires !s.policy.Nil?
    ensures r == MultiVerification(env, s, message)
  {
    if message.signatures == [] {
      return Failure(Marked(JwsMalformedToken));
    }
    if |message.signatures| > s.maxSignatures {
      return Failure(Marked(JwsTooManySignatures));
    }
    if |message.payload| > s.maxPayloadSize {
      return Failure(Marked(JwsPayloadTooLarge));
    }
    var results, hasValidSignature, aborted := CollectResults(env, s, message, s.policy.AnySignature?);
    if aborted.Some? {
      return Failure(aborted.value);
    }
    ValidResultSeen(Outcomes(env, s, message), |results|);
    if !hasValidSignature {
      return Failure(Marked(JwsVerificationPolicy));
    }
    var rejected := Evaluate(s.policy, results);
    if rejected.Some? {
      return Failure(Classified(JwsVerificationPolicy, rejected.value));
    }
    return Success(MultiVerified(message.payload, results));
  }

  /* ---- compact serialization ---- */

  /** `Verifier.verify`. */
  function CompactVerification(env: Environment, s: Settings, message: Message): Result<Verified, Error> {
    if |message.signatures| != 1 then Failure(Marked(JwsMalformedToken))
    else if |message.payload| > s.maxPayloadSize then Failure(Marked(JwsPayloadTooLarge))
    else
      var entry := message.signatures[0];
      match ParseProtectedHeader(entry.protectedHeader)
      case Failure(e) => Failure(e)
      case Success(header) =>
        match ValidateHeaderPolicy(s.typ, s.cty, header)
        case Some(e) => Failure(e)
        case None =>
          match env.resolve(header)
          case Failure(e) => Failure(Context(e))
          case Success(resolved) =>
            if resolved.key.NilKey? then Failure(Marked(JwsVerify))
            else match env.check(resolved.key, entry, message.payload)
              case Some(e) => Failure(Classified(JwsVerify, e))
              case None => Success(Verified(resolved.keyID, header, message.payload))
  }
}
