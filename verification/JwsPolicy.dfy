/** jws/policy.go: the policy language over per-signature results.

    `Evaluation` and `Validation` say what each policy decides, in terms of sets of identities and of the
    first offending signature; the methods are the loops of the source, proved to compute exactly that. */
module JwsPolicy {
  import opened Wrappers
  import opened Errors
  import opened Jose
  import opened JwsHeader

  datatype SignatureResult = SignatureResult(index: int, keyID: string, header: Header, err: Option<Error>) {
    predicate Valid() {
      err.None?
    }
  }

  type Results = seq<SignatureResult>

  type PolicyFunction = Results -> Option<Error>

  /** `SignaturePolicy`. `Nil` is the nil interface, `Func(None)` a nil `SignaturePolicyFunc`, and `Foreign`
      an application type that implements `Evaluate` but not the package's private `validate`. */
  datatype Policy =
    | Nil
    | AnySignature
    | AllSignatures
    | RequiredKeyIDs(keyIDs: seq<string>)
    | Threshold(minimum: int, keyIDs: seq<string>)
    | AllOf(policies: seq<Policy>)
    | Func(fn: Option<PolicyFunction>)
    | Foreign(evaluate: PolicyFunction)

  /* ---- identities ---- */

  function IDs(keyIDs: seq<string>): set<string> {
    set id | id in keyIDs
  }

  /** Canonical identities with at least one valid signature. */
  function ValidIDs(results: Results): set<string> {
    set r | r in results && r.Valid() && r.keyID != "" :: r.keyID
  }

  predicate Distinct(keyIDs: seq<string>) {
    forall i, j :: 0 <= i < j < |keyIDs| ==> keyIDs[i] != keyIDs[j]
  }

  predicate AcceptableKeyIDs(keyIDs: seq<string>) {
    && keyIDs != []
    && (forall id | id in keyIDs :: AcceptableValue(id, MAX_KEY_ID_LENGTH))
    && Distinct(keyIDs)
  }

  predicate AcceptableThreshold(minimum: int, keyIDs: seq<string>) {
    AcceptableKeyIDs(keyIDs) && 0 < minimum <= |keyIDs|
  }

  /* ---- what the policies decide ---- */

  function RejectUnless(condition: bool): (err: Option<Error>) {
    if condition then None else Some(Plain)
  }

  /** The error `validate` reports, if any. */
  function Validation(p: Policy): Option<Error>
    requires !p.Nil?
    decreases p, 1
  {
    match p
    case RequiredKeyIDs(keyIDs) => RejectUnless(AcceptableKeyIDs(keyIDs))
    case Threshold(minimum, keyIDs) => RejectUnless(AcceptableThreshold(minimum, keyIDs))
    case AllOf(policies) => if policies == [] then Some(Plain) else NestedValidation(policies)
    case Func(fn) => RejectUnless(fn.Some?)
    case _ => None
  }

  function NestedValidation(policies: seq<Policy>): Option<Error>
    decreases policies, 0
  {
    if policies == [] then None
    else if policies[0].Nil? then Some(Plain)
    else match Validation(policies[0])
      case Some(e) => Some(Context(e))
      case None => NestedValidation(policies[1..])
  }

  predicate NoNil(policies: seq<Policy>) {
    forall i :: 0 <= i < |policies| ==> !policies[i].Nil?
  }

  lemma {:induction false} ValidListHasNoNil(policies: seq<Policy>)
    requires NestedValidation(policies).None?
    ensures NoNil(policies)
  {
    if policies != [] {
      ValidListHasNoNil(policies[1..]);
      assert policies == [policies[0]] + policies[1..];
    }
  }

  /** Position of the first invalid result, or `|results|`. */
  function FirstInvalid(results: Results): (i: nat)
    ensures i <= |results|
    ensures forall k :: 0 <= k < i ==> results[k].Valid()
    ensures i < |results| ==> !results[i].Valid()
  {
    if results == [] || !results[0].Valid() then 0 else
      var i := FirstInvalid(results[1..]);
      assert forall k :: 1 <= k < i + 1 ==> results[k] == results[1..][k - 1];
      i + 1
  }

  /** The error `Evaluate` reports, if any. */
  function Evaluation(p: Policy, results: Results): Option<Error>
    requires !p.Nil?
    decreases p, 1
  {
    match p
    case AnySignature => RejectUnless(exists r | r in results :: r.Valid())
    case AllSignatures =>
      if results == [] then Some(Plain)
      else
        var i := FirstInvalid(results);
        if i < |results| then Some(Context(results[i].err.value)) else None
    case RequiredKeyIDs(keyIDs) => RejectUnless(IDs(keyIDs) <= ValidIDs(results))
    case Threshold(minimum, keyIDs) =>
      if Validation(p).Some? then Validation(p)
      else RejectUnless(|IDs(keyIDs) * ValidIDs(results)| >= minimum)
    case AllOf(policies) =>
      if Validation(p).Some? then Validation(p)
      else
        ValidListHasNoNil(policies);
        NestedEvaluation(policies, results)
    case Func(fn) => if fn.None? then Some(Plain) else fn.value(results)
    case Foreign(evaluate) => evaluate(results)
  }

  function NestedEvaluation(policies: seq<Policy>, results: Results): Option<Error>
    requires NoNil(policies)
    decreases policies, 0
  {
    if policies == [] then None
    else match Evaluation(policies[0], results)
      case Some(e) => Some(Context(e))
      case None => NestedEvaluation(policies[1..], results)
  }

  predicate Accepts(p: Policy, results: Results)
    requires !p.Nil?
  {
    Evaluation(p, results).None?
  }

  /* ---- the loops ---- */

  method ValidatePolicyKeyIDs(keyIDs: seq<string>) returns (err: Option<Error>)
    ensures err == RejectUnless(AcceptableKeyIDs(keyIDs))
  {
    if |keyIDs| == 0 {
      return Some(Plain);
    }
    var seen: set<string> := {};
    for i := 0 to |keyIDs|
      invariant seen == IDs(keyIDs[..i])
      invariant forall k :: 0 <= k < i ==> AcceptableValue(keyIDs[k], MAX_KEY_ID_LENGTH)
      invariant Distinct(keyIDs[..i])
    {
      var invalid := ValidateHeaderValue(keyIDs[i], MAX_KEY_ID_LENGTH);
      if invalid.Some? {
        assert keyIDs[i] in keyIDs;
        return Some(Plain);
      }
      if keyIDs[i] in seen {
        var k :| 0 <= k < i && keyIDs[k] == keyIDs[i];
        return Some(Plain);
      }
      seen := seen + {keyIDs[i]};
    }
    assert keyIDs[..|keyIDs|] == keyIDs;
    return None;
  }

  method CollectValidKeyIDs(results: Results) returns (valid: set<string>)
    ensures valid == ValidIDs(results)
  {
    valid := {};
    for i := 0 to |results|
      invariant valid == ValidIDs(results[..i])
    {
      if results[i].Valid() && results[i].keyID != "" {
        valid := valid + {results[i].keyID};
      }
      assert results[..i + 1] == results[..i] + [results[i]];
    }
    assert results[..|results|] == results;
  }

  method EvaluateAny(results: Results) returns (err: Option<Error>)
    ensures err == Evaluation(AnySignature, results)
  {
    for i := 0 to |results|
      invariant forall k :: 0 <= k < i ==> !results[k].Valid()
    {
      if results[i].Valid() {
        return None;
      }
    }
    return Some(Plain);
  }

  method EvaluateAllProvided(results: Results) returns (err: Option<Error>)
    ensures err == Evaluation(AllSignatures, results)
  {
    if |results| == 0 {
      return Some(Plain);
    }
    for i := 0 to |results|
      invariant forall k :: 0 <= k < i ==> results[k].Valid()
    {
      if !results[i].Valid() {
        return Some(Context(results[i].err.value));
      }
    }
    return None;
  }

  method EvaluateRequired(keyIDs: seq<string>, results: Results) returns (err: Option<Error>)
    ensures err == Evaluation(RequiredKeyIDs(keyIDs), results)
  {
    var valid := CollectValidKeyIDs(results);
    for i := 0 to |keyIDs|
      invariant forall k :: 0 <= k < i ==> keyIDs[k] in valid
    {
      if keyIDs[i] !in valid {
        assert keyIDs[i] in IDs(keyIDs);
        return Some(Plain);
      }
    }
    return None;
  }

  method EvaluateThreshold(minimum: int, keyIDs: seq<string>, results: Results) returns (err: Option<Error>)
    ensures err == Evaluation(Threshold(minimum, keyIDs), results)
  {
    var invalid := Validate(Threshold(minimum, keyIDs));
    if invalid.Some? {
      return invalid;
    }
    var valid := CollectValidKeyIDs(results);
    var verified := 0;
    for i := 0 to |keyIDs|
      invariant verified == |IDs(keyIDs[..i]) * valid| < minimum
    {
      ghost var before := IDs(keyIDs[..i]) * valid;
      ghost var after := IDs(keyIDs[..i + 1]) * valid;
      if keyIDs[i] !in valid {
        assert after == before;
        continue;
      }
      assert keyIDs[i] !in keyIDs[..i];
      assert after == before + {keyIDs[i]};
      verified := verified + 1;
      if verified == minimum {
        CountOfPart(after, IDs(keyIDs) * valid);
        return None;
      }
    }
    assert keyIDs[..|keyIDs|] == keyIDs;
    return Some(Plain);
  }

  lemma {:induction false} CountOfPart<T>(part: set<T>, whole: set<T>)
    requires part <= whole
    ensures |part| <= |whole|
  {
    if part != {} {
      var x :| x in part;
      CountOfPart(part - {x}, whole - {x});
    }
  }

  method Validate(p: Policy) returns (err: Option<Error>)
    requires !p.Nil?
    ensures err == Validation(p)
    decreases p
  {
    match p {
      case RequiredKeyIDs(keyIDs) =>
        err := ValidatePolicyKeyIDs(keyIDs);
      case Threshold(minimum, keyIDs) =>
        err := ValidatePolicyKeyIDs(keyIDs);
        if err.Some? {
          return;
        }
        if minimum <= 0 {
          return Some(Plain);
        }
        if minimum > |keyIDs| {
          return Some(Plain);
        }
      case AllOf(policies) =>
        if |policies| == 0 {
          return Some(Plain);
        }
        for i := 0 to |policies|
          invariant NestedValidation(policies) == NestedValidation(policies[i..])
        {
          if policies[i].Nil? {
            return Some(Plain);
          }
          var e := Validate(policies[i]);
          if e.Some? {
            return Some(Context(e.value));
          }
          assert policies[i..][1..] == policies[i + 1..];
        }
        return None;
      case Func(fn) =>
        if fn.None? {
          return Some(Plain);
        }
        return None;
      case _ =>
        return None;
    }
  }

  /** `Evaluate`, dispatched over the dynamic type of the policy. */
  method Evaluate(p: Policy, results: Results) returns (err: Option<Error>)
    requires !p.Nil?
    ensures err == Evaluation(p, results)
    decreases p
  {
    match p {
      case AnySignature =>
        err := EvaluateAny(results);
      case AllSignatures =>
        err := EvaluateAllProvided(results);
      case RequiredKeyIDs(keyIDs) =>
        err := EvaluateRequired(keyIDs, results);
      case Threshold(minimum, keyIDs) =>
        err := EvaluateThreshold(minimum, keyIDs, results);
      case AllOf(policies) =>
        err := Validate(p);
        if err.Some? {
          return;
        }
        ValidListHasNoNil(policies);
        for i := 0 to |policies|
          invariant NestedEvaluation(policies, results) == NestedEvaluation(policies[i..], results)
        {
          var e := Evaluate(policies[i], results);
          if e.Some? {
            return Some(Context(e.value));
          }
          assert policies[i..][1..] == policies[i + 1..];
        }
        return None;
      case Func(fn) =>
        if fn.None? {
          return Some(Plain);
        }
        return fn.value(results);
      case Foreign(evaluate) =>
        return evaluate(results);
    }
  }
}
