/** jws/options.go: the configuration object, the options that write it, and what each constructor refuses. */
module JwsOptions {
  import opened Wrappers
  import opened Errors
  import opened OptionFold
  import opened Text
  import opened Jose
  import opened JwsHeader
  import opened JwsPolicy
  import opened JwsPolicyLaws

  const DEFAULT_MAX_TOKEN_SIZE := 0x200_0000
  const DEFAULT_MAX_PAYLOAD_SIZE := 0x100_0000
  const DEFAULT_MAX_SIGNATURES := 16

  datatype ConfigOption =
    | NilOption
    | WithType(value: string)
    | WithContentType(value: string)
    | WithMaxTokenSize(limit: int)
    | WithMaxPayloadSize(limit: int)
    | WithMaxSignatures(limit: int)
    | WithHeader(name: string, headerValue: HeaderValue)
    | WithSignaturePolicy(policy: Policy)

  /** The contents of a `config`. */
  datatype Settings = Settings(
    typ: string, cty: string,
    maxTokenSize: int, maxPayloadSize: int, maxSignatures: int,
    extraHeaders: Parameters, customHeaderSet: bool,
    policy: Policy, policySet: bool)

  function Defaults(): Settings {
    Settings("", "", DEFAULT_MAX_TOKEN_SIZE, DEFAULT_MAX_PAYLOAD_SIZE, DEFAULT_MAX_SIGNATURES,
             map[], false, AnySignature, false)
  }

  const INVALID := Marked(JwsInvalidConfig)

  /** One option on top of the settings so far. */
  function Applied(s: Settings, o: ConfigOption): Result<Settings, Error> {
    match o
    case NilOption => Failure(INVALID)
    case WithType(value) =>
      if !AcceptableValue(value, MAX_TYPE_LENGTH) then Failure(Classified(JwsInvalidConfig, Plain))
      else Success(s.(typ := value, extraHeaders := s.extraHeaders[HEADER_TYPE := TypedContentType(value)]))
    case WithContentType(value) =>
      if !AcceptableValue(value, MAX_CONTENT_TYPE_LENGTH) then Failure(Classified(JwsInvalidConfig, Plain))
      else Success(s.(cty := value, extraHeaders := s.extraHeaders[HEADER_CONTENT_TYPE := TypedContentType(value)]))
    case WithMaxTokenSize(limit) => if limit <= 0 then Failure(INVALID) else Success(s.(maxTokenSize := limit))
    case WithMaxPayloadSize(limit) => if limit <= 0 then Failure(INVALID) else Success(s.(maxPayloadSize := limit))
    case WithMaxSignatures(limit) => if limit <= 0 then Failure(INVALID) else Success(s.(maxSignatures := limit))
    case WithHeader(name, value) =>
      Success(s.(extraHeaders := s.extraHeaders[name := value], customHeaderSet := true))
    case WithSignaturePolicy(policy) =>
      if policy.Nil? then Failure(INVALID)
      else match Validation(policy)
        case Some(e) => Failure(Classified(JwsInvalidConfig, e))
        case None => Success(s.(policy := policy, policySet := true))
  }

  /** `makeConfig` on values: options apply from left to right and the first refused one decides. */
  function Folded(options: seq<ConfigOption>): Result<Settings, Error> {
    Fold(Defaults(), Applied, options)
  }

  class Config {
    var typ: string
    var cty: string
    var maxTokenSize: int
    var maxPayloadSize: int
    var maxSignatures: int
    var extraHeaders: Parameters
    var customHeaderSet: bool
    var policy: Policy
    var policySet: bool

    ghost function View(): Settings
      reads this
    {
      Settings(typ, cty, maxTokenSize, maxPayloadSize, maxSignatures, extraHeaders, customHeaderSet, policy, policySet)
    }

    constructor ()
      ensures View() == Defaults()
    {
      typ, cty := "", "";
      maxTokenSize, maxPayloadSize := DEFAULT_MAX_TOKEN_SIZE, DEFAULT_MAX_PAYLOAD_SIZE;
      maxSignatures := DEFAULT_MAX_SIGNATURES;
      extraHeaders, customHeaderSet := map[], false;
      policy, policySet := AnySignature, false;
    }

    method SetHeader(name: string, value: HeaderValue)
      modifies this`extraHeaders
      ensures extraHeaders == old(extraHeaders)[name := value]
    {
      extraHeaders := extraHeaders[name := value];
    }

    /** `apply`, dispatched over the option: a refused option leaves the configuration as it was. */
    method Apply(o: ConfigOption) returns (err: Option<Error>)
      modifies this
      ensures match Applied(old(View()), o)
              case Success(s) => err.None? && View() == s
              case Failure(e) => err == Some(e) && View() == old(View())
    {
      match o {
        case NilOption => return Some(INVALID);
        case WithType(value) =>
          var invalid := ValidateHeaderValue(value, MAX_TYPE_LENGTH);
          if invalid.Some? {
            return Some(Classified(JwsInvalidConfig, invalid.value));
          }
          typ := value;
          SetHeader(HEADER_TYPE, TypedContentType(value));
        case WithContentType(value) =>
          var invalid := ValidateHeaderValue(value, MAX_CONTENT_TYPE_LENGTH);
          if invalid.Some? {
            return Some(Classified(JwsInvalidConfig, invalid.value));
          }
          cty := value;
          SetHeader(HEADER_CONTENT_TYPE, TypedContentType(value));
        case WithMaxTokenSize(limit) =>
          if limit <= 0 {
            return Some(INVALID);
          }
          maxTokenSize := limit;
        case WithMaxPayloadSize(limit) =>
          if limit <= 0 {
            return Some(INVALID);
          }
          maxPayloadSize := limit;
        case WithMaxSignatures(limit) =>
          if limit <= 0 {
            return Some(INVALID);
          }
          maxSignatures := limit;
        case WithHeader(name, value) =>
          SetHeader(name, value);
          customHeaderSet := true;
        case WithSignaturePolicy(p) =>
          if p.Nil? {
            return Some(INVALID);
          }
          var invalid := Validate(p);
          if invalid.Some? {
            return Some(Classified(JwsInvalidConfig, invalid.value));
          }
          policy := p;
          policySet := true;
      }
      return None;
    }
  }

  method MakeConfig(options: seq<ConfigOption>) returns (config: Config, err: Option<Error>)
    ensures fresh(config)
    ensures match Folded(options)
            case Success(s) => err.None? && config.View() == s
            case Failure(e) => err == Some(e)
  {
    config := new Config();
    for i := 0 to |options|
      invariant fresh(config)
      invariant Folded(options[..i]) == Success(config.View())
    {
      assert options[..i + 1][..i] == options[..i];
      var e := config.Apply(options[i]);
      if e.Some? {
        RefusalIsFinal(Defaults(), Applied, options, i + 1);
        return config, e;
      }
    }
    assert options[..|options|] == options;
    return config, None;
  }

  /* ---- what each constructor refuses ---- */

  function ValidateSigner(s: Settings): Option<Error> {
    if s.policySet then Some(INVALID) else None
  }

  function ValidateVerifier(s: Settings): Option<Error> {
    if s.customHeaderSet then Some(INVALID)
    else if s.policySet then Some(INVALID)
    else None
  }

  function ValidateMultiVerifier(s: Settings): Option<Error> {
    if s.customHeaderSet then Some(INVALID)
    else if s.policy.Nil? then Some(INVALID)
    else None
  }

  /** What every accepted option list guarantees. */
  ghost predicate Coherent(s: Settings) {
    && AcceptableIfPresent(s.typ, MAX_TYPE_LENGTH) && AcceptableIfPresent(s.cty, MAX_CONTENT_TYPE_LENGTH)
    && s.maxTokenSize > 0 && s.maxPayloadSize > 0 && s.maxSignatures > 0
    && !s.policy.Nil? && Validation(s.policy).None?
    && (!s.policySet ==> s.policy == AnySignature)
    && (!s.customHeaderSet ==> s.extraHeaders == StandardHeaders(s.typ, s.cty))
  }

  lemma SettingAHeaderKeepsTheStandard(s: Settings, value: string)
    requires value != ""
    requires s.extraHeaders == StandardHeaders(s.typ, s.cty)
    ensures s.extraHeaders[HEADER_TYPE := TypedContentType(value)] == StandardHeaders(value, s.cty)
    ensures s.extraHeaders[HEADER_CONTENT_TYPE := TypedContentType(value)] == StandardHeaders(s.typ, value)
  {
    assert HEADER_TYPE[0] != HEADER_CONTENT_TYPE[0];
  }

  lemma {:induction false} OptionsKeepCoherence(s: Settings, o: ConfigOption)
    requires Coherent(s) && Applied(s, o).Success?
    ensures Coherent(Applied(s, o).value)
  {
    match o
    case WithType(value) =>
      if !s.customHeaderSet {
        SettingAHeaderKeepsTheStandard(s, value);
      }
    case WithContentType(value) =>
      if !s.customHeaderSet {
        SettingAHeaderKeepsTheStandard(s, value);
      }
    case _ =>
  }

  lemma {:induction false} AcceptedOptionsAreCoherent(options: seq<ConfigOption>)
    requires Folded(options).Success?
    ensures Coherent(Folded(options).value)
  {
    if options != [] {
      AcceptedOptionsAreCoherent(options[..|options| - 1]);
      OptionsKeepCoherence(Folded(options[..|options| - 1]).value, options[|options| - 1]);
    }
  }

  /** For options that apply, it is the kinds of options in the list that decide which constructor takes it: signers
      refuse a signature policy, multi-verifiers refuse custom headers, compact verifiers refuse both. */
  lemma {:induction false} ConstructorsRefuseByKind(options: seq<ConfigOption>)
    requires Folded(options).Success?
    ensures var s := Folded(options).value;
            var policy := exists i :: 0 <= i < |options| && options[i].WithSignaturePolicy?;
            var header := exists i :: 0 <= i < |options| && options[i].WithHeader?;
            && (ValidateSigner(s).None? <==> !policy)
            && (ValidateMultiVerifier(s).None? <==> !header)
            && (ValidateVerifier(s).None? <==> !policy && !header)
            && (forall refusal | refusal in [ValidateSigner(s), ValidateMultiVerifier(s), ValidateVerifier(s)] ::
                  refusal.Some? ==> ReachesExactly(refusal.value, JwsInvalidConfig))
  {
    AcceptedOptionsAreCoherent(options);
    FlagsRecordKinds(options);
  }

  lemma {:induction false} FlagsRecordKinds(options: seq<ConfigOption>)
    requires Folded(options).Success?
    ensures Folded(options).value.policySet <==> exists i :: 0 <= i < |options| && options[i].WithSignaturePolicy?
    ensures Folded(options).value.customHeaderSet <==> exists i :: 0 <= i < |options| && options[i].WithHeader?
  {
    if options != [] {
      var n := |options| - 1;
      FlagsRecordKinds(options[..n]);
      assert forall i :: 0 <= i < n ==> options[..n][i] == options[i];
    }
  }

  /** What an option writes under a header name, if anything. */
  function Written(o: ConfigOption, name: string): Option<HeaderValue> {
    match o
    case WithType(value) => if name == HEADER_TYPE then Some(TypedContentType(value)) else None
    case WithContentType(value) => if name == HEADER_CONTENT_TYPE then Some(TypedContentType(value)) else None
    case WithHeader(written, value) => if name == written then Some(value) else None
    case _ => None
  }

  /** A header is emitted exactly when some option writes its name, and with the value of the last one that does,
      whichever of the three kinds it is. */
  lemma {:induction false} LastWriteWins(options: seq<ConfigOption>, name: string)
    requires Folded(options).Success?
    ensures var extra := Folded(options).value.extraHeaders;
            && (name in extra <==> exists i :: 0 <= i < |options| && Written(options[i], name).Some?)
            && forall i :: 0 <= i < |options| && Written(options[i], name).Some?
                  && (forall j :: i < j < |options| ==> Written(options[j], name).None?)
                 ==> name in extra && Some(extra[name]) == Written(options[i], name)
  {
    if options != [] {
      var n := |options| - 1;
      var front := options[..n];
      LastWriteWins(front, name);
      assert forall i :: 0 <= i < n ==> front[i] == options[i];
      WritingIsLocal(Folded(front).value, options[n], name);
    }
  }

  lemma WritingIsLocal(s: Settings, o: ConfigOption, name: string)
    requires Applied(s, o).Success?
    ensures var before, after := s.extraHeaders, Applied(s, o).value.extraHeaders;
            match Written(o, name)
            case Some(value) => name in after && after[name] == value
            case None => (name in after <==> name in before) && (name in before ==> after[name] == before[name])
  {
  }

  /** The values the last `WithType` and the last `WithContentType` ask for. */
  function LastType(options: seq<ConfigOption>): string {
    if options == [] then ""
    else match options[|options| - 1]
      case WithType(value) => value
      case _ => LastType(options[..|options| - 1])
  }

  function LastContentType(options: seq<ConfigOption>): string {
    if options == [] then ""
    else match options[|options| - 1]
      case WithContentType(value) => value
      case _ => LastContentType(options[..|options| - 1])
  }

  lemma {:induction false} LastOfKindIsRequired(options: seq<ConfigOption>)
    requires Folded(options).Success?
    ensures Folded(options).value.typ == LastType(options)
    ensures Folded(options).value.cty == LastContentType(options)
  {
    if options != [] {
      LastOfKindIsRequired(options[..|options| - 1]);
    }
  }

  lemma StandardHeadersHold(typ: string, cty: string)
    ensures var extra := StandardHeaders(typ, cty);
            && (typ != "" ==> HEADER_TYPE in extra && extra[HEADER_TYPE] == TypedContentType(typ))
            && (cty != "" ==> HEADER_CONTENT_TYPE in extra && extra[HEADER_CONTENT_TYPE] == TypedContentType(cty))
  {
    assert HEADER_TYPE[0] != HEADER_CONTENT_TYPE[0];
  }

  /** What the policy asks for is always decided by the last option of the kind. Without `WithHeader` the same option
      decides the written header. */
  lemma {:induction false} LastTypeWins(options: seq<ConfigOption>)
    requires Folded(options).Success?
    ensures Folded(options).value.typ == LastType(options)
    ensures Folded(options).value.cty == LastContentType(options)
    ensures LastType(options) != "" && !Folded(options).value.customHeaderSet
        ==> HEADER_TYPE in Folded(options).value.extraHeaders
            && Folded(options).value.extraHeaders[HEADER_TYPE] == TypedContentType(LastType(options))
    ensures LastContentType(options) != "" && !Folded(options).value.customHeaderSet
        ==> HEADER_CONTENT_TYPE in Folded(options).value.extraHeaders
            && Folded(options).value.extraHeaders[HEADER_CONTENT_TYPE] == TypedContentType(LastContentType(options))
  {
    AcceptedOptionsAreCoherent(options);
    LastOfKindIsRequired(options);
    StandardHeadersHold(LastType(options), LastContentType(options));
  }

  /* ---- every setting is that of the last option of its kind ---- */

  function PolicyIn(o: ConfigOption): Option<Policy> {
    if o.WithSignaturePolicy? then Some(o.policy) else None
  }

  function TokenLimitIn(o: ConfigOption): Option<int> {
    if o.WithMaxTokenSize? then Some(o.limit) else None
  }

  function PayloadLimitIn(o: ConfigOption): Option<int> {
    if o.WithMaxPayloadSize? then Some(o.limit) else None
  }

  function SignatureLimitIn(o: ConfigOption): Option<int> {
    if o.WithMaxSignatures? then Some(o.limit) else None
  }

  // No option of another kind touches a setting.

  lemma PolicyWritten()
    ensures Writes(Applied, PolicyIn, (s: Settings) => s.policy)
  {
  }

  lemma TokenLimitWritten()
    ensures Writes(Applied, TokenLimitIn, (s: Settings) => s.maxTokenSize)
  {
  }

  lemma PayloadLimitWritten()
    ensures Writes(Applied, PayloadLimitIn, (s: Settings) => s.maxPayloadSize)
  {
  }

  lemma SignatureLimitWritten()
    ensures Writes(Applied, SignatureLimitIn, (s: Settings) => s.maxSignatures)
  {
  }

  /** The policy and the limits of an accepted list are those of the last option of the kind: any-signature, 32 MiB,
      16 MiB and 16 signatures when there is none. */
  lemma LastLimitsAndPolicyWin(options: seq<ConfigOption>)
    requires Folded(options).Success?
    ensures var s := Folded(options).value;
            && LastWins(options, PolicyIn, AnySignature, s.policy)
            && LastWins(options, TokenLimitIn, 32 * 1024 * 1024, s.maxTokenSize)
            && LastWins(options, PayloadLimitIn, 16 * 1024 * 1024, s.maxPayloadSize)
            && LastWins(options, SignatureLimitIn, 16, s.maxSignatures)
  {
    PolicyWritten();
    LastOptionWins(Defaults(), Applied, options, PolicyIn, (s: Settings) => s.policy);
    TokenLimitWritten();
    LastOptionWins(Defaults(), Applied, options, TokenLimitIn, (s: Settings) => s.maxTokenSize);
    PayloadLimitWritten();
    LastOptionWins(Defaults(), Applied, options, PayloadLimitIn, (s: Settings) => s.maxPayloadSize);
    SignatureLimitWritten();
    LastOptionWins(Defaults(), Applied, options, SignatureLimitIn, (s: Settings) => s.maxSignatures);
  }

  /** What is asked of an option, whatever the others are. */
  predicate AcceptableOption(o: ConfigOption) {
    match o
    case NilOption => false
    case WithType(value) => 0 < |value| <= 256 && ValidUTF8(value)
    case WithContentType(value) => 0 < |value| <= 256 && ValidUTF8(value)
    case WithMaxTokenSize(limit) => limit >= 1
    case WithMaxPayloadSize(limit) => limit >= 1
    case WithMaxSignatures(limit) => limit >= 1
    case WithHeader(_, _) => true
    case WithSignaturePolicy(policy) => ProperPolicy(policy)
  }

  /** A list is accepted exactly when each of its options is acceptable on its own, and a refusal is always an invalid
      configuration and nothing else. */
  lemma OptionsAreAcceptedOneByOne(options: seq<ConfigOption>)
    ensures Folded(options).Success? <==> forall i :: 0 <= i < |options| ==> AcceptableOption(options[i])
    ensures Folded(options).Failure? ==> ReachesExactly(Folded(options).error, JwsInvalidConfig)
  {
    forall s: Settings, o: ConfigOption
      ensures Applied(s, o).Success? <==> AcceptableOption(o)
      ensures Applied(s, o).Failure? ==> ReachesExactly(Applied(s, o).error, JwsInvalidConfig)
    {
      if o.WithSignaturePolicy? && !o.policy.Nil? {
        ValidationIsExact(o.policy);
      }
    }
    AcceptedOneByOne(Defaults(), Applied, AcceptableOption, options);
    RefusedWith(Defaults(), Applied, options, JwsInvalidConfig);
  }
}
