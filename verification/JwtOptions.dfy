/** jwt/options.go and the option fold of jwt/verifier.go. */
module JwtOptions {
  import opened Wrappers
  import opened Errors
  import opened OptionFold
  import opened JwtKeys

  const DEFAULT_MAX_TOKEN_SIZE := 0x4000
  const MAX_TYPE_LENGTH := 128

  const MIN_DURATION := -0x8000_0000_0000_0000
  const MAX_DURATION := 0x7FFF_FFFF_FFFF_FFFF

  /** `time.Duration`: signed 64-bit nanoseconds. */
  type Duration = d: int | MIN_DURATION <= d <= MAX_DURATION

  datatype VerifierOption =
    | NilOption
    | WithType(value: string)
    | WithMaxTokenSize(size: int)
    | WithMethods(methods: seq<Option<Method>>)
    | WithIssuer(issuer: string)
    | WithAudience(audiences: seq<string>, all: bool)
    | WithSubject(subject: string)
    | WithLeeway(leeway: Duration)
    | WithClock(present: bool)
    | RequireExpiration
    | AllowMissingExpiration
    | RequireNotBefore
    | ValidateIssuedAt
    | RequireIssuedAt
    | WithMaxLifetime(lifetime: Duration)
    | WithMaxTokenAge(age: Duration)

  /** The contents of a `verifierConfig`. The clock itself is a parameter wherever time is read. */
  datatype Settings = Settings(
    methods: seq<Option<Method>>,
    issuer: string, audiences: seq<string>, allAudiences: bool, subject: string,
    leeway: Duration, typ: string, maxSize: int, maxLifetime: Duration, maxAge: Duration,
    requireExp: bool, requireNBF: bool, validateIAT: bool, requireIAT: bool)

  function Defaults(): Settings {
    Settings([], "", [], false, "", 0, "", DEFAULT_MAX_TOKEN_SIZE, 0, 0, true, false, false, false)
  }

  const INVALID := Marked(JwtInvalidConfig)

  predicate NamedMethod(m: Option<Method>) {
    m.Some? && m.value.alg != ""
  }

  function RefusedUnless(condition: bool): Option<Error> {
    if condition then None else Some(INVALID)
  }

  /** The check each option makes of its own value. */
  function Refused(o: VerifierOption): Option<Error> {
    match o
    case NilOption => Some(INVALID)
    case WithType(value) =>
      if value != "" && |value| <= MAX_TYPE_LENGTH then None else Some(Classified(JwtInvalidConfig, Plain))
    case WithMaxTokenSize(size) => RefusedUnless(size > 0)
    case WithMethods(methods) =>
      RefusedUnless(methods != [] && forall i :: 0 <= i < |methods| ==> NamedMethod(methods[i]))
    case WithIssuer(issuer) => RefusedUnless(issuer != "")
    case WithAudience(audiences, _) => RefusedUnless(audiences != [] && "" !in audiences)
    case WithSubject(subject) => RefusedUnless(subject != "")
    case WithLeeway(leeway) => RefusedUnless(leeway >= 0)
    case WithClock(present) => RefusedUnless(present)
    case WithMaxLifetime(lifetime) => RefusedUnless(lifetime > 0)
    case WithMaxTokenAge(age) => RefusedUnless(age > 0)
    case _ => None
  }

  /** What it then writes. */
  function Written(s: Settings, o: VerifierOption): Settings {
    match o
    case WithType(value) => s.(typ := value)
    case WithMaxTokenSize(size) => s.(maxSize := size)
    case WithMethods(methods) => s.(methods := methods)
    case WithIssuer(issuer) => s.(issuer := issuer)
    case WithAudience(audiences, all) => s.(audiences := audiences, allAudiences := all)
    case WithSubject(subject) => s.(subject := subject)
    case WithLeeway(leeway) => s.(leeway := leeway)
    case RequireExpiration => s.(requireExp := true)
    case AllowMissingExpiration => s.(requireExp := false)
    case RequireNotBefore => s.(requireNBF := true)
    case ValidateIssuedAt => s.(validateIAT := true)
    case RequireIssuedAt => s.(validateIAT := true, requireIAT := true)
    case WithMaxLifetime(lifetime) => s.(maxLifetime := lifetime)
    case WithMaxTokenAge(age) => s.(maxAge := age)
    case _ => s
  }

  function Applied(s: Settings, o: VerifierOption): Result<Settings, Error> {
    if Refused(o).Some? then Failure(Refused(o).value) else Success(Written(s, o))
  }

  function Folded(options: seq<VerifierOption>): Result<Settings, Error> {
    Fold(Defaults(), Applied, options)
  }

  /** The settings `NewVerifier` ends up with, for a non-nil resolver. */
  function VerifierSettings(options: seq<VerifierOption>): Result<Settings, Error> {
    match Folded(options)
    case Failure(e) => Failure(e)
    case Success(s) => if s.methods == [] then Failure(INVALID) else Success(s)
  }

  class VerifierConfig {
    var methods: seq<Option<Method>>
    var issuer: string
    var audiences: seq<string>
    var allAudiences: bool
    var subject: string
    var leeway: Duration
    var typ: string
    var maxSize: int
    var maxLifetime: Duration
    var maxAge: Duration
    var requireExp: bool
    var requireNBF: bool
    var validateIAT: bool
    var requireIAT: bool

    ghost function View(): Settings
      reads this
    {
      Settings(methods, issuer, audiences, allAudiences, subject, leeway, typ, maxSize, maxLifetime, maxAge,
               requireExp, requireNBF, validateIAT, requireIAT)
    }

    constructor ()
      ensures View() == Defaults()
    {
      methods, issuer, audiences, allAudiences, subject := [], "", [], false, "";
      leeway, typ, maxSize, maxLifetime, maxAge := 0, "", DEFAULT_MAX_TOKEN_SIZE, 0, 0;
      requireExp, requireNBF, validateIAT, requireIAT := true, false, false, false;
    }

    /** The options about header, parties and size. */
    method WriteIdentity(o: VerifierOption)
      requires o.WithType? || o.WithMaxTokenSize? || o.WithMethods?
            || o.WithIssuer? || o.WithAudience? || o.WithSubject?
      modifies this
      ensures View() == Written(old(View()), o)
    {
      match o {
        case WithType(value) => typ := value;
        case WithMaxTokenSize(size) => maxSize := size;
        case WithMethods(methods) => this.methods := methods;
        case WithIssuer(issuer) => this.issuer := issuer;
        case WithAudience(audiences, all) => this.audiences, allAudiences := audiences, all;
        case WithSubject(subject) => this.subject := subject;
      }
    }

    /** The options about which times have to be there. */
    method WriteRequirement(o: VerifierOption)
      requires o.RequireExpiration? || o.AllowMissingExpiration? || o.RequireNotBefore? || o.ValidateIssuedAt?
            || o.RequireIssuedAt?
      modifies this
      ensures View() == Written(old(View()), o)
    {
      match o {
        case RequireExpiration => requireExp := true;
        case AllowMissingExpiration => requireExp := false;
        case RequireNotBefore => requireNBF := true;
        case ValidateIssuedAt => validateIAT := true;
        case RequireIssuedAt => validateIAT, requireIAT := true, true;
      }
    }

    /** The options about how far apart they may be. */
    method WriteLimit(o: VerifierOption)
      requires o.WithLeeway? || o.WithMaxLifetime? || o.WithMaxTokenAge?
      modifies this
      ensures View() == Written(old(View()), o)
    {
      match o {
        case WithLeeway(leeway) => this.leeway := leeway;
        case WithMaxLifetime(lifetime) => maxLifetime := lifetime;
        case WithMaxTokenAge(age) => maxAge := age;
      }
    }

    /** `applyVerifier`, dispatched over the option: a refused option leaves the configuration as it was. */
    method Apply(o: VerifierOption) returns (err: Option<Error>)
      modifies this
      ensures match Applied(old(View()), o)
              case Success(s) => err.None? && View() == s
              case Failure(e) => err == Some(e) && View() == old(View())
    {
      err := Refusal(o);
      if err.Some? || o.WithClock? {
        return;
      }
      if o.WithType? || o.WithMaxTokenSize? || o.WithMethods? || o.WithIssuer? || o.WithAudience? || o.WithSubject? {
        WriteIdentity(o);
      } else if o.WithLeeway? || o.WithMaxLifetime? || o.WithMaxTokenAge? {
        WriteLimit(o);
      } else {
        WriteRequirement(o);
      }
    }
  }

  /** The check each `applyVerifier` makes before it writes anything. It does not read the configuration. */
  method Refusal(o: VerifierOption) returns (err: Option<Error>)
    ensures err == Refused(o)
  {
    match o {
      case NilOption => return Some(INVALID);
      case WithType(value) =>
        if value == "" || |value| > MAX_TYPE_LENGTH {
          return Some(Classified(JwtInvalidConfig, Plain));
        }
      case WithMaxTokenSize(size) => return RefusedUnless(size > 0);
      case WithMethods(methods) => err := CheckMethods(methods); return;
      case WithIssuer(issuer) => return RefusedUnless(issuer != "");
      case WithAudience(audiences, _) => err := CheckAudiences(audiences); return;
      case WithSubject(subject) => return RefusedUnless(subject != "");
      case WithLeeway(leeway) => return RefusedUnless(leeway >= 0);
      case WithClock(present) => return RefusedUnless(present);
      case WithMaxLifetime(lifetime) => return RefusedUnless(lifetime > 0);
      case WithMaxTokenAge(age) => return RefusedUnless(age > 0);
      case _ =>
    }
    return None;
  }

  method CheckMethods(methods: seq<Option<Method>>) returns (err: Option<Error>)
    ensures err == if methods != [] && (forall i :: 0 <= i < |methods| ==> NamedMethod(methods[i]))
                   then None else Some(INVALID)
  {
    if |methods| == 0 {
      return Some(INVALID);
    }
    for i := 0 to |methods|
      invariant forall k :: 0 <= k < i ==> NamedMethod(methods[k])
    {
      if methods[i].None? || methods[i].value.alg == "" {
        assert !NamedMethod(methods[i]);
        return Some(INVALID);
      }
    }
    return None;
  }

  method CheckAudiences(audiences: seq<string>) returns (err: Option<Error>)
    ensures err == if audiences != [] && "" !in audiences then None else Some(INVALID)
  {
    if |audiences| == 0 {
      return Some(INVALID);
    }
    for i := 0 to |audiences|
      invariant "" !in audiences[..i]
    {
      if audiences[i] == "" {
        return Some(INVALID);
      }
    }
    return None;
  }

  method NewVerifierConfig(options: seq<VerifierOption>) returns (config: VerifierConfig, err: Option<Error>)
    ensures fresh(config)
    ensures match VerifierSettings(options)
            case Success(s) => err.None? && config.View() == s
            case Failure(e) => err == Some(e)
  {
    config := new VerifierConfig();
    for i := 0 to |options|
      invariant fresh(config)
      invariant Folded(options[..i]) == Success(config.View())
    {
      assert options[..i + 1][..i] == options[..i];
      var e := config.Apply(options[i]);
      if e.Some? {
        RefusalIsFinal(Defaults(), Applied, options, i + 1);
        return config, e;
      }
    }
    assert options[..|options|] == options;
    if |config.methods| == 0 {
      return config, Some(INVALID);
    }
    return config, None;
  }

  /** All the bounds the options impose. */
  predicate Coherent(s: Settings) {
    && s.leeway >= 0 && s.maxAge >= 0 && s.maxLifetime >= 0 && s.maxSize > 0
    && (s.requireIAT ==> s.validateIAT)
    && "" !in s.audiences
    && forall i :: 0 <= i < |s.methods| ==> NamedMethod(s.methods[i])
  }

  lemma {:induction false} OptionsKeepCoherence(s: Settings, o: VerifierOption)
    requires Coherent(s) && Applied(s, o).Success?
    ensures Coherent(Applied(s, o).value)
  {
    match o
    case _ =>
  }

  lemma {:induction false} AcceptedOptionsAreCoherent(options: seq<VerifierOption>)
    requires Folded(options).Success?
    ensures Coherent(Folded(options).value)
  {
    if options != [] {
      AcceptedOptionsAreCoherent(options[..|options| - 1]);
      OptionsKeepCoherence(Folded(options[..|options| - 1]).value, options[|options| - 1]);
    }
  }

  /* ---- every setting is that of the last option of its kind ---- */

  function MethodsIn(o: VerifierOption): Option<seq<Option<Method>>> {
    if o.WithMethods? then Some(o.methods) else None
  }

  function TypeIn(o: VerifierOption): Option<string> {
    if o.WithType? then Some(o.value) else None
  }

  function IssuerIn(o: VerifierOption): Option<string> {
    if o.WithIssuer? then Some(o.issuer) else None
  }

  function SubjectIn(o: VerifierOption): Option<string> {
    if o.WithSubject? then Some(o.subject) else None
  }

  function AudiencesIn(o: VerifierOption): Option<(seq<string>, bool)> {
    if o.WithAudience? then Some((o.audiences, o.all)) else None
  }

  function SizeIn(o: VerifierOption): Option<int> {
    if o.WithMaxTokenSize? then Some(o.size) else None
  }

  function LeewayIn(o: VerifierOption): Option<Duration> {
    if o.WithLeeway? then Some(o.leeway) else None
  }

  function LifetimeIn(o: VerifierOption): Option<Duration> {
    if o.WithMaxLifetime? then Some(o.lifetime) else None
  }

  function AgeIn(o: VerifierOption): Option<Duration> {
    if o.WithMaxTokenAge? then Some(o.age) else None
  }

  function ExpirationIn(o: VerifierOption): Option<bool> {
    match o
    case RequireExpiration => Some(true)
    case AllowMissingExpiration => Some(false)
    case _ => None
  }

  function NotBeforeIn(o: VerifierOption): Option<bool> {
    if o.RequireNotBefore? then Some(true) else None
  }

  function CheckedIATIn(o: VerifierOption): Option<bool> {
    if o.ValidateIssuedAt? || o.RequireIssuedAt? then Some(true) else None
  }

  function RequiredIATIn(o: VerifierOption): Option<bool> {
    if o.RequireIssuedAt? then Some(true) else None
  }

  // No option of another kind touches a setting.

  lemma MethodsWritten()
    ensures Writes(Applied, MethodsIn, (s: Settings) => s.methods)
  {
    forall s: Settings, o: VerifierOption
      ensures Written(s, o).methods == (if MethodsIn(o).Some? then MethodsIn(o).value else s.methods)
    {
    }
  }

  lemma TypeWritten()
    ensures Writes(Applied, TypeIn, (s: Settings) => s.typ)
  {
    forall s: Settings, o: VerifierOption
      ensures Written(s, o).typ == (if TypeIn(o).Some? then TypeIn(o).value else s.typ)
    {
    }
  }

  lemma IssuerWritten()
    ensures Writes(Applied, IssuerIn, (s: Settings) => s.issuer)
  {
    forall s: Settings, o: VerifierOption
      ensures Written(s, o).issuer == (if IssuerIn(o).Some? then IssuerIn(o).value else s.issuer)
    {
    }
  }

  lemma SubjectWritten()
    ensures Writes(Applied, SubjectIn, (s: Settings) => s.subject)
  {
    forall s: Settings, o: VerifierOption
      ensures Written(s, o).subject == (if SubjectIn(o).Some? then SubjectIn(o).value else s.subject)
    {
    }
  }

  lemma AudiencesWritten()
    ensures Writes(Applied, AudiencesIn, (s: Settings) => (s.audiences, s.allAudiences))
  {
    forall s: Settings, o: VerifierOption
      ensures (Written(s, o).audiences, Written(s, o).allAudiences)
           == (if AudiencesIn(o).Some? then AudiencesIn(o).value else (s.audiences, s.allAudiences))
    {
    }
  }

  lemma SizeWritten()
    ensures Writes(Applied, SizeIn, (s: Settings) => s.maxSize)
  {
    forall s: Settings, o: VerifierOption
      ensures Written(s, o).maxSize == (if SizeIn(o).Some? then SizeIn(o).value else s.maxSize)
    {
    }
  }

  lemma ExpirationWritten()
    ensures Writes(Applied, ExpirationIn, (s: Settings) => s.requireExp)
  {
    forall s: Settings, o: VerifierOption
      ensures Written(s, o).requireExp == (if ExpirationIn(o).Some? then ExpirationIn(o).value else s.requireExp)
    {
    }
  }

  lemma NotBeforeWritten()
    ensures Writes(Applied, NotBeforeIn, (s: Settings) => s.requireNBF)
  {
    forall s: Settings, o: VerifierOption
      ensures Written(s, o).requireNBF == (if NotBeforeIn(o).Some? then NotBeforeIn(o).value else s.requireNBF)
    {
    }
  }

  lemma CheckedIATWritten()
    ensures Writes(Applied, CheckedIATIn, (s: Settings) => s.validateIAT)
  {
    forall s: Settings, o: VerifierOption
      ensures Written(s, o).validateIAT == (if CheckedIATIn(o).Some? then CheckedIATIn(o).value else s.validateIAT)
    {
    }
  }

  lemma RequiredIATWritten()
    ensures Writes(Applied, RequiredIATIn, (s: Settings) => s.requireIAT)
  {
    forall s: Settings, o: VerifierOption
      ensures Written(s, o).requireIAT == (if RequiredIATIn(o).Some? then RequiredIATIn(o).value else s.requireIAT)
    {
    }
  }

  lemma LeewayWritten()
    ensures Writes(Applied, LeewayIn, (s: Settings) => s.leeway)
  {
    forall s: Settings, o: VerifierOption
      ensures Written(s, o).leeway == (if LeewayIn(o).Some? then LeewayIn(o).value else s.leeway)
    {
    }
  }

  lemma LifetimeWritten()
    ensures Writes(Applied, LifetimeIn, (s: Settings) => s.maxLifetime)
  {
    forall s: Settings, o: VerifierOption
      ensures Written(s, o).maxLifetime == (if LifetimeIn(o).Some? then LifetimeIn(o).value else s.maxLifetime)
    {
    }
  }

  lemma AgeWritten()
    ensures Writes(Applied, AgeIn, (s: Settings) => s.maxAge)
  {
    forall s: Settings, o: VerifierOption
      ensures Written(s, o).maxAge == (if AgeIn(o).Some? then AgeIn(o).value else s.maxAge)
    {
    }
  }

  /** Whom and what an accepted list asks for: by default any issuer, audience, subject and typ, and up to 16 KiB. */
  lemma LastIdentityOptionsWin(options: seq<VerifierOption>)
    requires Folded(options).Success?
    ensures var s := Folded(options).value;
            && LastWins(options, MethodsIn, [], s.methods)
            && LastWins(options, TypeIn, "", s.typ)
            && LastWins(options, IssuerIn, "", s.issuer)
            && LastWins(options, SubjectIn, "", s.subject)
            && LastWins(options, AudiencesIn, ([], false), (s.audiences, s.allAudiences))
            && LastWins(options, SizeIn, 16 * 1024, s.maxSize)
  {
    MethodsWritten();
    LastOptionWins(Defaults(), Applied, options, MethodsIn, (s: Settings) => s.methods);
    TypeWritten();
    LastOptionWins(Defaults(), Applied, options, TypeIn, (s: Settings) => s.typ);
    IssuerWritten();
    LastOptionWins(Defaults(), Applied, options, IssuerIn, (s: Settings) => s.issuer);
    SubjectWritten();
    LastOptionWins(Defaults(), Applied, options, SubjectIn, (s: Settings) => s.subject);
    AudiencesWritten();
    LastOptionWins(Defaults(), Applied, options, AudiencesIn, (s: Settings) => (s.audiences, s.allAudiences));
    SizeWritten();
    LastOptionWins(Defaults(), Applied, options, SizeIn, (s: Settings) => s.maxSize);
  }

  /** What it asks of the times: by default exp has to be there, nothing else is, and no limit applies. */
  lemma LastTimeOptionsWin(options: seq<VerifierOption>)
    requires Folded(options).Success?
    ensures var s := Folded(options).value;
            && LastWins(options, ExpirationIn, true, s.requireExp)
            && LastWins(options, NotBeforeIn, false, s.requireNBF)
            && LastWins(options, CheckedIATIn, false, s.validateIAT)
            && LastWins(options, RequiredIATIn, false, s.requireIAT)
            && LastWins(options, LeewayIn, 0, s.leeway)
            && LastWins(options, LifetimeIn, 0, s.maxLifetime)
            && LastWins(options, AgeIn, 0, s.maxAge)
  {
    ExpirationWritten();
    LastOptionWins(Defaults(), Applied, options, ExpirationIn, (s: Settings) => s.requireExp);
    NotBeforeWritten();
    LastOptionWins(Defaults(), Applied, options, NotBeforeIn, (s: Settings) => s.requireNBF);
    CheckedIATWritten();
    LastOptionWins(Defaults(), Applied, options, CheckedIATIn, (s: Settings) => s.validateIAT);
    RequiredIATWritten();
    LastOptionWins(Defaults(), Applied, options, RequiredIATIn, (s: Settings) => s.requireIAT);
    LeewayWritten();
    LastOptionWins(Defaults(), Applied, options, LeewayIn, (s: Settings) => s.leeway);
    LifetimeWritten();
    LastOptionWins(Defaults(), Applied, options, LifetimeIn, (s: Settings) => s.maxLifetime);
    AgeWritten();
    LastOptionWins(Defaults(), Applied, options, AgeIn, (s: Settings) => s.maxAge);
  }

  /** What is asked of an option, whatever the others are. */
  predicate AcceptableOption(o: VerifierOption) {
    match o
    case NilOption => false
    case WithType(value) => 0 < |value| <= 128
    case WithMaxTokenSize(size) => size >= 1
    case WithMethods(methods) =>
      |methods| > 0 && forall i :: 0 <= i < |methods| ==> methods[i].Some? && |methods[i].value.alg| > 0
    case WithIssuer(issuer) => |issuer| > 0
    case WithAudience(audiences, _) => |audiences| > 0 && forall i :: 0 <= i < |audiences| ==> |audiences[i]| > 0
    case WithSubject(subject) => |subject| > 0
    case WithLeeway(leeway) => leeway >= 0
    case WithClock(present) => present
    case WithMaxLifetime(lifetime) => lifetime >= 1
    case WithMaxTokenAge(age) => age >= 1
    case _ => true
  }

  /** A verifier is configured exactly when each option is acceptable on its own and one of them names the methods. A
      refusal is always an invalid configuration and nothing else. */
  lemma VerifierIsConfiguredExactly(options: seq<VerifierOption>)
    ensures VerifierSettings(options).Success?
       <==> && (forall i :: 0 <= i < |options| ==> AcceptableOption(options[i]))
            && exists i :: 0 <= i < |options| && options[i].WithMethods?
    ensures VerifierSettings(options).Failure? ==> ReachesExactly(VerifierSettings(options).error, JwtInvalidConfig)
    ensures VerifierSettings(options).Success? ==> VerifierSettings(options) == Folded(options)
  {
    forall s: Settings, o: VerifierOption
      ensures Applied(s, o).Success? <==> AcceptableOption(o)
      ensures Applied(s, o).Failure? ==> ReachesExactly(Applied(s, o).error, JwtInvalidConfig)
    {
      EmptyAudience(o);
    }
    AcceptedOneByOne(Defaults(), Applied, AcceptableOption, options);
    RefusedWith(Defaults(), Applied, options, JwtInvalidConfig);
    if Folded(options).Success? {
      MethodsAreNamed(options);
    }
  }

  lemma EmptyAudience(o: VerifierOption)
    ensures o.WithAudience? ==> ("" in o.audiences <==> exists i :: 0 <= i < |o.audiences| && |o.audiences[i]| == 0)
  {
    if o.WithAudience? {
      assert forall i :: 0 <= i < |o.audiences| && |o.audiences[i]| == 0 ==> o.audiences[i] == "";
    }
  }

  lemma MethodsAreNamed(options: seq<VerifierOption>)
    requires Folded(options).Success?
    requires forall i :: 0 <= i < |options| ==> AcceptableOption(options[i])
    ensures Folded(options).value.methods != [] <==> exists i :: 0 <= i < |options| && options[i].WithMethods?
  {
    MethodsWritten();
    LastOptionWins(Defaults(), Applied, options, MethodsIn, (s: Settings) => s.methods);
    if exists i :: 0 <= i < |options| && options[i].WithMethods? {
      var last := LastWriter(options, MethodsIn);
      assert AcceptableOption(options[last]);
    }
  }
}
