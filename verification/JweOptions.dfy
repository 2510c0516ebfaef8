/** jwe/options.go. */
module JweOptions {
  import opened Wrappers
  import opened Errors
  import opened OptionFold
  import opened Text
  import opened Jose
  import opened JweHeader

  const DEFAULT_MAX_TOKEN_SIZE := 0x8000
  const DEFAULT_MAX_PLAINTEXT_SIZE := 0x4000

  datatype ConfigOption =
    | NilOption
    | WithType(value: string)
    | WithContentType(value: string)
    | WithCompression(algorithm: string)
    | WithMaxTokenSize(size: int)
    | WithMaxPlaintextSize(size: int)
    | WithHeader(name: string, headerValue: HeaderValue)

  datatype Settings = Settings(
    typ: string, cty: string, compression: string,
    maxTokenSize: int, maxPlaintextSize: int, extraHeaders: Parameters)

  function Defaults(): Settings {
    Settings("", "", COMPRESSION_NONE, DEFAULT_MAX_TOKEN_SIZE, DEFAULT_MAX_PLAINTEXT_SIZE, map[])
  }

  const INVALID := Marked(JweInvalidConfig)

  function Applied(s: Settings, o: ConfigOption): Result<Settings, Error> {
    match o
    case NilOption => Failure(INVALID)
    case WithType(value) =>
      if AcceptableValue(value, MAX_TYPE_LENGTH) then Success(s.(typ := value))
      else Failure(Classified(JweInvalidConfig, Plain))
    case WithContentType(value) =>
      if AcceptableValue(value, MAX_CONTENT_TYPE_LENGTH) then Success(s.(cty := value))
      else Failure(Classified(JweInvalidConfig, Plain))
    case WithCompression(algorithm) =>
      if algorithm == COMPRESSION_NONE || algorithm == COMPRESSION_DEFLATE then Success(s.(compression := algorithm))
      else Failure(INVALID)
    case WithMaxTokenSize(size) => if size <= 0 then Failure(INVALID) else Success(s.(maxTokenSize := size))
    case WithMaxPlaintextSize(size) => if size <= 0 then Failure(INVALID) else Success(s.(maxPlaintextSize := size))
    case WithHeader(name, value) => Success(s.(extraHeaders := s.extraHeaders[name := value]))
  }

  function Folded(options: seq<ConfigOption>): Result<Settings, Error> {
    Fold(Defaults(), Applied, options)
  }

  class Config {
    var typ: string
    var cty: string
    var compression: string
    var maxTokenSize: int
    var maxPlaintextSize: int
    var extraHeaders: Parameters

    ghost function View(): Settings
      reads this
    {
      Settings(typ, cty, compression, maxTokenSize, maxPlaintextSize, extraHeaders)
    }

    constructor ()
      ensures View() == Defaults()
    {
      typ, cty, compression := "", "", COMPRESSION_NONE;
      maxTokenSize, maxPlaintextSize := DEFAULT_MAX_TOKEN_SIZE, DEFAULT_MAX_PLAINTEXT_SIZE;
      extraHeaders := map[];
    }

    /** `apply`, dispatched over the option: a refused option leaves the configuration as it was. */
    method Apply(o: ConfigOption) returns (err: Option<Error>)
      modifies this
      ensures match Applied(old(View()), o)
              case Success(s) => err.None? && View() == s
              case Failure(e) => err == Some(e) && View() == old(View())
    {
      match o {
        case NilOption => return Some(INVALID);
        case WithType(value) =>
          var invalid := ValidateHeaderValue(value, MAX_TYPE_LENGTH);
          if invalid.Some? {
            return Some(Classified(JweInvalidConfig, invalid.value));
          }
          typ := value;
        case WithContentType(value) =>
          var invalid := ValidateHeaderValue(value, MAX_CONTENT_TYPE_LENGTH);
          if invalid.Some? {
            return Some(Classified(JweInvalidConfig, invalid.value));
          }
          cty := value;
        case WithCompression(algorithm) =>
          if algorithm != COMPRESSION_NONE && algorithm != COMPRESSION_DEFLATE {
            return Some(INVALID);
          }
          compression := algorithm;
        case WithMaxTokenSize(size) =>
          if size <= 0 {
            return Some(INVALID);
          }
          maxTokenSize := size;
        case WithMaxPlaintextSize(size) =>
          if size <= 0 {
            return Some(INVALID);
          }
          maxPlaintextSize := size;
        case WithHeader(name, value) =>
          extraHeaders := extraHeaders[name := value];
      }
      return None;
    }
  }

  method MakeConfig(options: seq<ConfigOption>) returns (config: Config, err: Option<Error>)
    ensures fresh(config)
    ensures match Folded(options)
            case Success(s) => err.None? && config.View() == s
            case Failure(e) => err == Some(e)
  {
    config := new Config();
    for i := 0 to |options|
      invariant fresh(config)
      invariant Folded(options[..i]) == Success(config.View())
    {
      assert options[..i + 1][..i] == options[..i];
      var e := config.Apply(options[i]);
      if e.Some? {
        RefusalIsFinal(Defaults(), Applied, options, i + 1);
        return config, e;
      }
    }
    assert options[..|options|] == options;
    return config, None;
  }

  predicate Coherent(s: Settings) {
    && AcceptableIfPresent(s.typ, MAX_TYPE_LENGTH) && AcceptableIfPresent(s.cty, MAX_CONTENT_TYPE_LENGTH)
    && (s.compression == COMPRESSION_NONE || s.compression == COMPRESSION_DEFLATE)
    && s.maxTokenSize > 0 && s.maxPlaintextSize > 0
  }

  lemma OptionsKeepCoherence(s: Settings, o: ConfigOption)
    requires Coherent(s) && Applied(s, o).Success?
    ensures Coherent(Applied(s, o).value)
  {
  }

  lemma {:induction false} AcceptedOptionsAreCoherent(options: seq<ConfigOption>)
    requires Folded(options).Success?
    ensures Coherent(Folded(options).value)
  {
    if options != [] {
      AcceptedOptionsAreCoherent(options[..|options| - 1]);
      OptionsKeepCoherence(Folded(options[..|options| - 1]).value, options[|options| - 1]);
    }
  }

  /* ---- every setting is that of the last option of its kind ---- */

  function TypeIn(o: ConfigOption): Option<string> {
    if o.WithType? then Some(o.value) else None
  }

  function ContentTypeIn(o: ConfigOption): Option<string> {
    if o.WithContentType? then Some(o.value) else None
  }

  function CompressionIn(o: ConfigOption): Option<string> {
    if o.WithCompression? then Some(o.algorithm) else None
  }

  function TokenLimitIn(o: ConfigOption): Option<int> {
    if o.WithMaxTokenSize? then Some(o.size) else None
  }

  function PlaintextLimitIn(o: ConfigOption): Option<int> {
    if o.WithMaxPlaintextSize? then Some(o.size) else None
  }

  /** What an option sets an extra header of this name to. */
  function ExtraIn(o: ConfigOption, name: string): Option<Option<HeaderValue>> {
    if o.WithHeader? && o.name == name then Some(Some(o.headerValue)) else None
  }

  function Extra(s: Settings, name: string): Option<HeaderValue> {
    if name in s.extraHeaders then Some(s.extraHeaders[name]) else None
  }

  // No option of another kind touches a setting.

  lemma TypeWritten()
    ensures Writes(Applied, TypeIn, (s: Settings) => s.typ)
  {
  }

  lemma ContentTypeWritten()
    ensures Writes(Applied, ContentTypeIn, (s: Settings) => s.cty)
  {
  }

  lemma CompressionWritten()
    ensures Writes(Applied, CompressionIn, (s: Settings) => s.compression)
  {
  }

  lemma TokenLimitWritten()
    ensures Writes(Applied, TokenLimitIn, (s: Settings) => s.maxTokenSize)
  {
  }

  lemma PlaintextLimitWritten()
    ensures Writes(Applied, PlaintextLimitIn, (s: Settings) => s.maxPlaintextSize)
  {
  }

  lemma ExtraWritten(name: string)
    ensures Writes(Applied, o => ExtraIn(o, name), (s: Settings) => Extra(s, name))
  {
  }

  /** Every setting of an accepted list is that of the last option of the kind. Without one nothing is asked of typ and
      cty, compression is off, no extra header is set, and the limits are 32 KiB and 16 KiB. */
  lemma LastOptionsWin(options: seq<ConfigOption>, name: string)
    requires Folded(options).Success?
    ensures var s := Folded(options).value;
            && LastWins(options, TypeIn, "", s.typ)
            && LastWins(options, ContentTypeIn, "", s.cty)
            && LastWins(options, CompressionIn, "", s.compression)
            && LastWins(options, TokenLimitIn, 32 * 1024, s.maxTokenSize)
            && LastWins(options, PlaintextLimitIn, 16 * 1024, s.maxPlaintextSize)
            && LastWins(options, o => ExtraIn(o, name), None, Extra(s, name))
  {
    TypeWritten();
    LastOptionWins(Defaults(), Applied, options, TypeIn, (s: Settings) => s.typ);
    ContentTypeWritten();
    LastOptionWins(Defaults(), Applied, options, ContentTypeIn, (s: Settings) => s.cty);
    CompressionWritten();
    LastOptionWins(Defaults(), Applied, options, CompressionIn, (s: Settings) => s.compression);
    TokenLimitWritten();
    LastOptionWins(Defaults(), Applied, options, TokenLimitIn, (s: Settings) => s.maxTokenSize);
    PlaintextLimitWritten();
    LastOptionWins(Defaults(), Applied, options, PlaintextLimitIn, (s: Settings) => s.maxPlaintextSize);
    ExtraWritten(name);
    LastOptionWins(Defaults(), Applied, options, o => ExtraIn(o, name), (s: Settings) => Extra(s, name));
  }

  /** What is asked of an option, whatever the others are. */
  predicate AcceptableOption(o: ConfigOption) {
    match o
    case NilOption => false
    case WithType(value) => 0 < |value| <= 128 && ValidUTF8(value)
    case WithContentType(value) => 0 < |value| <= 128 && ValidUTF8(value)
    case WithCompression(algorithm) => algorithm == "" || algorithm == "DEF"
    case WithMaxTokenSize(size) => size >= 1
    case WithMaxPlaintextSize(size) => size >= 1
    case WithHeader(_, _) => true
  }

  /** A list is accepted exactly when each of its options is acceptable on its own, and a refusal is always an invalid
      configuration and nothing else. */
  lemma OptionsAreAcceptedOneByOne(options: seq<ConfigOption>)
    ensures Folded(options).Success? <==> forall i :: 0 <= i < |options| ==> AcceptableOption(options[i])
    ensures Folded(options).Failure? ==> ReachesExactly(Folded(options).error, JweInvalidConfig)
  {
    AcceptedOneByOne(Defaults(), Applied, AcceptableOption, options);
    RefusedWith(Defaults(), Applied, options, JweInvalidConfig);
  }
}
