/** jwe/encrypter.go and jwe/multi_encrypter.go: the order in which configured headers are written. */
module JweEncrypter {
  import opened Wrappers
  import opened Jose
  import opened JweHeader
  import opened OptionFold
  import opened JweOptions
  import opened JweDecrypter

  /** Later writes win: the multi-encrypter writes extras first, the compact encrypter writes them last. */
  function MultiHeaders(s: Settings): Parameters {
    s.extraHeaders + StandardHeaders(s.typ, s.cty)
  }

  function CompactHeaders(s: Settings): Parameters {
    StandardHeaders(s.typ, s.cty) + s.extraHeaders
  }

  /** The headers with every extra written but the pending ones. */
  function WithoutPending(initial: Parameters, extraHeaders: Parameters, pending: set<string>): Parameters {
    initial + (extraHeaders - pending)
  }

  lemma AllExtrasPending(initial: Parameters, extraHeaders: Parameters)
    ensures WithoutPending(initial, extraHeaders, extraHeaders.Keys) == initial
    ensures WithoutPending(initial, extraHeaders, {}) == initial + extraHeaders
  {
    assert extraHeaders - {} == extraHeaders;
    assert extraHeaders - extraHeaders.Keys == map[];
    assert initial + map[] == initial;
  }

  /** Writes every extra header, in whatever order the map yields them. */
  method WriteExtras(initial: Parameters, extraHeaders: Parameters) returns (headers: Parameters)
    ensures headers == initial + extraHeaders
  {
    headers := initial;
    AllExtrasPending(initial, extraHeaders);
    var pending := extraHeaders.Keys;
    while pending != {}
      invariant pending <= extraHeaders.Keys
      invariant headers == WithoutPending(initial, extraHeaders, pending)
      decreases |pending|
    {
      var name :| name in pending;
      OneMoreExtra(initial, extraHeaders, pending, name);
      headers := headers[name := extraHeaders[name]];
      pending := pending - {name};
    }
  }

  lemma OneMoreExtra(initial: Parameters, extraHeaders: Parameters, pending: set<string>, name: string)
    requires name in pending && pending <= extraHeaders.Keys
    ensures WithoutPending(initial, extraHeaders, pending)[name := extraHeaders[name]]
         == WithoutPending(initial, extraHeaders, pending - {name})
  {
  }

  /** `buildEncrypter`. */
  method BuildMultiHeaders(s: Settings) returns (headers: Parameters)
    ensures headers == MultiHeaders(s)
  {
    headers := WriteExtras(map[], s.extraHeaders);
    if s.typ != "" {
      headers := headers[HEADER_TYPE := TypedContentType(s.typ)];
    }
    if s.cty != "" {
      headers := headers[HEADER_CONTENT_TYPE := TypedContentType(s.cty)];
    }
  }

  /** `newEncrypter`. */
  method BuildCompactHeaders(s: Settings) returns (headers: Parameters)
    ensures headers == CompactHeaders(s)
  {
    headers := map[];
    if s.typ != "" {
      headers := headers[HEADER_TYPE := TypedContentType(s.typ)];
    }
    if s.cty != "" {
      headers := headers[HEADER_CONTENT_TYPE := TypedContentType(s.cty)];
    }
    headers := WriteExtras(headers, s.extraHeaders);
  }

  /** A written parameter reads back as the given text. */
  predicate ReadsBack(headers: Parameters, name: string, text: string) {
    name in headers && OnWire(headers[name]) == JSONString(text)
  }

  /** `WithHeader` does not put another value under this name. */
  predicate NotOverridden(s: Settings, name: string, text: string) {
    name in s.extraHeaders ==> OnWire(s.extraHeaders[name]) == JSONString(text)
  }

  /** The multi-encrypter always emits the configured typ and cty; the compact encrypter emits each of them exactly
      when `WithHeader` does not override it with a different value. */
  lemma ConfiguredHeadersAreEmitted(s: Settings)
    ensures s.typ != "" ==> ReadsBack(MultiHeaders(s), HEADER_TYPE, s.typ)
    ensures s.cty != "" ==> ReadsBack(MultiHeaders(s), HEADER_CONTENT_TYPE, s.cty)
    ensures s.typ != "" ==> (ReadsBack(CompactHeaders(s), HEADER_TYPE, s.typ) <==> NotOverridden(s, HEADER_TYPE, s.typ))
    ensures s.cty != "" ==>
              (ReadsBack(CompactHeaders(s), HEADER_CONTENT_TYPE, s.cty)
               <==> NotOverridden(s, HEADER_CONTENT_TYPE, s.cty))
  {
    NamesDiffer();
  }

  /** A go-jose header whose typ and cty are the ones that were written. */
  predicate Carries(source: JoseHeader, headers: Parameters) {
    forall name | name in [HEADER_TYPE, HEADER_CONTENT_TYPE] ::
      && (name in source.extra <==> name in headers)
      && (name in headers ==> source.extra[name] == OnWire(headers[name]))
  }

  /** A decrypter built from the same options accepts typ and cty of what the multi-encrypter wrote, and of what the
      compact encrypter wrote exactly when no `WithHeader` overrides a configured value. */
  lemma SameOptionsAgree(options: seq<ConfigOption>, multi: JoseHeader, compact: JoseHeader)
    requires Folded(options).Success?
    requires ParseHeader(multi).Success? && ParseHeader(compact).Success?
    requires Carries(multi, MultiHeaders(Folded(options).value))
    requires Carries(compact, CompactHeaders(Folded(options).value))
    requires var s := Folded(options).value;
             forall source | source in [multi, compact] ::
               TextOf(source.extra, HEADER_COMPRESSION) in {COMPRESSION_NONE, s.compression}
    ensures var s := Folded(options).value;
            && MultiPolicy(s, ParseHeader(multi).value, false).None?
            && (CompactPolicy(s, ParseHeader(compact).value).None? <==>
                  && (s.typ != "" ==> NotOverridden(s, HEADER_TYPE, s.typ))
                  && (s.cty != "" ==> NotOverridden(s, HEADER_CONTENT_TYPE, s.cty)))
  {
    var s := Folded(options).value;
    ConfiguredHeadersAreEmitted(s);
    ParsersAcceptExactly(multi);
    ParsersAcceptExactly(compact);
    assert multi in [multi, compact] && compact in [multi, compact];
    var names := [HEADER_TYPE, HEADER_CONTENT_TYPE];
    assert HEADER_TYPE in names && HEADER_CONTENT_TYPE in names;
  }

  /** The override is real: this accepted option list makes the compact encrypter emit a typ that its own decrypter
      refuses, while the multi-encrypter emits the configured one. */
  lemma CompactOverrideExample()
    ensures var options := [WithType("JWT"), WithHeader(HEADER_TYPE, JSONString("x"))];
            && Folded(options).Success?
            && !ReadsBack(CompactHeaders(Folded(options).value), HEADER_TYPE, "JWT")
            && ReadsBack(MultiHeaders(Folded(options).value), HEADER_TYPE, "JWT")
  {
    assert AcceptableValue("JWT", MAX_TYPE_LENGTH);
    assert "JWT" != "x";
    FoldOfTwo("JWT", JSONString("x"));
    ConfiguredHeadersAreEmitted(Overridden("JWT", JSONString("x")));
  }

  /** The settings of a list that configures a typ and then writes another value under its name. */
  function Overridden(typ: string, value: HeaderValue): Settings {
    Defaults().(typ := typ, extraHeaders := map[HEADER_TYPE := value])
  }

  lemma FoldOfTwo(typ: string, value: HeaderValue)
    requires AcceptableValue(typ, MAX_TYPE_LENGTH)
    ensures Folded([WithType(typ), WithHeader(HEADER_TYPE, value)]) == Success(Overridden(typ, value))
  {
    var a, b := WithType(typ), WithHeader(HEADER_TYPE, value);
    FoldOfOneMore(Defaults(), Applied, [], a);
    FoldOfOneMore(Defaults(), Applied, [a], b);
    assert [] + [a] == [a] && [a] + [b] == [a, b];
  }

  predicate EmittedAsGiven(s: Settings, name: string) {
    && (name in MultiHeaders(s) <==> name in s.extraHeaders)
    && (name in CompactHeaders(s) <==> name in s.extraHeaders)
    && (name in s.extraHeaders ==> MultiHeaders(s)[name] == CompactHeaders(s)[name] == s.extraHeaders[name])
  }

  /** Apart from a configured typ and cty, both encrypters emit the extra headers as they were given, and nothing
      else. */
  lemma ExtrasAreEmitted(s: Settings, name: string)
    requires name == HEADER_TYPE ==> s.typ == ""
    requires name == HEADER_CONTENT_TYPE ==> s.cty == ""
    ensures EmittedAsGiven(s, name)
  {
    NamesDiffer();
  }
}
