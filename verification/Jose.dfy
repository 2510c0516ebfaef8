/** The parts of go-jose values that both the jws and the jwe package read. */
module Jose {
  import opened Wrappers
  import opened Errors
  import opened Text

  const HEADER_TYPE := "typ"
  const HEADER_CONTENT_TYPE := "cty"
  const HEADER_CRITICAL := "crit"

  /** A Go `any` stored as a header parameter. `TypedContentType` is a `jose.ContentType`, whose Go type is not
      `string`; `OtherValue` is anything that JSON does not render as a string. */
  datatype HeaderValue =
    | JSONString(text: string)
    | TypedContentType(text: string)
    | OtherValue(tag: nat)

  type Parameters = map<string, HeaderValue>

  /** `jose.Header`: the named parameters go-jose extracts, and the rest. */
  datatype JoseHeader = JoseHeader(algorithm: string, keyID: string, nonce: string, extra: Parameters)

  /** What a parser on the other side finds where a value was written. */
  function OnWire(v: HeaderValue): HeaderValue {
    match v
    case TypedContentType(text) => JSONString(text)
    case _ => v
  }

  function ParametersOnWire(written: Parameters): Parameters {
    map name | name in written :: OnWire(written[name])
  }

  /** The checks shared by every header value: not empty, bounded, valid UTF-8. */
  predicate AcceptableValue(value: string, maxLength: nat) {
    value != "" && |value| <= maxLength && ValidUTF8(value)
  }

  predicate AcceptableIfPresent(value: string, maxLength: nat) {
    value == "" || AcceptableValue(value, maxLength)
  }

  /** `validateHeaderValue`. */
  function ValidateHeaderValue(value: string, maxLength: nat): (err: Option<Error>)
    ensures err.None? <==> AcceptableValue(value, maxLength)
  {
    if value == "" then Some(Plain)
    else if |value| > maxLength then Some(Plain)
    else if !ValidUTF8(value) then Some(Plain)
    else None
  }

  /** `headerString`: absent reads as the empty string, a value of another type is malformed. */
  function HeaderString(extra: Parameters, name: string, malformed: Sentinel): (r: Result<string, Error>)
    ensures r.Success? <==> (name in extra ==> extra[name].JSONString?)
    ensures r.Success? ==> r.value == TextOf(extra, name)
    ensures r.Failure? ==> ReachesExactly(r.error, malformed)
  {
    if name !in extra then Success("")
    else match extra[name]
      case JSONString(text) => Success(text)
      case _ => Failure(Marked(malformed))
  }

  /** A header value checked by a parser, which marks a failure as its package's malformed-token error. */
  function Checked(value: string, maxLength: nat, malformed: Sentinel): (err: Option<Error>)
    ensures err.None? <==> AcceptableValue(value, maxLength)
    ensures err.Some? ==> ReachesExactly(err.value, malformed)
  {
    match ValidateHeaderValue(value, maxLength)
    case Some(e) => Some(Classified(malformed, e))
    case None => None
  }

  function CheckedIfPresent(value: string, maxLength: nat, malformed: Sentinel): (err: Option<Error>)
    ensures err.None? <==> AcceptableIfPresent(value, maxLength)
    ensures err.Some? ==> ReachesExactly(err.value, malformed)
  {
    if value != "" then Checked(value, maxLength, malformed) else None
  }

  /** The text of a string parameter, empty when absent. */
  function TextOf(extra: Parameters, name: string): string {
    if name in extra && extra[name].JSONString? then extra[name].text else ""
  }

  /** An optional string parameter that is absent, or an empty or acceptable string. */
  predicate OptionalText(extra: Parameters, name: string, maxLength: nat) {
    name in extra ==> extra[name].JSONString? && AcceptableIfPresent(extra[name].text, maxLength)
  }

  /** typ and cty as options set them. */
  function StandardHeaders(typ: string, cty: string): Parameters {
    (if typ == "" then map[] else map[HEADER_TYPE := TypedContentType(typ)])
    + (if cty == "" then map[] else map[HEADER_CONTENT_TYPE := TypedContentType(cty)])
  }
}
