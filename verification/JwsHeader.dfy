/** jws/header.go: the protected header and the typ/cty policy. */
module JwsHeader {
  import opened Wrappers
  import opened Errors
  import opened Jose

  const HEADER_BASE64 := "b64"
  const MAX_ALGORITHM_LENGTH := 64
  const MAX_KEY_ID_LENGTH := 256
  const MAX_TYPE_LENGTH := 256
  const MAX_CONTENT_TYPE_LENGTH := 256

  datatype Header = Header(
    algorithm: string, keyID: string, typ: string, contentType: string, nonce: string, extra: Parameters)

  // The zero value of the Go struct.
  const NO_HEADER := Header("", "", "", "", "", map[])

  /** `Header.validate`. */
  function ValidateHeader(header: Header): (err: Option<Error>) {
    var alg := Checked(header.algorithm, MAX_ALGORITHM_LENGTH, JwsMalformedToken);
    if alg.Some? then alg else
    var kid := CheckedIfPresent(header.keyID, MAX_KEY_ID_LENGTH, JwsMalformedToken);
    if kid.Some? then kid else
    var typ := CheckedIfPresent(header.typ, MAX_TYPE_LENGTH, JwsMalformedToken);
    if typ.Some? then typ else
    CheckedIfPresent(header.contentType, MAX_CONTENT_TYPE_LENGTH, JwsMalformedToken)
  }

  function ParseProtectedHeader(source: JoseHeader): Result<Header, Error> {
    if source.algorithm == "" then Failure(Marked(JwsMalformedToken))
    else if HEADER_CRITICAL in source.extra then Failure(Marked(JwsMalformedToken))
    else if HEADER_BASE64 in source.extra then Failure(Marked(JwsMalformedToken))
    else match HeaderString(source.extra, HEADER_TYPE, JwsMalformedToken)
      case Failure(e) => Failure(e)
      case Success(typ) =>
        match HeaderString(source.extra, HEADER_CONTENT_TYPE, JwsMalformedToken)
        case Failure(e) => Failure(e)
        case Success(contentType) =>
          var header := Header(source.algorithm, source.keyID, typ, contentType, source.nonce, source.extra);
          match ValidateHeader(header)
          case Some(e) => Failure(e)
          case None => Success(header)
  }

  predicate Supported(source: JoseHeader) {
    && AcceptableValue(source.algorithm, MAX_ALGORITHM_LENGTH)
    && AcceptableIfPresent(source.keyID, MAX_KEY_ID_LENGTH)
    && HEADER_CRITICAL !in source.extra && HEADER_BASE64 !in source.extra
    && OptionalText(source.extra, HEADER_TYPE, MAX_TYPE_LENGTH)
    && OptionalText(source.extra, HEADER_CONTENT_TYPE, MAX_CONTENT_TYPE_LENGTH)
  }

  /** The header as read, from a supported source. */
  function AsRead(source: JoseHeader): Header {
    Header(source.algorithm, source.keyID, TextOf(source.extra, HEADER_TYPE), TextOf(source.extra, HEADER_CONTENT_TYPE),
           source.nonce, source.extra)
  }

  /** Parsing accepts exactly the supported headers, copies them faithfully, and every rejection is
      a malformed-token error and no other (never, say, a key-not-found error that would be counted as local). */
  lemma ParseAcceptsExactlySupported(source: JoseHeader)
    ensures var r := ParseProtectedHeader(source);
            && (r.Success? <==> Supported(source))
            && (r.Failure? ==> ReachesExactly(r.error, JwsMalformedToken))
            && (r.Success? ==> r.value == AsRead(source))
  {
  }

  /** `validateHeaderPolicy`: typ is looked at first. */
  function ValidateHeaderPolicy(typ: string, cty: string, header: Header): (err: Option<Error>)
    ensures err.None? <==> (typ != "" ==> header.typ == typ) && (cty != "" ==> header.contentType == cty)
    ensures var expected := if typ != "" && header.typ != typ then JwsUnexpectedType else JwsUnexpectedContentType;
            err.Some? ==> forall s :: Is(err.value, s) <==> s == expected
  {
    if typ != "" && header.typ != typ then Some(Marked(JwsUnexpectedType))
    else if cty != "" && header.contentType != cty then Some(Marked(JwsUnexpectedContentType))
    else None
  }
}
