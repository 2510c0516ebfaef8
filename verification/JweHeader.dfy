/** jwe/header.go: the two parsers of JWE headers. */
module JweHeader {
  import opened Wrappers
  import opened Errors
  import opened Jose

  const HEADER_ENCRYPTION := "enc"
  const HEADER_COMPRESSION := "zip"
  const MAX_ALGORITHM_LENGTH := 64
  const MAX_TYPE_LENGTH := 128
  const MAX_CONTENT_TYPE_LENGTH := 128
  const COMPRESSION_NONE := ""
  const COMPRESSION_DEFLATE := "DEF"

  datatype Header = Header(
    algorithm: string, encryption: string, compression: string, keyID: string,
    typ: string, contentType: string, extra: Parameters)

  const MALFORMED := Marked(JweMalformedToken)

  /** `Header.validate`. */
  function Validate(h: Header): Option<Error> {
    if h.encryption == "" then Some(MALFORMED) else
    var enc := Checked(h.encryption, MAX_ALGORITHM_LENGTH, JweMalformedToken);
    if enc.Some? then enc else
    var alg := CheckedIfPresent(h.algorithm, MAX_ALGORITHM_LENGTH, JweMalformedToken);
    if alg.Some? then alg else
    var typ := CheckedIfPresent(h.typ, MAX_TYPE_LENGTH, JweMalformedToken);
    if typ.Some? then typ else
    var cty := CheckedIfPresent(h.contentType, MAX_CONTENT_TYPE_LENGTH, JweMalformedToken);
    if cty.Some? then cty else
    CheckedIfPresent(h.compression, MAX_ALGORITHM_LENGTH, JweMalformedToken)
  }

  function Field(source: JoseHeader, name: string): Result<string, Error> {
    HeaderString(source.extra, name, JweMalformedToken)
  }

  /** What both parsers read out of a go-jose header before they validate it. */
  function Fields(source: JoseHeader): Result<Header, Error> {
    if HEADER_CRITICAL in source.extra then Failure(MALFORMED) else
    var encryption := Field(source, HEADER_ENCRYPTION);
    if encryption.Failure? then Failure(encryption.error) else
    var typ := Field(source, HEADER_TYPE);
    if typ.Failure? then Failure(typ.error) else
    var contentType := Field(source, HEADER_CONTENT_TYPE);
    if contentType.Failure? then Failure(contentType.error) else
    var compression := Field(source, HEADER_COMPRESSION);
    if compression.Failure? then Failure(compression.error) else
    Success(Header(source.algorithm, encryption.value, compression.value, source.keyID,
                   typ.value, contentType.value, source.extra))
  }

  /** `parseHeader`: the header of one recipient, where alg is required. */
  function ParseHeader(source: JoseHeader): Result<Header, Error> {
    match Fields(source)
    case Failure(e) => Failure(e)
    case Success(header) =>
      if header.algorithm == "" then Failure(MALFORMED)
      else match Validate(header)
        case Some(e) => Failure(e)
        case None => Success(header)
  }

  /** `parseMultiSharedHeader`: the header all recipients share, where alg may be absent. */
  function ParseMultiSharedHeader(source: JoseHeader): Result<Header, Error> {
    match Fields(source)
    case Failure(e) => Failure(e)
    case Success(header) =>
      match Validate(header)
      case Some(e) => Failure(e)
      case None => Success(header)
  }

  predicate Supported(source: JoseHeader) {
    && HEADER_CRITICAL !in source.extra
    && HEADER_ENCRYPTION in source.extra && source.extra[HEADER_ENCRYPTION].JSONString?
    && AcceptableValue(source.extra[HEADER_ENCRYPTION].text, MAX_ALGORITHM_LENGTH)
    && AcceptableIfPresent(source.algorithm, MAX_ALGORITHM_LENGTH)
    && OptionalText(source.extra, HEADER_TYPE, MAX_TYPE_LENGTH)
    && OptionalText(source.extra, HEADER_CONTENT_TYPE, MAX_CONTENT_TYPE_LENGTH)
    && OptionalText(source.extra, HEADER_COMPRESSION, MAX_ALGORITHM_LENGTH)
  }

  /** The header as read, for a source both the reader and the validator accept. */
  function AsRead(source: JoseHeader): Header {
    Header(source.algorithm, TextOf(source.extra, HEADER_ENCRYPTION), TextOf(source.extra, HEADER_COMPRESSION),
           source.keyID, TextOf(source.extra, HEADER_TYPE), TextOf(source.extra, HEADER_CONTENT_TYPE), source.extra)
  }

  /** Both parsers accept exactly the supported headers and read them alike; only the recipient parser needs alg. */
  lemma ParsersAcceptExactly(source: JoseHeader)
    ensures ParseMultiSharedHeader(source).Success? <==> Supported(source)
    ensures ParseHeader(source).Success? <==> Supported(source) && source.algorithm != ""
    ensures ParseMultiSharedHeader(source).Success? ==> ParseMultiSharedHeader(source).value == AsRead(source)
    ensures ParseHeader(source).Success? ==> ParseHeader(source).value == AsRead(source)
    ensures ParseHeader(source).Failure? ==> ReachesExactly(ParseHeader(source).error, JweMalformedToken)
    ensures ParseMultiSharedHeader(source).Failure?
        ==> ReachesExactly(ParseMultiSharedHeader(source).error, JweMalformedToken)
  {
    if Fields(source).Failure? {
      FieldsRefusal(source);
    } else if Validate(Fields(source).value).Some? {
      ValidateRefusal(Fields(source).value);
    }
  }

  lemma FieldsRefusal(source: JoseHeader)
    requires Fields(source).Failure?
    ensures ReachesExactly(Fields(source).error, JweMalformedToken)
  {
  }

  lemma ValidateRefusal(h: Header)
    requires Validate(h).Some?
    ensures ReachesExactly(Validate(h).value, JweMalformedToken)
  {
  }
}
