/** jwe/multi_decrypter.go and jwe/decrypter.go: header policy before and after recipient selection. */
module JweDecrypter {
  import opened Wrappers
  import opened Errors
  import opened Jose
  import opened JweHeader
  import opened JweOptions

  /** A decryption key is known by identity only. */
  type KeyIdentity = nat

  /** What go-jose reports when some recipient decrypts: its position, the merged header and the plaintext. */
  datatype Opened = Opened(recipient: nat, header: JoseHeader, plaintext: seq<byte>)

  /** A parsed JWE JSON object: the shared header, and go-jose's attempt to open it with a key. */
  datatype EncryptedObject = EncryptedObject(
    shared: JoseHeader, recipients: seq<JoseHeader>, authData: seq<byte>,
    open: KeyIdentity -> Result<Opened, Error>)

  type Resolver = Header -> Result<Option<KeyIdentity>, Error>

  datatype MultiDecrypted = MultiDecrypted(recipient: nat, header: Header, plaintext: seq<byte>, authData: seq<byte>)

  function MultiPolicy(s: Settings, header: Header, allowMissingHeaders: bool): Option<Error> {
    if s.typ != "" && header.typ == "" && !allowMissingHeaders then Some(Root(JweUnexpectedType))
    else if s.typ != "" && header.typ != "" && header.typ != s.typ then Some(Root(JweUnexpectedType))
    else if s.cty != "" && header.contentType == "" && !allowMissingHeaders then Some(Root(JweUnexpectedContentType))
    else if s.cty != "" && header.contentType != "" && header.contentType != s.cty
    then Some(Root(JweUnexpectedContentType))
    else if header.compression != COMPRESSION_NONE && header.compression != s.compression
    then Some(Marked(JweUnexpectedCompression))
    else None
  }

  /** The compact decrypter's `validatePolicy`. */
  function CompactPolicy(s: Settings, header: Header): Option<Error> {
    if s.typ != "" && header.typ != s.typ then Some(Root(JweUnexpectedType))
    else if s.cty != "" && header.contentType != s.cty then Some(Root(JweUnexpectedContentType))
    else if header.compression != COMPRESSION_NONE && header.compression != s.compression
    then Some(Marked(JweUnexpectedCompression))
    else None
  }

  /** After selection the multi-decrypter applies the compact decrypter's policy, error for error. */
  lemma FinalModeIsCompactPolicy(s: Settings, header: Header)
    ensures MultiPolicy(s, header, false) == CompactPolicy(s, header)
  {
  }

  /** The steps after the shared header has been accepted. */
  function AfterShared(resolve: Resolver, s: Settings, jwe: EncryptedObject, shared: Header)
    : Result<MultiDecrypted, Error>
  {
    match resolve(shared)
    case Failure(e) => Failure(e)
    case Success(None) => Failure(Marked(JweDecrypt))
    case Success(Some(key)) =>
      match jwe.open(key)
      case Failure(e) => Failure(Classified(JweDecrypt, e))
      case Success(found) =>
        match ParseHeader(found.header)
        case Failure(e) => Failure(e)
        case Success(header) =>
          match MultiPolicy(s, header, false)
          case Some(e) => Failure(e)
          case None =>
            if |found.plaintext| > s.maxPlaintextSize then Failure(Marked(JwePlaintextTooLarge))
            else Success(MultiDecrypted(found.recipient, header, found.plaintext, jwe.authData))
  }

  /** `DecryptToken` of the multi-decrypter, from the parsed object on. */
  function DecryptToken(resolve: Resolver, s: Settings, jwe: EncryptedObject): Result<MultiDecrypted, Error> {
    match ParseMultiSharedHeader(jwe.shared)
    case Failure(e) => Failure(e)
    case Success(shared) =>
      match MultiPolicy(s, shared, true)
      case Some(e) => Failure(e)
      case None => AfterShared(resolve, s, jwe, shared)
  }

  /** The same without the policy check on the shared header. */
  function DecryptTokenLate(resolve: Resolver, s: Settings, jwe: EncryptedObject): Result<MultiDecrypted, Error> {
    match ParseMultiSharedHeader(jwe.shared)
    case Failure(e) => Failure(e)
    case Success(shared) => AfterShared(resolve, s, jwe, shared)
  }

  /* ---- merged headers (section 7.2.1 of RFC 7516) ---- */

  /** Merging adds parameters and changes none. */
  predicate Extends(merged: JoseHeader, shared: JoseHeader) {
    && (shared.algorithm != "" ==> merged.algorithm == shared.algorithm)
    && forall name | name in shared.extra :: name in merged.extra && merged.extra[name] == shared.extra[name]
  }

  function Merge(shared: JoseHeader, recipient: JoseHeader): JoseHeader {
    JoseHeader(
      if shared.algorithm != "" then shared.algorithm else recipient.algorithm,
      if shared.keyID != "" then shared.keyID else recipient.keyID,
      if shared.nonce != "" then shared.nonce else recipient.nonce,
      recipient.extra + shared.extra)
  }

  /** go-jose reports the merge of the shared header and the header of the recipient it selected. */
  ghost predicate OpensByMerging(jwe: EncryptedObject) {
    forall key :: jwe.open(key).Success? ==>
      var found := jwe.open(key).value;
      found.recipient < |jwe.recipients|
      && found.header == Merge(jwe.shared, jwe.recipients[found.recipient])
  }

  lemma MergeExtends(shared: JoseHeader, recipient: JoseHeader)
    ensures Extends(Merge(shared, recipient), shared)
  {
  }

  /** A policy violation visible in the shared header is a violation of every header that extends it. */
  lemma SharedRejectionIsFinal(s: Settings, shared: JoseHeader, merged: JoseHeader)
    requires Extends(merged, shared)
    requires ParseMultiSharedHeader(shared).Success? && ParseHeader(merged).Success?
    requires MultiPolicy(s, ParseMultiSharedHeader(shared).value, true).Some?
    ensures MultiPolicy(s, ParseHeader(merged).value, false).Some?
  {
    ParsersAcceptExactly(shared);
    ParsersAcceptExactly(merged);
  }

  /** The shared header with everything a recipient could add to meet the policy. */
  function Completed(s: Settings, shared: JoseHeader): JoseHeader {
    shared.(
      algorithm := if shared.algorithm == "" then "A" else shared.algorithm,
      extra := map[HEADER_TYPE := JSONString(s.typ)] + map[HEADER_CONTENT_TYPE := JSONString(s.cty)] + shared.extra)
  }

  /** A configured parameter that the shared header carries as the empty string: present, so no recipient can supply
      it, yet taken for missing by the early check. */
  predicate EmptyButPresent(configured: string, extra: Parameters, name: string) {
    configured != "" && name in extra && extra[name] == JSONString("")
  }

  /** No recipient header can turn this shared header into an accepted one. */
  ghost predicate Hopeless(s: Settings, shared: JoseHeader) {
    forall merged :: Extends(merged, shared) && ParseHeader(merged).Success?
      ==> MultiPolicy(s, ParseHeader(merged).value, false).Some?
  }

  lemma {:induction false} CompletedIsAccepted(s: Settings, shared: JoseHeader)
    requires Coherent(s) && ParseMultiSharedHeader(shared).Success?
    requires MultiPolicy(s, ParseMultiSharedHeader(shared).value, true).None?
    requires !EmptyButPresent(s.typ, shared.extra, HEADER_TYPE)
    requires !EmptyButPresent(s.cty, shared.extra, HEADER_CONTENT_TYPE)
    ensures var merged := Completed(s, shared);
            && Extends(merged, shared) && ParseHeader(merged).Success?
            && MultiPolicy(s, ParseHeader(merged).value, false).None?
  {
    var merged := Completed(s, shared);
    ParsersAcceptExactly(shared);
    ParsersAcceptExactly(merged);
    CompletedReads(s, shared);
    assert AcceptableValue("A", MAX_ALGORITHM_LENGTH);
  }

  lemma CompletedReads(s: Settings, shared: JoseHeader)
    ensures var merged, added := Completed(s, shared).extra, shared.extra;
            && (HEADER_CRITICAL in merged <==> HEADER_CRITICAL in added)
            && (forall name :: name in added ==> name in merged && merged[name] == added[name])
            && (HEADER_COMPRESSION !in added ==> HEADER_COMPRESSION !in merged)
            && (HEADER_TYPE !in added ==> HEADER_TYPE in merged && merged[HEADER_TYPE] == JSONString(s.typ))
            && (HEADER_CONTENT_TYPE !in added
                ==> HEADER_CONTENT_TYPE in merged && merged[HEADER_CONTENT_TYPE] == JSONString(s.cty))
  {
    NamesDiffer();
  }

  lemma NamesDiffer()
    ensures HEADER_TYPE != HEADER_CONTENT_TYPE && HEADER_TYPE != HEADER_ENCRYPTION && HEADER_TYPE != HEADER_COMPRESSION
    ensures HEADER_CONTENT_TYPE != HEADER_ENCRYPTION && HEADER_CONTENT_TYPE != HEADER_COMPRESSION
    ensures HEADER_CRITICAL != HEADER_TYPE && HEADER_CRITICAL != HEADER_CONTENT_TYPE
  {
    assert HEADER_TYPE[0] == 't' && HEADER_CONTENT_TYPE[0] == 'c' && HEADER_CONTENT_TYPE[1] == 't';
    assert HEADER_ENCRYPTION[0] == 'e' && HEADER_COMPRESSION[0] == 'z' && HEADER_CRITICAL[1] == 'r';
  }

  /** The early check is as sharp as it can be: it refuses exactly the shared headers that no recipient can complete,
      apart from those that carry a configured typ or cty as the empty string. */
  lemma {:induction false} EarlyPolicyRefusesTheHopeless(s: Settings, shared: JoseHeader)
    requires Coherent(s) && ParseMultiSharedHeader(shared).Success?
    ensures Hopeless(s, shared)
       <==> || MultiPolicy(s, ParseMultiSharedHeader(shared).value, true).Some?
            || EmptyButPresent(s.typ, shared.extra, HEADER_TYPE)
            || EmptyButPresent(s.cty, shared.extra, HEADER_CONTENT_TYPE)
  {
    forall merged | Extends(merged, shared) && ParseHeader(merged).Success?
      ensures MultiPolicy(s, ParseMultiSharedHeader(shared).value, true).Some?
           || EmptyButPresent(s.typ, shared.extra, HEADER_TYPE)
           || EmptyButPresent(s.cty, shared.extra, HEADER_CONTENT_TYPE)
          ==> MultiPolicy(s, ParseHeader(merged).value, false).Some?
    {
      ParsersAcceptExactly(shared);
      ParsersAcceptExactly(merged);
    }
    if MultiPolicy(s, ParseMultiSharedHeader(shared).value, true).None?
       && !EmptyButPresent(s.typ, shared.extra, HEADER_TYPE)
       && !EmptyButPresent(s.cty, shared.extra, HEADER_CONTENT_TYPE)
    {
      CompletedIsAccepted(s, shared);
    }
  }

  /** The shared parser, by contrast, can refuse what the recipient parser would take: exactly when enc is not in the
      shared header but comes from the recipient. */
  lemma SharedParsingIsExact(shared: JoseHeader, merged: JoseHeader)
    requires Extends(merged, shared)
    requires ParseHeader(merged).Success?
    ensures ParseMultiSharedHeader(shared).Success? <==> HEADER_ENCRYPTION in shared.extra
  {
    ParsersAcceptExactly(shared);
    ParsersAcceptExactly(merged);
  }

  const BARE_HEADER := JoseHeader("", "", "", map[])

  /** Such a token: alg and enc both come from the recipient. The merged header parses, and yet the multi-decrypter
      refuses every object with this shared header, whatever the key and the settings. */
  lemma EncOnlyFromRecipientExample()
    ensures ParseHeader(Merge(BARE_HEADER, JoseHeader("dir", "", "", map[HEADER_ENCRYPTION := JSONString("A128GCM")])))
            .Success?
    ensures forall resolve: Resolver, s, jwe: EncryptedObject :: jwe.shared == BARE_HEADER
              ==> DecryptToken(resolve, s, jwe).Failure?
  {
    ExampleNamesAreAcceptable();
    RecipientAloneParses("dir", "A128GCM");
    forall resolve: Resolver, s, jwe: EncryptedObject | jwe.shared == BARE_HEADER
      ensures DecryptToken(resolve, s, jwe).Failure?
    {
      SharedEncryptionIsRequired(resolve, s, jwe);
    }
  }

  lemma RecipientAloneParses(algorithm: string, encryption: string)
    requires AcceptableValue(algorithm, MAX_ALGORITHM_LENGTH)
    requires AcceptableValue(encryption, MAX_ALGORITHM_LENGTH)
    ensures var recipient := JoseHeader(algorithm, "", "", map[HEADER_ENCRYPTION := JSONString(encryption)]);
            ParseHeader(Merge(BARE_HEADER, recipient)).Success?
  {
    NamesDiffer();
    ParsersAcceptExactly(
      Merge(BARE_HEADER, JoseHeader(algorithm, "", "", map[HEADER_ENCRYPTION := JSONString(encryption)])));
  }

  lemma ExampleNamesAreAcceptable()
    ensures AcceptableValue("dir", MAX_ALGORITHM_LENGTH) && AcceptableValue("A128GCM", MAX_ALGORITHM_LENGTH)
  {
  }

  lemma SharedEncryptionIsRequired(resolve: Resolver, s: Settings, jwe: EncryptedObject)
    requires HEADER_ENCRYPTION !in jwe.shared.extra
    ensures DecryptToken(resolve, s, jwe).Failure?
  {
    ParsersAcceptExactly(jwe.shared);
  }

  /** Checking policy before key resolution changes no verdict: it refuses only what the final check refuses, so the
      two orders accept the same objects with the same result. */
  lemma EarlyPolicyIsSound(resolve: Resolver, s: Settings, jwe: EncryptedObject)
    requires OpensByMerging(jwe)
    ensures DecryptToken(resolve, s, jwe).Success? <==> DecryptTokenLate(resolve, s, jwe).Success?
    ensures DecryptToken(resolve, s, jwe).Success?
        ==> DecryptToken(resolve, s, jwe) == DecryptTokenLate(resolve, s, jwe)
  {
    var parsed := ParseMultiSharedHeader(jwe.shared);
    if parsed.Success? && MultiPolicy(s, parsed.value, true).Some? {
      var resolved := resolve(parsed.value);
      if resolved.Success? && resolved.value.Some? && jwe.open(resolved.value.value).Success? {
        var found := jwe.open(resolved.value.value).value;
        MergeExtends(jwe.shared, jwe.recipients[found.recipient]);
        if ParseHeader(found.header).Success? {
          SharedRejectionIsFinal(s, jwe.shared, found.header);
        }
      }
    }
  }

  /** And what it refuses, it refuses without consulting the resolver or trying a key. */
  lemma EarlyRejectionConsultsNobody(resolve: Resolver, other: Resolver, s: Settings,
                                     jwe: EncryptedObject, jwe': EncryptedObject)
    requires ParseMultiSharedHeader(jwe.shared).Success?
    requires MultiPolicy(s, ParseMultiSharedHeader(jwe.shared).value, true).Some?
    requires jwe'.shared == jwe.shared
    ensures DecryptToken(other, s, jwe') == DecryptToken(resolve, s, jwe)
  {
  }

  /** Accepted objects satisfy the configured policy in full, whatever stage saw which parameter. */
  lemma AcceptedMeetsPolicy(resolve: Resolver, s: Settings, jwe: EncryptedObject)
    requires DecryptToken(resolve, s, jwe).Success?
    ensures |DecryptToken(resolve, s, jwe).value.plaintext| <= s.maxPlaintextSize
    ensures var header := DecryptToken(resolve, s, jwe).value.header;
            && (s.typ != "" ==> header.typ == s.typ)
            && (s.cty != "" ==> header.contentType == s.cty)
            && (header.compression == COMPRESSION_NONE || header.compression == s.compression)
            && header.algorithm != "" && header.encryption != ""
  {
  }

  /* ---- acceptance and refusal, stage by stage ---- */

  /** The typ, cty and compression of a header as the settings want them. A header shared by all recipients may leave
      typ and cty to them. */
  predicate MeetsSettings(s: Settings, source: JoseHeader, shared: bool) {
    && TextMeets(s.typ, TextOf(source.extra, HEADER_TYPE), shared)
    && TextMeets(s.cty, TextOf(source.extra, HEADER_CONTENT_TYPE), shared)
    && TextOf(source.extra, HEADER_COMPRESSION) in ["", s.compression]
  }

  predicate TextMeets(configured: string, found: string, mayBeMissing: bool) {
    configured == "" || found == configured || (found == "" && mayBeMissing)
  }

  /** What go-jose finds with the key the resolver gives for the shared header, if it gets that far. */
  function Found(resolve: Resolver, jwe: EncryptedObject): Option<Opened> {
    match resolve(AsRead(jwe.shared))
    case Success(Some(key)) => if jwe.open(key).Success? then Some(jwe.open(key).value) else None
    case _ => None
  }

  /** An object is decrypted exactly when both headers are supported, the merged one with an alg, both meet the
      settings, the resolver has a key that opens it, and the plaintext is within the limit. The result is what was
      opened: that recipient, the merged header as it reads, that plaintext, and the object's authenticated data. */
  lemma {:induction false} DecryptsExactly(resolve: Resolver, s: Settings, jwe: EncryptedObject)
    ensures DecryptToken(resolve, s, jwe).Success? <==>
              && Supported(jwe.shared) && MeetsSettings(s, jwe.shared, true)
              && Found(resolve, jwe).Some?
              && var found := Found(resolve, jwe).value;
                 && Supported(found.header) && found.header.algorithm != "" && MeetsSettings(s, found.header, false)
                 && |found.plaintext| <= s.maxPlaintextSize
    ensures DecryptToken(resolve, s, jwe).Success? ==>
              var found := Found(resolve, jwe).value;
              DecryptToken(resolve, s, jwe).value
              == MultiDecrypted(found.recipient, AsRead(found.header), found.plaintext, jwe.authData)
  {
    ParsersAcceptExactly(jwe.shared);
    PolicyMeaning(s, jwe.shared, true);
    if Found(resolve, jwe).Some? {
      ParsersAcceptExactly(Found(resolve, jwe).value.header);
      PolicyMeaning(s, Found(resolve, jwe).value.header, false);
    }
  }

  /** The sentinel of a header that does not meet the settings: typ is looked at before cty, and cty before zip. */
  function UnmetSetting(s: Settings, source: JoseHeader, shared: bool): Sentinel {
    if !TextMeets(s.typ, TextOf(source.extra, HEADER_TYPE), shared) then JweUnexpectedType
    else if !TextMeets(s.cty, TextOf(source.extra, HEADER_CONTENT_TYPE), shared) then JweUnexpectedContentType
    else JweUnexpectedCompression
  }

  lemma PolicyMeaning(s: Settings, source: JoseHeader, shared: bool)
    ensures var refusal := MultiPolicy(s, AsRead(source), shared);
            && (refusal.None? <==> MeetsSettings(s, source, shared))
            && (refusal.Some? ==> ReachesExactly(refusal.value, UnmetSetting(s, source, shared)))
  {
  }

  /** The stages behind the shared header. */
  lemma RefusalAfterShared(resolve: Resolver, s: Settings, jwe: EncryptedObject, shared: Header)
    requires AfterShared(resolve, s, jwe, shared).Failure?
    ensures var e := AfterShared(resolve, s, jwe, shared).error;
            match resolve(shared)
            case Failure(cause) => SameSentinels(e, cause)
            case Success(None) => ReachesExactly(e, JweDecrypt)
            case Success(Some(key)) =>
              if jwe.open(key).Failure? then ReachesAlso(e, JweDecrypt, jwe.open(key).error)
              else
                var merged := jwe.open(key).value.header;
                if !Supported(merged) || merged.algorithm == "" then ReachesExactly(e, JweMalformedToken)
                else if !MeetsSettings(s, merged, false) then ReachesExactly(e, UnmetSetting(s, merged, false))
                else ReachesExactly(e, JwePlaintextTooLarge)
  {
    var resolved := resolve(shared);
    if resolved.Success? && resolved.value.Some? && jwe.open(resolved.value.value).Success? {
      var merged := jwe.open(resolved.value.value).value.header;
      ParsersAcceptExactly(merged);
      PolicyMeaning(s, merged, false);
    }
  }

  /** A refusal has exactly the sentinels of the first stage that fails, and of what made it fail. */
  lemma {:induction false} RefusalMeaning(resolve: Resolver, s: Settings, jwe: EncryptedObject)
    requires DecryptToken(resolve, s, jwe).Failure?
    ensures var e := DecryptToken(resolve, s, jwe).error;
            if !Supported(jwe.shared) then ReachesExactly(e, JweMalformedToken)
            else if !MeetsSettings(s, jwe.shared, true) then ReachesExactly(e, UnmetSetting(s, jwe.shared, true))
            else match resolve(AsRead(jwe.shared))
              case Failure(cause) => SameSentinels(e, cause)
              case Success(None) => ReachesExactly(e, JweDecrypt)
              case Success(Some(key)) =>
                if jwe.open(key).Failure? then ReachesAlso(e, JweDecrypt, jwe.open(key).error)
                else
                  var merged := jwe.open(key).value.header;
                  if !Supported(merged) || merged.algorithm == "" then ReachesExactly(e, JweMalformedToken)
                  else if !MeetsSettings(s, merged, false) then ReachesExactly(e, UnmetSetting(s, merged, false))
                  else ReachesExactly(e, JwePlaintextTooLarge)
  {
    ParsersAcceptExactly(jwe.shared);
    PolicyMeaning(s, jwe.shared, true);
    if Supported(jwe.shared) && MeetsSettings(s, jwe.shared, true) {
      RefusalAfterShared(resolve, s, jwe, AsRead(jwe.shared));
    }
  }
}
