# Verified model of xjose

xjose wraps go-jose and golang-jwt. What it decides itself is decided over untrusted headers, key sets and
signature results: which signatures of a JWS have to be valid, which key a header selects, when a token is too old,
which headers are written and which are refused. This project models those decisions in Dafny and proves what the
packages `jws`, `jwt`, `jwk` and `jwe` promise about them.

Run `dafny verify dfyconfig.toml` to check the whole project.

## How to read it

* A Go string is a byte string, one `char` below 256 for each byte. `Text.dfy` has Go's UTF-8 test and byte order.
* An error is a finite tree (`Errors.dfy`); `Is` is `errors.Is`. Message text is not modelled. An error that wraps no
  sentinel is `Plain`, whatever its text and however often it is wrapped.
* Code that updates variables in a loop is a method with a loop. Each is proved against a function that says what
  is decided in terms of sets, counts or first positions, and the laws are proved about those functions.
* The configuration structs are classes whose `Apply` methods write their fields. `View()` is their value, and
  `OptionFold.dfy` is the loop over options that the three packages share.
* Cryptography, go-jose and golang-jwt are parameters: a check of one signature with one key, an attempt to open a JWE
  with a key, a registry of signing methods. Resolvers are functions from a header to a key or an error. Times are
  integers of nanoseconds. `time.Duration` is a 64-bit integer with wrap-around.

| file | what it covers |
|---|---|
| `JwsPolicy.dfy`, `JwsPolicyLaws.dfy` | the multi-signature policy language and its laws |
| `JwsVerifier.dfy`, `JwsVerifierLaws.dfy` | one signature, whole runs, compact verification |
| `JwsResolver.dfy`, `JwsMaterial.dfy`, `JwsKeyHeap.dfy` | JWK resolvers; key material as values and in memory |
| `JwsHeader.dfy`, `JwsOptions.dfy`, `JwsSigner.dfy` | protected headers, options, signing |
| `JwtKeys.dfy`, `JwtKeySet.dfy`, `JwkSet.dfy` | key sets and their export as a public JWK set |
| `JwtOptions.dfy`, `JwtLifetime.dfy`, `JwtRotation.dfy`, `JwtErrors.dfy` | token lifetime, key rotation, error classes |
| `JweHeader.dfy`, `JweOptions.dfy`, `JweDecrypter.dfy`, `JweEncrypter.dfy` | two-stage header policy, header order |

## Where code and expectation part

* `AllOf(RequireAnySignature())` does not stop early: only the top-level any-policy does. The early stop can accept a
  message whose full scan would have been aborted by a later signature (`JwsVerifierLaws.EarlyStopRefinesFullScan`).
* `Verifier` never looks at the context, `MultiVerifier` does before every signature. That is the only difference in
  acceptance for one signature (`SingleSignatureRefinement`). A failure local to a signature keeps its cause in the
  compact verifier and loses it in the multi-verifier (`LocalFailureIsReportedDifferently`).
* The lifetime options accept durations for which `-maxAge - leeway` wraps. The verifier then refuses every token dated
  up to now (`JwtLifetime.OverflowRefusesEveryIssuedToken`). With an accepted option list that requires `iat` as well,
  that is every token issued so far (`OptionsAllowOverflow`, `OverflowingSettingsRefuseEverythingIssued`). The
  documented window is met exactly for the settings named in `WindowIsExactIffRepresentable`.
* The rotation advice, to keep a key for its acceptance window, is safe. `JwtRotation.RotationIsSafeExactly` says which
  settings bound that window at all, and by how much: `iat` must be required, and either the age limit or a required
  `exp` together with the lifetime limit must cover the margin. The wrap-around above costs service, not safety.
* The constructor of a signing key refuses an opaque signer in a JWK, but not in a JWK inside a JWK
  (`JwsSigner.OpaqueGuardIsOneLevelDeep`, `NestedOpaqueSignerIsBuilt`).
* An exported JWK set agrees with its source for every header only if the registry of signing methods is faithful to
  every method in the set. Registering a method under its own name is not enough (`JwkSet.ExportAgreesExactly`): a
  second name for the same method already makes them differ (`AliasExample`).
* The JWE parser of the shared header refuses a token whose `enc` appears only in the recipient header, which the final
  parser would accept. That is the only such case (`JweDecrypter.SharedParsingIsExact`, `EncOnlyFromRecipientExample`).
* The early JWE policy check takes a `typ` or `cty` present as the empty string for missing, though no recipient can
  then supply it (`JweDecrypter.EarlyPolicyRefusesTheHopeless`). The final check still refuses such a token.
* A JWE compact encrypter whose options set `typ` or `cty` can still emit another value
  (`JweEncrypter.CompactOverrideExample`).

## Model

| member | source | states |
|---|---|---|
| Errors.Classified | jwt/verifier.go:254-259 | wrapping an error with a sentinel reaches that sentinel and everything the error reached, nothing else |
| Errors.Context | jws/multi_verifier.go:226 | adding context to an error changes nothing that `errors.Is` can see |
| Text.LessIsTransitive | jwt/keyset.go:92-97 | the byte order used to sort keys is transitive |
| Text.LessIsTotal | jwt/keyset.go:92-97 | two different identifiers are ordered one way or the other |
| Text.LessIsByFirstDifference | jwt/keyset.go:92-97 | one identifier sorts before another iff it ends, or has the smaller byte, at their first difference |
| Text.ValidUTF8IsExact | jws/header.go:128-133 | the strings that pass the UTF-8 test are exactly the encodings of sequences of scalar values |
| Jose.ValidateHeaderValue | jws/header.go:112-136 | a header value is refused iff it is empty, too long in bytes, or not UTF-8 |
| Jose.HeaderString | jws/header.go:159-173 | only a JSON string is accepted and read as its text, an absent parameter reads as empty, and the failure is a malformed-token error and no other |
| Jose.Checked | jws/header.go:28-34 | a parser's check of a value fails iff the value is unacceptable, as a malformed-token error and no other |
| OptionFold.RefusalIsFinal | jws/options.go:221-233 | once an option is refused, nothing after it is looked at |
| OptionFold.LastOptionWins | jws/options.go:213-236 | if one kind of option writes a setting, its final value is what the last such option wrote, or the default |
| OptionFold.AcceptedOneByOne | jws/options.go:213-236 | options that are accepted or refused on their own make a list that is accepted iff each of them is |
| JwsHeader.ParseAcceptsExactlySupported | jws/header.go:27-110 | parsing accepts exactly headers with a bounded alg, acceptable kid, typ and cty, no crit and no b64; it copies them, and every refusal is malformed-token and nothing else |
| JwsHeader.ValidateHeaderPolicy | jws/header.go:138-157 | the typ/cty policy holds iff every configured value is met exactly; a refusal is unexpected-type if typ differs, else unexpected-content-type, and nothing else |
| JwsPolicy.ValidatePolicyKeyIDs | jws/policy.go:245-268 | the loop accepts a list iff it is non-empty, all identifiers are acceptable and none repeats |
| JwsPolicy.CollectValidKeyIDs | jws/policy.go:270-283 | the loop collects exactly the non-empty canonical identities with a valid signature |
| JwsPolicy.EvaluateAny | jws/policy.go:91-99 | accepts iff some result is valid |
| JwsPolicy.EvaluateAllProvided | jws/policy.go:103-119 | accepts iff there are results and all are valid; otherwise wraps the error of the first invalid one |
| JwsPolicy.EvaluateRequired | jws/policy.go:129-142 | accepts iff every listed identity has a valid signature |
| JwsPolicy.EvaluateThreshold | jws/policy.go:169-194 | the early-exit counter accepts iff the policy validates and at least `minimum` distinct allowlisted identities have a valid signature |
| JwsPolicy.Validate | jws/policy.go:149-225 | the nested validation loop reports the first fault of the tree in order, including empty lists and nil members |
| JwsPolicy.Evaluate | jws/policy.go:227-243 | evaluation of a whole tree stops at the first rejecting member and wraps its error |
| JwsPolicyLaws.AcceptanceDependsOnResultSet | jws/policy.go:91-243 | without application code in the tree, acceptance depends only on which results occur |
| JwsPolicyLaws.AcceptanceIsPermutationInvariant | jws/policy.go:91-243 | without application code in the tree, acceptance is invariant under permutation of the results |
| JwsPolicyLaws.AcceptanceIsMonotoneExactly | jws/policy.go:55-83 | results appended to an accepted list keep it accepted iff no all-signatures leaf meets an invalid addition |
| JwsPolicyLaws.ValidatedTreesNeedNoRecheck | jws/options.go:195-211 | in a tree validated by the option, the validation inside every nested Evaluate never decides anything |
| JwsPolicyLaws.ValidatedLeavesAreSound | jws/policy.go:200-225 | a validated tree has leaves, and none of them at any depth is nil, vacuous or unsatisfiable |
| JwsPolicyLaws.ValidationIsExact | jws/policy.go:149-268 | validation accepts exactly the trees with no nil member, no empty list, no repeated or unacceptable identity and no threshold out of range at any depth, and its error reaches no sentinel |
| JwsPolicyLaws.TreeActsAsItsLeaves | jws/policy.go:227-243 | a validated tree rejects iff some flattened leaf does, with exactly the sentinels of the leftmost rejecting leaf |
| JwsPolicyLaws.FlattenedAcceptance | jws/policy.go:78-83 | AllOf accepts iff every leaf of the flattened tree accepts |
| JwsPolicyLaws.IdentityLeavesAcceptExactly | jws/policy.go:91-142 | any-signature accepts iff some result is valid, required-IDs iff for each listed identity some valid result has it |
| JwsPolicyLaws.ThresholdAcceptsExactly | jws/policy.go:149-194 | a threshold accepts iff it is proper and so many different listed identities, each with a valid result, can be named |
| JwsPolicyLaws.ApplicationAndImproperPolicies | jws/policy.go:23-243 | an application function decides alone on exactly the results; a nil function, an improper list or threshold never accepts, even unvalidated |
| JwsPolicyLaws.LeafRejection | jws/policy.go:23-194 | a leaf's rejection reaches no sentinel, except the first invalid result's error for all-signatures and the application's own error for its function |
| JwsPolicyLaws.InvalidSignatureStaysReachable | jws/policy.go:103-119 | an all-signatures rejection at any AllOf depth keeps the first invalid signature's cause reachable |
| JwsPolicyLaws.QuorumsIntersect | jws/policy.go:66-76 | two satisfied thresholds whose minimums exceed the number of identities in both lists together share a valid identity of both lists |
| JwsPolicyLaws.QuorumsIntersectExactly | jws/policy.go:66-76 | two thresholds over any two allowlists always force a common signer iff their minimums add up to more than the size of the union |
| JwsVerifier.VerifySignature | jws/multi_verifier.go:207-275 | the step-by-step method computes the outcome: valid, invalid with its cause, or aborting |
| JwsVerifier.CollectResults | jws/multi_verifier.go:153-182 | the loop collects the outcomes up to the extent of the run, or reports the lowest aborting signature |
| JwsVerifier.VerifyMulti | jws/multi_verifier.go:138-205 | limits, loop, valid-signature guard and policy together compute the described run |
| JwsVerifierLaws.OutcomeMeaning | jws/multi_verifier.go:207-275 | when exactly a signature is valid, when exactly it aborts, that its index is its position and its identity the resolver's |
| JwsVerifierLaws.AbortErrorMeaning | jws/multi_verifier.go:216-258 | an aborted signature reports exactly the sentinels of the context, of the resolver's own error, or of a verification error for a nil key, by case |
| JwsVerifierLaws.ResultMeaning | jws/multi_verifier.go:207-275 | what a result records: no header until it parses, the resolver's identity once a key is found, and exactly the sentinels of the stage that failed |
| JwsVerifierLaws.EarlyStopRefinesFullScan | jws/multi_verifier.go:157-182 | the early stop returns the prefix through the first valid signature, accepts whenever the full scan does, and the converse holds iff nothing aborts |
| JwsVerifierLaws.LimitsDecideFirst | jws/multi_verifier.go:138-155 | no signature, too many, or too large a payload is refused with exactly its sentinel, in that order, and nothing else is a limit |
| JwsVerifierLaws.FullRunCharacterisation | jws/multi_verifier.go:161-204 | without early stop the lowest aborting signature decides the error; otherwise one result per signature in order, and the policy's verdict given a valid one, with exactly its sentinels |
| JwsVerifierLaws.AcceptanceNeedsAValidSignature | jws/policy.go:11-14 | no policy, not even an application function that always accepts, accepts without a valid signature |
| JwsVerifierLaws.ResultsCoverTheRun | jws/multi_verifier.go:157-204 | accepted results end with the first valid one under the top-level any-policy and cover every signature under any other |
| JwsVerifierLaws.MoreSignaturesDoNotHurt | jws/policy.go:55-56 | signatures added to an accepted message cannot get it rejected under identity policies, unless one aborts |
| JwsVerifierLaws.MoreSignaturesAreNotLookedAt | jws/multi_verifier.go:157-182 | under the top-level any-policy appended signatures, aborting ones included, change nothing about an accepted message |
| JwsVerifierLaws.AcceptedIdentitiesSigned | jws/resolver.go:10-16 | every identity a policy counts belongs to a signature that checks with the key the resolver gave that identity |
| JwsVerifierLaws.CompactAcceptsExactlyGenuine | jws/verifier.go:155-217 | the compact verifier accepts exactly one genuine signature within the payload limit, and reports its signer, header and payload |
| JwsVerifierLaws.CompactRefusalMeaning | jws/verifier.go:155-217 | a refusal of the compact verifier has exactly the sentinels of the first stage that failed and of its cause |
| JwsVerifierLaws.AcceptedPolicyIsSigned | jws/policy.go:42-83 | an accepted message genuinely carries the signatures every leaf of its policy tree asks for, at any depth |
| JwsVerifierLaws.AcceptedExactlyWhenSigned | jws/multi_verifier.go:138-205 | without aborts, a message within the limits is accepted iff some signature is genuine and every leaf of the policy tree gets the signatures, or the application's consent, it asks for |
| JwsVerifierLaws.AcceptedMessagesShareASigner | jws/policy.go:66-76 | two accepted messages under such overlapping quorums, over any two allowlists, were both genuinely signed by one identity of both lists |
| JwsVerifierLaws.RejectionKeepsTheCause | jws/multi_verifier.go:193-199 | the error of the run reaches the first invalid signature's cause plus the policy sentinel, and nothing else |
| JwsVerifierLaws.SingleSignatureRefinement | jws/verifier.go:155-217 | on one signature the default multi-verifier accepts iff the compact verifier does and the context is live, with the same identity, header and payload |
| JwsVerifierLaws.LocalFailureIsReportedDifferently | jws/multi_verifier.go:184-191 | a local failure is a bare policy error in the multi-verifier and keeps its sentinels in the compact one |
| JwsMaterial.CloningIsIdempotent | jws/key.go:192-222 | cloning a clone changes nothing further |
| JwsMaterial.CloneIsExactExceptNilPointers | jws/key.go:192-222 | a clone is the value itself iff no nil JWK pointer lies in it at any depth |
| JwsMaterial.CloneIsSameButForNilPointers | jws/key.go:192-222 | a clone is the one value of the same kinds and fields at every level in which nil keys answer nil JWK pointers |
| JwsResolver.NewJWKSResolver | jws/resolver.go:124-149 | the loop groups the usable keys by kid, cloned and in order, and leaves no usable key out |
| JwsResolver.ResolveInSet | jws/resolver.go:191-236 | the candidate loop finds the one compatible key, or reports none or several |
| JwsResolver.IndexRefinesScan | jws/resolver.go:124-236 | for every header the grouped index answers as a scan of the original list does |
| JwsResolver.ResolutionCountsApplicableKeys | jws/resolver.go:206-235 | success iff exactly one position of the original list applies by kid, alg and use, else exactly key-not-found for none and exactly invalid configuration for two or more |
| JwsResolver.ResolutionIgnoresOrder | jws/resolver.go:191-236 | permuting the JWK set changes no answer |
| JwsResolver.NewStaticResolver | jws/resolver.go:59-122 | which key arguments are refused as nil, and which resolver each other one gets |
| JwsResolver.SingleKeyConstraints | jws/resolver.go:157-189 | a single JWK refuses iff both kids are present and differ, or its alg or use excludes the signature, always as key-not-found |
| JwsResolver.StaticKeyMeaning | jws/resolver.go:59-236 | for every kind of key argument, which headers it answers, with which identity and material, and with which error otherwise: raw material answers all of them, without an identity |
| JwsResolver.GroupIsSelected | jws/resolver.go:130-144 | the group of a kid is the keys themselves, apart from nil JWK pointers inside them |
| JwsResolver.SingletonSetActsAsItsKey | jws/resolver.go:157-236 | for a header with a kid, a set of one identified key resolves as that key alone |
| JwsOptions.Config.SetHeader | jws/options.go:290-296 | sets one extra header and touches nothing else |
| JwsOptions.Config.Apply | jws/options.go:57-211 | an option writes its fields or, when refused, leaves the configuration unchanged |
| JwsOptions.MakeConfig | jws/options.go:213-236 | options apply from left to right on the defaults and the first refused one decides |
| JwsOptions.AcceptedOptionsAreCoherent | jws/options.go:195-296 | accepted lists give acceptable typ/cty, positive limits, a validated policy, and without WithHeader exactly the headers of typ and cty |
| JwsOptions.LastWriteWins | jws/options.go:57-179 | a header is emitted iff some option writes its name, and with the value of the last one that does, whether WithType, WithContentType or WithHeader |
| JwsOptions.LastTypeWins | jws/options.go:57-99 | the last WithType and the last WithContentType decide the typ and cty the policy requires, and without WithHeader the written headers too |
| JwsOptions.LastLimitsAndPolicyWin | jws/options.go:101-236 | the policy and the three limits are those of the last option of the kind, or the source's defaults |
| JwsOptions.OptionsAreAcceptedOneByOne | jws/options.go:57-236 | a list is accepted iff each option is acceptable on its own, and a refusal is an invalid configuration and nothing else |
| JwsOptions.ConstructorsRefuseByKind | jws/options.go:248-288 | signers refuse a signature policy, multi-verifiers custom headers, compact verifiers both, and nothing else, always as an invalid configuration |
| JwsSigner.BuildSigningKeys | jws/key.go:76-89 | all keys are built in order, or the first refusal is reported |
| JwsSigner.MergeReconcilesExactly | jws/key.go:144-190 | metadata merges iff some JWK is consistent with both sources, and then into one that invents no identity |
| JwsSigner.ConfiguredKeyIDIsCarried | jws/key.go:16-24 | a configured key ID is the one the built material carries, for every kind of key; without one the material carries the key's own |
| JwsSigner.BuiltKeysAreBound | jws/key.go:91-190 | a key built as a JWK is bound to its algorithm and to signing and holds its material directly, not an opaque signer |
| JwsSigner.BuildsExactly | jws/key.go:30-142 | a signing key builds iff its algorithm, identifier, kind and metadata are in order; what is built signs with the caller's key, and is a JWK iff the caller gave one or an identifier |
| JwsSigner.OpaqueGuardIsOneLevelDeep | jws/key.go:91-119 | of the JWK keys whose metadata merges, exactly those with an opaque signer one JWK deep are refused, so a built key hides one iff it was two or more deep |
| JwsSigner.NestedOpaqueSignerIsBuilt | jws/key.go:91-119 | a signing key with an opaque signer two JWKs deep that is built |
| JwsSigner.SignerOptions | jws/options.go:238-246 | every extra header is handed over, whatever the map order |
| JwsSigner.HeaderCarriesLastWrites | jws/options.go:238-246 | for every accepted option list, the header carries of every name what the last option to write it gave, as JSON renders it, and no other names |
| JwsSigner.SignsExactly | jws/signer.go:19-72 | signing succeeds iff the options are accepted without a policy, the key builds and the payload is within the limit, and makes one signature over that payload |
| JwsSigner.SignerHeaderMeetsVerifierPolicy | jws/options.go:51-99 | for every option list both constructors take, the written header parses iff alg and the written kid are within limits, and then satisfies the list's own typ/cty policy |
| JwsSigner.SignThenVerify | jws/signer.go:52-72 | sign, then verify with the same options and a matching key, returns the payload under the resolver's identity |
| JwsSigner.BuiltKeyResolvesItsOwnHeader | jws/key.go:58-142 | a built JWK alone resolves the header its signer writes, with or without a kid; a set of it does iff a kid is written, and is key-not-found otherwise |
| JwsKeyHeap.SelfReferenceHasNoDepth | jws/key.go:207-215 | a JWK that points at itself is not finitely nested |
| JwsKeyHeap.CloneKeyMaterial | jws/key.go:192-222 | terminates on finitely nested keys; the copy has entirely new storage for slices, Ed25519 keys and JWK objects, and the very content of the original unless that holds a nil JWK pointer |
| JwsKeyHeap.AddCopy | jws/resolver.go:142-144 | one usable key of a set goes to the end of its group as a copy in new storage, and nothing else in the index changes |
| JwsKeyHeap.CopyUsable | jws/resolver.go:124-149 | the loop over a set in memory copies exactly the usable keys to new storage, grouped by kid in order |
| JwsKeyHeap.KeySetSnapshot.constructor | jws/resolver.go:146-148 | the resolver of a JWK set starts out owning that index and nothing of the caller's |
| JwsKeyHeap.KeySetSnapshot.Candidates | jws/resolver.go:199 | a kid selects the stored group, or nothing |
| JwsKeyHeap.KeySnapshot.constructor | jws/resolver.go:95-122 | a resolver or built key starts out with a private copy of the caller's material |
| JwsKeyHeap.KeySnapshot.Resolve | jws/resolver.go:151-155 | resolution hands out the stored material |
| JwsKeyHeap.SnapshotIsolation | jws/key.go:18-20 | no sequence of later writes by the caller, to slices or JWK objects, changes what is resolved: the content at construction |
| JwsKeyHeap.KeySetIsolation | jws/resolver.go:124-149 | nor does any such sequence of writes change the candidates a whole set offers for a kid: they stay the keys of the set as it was given |
| JwtKeys.NewVerificationKey | jwt/key.go:137-165 | succeeds iff the identifier is within bounds and method and key are present, keeps all three, and says which was wrong |
| JwtKeys.ConstructorsMakeValidSigningKeys | jwt/key.go:28-109 | keys from both constructors pass the signer's validation |
| JwtKeys.SigningKeysAreMadeExactly | jwt/key.go:28-109 | when both constructors succeed, what they make, and which of two errors they give |
| JwtKeys.SigningKeyIsValidExactly | jwt/key.go:248-303 | a signing key is valid iff it has a method, exactly one backend and an initialized verification key of the same identifier and algorithm |
| JwtKeys.KeyAnswersExactly | jwt/key.go:185-208 | one key answers exactly its own kid and alg, and otherwise says missing kid, unknown key or unexpected algorithm |
| JwtKeys.ValidSigningKeyResolvesItsHeader | jwt/key.go:248-303 | a validated signing key has one backend, and its verification key resolves exactly the header its signer writes |
| JwtKeySet.NewStaticKeySet | jwt/keyset.go:17-61 | the loop reports the first fault in order or builds the index |
| JwtKeySet.AcceptedExactly | jwt/keyset.go:17-61 | a list is accepted iff non-empty, initialized, without repeated identifiers, an anonymous key standing alone |
| JwtKeySet.RefusalNamesTheFirstOffence | jwt/keyset.go:17-61 | a refused list is refused for its first offending key, with exactly the sentinel of that offence |
| JwtKeySet.ResolveIsAScan | jwt/keyset.go:102-124 | a set resolves a header to a key iff the list holds that key with that kid and algorithm; another algorithm is unexpected-algorithm, and a kid no key has is missing-kid or unknown-key |
| JwtKeySet.SingletonSetActsAsItsKey | jwt/key.go:185-208 | a set of one key answers every header as the key itself does, errors included |
| JwtKeySet.ListKeys | jwt/keyset.go:75-100 | for every map order the result is strictly sorted, lists each key once, has length Len and is the only such list |
| JwtKeySet.ListingIsUnique | jwt/keyset.go:92-97 | two strictly sorted lists with the same members are equal |
| JwtKeySet.ConstructionIgnoresOrder | jwt/keyset.go:17-61 | permuting the arguments changes neither acceptance nor the set |
| JwtKeySet.RebuildingIsIdentity | jwt/keyset.go:17-100 | building a set from its own listing gives it back |
| JwkSet.ConversionRoundTrip | jwk/key.go:55-138 | an exportable key comes back unchanged from its JWK |
| JwkSet.ExportAcceptsExactly | jwk/key.go:55-92 | a verification key is exported iff it is initialized with valid public asymmetric material, with its own kid and alg and use sig |
| JwkSet.ImportAcceptsExactly | jwk/key.go:112-138 | a JWK imports iff it is a valid public key whose kid, use and alg allow it, and exports back with alg and use filled in |
| JwkSet.NewSet | jwk/set.go:102-155 | the loop reports the first fault, or keeps the list and indexes exactly its identified keys |
| JwkSet.SetFaultIsFirstOffence | jwk/set.go:102-155 | a list of JWKs makes a set iff no key offends, and is refused for the first that does, with exactly its sentinel |
| JwkSet.PublicSetAnswersExactly | jwk/set.go:159-199 | a set of any valid JWKs answers with the key the kid selects, for the registered method it permits, and otherwise with exactly one of four errors |
| JwkSet.FromStaticKeySet | jwk/set.go:75-100 | the export succeeds iff every member is a valid public key, and lists the members in order |
| JwkSet.ExportAgreesExactly | jwk/set.go:159-199 | source and export answer every header alike, key or error class, iff the method registry is faithful to every method |
| JwkSet.AliasExample | jwk/set.go:159-199 | a registry with a second name for a method, and a header that the source refuses and the export resolves |
| JwtOptions.VerifierConfig.Apply | jwt/options.go:156-436 | an option writes its fields or, when refused, leaves the configuration unchanged |
| JwtOptions.NewVerifierConfig | jwt/verifier.go:28-46 | the fold over the options, first refusal wins, and methods are mandatory |
| JwtOptions.AcceptedOptionsAreCoherent | jwt/options.go:309-436 | all the bounds the options impose: no negative duration, positive size, named methods, required iat is validated |
| JwtOptions.LastIdentityOptionsWin | jwt/options.go:156-303 | methods, typ, issuer, subject, audiences and size are those of the last option of the kind, or the source's defaults |
| JwtOptions.LastTimeOptionsWin | jwt/options.go:309-436 | the same for what is required of exp, nbf and iat, the leeway and the two limits; exp is required by default |
| JwtOptions.VerifierIsConfiguredExactly | jwt/verifier.go:28-46 | a verifier is configured iff each option is acceptable on its own and one names the methods; a refusal is an invalid configuration and nothing else |
| JwtLifetime.OldestAllowedIs | jwt/verifier.go:209-212 | the oldest allowed iat is `now - maxAge - leeway`, shifted by 2^64 exactly when the sum exceeds 2^63 |
| JwtLifetime.WindowIsExactIffRepresentable | jwt/verifier.go:200-245 | the check is the documented window for all times iff maxAge + leeway is at most 2^63 and maxLifetime below the largest duration |
| JwtLifetime.OptionsActIndependently | jwt/verifier.go:169-246 | for every combination of representable options a token is accepted iff it meets each option on its own |
| JwtLifetime.LifetimeRefusalMeaning | jwt/verifier.go:169-246 | a refusal is issued-in-future for a late iat, else invalid-lifetime together with what made a claim unreadable, and nothing else |
| JwtLifetime.OverflowRefusesEveryIssuedToken | jwt/verifier.go:209-217 | beyond that bound every token with an iat up to now is refused; without iat one passes only if iat is not required |
| JwtLifetime.OptionsAllowOverflow | jwt/options.go:309-436 | an option list with iat required is accepted and gives settings beyond that bound |
| JwtLifetime.OverflowingSettingsRefuseEverythingIssued | jwt/verifier.go:169-218 | under those settings every token issued up to now is refused, whatever its claims |
| JwtLifetime.AcceptanceIsAnInterval | jwt/verifier.go:169-246 | accepting clock readings form an interval for all settings |
| JwtLifetime.AcceptanceIsMonotoneInLeeway | jwt/options.go:304-317 | more representable leeway never refuses more |
| JwtLifetime.LeewayMonotonicityIsExact | jwt/verifier.go:200-218 | raising the leeway keeps all accepted tokens accepted iff the sum stays representable |
| JwtRotation.RotationIsSafe | DESIGN.md:288-290 | over every run, with a safe retirement margin, a token the verifier still accepts, exp and nbf included, resolves to the key that issued it |
| JwtRotation.RotationIsSafeExactly | DESIGN.md:288-290 | rotation is safe in all runs iff iat is required and the margin covers maxAge + leeway (or that sum wraps), or exp is required and the margin covers the lifetime limit plus leeway, less one |
| JwtRotation.PublishedSetIsSafe | jwk/set.go:72-100 | the same safety for a service that verifies against the exported JWK set, under a faithful registry |
| JwtRotation.RotationKeepsService | DESIGN.md:288-290 | with representable settings and a safe margin, dated tokens are accepted iff current, of allowed age and of allowed lifetime, and each accepted one resolves to its issuer |
| JwtRotation.VerifierTakesWhatTheSetResolves | jwt/verifier.go:138-159 | over a key set the verifier's own binding check never refuses what the set resolved |
| JwtRotation.VerifierUsesResolvedKeyExactly | jwt/verifier.go:138-159 | for any resolver, its error is passed on and its key used only if initialized and of the header's algorithm, with exactly that error otherwise |
| JwtErrors.SwitchFollowsTable | jwt/verifier.go:248-326 | the switch is the table: its first row with a reachable trigger decides |
| JwtErrors.EarliestStageDecides | jwt/verifier.go:248-326 | of all causes an error reaches, one of the earliest stage decides: the error keeps its causes and gains the class of that one |
| JwtErrors.ClassificationKeepsAndAdds | jwt/verifier.go:248-326 | every reachable sentinel is kept and at most that of the first matching row is added |
| JwtErrors.ClassificationIsStable | jwt/verifier.go:248-326 | classifying twice reaches nothing new |
| JwtErrors.ClassificationIsExhaustive | jwt/errors.go:5-81 | every classified error reaches a sentinel a caller can branch on: a context error, a key error or one of the seven added classes |
| JweHeader.ParsersAcceptExactly | jwe/header.go:57-202 | both parsers accept exactly the supported headers and read them alike, only the recipient parser needs alg, and a refusal is malformed-token and nothing else |
| JweOptions.Config.Apply | jwe/options.go:42-178 | an option writes its fields or, when refused, leaves the configuration unchanged |
| JweOptions.MakeConfig | jwe/options.go:180-201 | options apply from left to right on the defaults and the first refused one decides |
| JweOptions.AcceptedOptionsAreCoherent | jwe/options.go:42-152 | accepted lists give acceptable typ/cty, a known compression and positive limits |
| JweOptions.LastOptionsWin | jwe/options.go:42-201 | every setting, and every extra header by name, is that of the last option of the kind, or the source's default |
| JweOptions.OptionsAreAcceptedOneByOne | jwe/options.go:42-201 | a list is accepted iff each option is acceptable on its own, and a refusal is an invalid configuration and nothing else |
| JweDecrypter.FinalModeIsCompactPolicy | jwe/multi_decrypter.go:185-217 | the final policy mode equals the compact decrypter's policy, error for error |
| JweDecrypter.DecryptsExactly | jwe/multi_decrypter.go:143-182 | an object is decrypted iff both headers are supported and meet the settings, the resolver has a key that opens it and the plaintext fits; the result is that recipient, the merged header as read, that plaintext and the authenticated data |
| JweDecrypter.RefusalMeaning | jwe/multi_decrypter.go:143-182 | a refusal has exactly the sentinels of the first stage that fails and of its cause |
| JweDecrypter.SharedRejectionIsFinal | jwe/multi_decrypter.go:143-149 | a policy violation in the shared header is one in every header that extends it |
| JweDecrypter.EarlyPolicyRefusesTheHopeless | jwe/multi_decrypter.go:185-217 | the early check refuses exactly the shared headers no recipient can complete, apart from configured parameters present as the empty string |
| JweDecrypter.SharedParsingIsExact | jwe/header.go:160-202 | for a parseable merged header, the shared header parses iff enc is in it |
| JweDecrypter.EncOnlyFromRecipientExample | jwe/header.go:160-202 | a merged header that parses, over a shared header for which the multi-decrypter refuses every object |
| JweDecrypter.EarlyPolicyIsSound | jwe/multi_decrypter.go:143-182 | dropping the early policy check accepts the same objects with the same result |
| JweDecrypter.EarlyRejectionConsultsNobody | jwe/multi_decrypter.go:143-149 | an early rejection depends on neither resolver nor ciphertext |
| JweDecrypter.AcceptedMeetsPolicy | jwe/multi_decrypter.go:164-182 | an accepted object meets the configured typ, cty, compression and plaintext limit in full |
| JweEncrypter.WriteExtras | jwe/encrypter.go:95-97 | extra headers overwrite, with the same result in every map order |
| JweEncrypter.BuildMultiHeaders | jwe/multi_encrypter.go:138-157 | extras first, then configured typ and cty on top |
| JweEncrypter.BuildCompactHeaders | jwe/encrypter.go:79-97 | configured typ and cty first, then extras on top |
| JweEncrypter.ConfiguredHeadersAreEmitted | jwe/multi_encrypter.go:143-157 | the multi-encrypter always emits the configured values, the compact one iff no extra overrides them with another |
| JweEncrypter.ExtrasAreEmitted | jwe/multi_encrypter.go:138-157 | apart from a configured typ and cty, both encrypters emit exactly the extra headers, as given |
| JweEncrypter.SameOptionsAgree | jwe/options.go:36-80 | a decrypter with the same options accepts the multi-encrypter's typ and cty always, the compact encrypter's iff nothing overrides them |
| JweEncrypter.CompactOverrideExample | jwe/encrypter.go:79-97 | an accepted option list whose compact header differs from the configured typ |

## Left out

- Cryptography, key generation, JSON, base64url, serialization, and the internals of go-jose and golang-jwt, including golang-jwt's own iss, aud and sub checks. Its exp and nbf checks are a stated assumption (`JwtLifetime.Current`), which the rotation results use. The other lifetime results are about `validateLifetime` alone.
- Text of error messages, nil receivers, deadlines and goroutines. Cancellation is an error that may be seen before each signature.
- JWK parsing, thumbprints, PEM, nested JWE, and the size checks of serialized tokens, which would only add one-branch members.
- `MultiSigner`, detached payloads and `cloneRecipients`, which add no decision beyond those modelled here. Of `parserOptions`, what it asks golang-jwt about exp and nbf is in `JwtLifetime.Current`. The iat check it asks for is made again by `validateLifetime`.
- `Nonce` and embedded `jwk` parameters, which the modelled code carries along and never reads.
- JwsVerifier.VerifySignature: resolver and signature check are functions of their arguments, because a resolver that answers the same header differently during one run is application code.
- JwsPolicy.Evaluate: an application policy is a function of the results. One that panics, keeps state or writes into the result slice it is given is not modelled.
- JwsKeyHeap.CloneKeyMaterial: a nil and an empty byte slice are the same slice here, and a slice is a whole array, so two slices overlapping in part are not modelled.
- JwsKeyHeap.KeySetSnapshot.Candidates: choosing among the candidates reads them only, and is `JwsResolver.ResolveInSet` on their values.
- JwsKeyHeap.SnapshotIsolation: objects retained by reference (RSA, ECDSA, opaque signers) are identities without contents, as the source asks callers to treat them as immutable.
- JwtKeySet.ListKeys: the sorting algorithm of the standard library is replaced by insertion sort. The result is proved to be the only possible one.
- JwtLifetime.WindowIsExactIffRepresentable: `Time.Add` is exact. Clock values near the end of the range of `time.Time` are not modelled.
- JwsSigner.BuiltKeyResolvesItsOwnHeader: go-jose decides which kid it writes. That is a parameter, assumed to be the identifier the key material carries or none.
- JwsSigner.SignThenVerify: correctness of the signature scheme is the assumption that the resolved key checks the signature that was made.
