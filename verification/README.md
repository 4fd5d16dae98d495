# A Dafny model of the OpenID4VP verifier

The repository verifies credentials presented over OpenID4VP (SD-JWT and ISO mdoc), decides whether their issuer is
trusted, and ships a small demonstration server around that. This project models its algorithms that carry state, run
to a fixpoint, or do arithmetic on bytes, and proves what they promise:

- **SD-JWT disclosures** (`SdJwtAnchors`, `CommitmentClosure`, `SdJwtDisclosures`). The loop that anchors disclosures
  transitively accepts exactly when every disclosure hangs on a chain of commitments from the issuer payload. The
  anchored disclosures are the least closed set; a refusal means a group that supports only itself.
- **X.509 chains** (`Names`, `NameConstraints`, `Certificates`, `IssuerWalk`, `ChainBuilder`, `TrustEvaluator`). Every
  chain returned is a valid path; the climb returns exactly when it does not enter an unlimited cycle of accepted
  issuers; a path is built exactly when it is valid and takes the first namesake at every step.
- **CBOR framing and session binding** (`Cbor`, `DeviceAuth`, `SessionTranscript`, `IssuerSignedItem`). Well-formed
  items are prefix-free, so the bytes a device signs determine the protected header, transcript, document type and name
  spaces, and through them the session.
- **State over time** (`OrderedMap`, `InMemoryCache`, `LotlTrustStore`, `SessionStore`). Classes with the source's
  fields, each method equal to a step on values, and theorems about every run of those steps: capacity monotonicity,
  survival and eviction for the cache; single flight for the trust-list refresh; one outcome per session under
  interleaved handlers.
- **Revocation and codecs** (`Revocation`, `Hex`, `Base64Url`, `EcdsaDer`, `TrustStore`, `MdocClaims`, `MdocParser`).
  Verdicts rest on evidence whatever the cache holds; serials are compared as integers; decoders invert encoders; the
  indexed anchor lookup agrees with a linear scan; mdoc claims stem from items the issuer committed to.

`Options`, `ByteStrings` and `Sets` hold shared vocabulary. A method whose name matches one of the source follows it
branch by branch; where the source throws, the model returns a value that says so. Code between two awaits is one step.

No hash is assumed to be injective, which no function to 32 bytes is: the binding theorems conclude that the inputs
agree *or* that two named byte strings collide.

## Where the code falls short of its promise

Each bullet names the lemma that shows the shortfall on an input and the theorem with its exact condition.

- The chain climb keeps no set of visited certificates, so it need not end. Input: two CAs that issue each other and set
  no path length limit (`CrossIssuedPairNeverEnds`). Exactly when: `ClimbReturnsExactly`.
- Only the first pool certificate with the wanted subject is tried, so a valid path through a namesake can be missed.
  Input: `FirstOfTwoNamesakesWins`. Exactly when: for any pool, a path is built if and only if it is valid and takes the
  first namesake at every step (`BuildsExactlyAlongFirsts`); without namesakes that is whenever a valid path exists
  (`BuildsExactlyWhenPathExists`).
- The depth counter is described as counting the CAs that are not self-issued, as section 4.2.1.9 of RFC 5280 does, and
  counts every CA. Input on which the two counters end differently: `SelfIssuedCaIsCounted`. Exactly when: if and only if
  the climb comes, over issuers that are not self-issued, to a self-issued CA of another name than the anchor's with a
  limit that is used up there or that the CA uses up by certifying itself (`CountersDisagreeExactly`). Then the climb
  fails on the path length; which chain is built never differs (`CountersBuildAlike`), and no built chain has a
  self-issued certificate between its ends (`BuiltChainsHaveNoSelfIssued`).
- Candidate anchors are de-duplicated by serial number, which can hide the one that certifies the leaf. Input:
  `SharedSerialHidesAnchor`. Exactly when: an anchor is tried if and only if it is the first on offer with its serial
  (`CandidatesAreFirsts`), and none is hidden if and only if no two different ones share a serial
  (`NothingHiddenExactly`).
- The static store does not index an empty key identifier, which the rule of the list-of-lists store would match. Input:
  `EmptyKeyIdIsNotIndexed`. Exactly when: `IndexesAgreeWithScan`.
- The DER converter takes the sequence length for one byte. Signatures whose content takes 128 bytes or more are rejected
  (input: `LongContentIsRejected`) or converted to other numbers (input: `LongContentIsMisread`), and never converted
  correctly: for numbers that fit the width, conversion is right if and only if the content is shorter than 128 bytes
  (`ConvertInvertsDer`); `LongContentOutcome` says which of the wrong outcomes it is.
- A session transcript that is not one well-formed CBOR item can shift bytes into the document type. Input:
  `IllFormedTranscriptCollides`. Exactly when, for two inputs: if and only if one transcript is the other with bytes
  appended that the other input has first behind its transcript, and the rest agrees (`CollisionsAreShifts`); then one of
  the two transcripts is ill-formed (`ShiftsAreIllFormed`).
- A quote inside a JWK member can make two keys share a thumbprint. Input: `QuotedMembersCollide`. Exactly when: if and
  only if the separators of the canonical JSON can be found in a second place (`TwinExactlyWhenSeparatorsRecur`); a
  quote-free key shares its canonical JSON with no key at all (`CanonicalJwkIsInjective`).
- The shapes in which an mdoc item may arrive do not always hash the same bytes. Input: `PrefixedInnerItemDiffers`.
  Exactly when: if and only if the inner item does not itself start with the tag-24 prefix (`ShapesAgreeExactly`).

That session states are never reused is an assumption, which the library meets by drawing a random one for each request.
It is needed: with a state used again, `ReusedStateTakesForeignOutcome` gives a run in which the second session takes the
outcome verified for the first, and `ForeignOutcomeExactly` says in which states a resumed handler would do that.

## Model

| member | source | states |
|---|---|---|
| `SdJwtAnchors.AnchorCollector.Visit` | src/parsers/sd-jwt.parser.ts:504-526 | walking a value adds to the two hash sets exactly the anchors the value commits to, and removes none |
| `SdJwtAnchors.AnchorCollector.AddSdEntries` | src/parsers/sd-jwt.parser.ts:519-521 | of an `_sd` list exactly the string entries become property hashes |
| `SdJwtAnchors.WalkFindsExactlyTheOccurrences` | src/parsers/sd-jwt.parser.ts:501-529 | an anchor is collected exactly when it is spelled out at some address of the document that does not pass through an `_sd` list or a placeholder |
| `CommitmentClosure.LevelIsChainLength` | src/parsers/sd-jwt.parser.ts:373-389 | pass k has anchored exactly the disclosures that hang on a chain of at most k commitments from the payload |
| `CommitmentClosure.FixpointIsAnchored` | src/parsers/sd-jwt.parser.ts:373-389 | when a pass adds nothing, exactly the disclosures with some chain from the payload are anchored |
| `CommitmentClosure.AnchoredIsLeastClosed` | src/parsers/sd-jwt.parser.ts:367-389 | the anchored disclosures are the least set closed under commitment by the payload or a member |
| `CommitmentClosure.RefusedIffFloatingGroup` | src/parsers/sd-jwt.parser.ts:391-393 | a presentation is refused exactly when some non-empty group of disclosures is committed to by nothing outside the group, which covers self-supporting cycles |
| `CommitmentClosure.VerdictDependsOnTheSetOnly` | src/parsers/sd-jwt.parser.ts:372-393 | order and repetition of the disclosures do not change whether all are anchored |
| `CommitmentClosure.MoreAnchorsKeepAcceptance` | src/parsers/sd-jwt.parser.ts:367-393 | more anchors in the payload or in disclosed values never turn acceptance into refusal |
| `SdJwtDisclosures.Seed` | src/parsers/sd-jwt.parser.ts:364-372 | the loop starts with the payload's anchors and every disclosure pending |
| `SdJwtDisclosures.PickAnchored` | src/parsers/sd-jwt.parser.ts:374-380 | a pass picks exactly the pending disclosures whose anchor, of the kind their length asks for, is available |
| `SdJwtDisclosures.FeedBack` | src/parsers/sd-jwt.parser.ts:382-388 | the sets gain exactly the anchors of the picked values, and exactly the picked disclosures stop being pending |
| `SdJwtDisclosures.Without` | src/parsers/sd-jwt.parser.ts:386-387 | splicing at the found index drops that record and no other |
| `SdJwtDisclosures.OnePass` | src/parsers/sd-jwt.parser.ts:373-389 | one turn takes the state from one pass level to the next, and reports no progress exactly at the fixpoint |
| `SdJwtDisclosures.CloseOver` | src/parsers/sd-jwt.parser.ts:364-389 | exactly the unanchored disclosures remain, after at most one pass more than there are disclosures and no pass too many |
| `SdJwtDisclosures.DecodeAll` | src/parsers/sd-jwt.parser.ts:345-363 | decoding succeeds exactly when each string is JSON holding [salt, name, value] or [salt, value]; each record then has the hash of its string, its kind, and the last element as value; the first offender decides which error is reported |
| `SdJwtDisclosures.VerifyDisclosures` | src/parsers/sd-jwt.parser.ts:337-394 | step 7 accepts exactly when every string is such an array and ends a chain of commitments from the payload; it reports a hash mismatch exactly when all are arrays and some hangs on no chain, and not JSON exactly when a string before any other fault does not parse |
| `SdJwtDisclosures.AcceptsExactly` | src/parsers/sd-jwt.parser.ts:337-394 | end to end, of the strings alone: accepted exactly when each string ends a chain of strings whose first one the payload commits to at some address and each later one the last array element of its predecessor, by `_sd` for three elements and by `...` for two |
| `SdJwtDisclosures.AcceptanceIgnoresOrder` | src/parsers/sd-jwt.parser.ts:337-394 | presenting the same disclosure strings in another order or more often gives the same verdict |
| `InMemoryCache.Cache.constructor` | src/trust/Cache.ts:26-28 | a new cache is empty and has the given capacity |
| `InMemoryCache.Cache.Get` | src/trust/Cache.ts:30-41 | an unexpired entry is returned and moved to the recent end, an expired one is removed, everything else stays in place |
| `InMemoryCache.Cache.Set` | src/trust/Cache.ts:43-55 | the key gets the new entry at the recent end and the oldest entries leave until the capacity holds; size and keys stay sound |
| `InMemoryCache.Cache.EvictOldest` | src/trust/Cache.ts:50-54 | the eviction loop leaves the most recent entries, as many as the capacity allows |
| `InMemoryCache.RunIsSound` | src/trust/Cache.ts:22-56 | no trace of operations leaves more than the capacity or a key twice |
| `InMemoryCache.LargerCacheHitsMore` | src/trust/Cache.ts:30-55 | after any one trace at the same times, a smaller cache is an order-preserving subsequence of a larger one with identical entries, so each of its hits is the same hit there |
| `InMemoryCache.MapIsRecencyList` | src/trust/Cache.ts:37-49 | map order is the order of last touch (the operation that last set or hit the key), and each entry is the one its key's last set wrote |
| `InMemoryCache.HitReturnsLastSet` | src/trust/Cache.ts:30-41 | a hit returns the value of the key's last set, and only until that set's expiry |
| `InMemoryCache.RecentKeySurvives` | src/trust/Cache.ts:44-54 | a touched key keeps its entry, and is hit while unexpired, as long as fewer distinct other keys than the capacity are touched |
| `InMemoryCache.KeyLeavesExactlyWhenCrowdedOut` | src/trust/Cache.ts:30-55 | on every trace: a key leaves exactly when at some time as many distinct other keys as the capacity have been touched since and not removed by a lookup that found them expired; while it stays, it keeps its entry and those keys are the ones listed after it |
| `Cbor.ScanItemLocal` | src/crypto/device-auth.ts:70-76 | scanning a well-formed item reads nothing past its end, so appended bytes only lengthen the rest |
| `Cbor.ItemsArePrefixFree` | src/crypto/device-auth.ts:70-76 | if two well-formed items followed by anything give equal bytes, the items are equal and so is what follows |
| `Cbor.EncodedHeadReadsBack` | src/crypto/device-auth.ts:44-47 | a shortest head reads back as its major type and argument, whatever follows |
| `Cbor.EncodedHeadIsShortest` | src/parsers/mdoc.parser.ts:42-47 | no definite head for the same major type and argument is shorter |
| `Cbor.Tag24IsInjective` | src/crypto/device-auth.ts:44-47 | the tag-24 wrapping determines the wrapped bytes |
| `Cbor.ArrayIsInjective` | src/crypto/device-auth.ts:81-84 | an encoded array determines its items, however each item was produced |
| `Cbor.ArrayReadsBack` | src/crypto/device-auth.ts:81-84 | an encoded array of well-formed items reads back as these items, in order |
| `Cbor.StringItemsReadBack` | src/crypto/device-auth.ts:44-47 | encoded byte and text strings read back as their content |
| `SessionTranscript.Oid4vpTranscriptBinds` | src/crypto/session-transcript.ts:22-32 | equal ISO 18013-7 transcripts mean equal client id, response URI, nonce and wallet nonce, or an explicit hash collision |
| `SessionTranscript.Oid4vpTranscriptReadsBack` | src/crypto/session-transcript.ts:22-32 | the ISO 18013-7 transcript reads back as [null, null, [clientIdHash, responseUriHash, nonce]], each hash over the array of the identifier and the wallet nonce |
| `SessionTranscript.OpenID4VPTranscriptBinds` | src/crypto/session-transcript.ts:83-93 | equal OpenID4VP 1.0 transcripts mean equal client id, nonce, response URI and thumbprint-or-null, or an explicit hash collision |
| `SessionTranscript.OpenID4VPTranscriptReadsBack` | src/crypto/session-transcript.ts:83-93 | the OpenID4VP 1.0 transcript reads back as [null, null, ["OpenID4VPHandover", hash]], the hash over [clientId, nonce, thumbprint or null, responseUri] and the thumbprint over the canonical JSON of the key |
| `SessionTranscript.ThrowsOnIncompleteKey` | src/crypto/session-transcript.ts:47-53 | the builder throws exactly for a key of another type than EC or with a missing or empty member |
| `SessionTranscript.ProfilesNeverCoincide` | src/crypto/session-transcript.ts:72-75 | no session of one profile has the transcript bytes of a session of the other |
| `SessionTranscript.TranscriptsAreItems` | src/crypto/session-transcript.ts:31-31 | both builders return exactly one well-formed data item, as the splice into the device authentication needs |
| `SessionTranscript.HandoverInfoIsInjective` | src/crypto/session-transcript.ts:91-91 | the hashed info array determines its four members, null and a thumbprint told apart |
| `SessionTranscript.CanonicalJwkIsInjective` | src/crypto/session-transcript.ts:54-54 | a key with quote-free members shares its hand-spliced canonical JSON with no other key, whatever that one's members are |
| `SessionTranscript.TwinExactlyWhenSeparatorsRecur` | src/crypto/session-transcript.ts:47-56 | a key shares its canonical JSON with another exactly when the separators of that JSON can be found in a second place |
| `SessionTranscript.QuotedMembersCollide` | src/crypto/session-transcript.ts:47-56 | with quotes in a member, two different keys have the same thumbprint |
| `DeviceAuth.ConcatBytes` | src/crypto/device-auth.ts:25-35 | the buffer filled in place is the concatenation of the chunks |
| `DeviceAuth.EncodeTag24` | src/crypto/device-auth.ts:44-47 | the spliced bytes are the tag-24 wrapping of the inner bytes |
| `DeviceAuth.BuildDeviceAuthenticationBytes` | src/crypto/device-auth.ts:65-78 | the result reads back as one wrapped string that announces an array of four and holds the context text, the transcript as supplied, the document type text and the wrapped name spaces; for a well-formed transcript that string is exactly one array with these four elements |
| `DeviceAuth.DeviceAuthenticationIsInjective` | src/crypto/device-auth.ts:49-78 | with one well-formed item as transcript, equal bytes mean equal transcript, document type and name spaces |
| `DeviceAuth.CollisionsAreShifts` | src/crypto/device-auth.ts:65-78 | for any transcripts, two different inputs give the same bytes exactly when one transcript is the other with bytes appended that the other input has first behind its transcript, and the rest agrees |
| `DeviceAuth.ShiftsAreIllFormed` | src/crypto/device-auth.ts:65-78 | bytes so shifted start with a text head and are no data item, so one of the two transcripts is ill-formed |
| `DeviceAuth.SigStructureIsInjective` | src/crypto/device-auth.ts:81-84 | the signature structure determines the protected header and the payload |
| `DeviceAuth.SigStructureReadsBack` | src/crypto/device-auth.ts:81-84 | the structure reads back as the array of the text "Signature1", the protected header, an empty string and the payload |
| `DeviceAuth.SignatureInputIsInjective` | src/crypto/device-auth.ts:65-84 | the signed bytes determine protected header, transcript, document type and name spaces |
| `DeviceAuth.IllFormedTranscriptCollides` | src/crypto/device-auth.ts:70-76 | with an ill-formed transcript two different inputs give the same bytes |
| `DeviceAuth.SignatureBindsIsoSession` | src/crypto/session-transcript.ts:15-32 | equal signed bytes under the ISO profile mean equal document type, name spaces and protected header, and the same session or a hash collision |
| `DeviceAuth.SignatureBindsFinalSession` | src/crypto/session-transcript.ts:83-93 | equal signed bytes under OpenID4VP 1.0 mean equal document type, name spaces and protected header, and the same client id, nonce, response URI and thumbprint-or-null, or a hash collision |
| `DeviceAuth.SignatureInputsOfProfilesDiffer` | src/crypto/session-transcript.ts:72-75 | bytes signed under one profile are never the bytes to verify under the other |
| `IssuerSignedItem.HeaderIsShortestHead` | src/parsers/mdoc.parser.ts:48-75 | for every length below 2^53 the header built by shifts and masks is the shortest head of section 4.2.1 of RFC 8949 |
| `IssuerSignedItem.WrapIssuerSignedItemBytes` | src/parsers/mdoc.parser.ts:85-93 | the filled buffer is tag, header and the inner bytes verbatim |
| `IssuerSignedItem.WrapReadsBack` | src/parsers/mdoc.parser.ts:77-93 | a strict tag-24 reader recovers exactly the inner bytes and whatever was appended |
| `IssuerSignedItem.WrappedIsInjective` | src/parsers/mdoc.parser.ts:77-93 | different inner items never share their wrapped bytes |
| `IssuerSignedItem.ExtractIsIdempotent` | src/parsers/mdoc.parser.ts:109-130 | extracted bytes carry the prefix and a second extraction leaves them alone |
| `IssuerSignedItem.ShapesAgreeExactly` | src/parsers/mdoc.parser.ts:95-130 | the three decode shapes of an item give the same bytes exactly when the inner item does not start with the tag-24 prefix |
| `IssuerSignedItem.PrefixedInnerItemDiffers` | src/parsers/mdoc.parser.ts:113-118 | an inner item that is itself an empty tag-24 item is hashed as it is in one shape and wrapped in another |
| `Names.DnsIsLabelSuffix` | src/trust/ChainBuilder.ts:397-402 | a name is under a DNS subtree exactly when the subtree's dot-separated labels are its last labels, ignoring case |
| `Names.DnIsRdnSuffix` | src/trust/ChainBuilder.ts:444-458 | a name is under a directory subtree exactly when the subtree's trimmed, non-empty RDNs are its last ones, ignoring case |
| `Names.DnsSubtreesNest` | src/trust/ChainBuilder.ts:393-402 | DNS subtrees form a preorder, and two that share a name are nested |
| `Names.DnSubtreesNest` | src/trust/ChainBuilder.ts:438-458 | directory subtrees form a preorder, and two that share a name are nested |
| `Names.DottedEmailIsLabelSuffix` | src/trust/ChainBuilder.ts:404-423 | a dot-prefixed mailbox subtree admits exactly the mailboxes whose host has the subtree's labels last, the bare domain included |
| `Names.EmailMeans` | src/trust/ChainBuilder.ts:411-423 | the mailbox test is that of three shapes: a full mailbox, equal ignoring case; a dot and a domain, whose labels the mailbox's host has last; a host, equal to the mailbox's |
| `Names.SubtreeTestMeans` | src/trust/ChainBuilder.ts:380-392 | a name lies in a subtree exactly when both are of one kind and the subtree's RDNs, labels, or labels of the URI's host are last, or the mailbox test passes |
| `Names.LowerForgetsCaseOnly` | src/trust/ChainBuilder.ts:397-402 | lower-casing identifies two texts exactly when they differ at most in the case of the letters A to Z |
| `Names.RdnsAreCutAtCommas` | src/trust/ChainBuilder.ts:445-450 | a name is cut at every comma, and a part without commas is one trimmed RDN or, when blank, none |
| `Names.TrimStrips` | src/trust/ChainBuilder.ts:448-448 | trimming takes all white space off both ends and nothing else |
| `NameConstraints.AllPermitted` | src/trust/ChainBuilder.ts:180-190 | passes exactly when, if any permitted subtree has the type, each leaf name of the type is under one |
| `NameConstraints.NoneExcluded` | src/trust/ChainBuilder.ts:191-201 | passes exactly when no leaf name of the type is under an excluded subtree |
| `NameConstraints.ApplyConstraintsForType` | src/trust/ChainBuilder.ts:169-202 | for one name type, passes exactly when every leaf name of that type is permitted and not excluded |
| `NameConstraints.CheckOneCa` | src/trust/ChainBuilder.ts:157-166 | over the four types together, passes exactly when every leaf name is permitted and not excluded |
| `Certificates.CheckNameConstraints` | src/trust/ChainBuilder.ts:154-167 | passes exactly when every certificate above that has constraints admits the leaf's subject as a directory name and each of its alternative names: in a permitted subtree if any is of the name's kind, and in no excluded one, subtrees read as suffixes of RDNs, labels or host labels or as mailboxes |
| `Certificates.CheckCaAndPathLen` | src/trust/ChainBuilder.ts:204-219 | no reason is given exactly for a CA, allowed to sign certificates, whose limit admits the depth |
| `Certificates.CheckAkiSki` | src/trust/ChainBuilder.ts:243-255 | fails exactly when both identifiers are present and differ beyond case |
| `Certificates.CheckPerCert` | src/trust/ChainBuilder.ts:266-300 | passes exactly within the validity period widened by the skew and with an allowed algorithm |
| `Certificates.CheckIssuer` | src/trust/ChainBuilder.ts:124-127 | the four checks of a link pass exactly when the issuer certifies the child and its limit admits the depth |
| `Certificates.IssuerRefusedForCause` | src/trust/ChainBuilder.ts:204-300 | in the fields of the certificates: a link passes exactly when time, algorithm, key usage, CA flag, limit, key identifiers and signature are all right, and each reason for refusing it is true of them |
| `Certificates.LeafRefusedForCause` | src/trust/ChainBuilder.ts:100-101 | the same for the leaf: time, algorithm and the digital signature usage |
| `Certificates.AlgorithmNamesAreUnambiguous` | src/trust/ChainBuilder.ts:302-323 | each of the ten algorithm names stands for one scheme and hash, and no other pair of names can spell it |
| `IssuerWalk.EndlessExactly` | src/trust/ChainBuilder.ts:106-131 | a walk that each stop determines goes on forever exactly when it enters a cycle of unlimited stops, and that shows within a bound computed from the pool |
| `ChainBuilder.ClimbReturnsExactly` | src/trust/ChainBuilder.ts:106-131 | the climb never ends exactly when it enters a cycle of accepted issuers without path length limit; otherwise it ends within the largest limit plus the pool size plus one issuers |
| `ChainBuilder.LimitedCyclesReturn` | src/trust/ChainBuilder.ts:106-131 | if every issuer cycle of the pool holds a path length limit, acyclic pools included, every climb ends |
| `ChainBuilder.CrossIssuedPairNeverEnds` | src/trust/ChainBuilder.ts:106-131 | two CAs that issue each other without a limit keep the climb going forever |
| `ChainBuilder.TryBuild` | src/trust/ChainBuilder.ts:95-146 | whenever the original returns, the loop ends with the outcome of the climb, the reason of the first failed check included |
| `ChainBuilder.Build` | src/trust/ChainBuilder.ts:72-93 | the first anchor that closes a chain decides; otherwise the last anchor's failure is reported |
| `ChainBuilder.ClimbIsSound` | src/trust/ChainBuilder.ts:95-146 | a chain built for an anchor starts at the leaf and ends byte-identically at the anchor; neighbours are linked by name, signature, key identifiers and CA status, limits and name constraints hold, and the middle comes from the pool |
| `ChainBuilder.ValidPathInFields` | src/trust/ChainBuilder.ts:95-146 | what a valid path is, in the fields of its certificates: start, end, validity, algorithms, usages, issuer names, signatures, key identifiers, CA flags, a limit of at least i - 1 on the i-th, and admitted names |
| `ChainBuilder.SearchIsSound` | src/trust/ChainBuilder.ts:72-93 | every chain the search returns is such a valid path to one of the anchors given |
| `ChainBuilder.SearchBuildsExactly` | src/trust/ChainBuilder.ts:72-93 | the search over anchors returns a chain exactly when some anchor's climb builds it after all climbs for earlier anchors failed, and it never ends exactly when some anchor's climb never ends after all earlier ones failed |
| `ChainBuilder.SearchReportsLastFailure` | src/trust/ChainBuilder.ts:81-93 | when every anchor's climb fails, the failure reported is that of the last anchor |
| `ChainBuilder.BuildsExactlyAlongFirsts` | src/trust/ChainBuilder.ts:95-146 | for any pool and any path: that path is what is built for the anchor exactly when it is a valid path, takes the first certificate with the issuer's name at every step, and bears the anchor's name only at its end |
| `ChainBuilder.FirstOfTwoNamesakesWins` | src/trust/ChainBuilder.ts:107-107 | with two issuers of one name the builder can fail although a valid path exists |
| `ChainBuilder.CountersBuildAlike` | src/trust/ChainBuilder.ts:103-131 | if the climb, or a climb that counts only the CAs that are not self-issued, builds a chain, both end alike: no chain is gained or lost by counting all CAs |
| `ChainBuilder.CountersDisagreeExactly` | src/trust/ChainBuilder.ts:103-131 | the two counters make a climb end differently exactly when it comes, over issuers that are not self-issued, to a self-issued CA of another name than the anchor's with a limit that is used up there or that the CA uses up by certifying itself; the climb then fails on the path length |
| `ChainBuilder.BuiltChainsHaveNoSelfIssued` | src/trust/ChainBuilder.ts:103-131 | a built chain has no self-issued certificate between the leaf and its end |
| `ChainBuilder.SelfIssuedCaIsCounted` | src/trust/ChainBuilder.ts:103-131 | above a self-issued CA with limit 0 the climb fails on the path length, where not counting that CA would keep it going forever |
| `TrustEvaluator.PushUnique` | src/trust/TrustEvaluator.ts:74-81 | the candidates become the first offered anchor of each serial number, in order |
| `TrustEvaluator.CollectAnchors` | src/trust/TrustEvaluator.ts:71-88 | the candidates are the first per serial of all anchors offered for the leaf and then for each intermediate |
| `TrustEvaluator.NamedAnchorsAreOffered` | src/trust/TrustEvaluator.ts:153-161 | with a store that returns every anchor the hint rule matches, each anchor that the leaf or an intermediate names, by issuer or by key identifier bytes, is on offer |
| `TrustEvaluator.CandidatesAreOffered` | src/trust/TrustEvaluator.ts:71-88 | every candidate was offered, every offered serial has exactly one candidate, and only an empty offer leaves none |
| `TrustEvaluator.CandidatesAreFirsts` | src/trust/TrustEvaluator.ts:74-81 | an anchor is a candidate exactly when nothing with its serial number is offered before it |
| `TrustEvaluator.NothingHiddenExactly` | src/trust/TrustEvaluator.ts:74-81 | every anchor on offer is a candidate exactly when no two different ones share a serial number |
| `TrustEvaluator.FindByBytes` | src/trust/TrustEvaluator.ts:106-108 | finds an anchor with the same bytes, and reports none only if there is none |
| `TrustEvaluator.Evaluate` | src/trust/TrustEvaluator.ts:67-150 | the branch for a terminus without anchor is never taken; without candidates there is no anchor, without a chain its reason, and with a chain the revocation answer for the leaf under its issuer decides; a trusted result carries a valid path and an offered anchor whose bytes end it |
| `TrustEvaluator.SharedSerialHidesAnchor` | src/trust/TrustEvaluator.ts:74-81 | an anchor that certifies the leaf is not tried when another one offered before shares its serial number |
| `TrustStore.StaticTrustStore.constructor` | src/trust/TrustStore.ts:39-48 | the store holds the given certificates in order, and both indexes list per key exactly the positions that have it |
| `TrustStore.StaticTrustStore.Add` | src/trust/TrustStore.ts:40-47 | indexing one more certificate keeps both indexes exact |
| `TrustStore.StaticTrustStore.GetAnchors` | src/trust/TrustStore.ts:50-66 | the result is the key identifier matches followed by the subject matches not listed yet |
| `TrustStore.SelectedMember` | src/trust/LotlTrustStore.ts:140-147 | an anchor is selected exactly when the hint rule of the list-of-lists store matches it, an empty key identifier aside |
| `TrustStore.SelectionOrder` | src/trust/TrustStore.ts:50-66 | the lookup repeats no anchor: first the key identifier matches in insertion order, then the remaining subject matches in insertion order |
| `TrustStore.IndexesAgreeWithScan` | src/trust/TrustStore.ts:50-66 | the indexed lookup selects what a linear scan with the hint rule selects exactly when no anchor has an empty key identifier that the hint also carries while the names differ |
| `TrustStore.EmptyKeyIdIsNotIndexed` | src/trust/TrustStore.ts:45-46 | an anchor with an empty key identifier that the scan selects for a hint and the index does not |
| `LotlTrustStore.Store.GetSnapshot` | src/trust/LotlTrustStore.ts:97-106 | answers at once, with the stored snapshot, exactly when that is younger than the interval; otherwise joins the refresh in flight or starts one |
| `LotlTrustStore.Store.Refresh` | src/trust/LotlTrustStore.ts:108-110 | a refresh in flight is shared and nothing changes; only otherwise a new one starts |
| `LotlTrustStore.Store.RefreshSucceeded` | src/trust/LotlTrustStore.ts:118-123 | success stores the fetched content with the time, answers with it and ends the flight |
| `LotlTrustStore.Store.RefreshFailed` | src/trust/LotlTrustStore.ts:124-134 | failure answers with the prior snapshot if there is one, keeps it, and ends the flight |
| `LotlTrustStore.RunIsSane` | src/trust/LotlTrustStore.ts:97-137 | in every interleaving a promise is unsettled exactly when it is the one in flight, the snapshot was fetched in the past, and every waiting call waits on an existing refresh |
| `LotlTrustStore.AtMostOneRefresh` | src/trust/LotlTrustStore.ts:108-110 | in no state of any run are two refreshes running |
| `LotlTrustStore.SnapshotNeverReverts` | src/trust/LotlTrustStore.ts:118-132 | over any stretch of any run a stored snapshot is neither lost nor replaced by one fetched earlier |
| `LotlTrustStore.CallsReturnCurrentSnapshots` | src/trust/LotlTrustStore.ts:97-137 | a call returns a snapshot that was the stored one at some state during the call; it fails only if at some state during the call none had ever been stored |
| `LotlTrustStore.CallsMeet` | src/trust/LotlTrustStore.ts:97-110 | a new call is answered at once exactly when the stored snapshot is younger than the interval; otherwise it waits for the one refresh that is then running |
| `LotlTrustStore.ImmediateAnswersAreFresh` | src/trust/LotlTrustStore.ts:97-106 | in every run, an answer given without waiting was younger than the interval when it was given |
| `LotlTrustStore.SnapshotsWereFetched` | src/trust/LotlTrustStore.ts:112-123 | in every run, the stored snapshot has the content some refresh delivered and the time at which it did |
| `SessionStore.Store.Create` | poc-verifier/src/services/sessionStore.js:43-67 | a state not in the map gets a new pending session with deadline now plus the time to live and no outcome, and nothing else changes; a state in the map is refused and nothing changes |
| `SessionStore.Store.Get` | poc-verifier/src/services/sessionStore.js:74-83 | the session under the state is returned, unchanged before its deadline; from then on it is marked expired and leaves the map |
| `SessionStore.Store.Complete` | poc-verifier/src/services/sessionStore.js:90-110 | records exactly when the state names a pending session before its deadline: a verified result leaves it done with that result, a rejection failed with that error, the other field as it was; a lapsed pending one expires |
| `SessionStore.Store.TtlSeconds` | poc-verifier/src/services/sessionStore.js:113-117 | the seconds left rounded up, zero for a missing or lapsed session |
| `SessionStore.Store.Sweep` | poc-verifier/src/services/sessionStore.js:127-133 | exactly the sessions before their deadline stay in the map, and no session object changes |
| `SessionStore.RunIsGood` | poc-verifier/src/services/sessionStore.js:90-110 | in every reachable state each session has a result only if done or later expired, an error only if failed or later expired, never both |
| `SessionStore.RecordsEvolve` | poc-verifier/src/services/sessionStore.js:43-133 | over any stretch of any interleaving status moves only from pending or into expired; state and deadline are fixed, and result and error once the session is not pending |
| `SessionStore.OutcomeIsRecordedOnce` | poc-verifier/src/services/sessionStore.js:85-110 | a session with an outcome got it in exactly one step, while pending and strictly before its deadline |
| `SessionStore.OutcomeComesFromItsOwnHandler` | poc-verifier/src/routes/responseRoutes.js:51-72 | when states are not reused, a resumed handler records only in the session it verified against: done with its verified result and no error, or failed with its error and no result |
| `SessionStore.DoneOnlyIfVerified` | poc-verifier/src/routes/responseRoutes.js:31-77 | over every run with unused states, a session is done with a result only if a handler for it was resumed with that verified result, and failed with an error only if one was resumed with that rejection or an encrypted response was refused for it |
| `SessionStore.OutcomesHaveSources` | poc-verifier/src/routes/responseRoutes.js:31-77 | the same for every outcome a session shows at any time, expired or not |
| `SessionStore.RecordsExactlyInTime` | poc-verifier/src/routes/responseRoutes.js:51-72 | with unused states, a resumed handler records exactly when its own session is then pending and before its deadline |
| `SessionStore.PendingSessionsAreListed` | poc-verifier/src/services/sessionStore.js:43-133 | in every run, a pending session before its deadline is still found under its state |
| `SessionStore.ResponseMeets` | poc-verifier/src/routes/responseRoutes.js:31-49 | a response is verified exactly when its state names a pending session before its deadline and it is not encrypted; an encrypted one fails that session at once; any other is refused |
| `SessionStore.OneRecorderPerSession` | poc-verifier/src/routes/responseRoutes.js:31-77 | of all handlers that ever answer for a session, at most one records |
| `SessionStore.ForeignOutcomeExactly` | poc-verifier/src/services/sessionStore.js:90-110 | in any good state a resumed handler's outcome goes to a session other than its own exactly when its state now names another session that is pending and before its deadline |
| `SessionStore.ReusedStateTakesForeignOutcome` | poc-verifier/src/services/sessionStore.js:47-49 | unused states are a needed assumption: with one used again after a sweep, the second session takes the outcome verified for the first |
| `Revocation.VerifyResponse` | src/trust/OcspClient.ts:148-213 | verified exactly when the issuer signed the response or some embedded certificate with the OCSP signing usage chains to the issuer and signed it; each of the reported errors has its condition |
| `Revocation.ResponderIsIssuedByIssuer` | src/trust/OcspClient.ts:185-197 | a responder accepted by the candidate loop is the issuer itself or was certified by it |
| `Revocation.SameSerialIsSameInteger` | src/trust/OcspClient.ts:236-241 | serials match exactly when they are the same integer, whatever their padding, case or separators |
| `Revocation.ExtractedVerdictIsFirstTestimony` | src/trust/OcspClient.ts:229-273 | the extracted verdict is v exactly when the first entry for the serial integer is at most seven days old and its status - good, revoked with date and reason, or unknown - is what v says |
| `Revocation.OcspVerdictRestsOnEvidence` | src/trust/OcspClient.ts:296-345 | the OCSP step has the verdict v exactly when the cached response, or the network's where none is cached, verifies and its first entry says v |
| `Revocation.RevocationChecker.CheckOcspCached` | src/trust/OcspClient.ts:296-345 | the verdict is that of the cached response if there is one, else of the one request then made; only a fetched response that verified and gave the verdict is stored, under the certificate's key; answers about CRLs do not change |
| `Revocation.RevocationChecker.FetchCrlCached` | src/trust/CrlFetcher.ts:80-98 | returns the list cached for the URL, or else the one fetched by the one request then made, whose bytes alone are stored under the URL; no answer for any URL changes |
| `Revocation.CrlVerdictIsListing` | src/trust/CrlFetcher.ts:168-182 | revoked exactly when the certificate's serial integer is listed, then with the date of its first entry; else good |
| `Revocation.RevocationChecker.Check` | src/trust/RevocationChecker.ts:37-111 | the answer is the decision over the cache's contents at the start; `skip` requests nothing and leaves the cache alone |
| `Revocation.RevocationChecker.CheckCrls` | src/trust/RevocationChecker.ts:71-110 | the loop over URLs, writing to the cache as it goes, decides as if over the initial cache |
| `Revocation.CrlDecisionMeans` | src/trust/RevocationChecker.ts:71-110 | exactly when each answer is given: the first list that verifies and is not past its next update (under `require`, the first that verifies) gives the verdict unless it is past it; `require` raises otherwise; without `require` the status is unknown exactly when no list settles the matter |
| `Revocation.DecisionRestsOnEvidence` | src/trust/RevocationChecker.ts:37-111 | for any cache, the decision is determined exactly: `skip` answers good without a source; an OCSP answer exactly when OCSP gives it; a CRL answer exactly when OCSP is silent and the lists give it; unknown without a source only under `prefer`; raised only under `require` |
| `Revocation.RevokedEntryDecides` | src/trust/RevocationChecker.ts:57-61 | a recent revoked entry, the first for the serial in a response that verifies, is always answered as revoked with its date and reason |
| `Hex.NormalizeIsCanonical` | src/trust/OcspClient.ts:407-413 | normal forms agree exactly when the integers do (digitless text apart), and normalizing twice changes nothing |
| `Hex.CleanKeepsDigits` | src/trust/OcspClient.ts:408-408 | cleaning drops exactly the characters that are no hexadecimal digits and keeps the others in order |
| `Hex.HexIsLowerCase` | src/trust/CrlFetcher.ts:224-231 | every byte is written as two digits of the lower-case alphabet, high half first |
| `Hex.SeparatorsAreIgnored` | src/trust/TrustEvaluator.ts:163-170 | reading hexadecimal text ignores separators and an odd last digit |
| `Hex.HexOfBytesValue` | src/trust/CrlFetcher.ts:224-231 | the hexadecimal form of a byte string is the integer its bytes spell |
| `Hex.BytesToHexLoop` | src/trust/OcspClient.ts:416-423 | the accumulated text is two lower-case digits per byte |
| `Hex.HexRoundTrip` | src/trust/TrustEvaluator.ts:163-170 | reading back the hexadecimal form of any byte string gives the byte string |
| `Base64Url.Base64UrlToBytes` | src/verify.ts:112-130 | throws exactly when a character left after stripping trailing padding is outside the alphabet; otherwise returns the decoded groups, floor(3n/4) bytes for n characters |
| `Base64Url.DecodingInvertsEncoding` | src/verify.ts:112-130 | the encoding of any byte string, with any amount of trailing padding, decodes to that byte string |
| `Base64Url.CharValueIsIndex` | src/verify.ts:110-124 | the value of a character is its index in the 64-character alphabet, and only other characters are refused |
| `Base64Url.GroupIsSameNumber` | src/verify.ts:125-127 | the shifts and masks turn four sextets into the three bytes of the same number, most significant first |
| `EcdsaDer.EcdsaDerToIeee` | src/trust/ecdsa-util.ts:9-29 | the cursor-driven conversion is the conversion of the two INTEGERs, each error in its own case |
| `EcdsaDer.RefusedForCause` | src/trust/ecdsa-util.ts:9-21 | each error has its exact condition on the bytes: no sequence tag, no integer tag in third place, none behind the first integer |
| `EcdsaDer.PlaceBoth` | src/trust/ecdsa-util.ts:23-28 | both numbers are cut or zero-padded on the left to the width and placed side by side |
| `EcdsaDer.FixedWidthIsBigEndian` | src/trust/ecdsa-util.ts:23-27 | cutting or padding a byte string to n bytes spells its number modulo 256^n |
| `EcdsaDer.ConvertInvertsDer` | src/trust/ecdsa-util.ts:9-29 | for every width and all numbers that fit it, the DER form of r and s converts to their n-byte forms exactly when the content of the sequence is shorter than 128 bytes |
| `EcdsaDer.LongContentOutcome` | src/trust/ecdsa-util.ts:9-29 | from 128 content bytes on the signature is rejected at r unless the first length byte is 2, then rejected at s unless a byte 2 stands where the next length byte points, and else converted to the misread numbers |
| `EcdsaDer.LongContentIsRejected` | src/trust/ecdsa-util.ts:9-29 | two numbers of 62 to 125 bytes 2 give a signature that is rejected |
| `EcdsaDer.LongContentIsMisread` | src/trust/ecdsa-util.ts:9-29 | two numbers of 256 to 379 bytes 2 give a signature that converts to other numbers |
| `EcdsaDer.ShortCoordinatesConvert` | src/trust/ecdsa-util.ts:9-29 | for widths up to 60 bytes every pair converts and both numbers come back whole |
| `MdocClaims.LogNameSpace` | src/crypto/digest.ts:96-124 | the log grows by one entry per item that names the item's number and says whether its bytes hash to the digest listed for it; it fails exactly when an item cannot be checked, and for a reason the error names |
| `MdocClaims.VerifyAllDigests` | src/crypto/digest.ts:137-151 | all items match exactly when each one's bytes hash, with an allowed algorithm, to the digest committed for its number in its name space; a log is produced exactly when every item can be checked, and each error has its cause |
| `MdocClaims.CommittedMeans` | src/crypto/digest.ts:96-122 | an item is committed exactly when the algorithm is one of the three, it decodes to a map with a number the MSO lists in its name space, and the listed digest is the hash of its bytes |
| `MdocClaims.MapNameSpace` | src/parsers/mdoc.parser.ts:144-185 | both claim maps gain exactly the claims of the name space's items, later ones winning |
| `MdocClaims.MapRawToClaims` | src/parsers/mdoc.parser.ts:138-189 | throws exactly when an inner item is undecodable; otherwise gives the flat and the namespaced claims |
| `MdocClaims.ClaimsStemFromCommittedItems` | src/parsers/mdoc.parser.ts:138-189 | for item bytes whose digests verified, mapping cannot throw and every namespaced claim is the value of the last item with that identifier there, whose bytes hash to the digest the issuer committed for it |
| `MdocClaims.FlatClaimsAreNamespaced` | src/parsers/mdoc.parser.ts:141-187 | each flat claim is the namespaced one of the last name space that holds it |
| `MdocClaims.FlatHasExactlyTheIdentifiers` | src/parsers/mdoc.parser.ts:141-187 | an identifier is among the flat claims exactly when some item of some name space has it |
| `MdocParser.ExtractNameSpaces` | src/parsers/mdoc.parser.ts:362-373 | throws exactly when a key is no string, a value no array or an element of no known shape; otherwise every element yields its item bytes in place |
| `MdocParser.ParseItems` | src/parsers/mdoc.parser.ts:362-456 | with the extracted items: throws exactly on malformed elements or uncheckable items, is invalid exactly on a mismatch that is not ignored, and otherwise gives the mapped claims, marked exactly when a mismatch was ignored |
| `MdocParser.ExtractedIsFullItem` | src/parsers/mdoc.parser.ts:109-130 | the bytes extracted from an element are its complete tag-24 item, with the shortest header unless it arrived with one |
| `MdocParser.ClaimsStemFromDecodedElements` | src/parsers/mdoc.parser.ts:362-456 | end to end: without an ignored mismatch every namespaced claim comes from a decoded element whose complete tag-24 bytes hash to the digest the issuer committed for it |

## Left out

- Cryptography and parsing libraries: signatures, hashes, CBOR decoding, JSON, ASN.1 and URL parsing are parameters, and nothing is assumed of them beyond the 32-byte output of the transcript hash.
- The CBOR encoder is not modelled internally; it is taken to emit the shortest heads, as cbor-x does for the values encoded here.
- Text that goes into CBOR or a hash is modelled as its UTF-8 bytes, and lengths as those a JavaScript array or string can have; lone surrogates, which JavaScript replaces when encoding, are not.
- `toLowerCase` and `toUpperCase` act on the letters A to Z only, and `trim` on tab, line feed, vertical tab, form feed, carriage return, space and no-break space.
- Clocks are parameters. One chain build sees one instant, where the original reads the clock for every certificate; a build that straddles a certificate's expiry is not modelled.
- Errors other than the certificate chain errors inside a chain build (a malformed extension, an unusable key) are not modelled.
- `ChainBuilder.TryBuild` and `ChainBuilder.Build` require that the original returns; by `ClimbReturnsExactly` that is the exact condition and not a convenience.
- ClaimsStemFromDecodedElements: says nothing of a parse that ignored a digest mismatch, because the original then maps claims whatever their digests.
- BuildsExactlyWhenPathExists: a corollary that asks for a pool without namesakes; `BuildsExactlyAlongFirsts` is the statement for every pool.
- CrowdedOutByTouchedKeys: a corollary that asks that no lookup finds an expired entry; `KeyLeavesExactlyWhenCrowdedOut` is the statement for every trace.
- CrlVerdictIsListing: asks for a serial number with at least one hexadecimal digit, which every parsed certificate has.
- CrlDecisionMeans: asks for a serial number with at least one hexadecimal digit, as above.
- DecisionRestsOnEvidence: asks for a serial number with at least one hexadecimal digit, as above.
- ExtractedVerdictIsFirstTestimony: asks for a serial number with at least one hexadecimal digit, as above.
- OcspVerdictRestsOnEvidence: asks for a serial number with at least one hexadecimal digit, as above.
- RevokedEntryDecides: asks for a serial number with at least one hexadecimal digit, as above.
- ConvertInvertsDer: asks for a signature that fits into a JavaScript byte array, and for numbers that fit the width, as cutting to a smaller width drops their high bytes.
- Revocation: the network answers are functions of the URL and the certificates, so a URL that is listed twice gives the same answer twice within one check, where a second request could be answered differently.
- Revocation: building OCSP requests, extracting URLs from certificate extensions (src/trust/RevocationChecker.ts:120-154), computing cache lifetimes, and eviction and expiry between two reads; the cache there is an arbitrary map, and storing is immediate.
- Revocation of the anchor and of intermediates, which the original does not check either, and of OCSP responders.
- Caches with a fractional or NaN capacity.
- Disclosure strings: their base64 decoding (src/parsers/sd-jwt.parser.ts:31-56) and SHA-256 digest are parameters; the other steps of the SD-JWT parser (issuer signature, dates, key binding) are straight-line checks.
- Name spaces called `__proto__` and other property names that JavaScript objects treat specially.
- Device key import and the control flow of `verifyDeviceAuth` (src/crypto/device-auth.ts:87-180): single-branch validations around the bytes modelled here.
- The MSO parser, validity dates, document types, and the other steps of the mdoc parser; device authentication, which stands between digest verification and mapping, changes neither the items nor the claims.
- CompositeTrustStore, authority ids, provenance, country hints and level-of-assurance mapping: concatenation and table lookups.
- Fetching and parsing the XML trust lists: a refresh is one success or failure step that carries abstract content.
- The session fields that no operation reads back to decide anything (nonce, query, digest log, unmatched claims), and argument checks on creation.
- HTTP, configuration, user interface, request builders, response decryption and conformance scripts.
