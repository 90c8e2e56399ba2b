# certbroker: a verified model

certbroker stands between devices and a certificate issuer (OpenBao). A device
asks over EST or SCEP; the broker decides whether it may have a certificate and
for which names, asks the issuer for just those, checks what came back, and only
then releases it. In front of all this a rate limiter bounds the work a stranger
can cause.

This project models that logic in Dafny and proves what it promises over whole
runs, against an issuer that may answer anything, any iteration order of a Go
map, and any interleaving of concurrent requests.

| file | models |
|---|---|
| `TokenBucket.dfy`, `KeyedLimiter.dfy` | the lazily refilled bucket and the bounded table with its sampled eviction, as the mutable objects they are, each proved against a specification function |
| `LimiterRuns.dfy`, `LimiterExamples.dfy` | whole runs of the limiter against an unbounded one, and runs that show which hypotheses are needed |
| `Middleware.dfy` | per-client limit, global limit and slots as steps of concurrent requests |
| `Names.dfy`, `Authz.dfy`, `Policy.dfy`, `VerifyIssued.dfy` | glob matching, identities, constraint building, the post-issuance check |
| `Inventory.dfy`, `Challenge.dfy`, `Pipeline.dfy`, `OneTimeCodes.dfy` | the device list, one-time codes, the staged decision, and runs of it |
| `Issuance.dfy`, `EstHandler.dfy` | the call to the issuer and the EST release paths |
| `Service.dfy`, `Continuity.dfy` | what both protocols owe to a device in order, and chains of renewals |
| `Replay.dfy`, `ScepMessage.dfy`, `ScepHandler.dfy`, `ScepInterleaving.dfy` | the replay cache, message parsing, pkiOperation, and freshness over runs |
| `Bytes.dfy`, `Der.dfy`, `Pkcs7.dfy`, `Base64.dfy`, `BodyCodec.dfy` | the certs-only encoder and the body codec, with the decoders that undo them |
| `Bao.dfy` | the retry loop and its backoff |
| `Common.dfy` | Option and Result |

## Where the code and its documentation part

The model follows the code. Each of these is a lemma below.

- The identity check is described as keeping a device from renaming itself. It does
  so exactly for certificates with a common name; without one the issuer may put any
  name there and the next renewal adopts it (`Continuity.NoRenewalRenamesExactlyWhenNamed`).
- Eviction is described as dropping the least recently used entry. The empty key is
  never dropped by that rule, and a table that holds it can outgrow its bound
  (`LimiterRuns.TableBoundedExactlyWhen`).
- An idle bucket is described as droppable without giving anyone extra budget. That
  holds while the clock does not go back, but readings are taken before the lock
  (`LimiterExamples.StaleReadingsBreakTheAdmissionBound`); for any clock the budget
  follows the sum of its upward steps (`LimiterRuns.AdmissionBound`). In the same way a
  stale sweep can let a replay in (`Replay.StaleSweepLetsAReplayIn`); what is refused is
  exact for any clock (`Replay.RefusedExactlyWhenAcceptedAndNotDropped`).
- The separator octet is described as keeping replay keys distinct. The fixed nonce
  length does (`ScepMessage.SeparatorAloneIsAmbiguous`).
- A DER SEQUENCE is described as never valid base64. Long-form ones never are; a
  short-form one can be (`BodyCodec.ShortFormSequenceCanBeMistaken`).
- The retry delay doubles without a bound on the attempt; at the 38th retry the 64-bit
  product turns negative and the random draw panics (`Bao.RetryRefinesReference`).
- The lifetime cap compares 64-bit durations: it is exact for every setting but one
  (`VerifyIssued.LifetimeCapHoldsExactlyWhen`).

## Model

| member | source | states |
|---|---|---|
| TokenBucket.Bucket.Refill | internal/limits/limits.go:106-111 | before or at the last reading nothing changes; after it the tokens grow by rate times elapsed, up to the burst |
| TokenBucket.Bucket.Take | internal/limits/limits.go:97-104 | answers whether the refilled bucket holds a token, and spends it |
| TokenBucket.Bucket.IsIdle | internal/limits/limits.go:113-117 | whether tokens and what has been earned since reach the burst |
| TokenBucket.RefillTwice | internal/limits/limits.go:106-111 | lazy refill is exact: two refills in either order equal one at the later reading |
| TokenBucket.IdleExactlyWhenRecreationIsInvisible | internal/limits/limits.go:113-117 | a bucket is idle if and only if at every later reading it equals a newly created one |
| TokenBucket.RecreationIsRefillExactlyWhen | internal/limits/limits.go:106-117 | at any reading, a bucket created anew is the refilled old one if and only if that was idle and not touched later |
| TokenBucket.SurvivingBucketBound | internal/limits/limits.go:97-111 | with readings in any order, one bucket admits at most its tokens plus rate times the advance of its last reading |
| KeyedLimiter.Limiter.constructor | internal/limits/limits.go:130-139 | starts empty; a negative rate or burst disables |
| KeyedLimiter.Limiter.Sweep | internal/limits/limits.go:164-182 | the loop, for an arbitrary iteration order, computes the specified pass and deletes the idle entries it met |
| KeyedLimiter.Limiter.EvictLocked | internal/limits/limits.go:162-186 | the map afterwards is the old one without exactly the specified victims |
| KeyedLimiter.Limiter.Obtain | internal/limits/limits.go:151-158 | finds the key's bucket or creates it full, making room first |
| KeyedLimiter.Limiter.Allow | internal/limits/limits.go:141-160 | the whole table and the answer after one call; switched off, it admits and keeps nothing |
| KeyedLimiter.Limiter.Size | internal/limits/limits.go:188-193 | the number of tracked keys |
| KeyedLimiter.LegalOrderIsBoundedSample | internal/limits/limits.go:171-182 | a pass examines distinct entries: all of them, or 256 |
| KeyedLimiter.ScanFindsIdleOrLeastRecent | internal/limits/limits.go:171-182 | the loop's subtle invariant: it finds every idle entry met, and when there is none a least recent one |
| KeyedLimiter.EvictionIsSampledLeastRecent | internal/limits/limits.go:162-186 | only a new key at a full table evicts: exactly the idle entries examined, or else one least recently used among them unless its key is empty |
| KeyedLimiter.AccessDrawsOnItsOwnBucket | internal/limits/limits.go:141-160 | an access draws on its own bucket, a full one if there is none, and leaves every other bucket it does not evict as it was |
| KeyedLimiter.TableBoundStep | internal/limits/limits.go:151-158 | a call keeps the table within maxKeys if and only if its pass did not settle on the empty key |
| LimiterRuns.TableStaysBounded | internal/limits/limits.go:142-186 | over every run with non-empty keys the table never exceeds maxKeys |
| LimiterRuns.TableBoundedExactlyWhen | internal/limits/limits.go:142-186 | over all runs of given clients the table stays within maxKeys if and only if nobody is ever admitted, the empty key is not among them, or they all fit |
| LimiterExamples.EmptyKeyOutgrowsTheTable | internal/limits/limits.go:183-185 | a table of one that holds the empty key grows to two |
| LimiterRuns.BoundingNeverCostsAClient | internal/limits/limits.go:142-186 | for every run, iteration order and clock, each key is admitted at least as often as by a limiter that never evicts |
| LimiterRuns.AdmissionBound | internal/limits/limits.go:97-186 | for every clock and over any stretch, admissions are at most burst times one more than the forced evictions, plus rate times the rise of the clock |
| LimiterRuns.AdmissionBoundOverTime | internal/limits/limits.go:97-186 | where the clock does not go back, that is rate times elapsed |
| LimiterRuns.IdleEvictionIsInvisible | internal/limits/limits.go:113-117 | a key never evicted by force gets, answer for answer, what the unbounded limiter gives |
| LimiterRuns.PacedClientIsNeverRefused | internal/limits/limits.go:97-160 | a client that keeps to the rate is always admitted, whatever others do to the table |
| LimiterRuns.SwitchedOffAdmitsAll | internal/limits/limits.go:130-144 | with a negative rate or burst every request of every run is admitted and no entry kept |
| LimiterExamples.StaleReadingsBreakTheAdmissionBound | internal/limits/limits.go:146-149 | in elapsed time the admission bound fails for readings that go back |
| LimiterExamples.AnswersDifferAfterAForcedEviction | internal/limits/limits.go:183-185 | single answers may differ both ways after a forced eviction |
| Middleware.RunningHandlersHoldTheSlots | internal/limits/limits.go:224-274 | in every run the running handlers are exactly the slots held, at most MaxConcurrent |
| Middleware.SlotIsTakenExactlyWhenFree | internal/limits/limits.go:251-274 | a waiting request may take a slot if and only if fewer handlers run than there are slots |
| Middleware.RequestRunsExactlyWhen | internal/limits/limits.go:222-274 | a request runs if and only if both limiters admit it and a slot is free |
| Middleware.ReleaseNeverBlocks | internal/limits/limits.go:259-262 | a finishing handler always finds its slot in the channel |
| Middleware.EverySlotIsReleasedOnce | internal/limits/limits.go:251-274 | each request acquires at most one slot and, once over, has released just what it acquired |
| Middleware.GlobalDrawsObeyTheClientsOwnBound | internal/limits/limits.go:222-235 | for every interleaving and clock, a client draws on the global bucket only within its own admission bound; with its limiter off, at most once a request |
| Middleware.HandlersStartedObeyTheGlobalBound | internal/limits/limits.go:224-249 | whatever the clients and the clock, handlers started are at most the global burst plus rate times the rise of the clock; with the limiter off, at most one a request |
| Names.GlobMeaning | internal/authz/match.go:5-19 | what each pattern matches, both directions, in the characters of the two names between their outer blanks |
| Names.FoldMeaning | internal/authz/verify.go:83-102 | equality up to case is: same length, and each character the same or a capital A to Z against its small letter |
| Names.TrimMeaning | internal/authz/match.go:8-9 | trimming gives the one core between outer blanks, and only that |
| Names.NormMeaning | internal/authz/match.go:8-9 | names are compared by their core, in small letters, character for character |
| Names.GlobReflexive | internal/authz/match.go:7-19 | every name matches itself |
| Names.GlobTransitive | internal/authz/match.go:7-19 | matching composes along chains of patterns |
| Names.FoldIsInvisibleToGlob | internal/authz/verify.go:83-102 | names equal up to ASCII case are interchangeable on either side of a match |
| Names.CoveredTransitive | internal/authz/match.go:31-47 | coverage of name lists composes |
| Names.AnyGlobMatch | internal/authz/match.go:22-29 | the loop decides whether some value matches |
| Names.AllAllowed | internal/authz/match.go:31-47 | the loops decide whether every name is matched by some pattern |
| Names.EqualFoldASCII | internal/authz/verify.go:85-102 | the loop decides whether the characters are the same or a capital A to Z against its small letter |
| Names.ContainsFoldASCII | internal/authz/verify.go:74-81 | the loop decides whether some listed name is the same up to case |
| Authz.IdentityKeepsTheSidesApart | internal/authz/identity.go:35-56 | authenticated attributes are the verified certificate's alone, requested ones the CSR's alone |
| Policy.BuildsExactlyWhen | internal/authz/policy.go:44-128 | constraints are built if and only if the request stays within its authority and names something; in CSR mode if and only if it names something |
| Policy.BuildGrants | internal/authz/policy.go:57-128 | CSR mode echoes the request; an authenticated device keeps its CN and may narrow its names; others get what they asked |
| Policy.BuildStaysWithinAuthority | internal/authz/policy.go:44-128 | a built decision always names something, all of it covered by its authority, and no IP or URI |
| VerifyIssued.VerifyIssued | internal/authz/verify.go:16-33 | the check as a method decides exactly acceptance |
| VerifyIssued.VerifyNames | internal/authz/verify.go:40-70 | its loops decide exactly the acceptance of names |
| VerifyIssued.ContainsIP | internal/authz/verify.go:104-111 | the loop decides whether some text reads as this address |
| VerifyIssued.SameAddressMeaning | internal/authz/verify.go:104-111 | an address is itself, or its four octets within sixteen |
| VerifyIssued.AcceptedExactlyWhen | internal/authz/verify.go:16-70 | what the check accepts, in the characters of the names and the octets of the addresses |
| VerifyIssued.LifetimeAcceptedExactlyWhen | internal/authz/verify.go:27-31 | the lifetimes accepted, exactly, for every TTL including those whose sum with an hour leaves 64 bits |
| VerifyIssued.AcceptedNamesAreCovered | internal/authz/verify.go:36-70 | an accepted certificate's names are covered by any authority that covers the decision |
| VerifyIssued.HonestCertificateIsAccepted | internal/authz/verify.go:16-70 | a certificate with the authorized names, CN mirrored or not, and lifetime passes |
| VerifyIssued.LifetimeCapHoldsExactlyWhen | internal/authz/verify.go:27-31 | the cap holds in true time if and only if TTL plus slack is not the greatest duration |
| Inventory.FileInventory.Lookup | internal/authz/inventory.go:96-119 | returns the record of the first entry all of whose keys fit, names as patterns, serial and fingerprint up to case, or not found |
| Inventory.FileInventory.Reload | internal/authz/inventory.go:75-94 | replaces the list if every entry has a match key, else leaves it |
| Challenge.FirstRegisteredInOrder | internal/authz/challenge.go:103-115 | the code tried is the authenticated common name's, else the requested one's, else the serial's, and never an empty key's |
| Challenge.TryKeysMeaning | internal/authz/challenge.go:85-100 | validation succeeds if and only if the first registered candidate holds this secret unexpired; exactly that code is consumed |
| Challenge.ValidationExactlyWhen | internal/authz/challenge.go:76-101 | a secret is right if and only if it is the unexpired code of the one key tried; then, or if that expired, it is gone and nothing else changes |
| Challenge.MemoryStore.Add | internal/authz/challenge.go:68-74 | registers or overwrites the code of one key |
| Challenge.MemoryStore.Validate | internal/authz/challenge.go:76-101 | the loop answers and changes the store as specified |
| Pipeline.AllowedExactlyWhen | internal/authz/pipeline.go:19-92 | a request is allowed if and only if it is in the inventory, has shown its proof, and has a role, the record's first, and constraints |
| Pipeline.RequiredChallengeCannotBeSkipped | internal/authz/pipeline.go:41-52 | what broker or record requires must be validated, certificate or not, validator or not |
| Pipeline.ValidatorIsAskedExactlyWhen | internal/authz/pipeline.go:41-60 | the validator is asked if and only if broker or record requires a challenge or one was sent; else its answer has no effect |
| Pipeline.DenialsAreTruthful | internal/authz/pipeline.go:19-92 | a denial gives a reason that holds, and grants nothing |
| Pipeline.TighteningIsMonotone | internal/authz/pipeline.go:41-64 | requiring a challenge or forbidding unauthenticated enrollment never allows more nor changes what stays allowed |
| Pipeline.EmptySecretProvesNothing | internal/authz/pipeline.go:41-66 | no validator makes an empty secret count as proof |
| Pipeline.ValidateSecret | internal/authz/challenge.go:16-45 | each validator's answer and its effect on the store |
| Pipeline.NoInventoryPermitsAll | internal/authz/inventory.go:33-39 | without an inventory every device is found, with no names, challenge or role of its own |
| Pipeline.LookupRecord | internal/authz/pipeline.go:28-39 | the inventory's answer, with no inventory permitting all |
| Pipeline.Authorize | internal/authz/pipeline.go:19-92 | the staged method decides as specified and spends a code exactly when the validator is asked |
| OneTimeCodes.CodesAreConserved | internal/authz/challenge.go:68-101 | over any run, requests allowed without a certificate plus unspent codes never outnumber codes registered |
| OneTimeCodes.AllowedOnCodeSpendsOne | internal/authz/pipeline.go:41-66 | each such request spent a code |
| OneTimeCodes.SpentCodeWasRegisteredOnceAndInTime | internal/authz/challenge.go:76-101 | a spent code was registered for the device, matched, is unexpired, was neither spent nor replaced since, and no name before its own had a code |
| OneTimeCodes.TighteningIsMonotoneOverRuns | internal/authz/pipeline.go:41-66 | over any history a tighter gate holds the same codes and allows a subset, unchanged |
| Issuance.CheckedCertificateIsWithinBound | internal/authz/verify.go:14-38 | release safety for any issuer: names, addresses and lifetime of an allowed and accepted certificate are bounded |
| Issuance.CallStaysWithinAuthority | internal/est/handler.go:523-536 | the call made to the issuer asks for names within the authority, at least one, no address or URI, and the lifetime of the policy |
| EstHandler.IdentifyClient | internal/est/handler.go:396-426 | refuses re-enrollment without a device certificate; else the client is the leaf if it chains to an anchor that counts for the operation |
| EstHandler.CheckIssued | internal/est/handler.go:122-144 | the post-issuance check is never skipped |
| EstHandler.Enroll | internal/est/handler.go:213-382 | enroll and serverKeyGen answer and call the issuer by what inventory and validator really say, and spend codes as specified |
| EstHandler.ReleasedIsWithinBound | internal/est/handler.go:251-291 | every certificate EST releases is within the bound |
| EstHandler.DeliveredExactlyWhen | internal/est/handler.go:235-291 | EST delivers if and only if client, decision and checked certificate are all in order, and then just that certificate |
| EstHandler.CallsCarryTheDecision | internal/est/handler.go:523-536 | every call carries the request as it came and asks for the decided role and constraints, field by field |
| EstHandler.CallsAreAnchored | internal/est/handler.go:396-426 | re-enrollment reaches the issuer only with a device-anchored peer; anonymous requests bring other proof |
| ScepMessage.OnlyAnchoredSignersAreIdentities | internal/scep/request.go:62-93 | a message parses if and only if it is intact, in bounds, readable and, for a renewal, anchored; the pipeline sees its own CSR and challenge, and a client certificate if and only if it is such a renewal |
| ScepMessage.PreImageIsInjective | internal/scep/replay.go:83-91 | with 16-octet nonces the hashed pre-image determines the pair |
| ScepMessage.SeparatorAloneIsAmbiguous | internal/scep/replay.go:88-88 | the separator alone does not |
| Replay.ReplayCache.constructor | internal/scep/replay.go:28-42 | starts empty; non-positive arguments become 15 minutes and 100000 entries |
| Replay.ReplayCache.EvictLocked | internal/scep/replay.go:63-74 | the loop leaves the live entries, or nothing if they fill the table |
| Replay.ReplayCache.Check | internal/scep/replay.go:44-61 | table and answer as specified; the table never exceeds its size |
| Replay.RefusedExactlyWhenAcceptedAndNotDropped | internal/scep/replay.go:46-74 | for any clock, a key is refused if and only if accepted before, unexpired, and not dropped since by a clear or a sweep past its expiry |
| Replay.RefusedExactlyWhenRecentlyAccepted | internal/scep/replay.go:46-74 | where the clock does not go back, if and only if accepted inside ttl with no clear since |
| Replay.ClearNeedsAFlood | internal/scep/replay.go:63-74 | a clear implies at least maxSize distinct keys accepted within the preceding ttl |
| Replay.SecondAcceptNeedsTimeOrDrop | internal/scep/replay.go:46-74 | for any clock, two accepts of a key are ttl apart or the first was dropped between them, by a clear only in a flood |
| Replay.NoReplayWithoutAFlood | internal/scep/replay.go:46-74 | a run without such a flood accepts a replay inside ttl only after a stale sweep, so never where the clock does not go back |
| Replay.StaleSweepLetsAReplayIn | internal/scep/replay.go:46-60 | a run where a stale sweep does, without any clear |
| ScepHandler.Handler.PkiOperation | internal/scep/handler.go:179-256 | parse, check, authorize, sign, verify and reply act on cache and codes as specified, by what inventory and validator really say |
| ScepHandler.ReleasedIsWithinBound | internal/scep/handler.go:206-255 | with the check wired every released certificate is within the bound, echoes the request's nonce and goes to its signer |
| ScepHandler.DeliveredExactlyWhen | internal/scep/handler.go:196-255 | SCEP calls the issuer, and delivers, if and only if freshness, decision and checked certificate are in order; every reply echoes ID and nonce |
| ScepHandler.CallsCarryTheDecision | internal/scep/handler.go:258-274 | every call carries the request's own CSR and challenge and asks for the decided role and constraints, field by field |
| ScepHandler.RenewalCallsAreAnchored | internal/scep/handler.go:258-274 | renewals reach the issuer only device-anchored; a first request's signer never becomes an identity |
| ScepHandler.IssuanceIsFresh | internal/scep/handler.go:196-224 | for any clock, two issuer calls for one pair are at least ttl apart unless the first was dropped between them, which takes a flood where the clock does not go back |
| ScepHandler.ReplayedExactlyWhenPairWasSeen | internal/scep/handler.go:196-203 | for any clock, a request is refused as a replay if and only if its own pair was accepted, is unexpired and was not dropped since |
| ScepInterleaving.InvariantStep | internal/scep/handler.go:180-256 | every step of concurrent requests keeps: each issuer call has an accepted check of its own |
| ScepInterleaving.RequestCallsExactlyWhenAccepted | internal/scep/handler.go:196-224 | a request reaches the issuer if and only if the cache accepts its pair |
| ScepInterleaving.CallsAreFreshUnderInterleaving | internal/scep/handler.go:196-224 | freshness of issuer calls under every interleaving, for any clock |
| Continuity.RenewalContinues | internal/authz/policy.go:83-107 | one renewal keeps the CN, character for character up to case, stays within the presented names, adds no IP or URI |
| Continuity.RenewalsNeverRename | internal/authz/policy.go:83-107 | so do any number, against any issuer |
| Continuity.EstReleaseIsARenewal | internal/est/handler.go:215-292 | what EST releases to an authenticated request is such a renewal |
| Continuity.ScepReleaseIsARenewal | internal/scep/handler.go:180-256 | what SCEP releases to a renewal request is such a renewal |
| Service.OwnNamesPassEveryStage | internal/authz/policy.go:83-107 | a device in order that asks for its own names is allowed, and a proper answer passes the check |
| Service.EstNeverTurnsAwayADeviceInOrder | internal/est/handler.go:215-292 | so EST renews it |
| Service.ScepNeverTurnsAwayADeviceInOrder | internal/scep/handler.go:180-256 | and so does SCEP |
| Service.NewcomersPassEveryStage | internal/authz/pipeline.go:41-92 | a known device without a certificate that brings an accepted secret and asks for allowed names is allowed, and a proper answer passes the check |
| Service.EstEnrollsEveryNewcomer | internal/est/handler.go:215-382 | so EST enrolls it |
| Service.ScepEnrollsEveryNewcomer | internal/scep/handler.go:180-256 | and so does SCEP |
| Service.HeldCodeIsAcceptedAndSpent | internal/authz/challenge.go:76-101 | a live code for the name asked for is accepted, and spent on the request |
| Continuity.NamelessDeviceIsGivenAName | internal/authz/verify.go:40-46 | with DNS names but no CN, an empty request can bring any CN, and every later renewal keeps it |
| Continuity.NoRenewalRenamesExactlyWhenNamed | internal/authz/verify.go:40-46 | over all chains the device keeps its names if and only if its first certificate has a CN |
| Continuity.NamesNeverEscapeExactlyWhen | internal/authz/policy.go:85-107 | DNS names stay covered if and only if there is a CN or a name that covers everything |
| Der.LengthRoundTrip | internal/pkcs7/pkcs7.go:77-91 | every expressible length, short or long form, reads back |
| Der.LengthOctets | internal/pkcs7/pkcs7.go:77-91 | the octets of every length, short form and long |
| Der.LengthIsCanonical | internal/pkcs7/pkcs7_test.go:33-51 | the parser accepts only what the encoder writes |
| Der.ParseIsLocal | internal/pkcs7/pkcs7_test.go:56-68 | an element parses the same whatever follows it |
| Der.TlvRoundTrip | internal/pkcs7/pkcs7.go:77-91 | an encoded element reads back, whatever follows it |
| Der.SplitOfConcat | internal/pkcs7/pkcs7_test.go:53-68 | concatenated elements split into themselves |
| Pkcs7.DegenerateCertsOnly | internal/pkcs7/pkcs7.go:40-92 | errors for no certificates and for the first empty one, else the nested encoding of all, in order |
| Pkcs7.WireFormat | internal/pkcs7/pkcs7.go:40-92 | the message octet by octet |
| Pkcs7.SignedDataReadsBack | internal/pkcs7/pkcs7.go:25-33 | the SignedData gives back its certificate set |
| Pkcs7.RoundTripsExactlyWhenElements | internal/pkcs7/pkcs7.go:40-92 | decoding the output yields the same list, in order, if and only if each entry is one complete element |
| Base64.RoundTrip | internal/est/handler.go:472-472 | decoding undoes encoding for every octet string |
| Base64.EncodeMeaning | internal/est/handler.go:577-578 | four letters for the 24 bits of every three octets, padded where octets are missing |
| Base64.DecodesExactlyWhen | internal/est/handler.go:472-482 | what is base64: whole quanta of digits, padded by at most two |
| BodyCodec.Base64Lines | internal/est/handler.go:577-589 | the loop writes the wrapped encoding |
| BodyCodec.StripASCIIWhitespace | internal/est/handler.go:591-602 | the loop removes exactly the blanks |
| BodyCodec.StripMeaning | internal/est/handler.go:591-602 | space, tab, line feed and carriage return go, nothing else |
| BodyCodec.WrapMeaning | internal/est/handler.go:577-589 | a line feed after every 64 octets and at the end, all else in place |
| BodyCodec.ReadsExactlyWhen | internal/est/handler.go:457-483 | which bodies are refused, and why, and what the others are read as |
| BodyCodec.WrapMakesShortLines | internal/est/handler.go:577-589 | no line exceeds 64 characters and the last is ended |
| BodyCodec.AnnouncedLinesReadBack | internal/est/handler.go:469-477 | with the base64 header the body reads back |
| BodyCodec.UnannouncedLinesReadBackExactlyWhen | internal/est/handler.go:478-483 | without it, if and only if it was not empty |
| BodyCodec.RawBodyReadsBackExactlyWhen | internal/est/handler.go:478-483 | a raw body reads back if and only if it is not base64 for something |
| BodyCodec.LongFormSequenceReadsBack | internal/est/handler.go:478-479 | a long-form SEQUENCE always does |
| BodyCodec.ShortFormSequenceCanBeMistaken | internal/est/handler.go:478-479 | a short-form one need not |
| Bao.Backoff | internal/bao/client.go:302-310 | the delay is the intended base and up to half of it more, as drawn, up to the 37th retry; at the 38th the draw panics |
| Bao.BackoffAsIntended | internal/bao/client.go:303-307 | up to the 37th retry the base is 100ms doubled, at most 5s, without overflow |
| Bao.BackoffOverflows | internal/bao/client.go:303-308 | at the 38th it is negative and the draw panics |
| Bao.DoRequest | internal/bao/client.go:203-259 | the loop's response and number of attempts |
| Bao.AttemptsAreBounded | internal/bao/client.go:209-258 | at most MaxRetries+1 attempts, all but the last network errors, cut-off answers or 5xx, cancellation the only early end |
| Bao.RetryRefinesReference | internal/bao/client.go:203-259 | uncancelled, the loop gives the first outcome that is not retryable, else the last, a body below 400 and an error from there on, if and only if it comes within 37 retries; otherwise it panics at the 38th |
| Bao.HopelessUpstreamPanicsExactlyWhen | internal/bao/client.go:209-216 | an upstream that never recovers panics the loop if and only if more than 37 retries are configured |

## Left out

- Names.FoldIsInvisibleToGlob: names are ASCII; Go lower-cases and trims Unicode in globMatch and folds Unicode in the inventory's serial and fingerprint comparison.
- Reading the text of an address: what net.ParseIP makes of it is carried beside the text.
- TokenBucket.SurvivingBucketBound: tokens and time are reals, so float64 rounding is not modelled.
- Middleware.HandlersStartedObeyTheGlobalBound: the middleware is modelled on values, as steps of concurrent requests; filling Config defaults is omitted.
- ScepHandler.ReleasedIsWithinBound: VerifyIssued is an option of the SCEP handler; nothing bounds the issuer where it is not wired in.
- ScepHandler.ReplayedExactlyWhenPairWasSeen: SHA-256 is an arbitrary function assumed collision-free.
- Pkcs7.RoundTripsExactlyWhenElements: lengths are limited to what 126 length octets express (section 8.1.3.5 of X.690); Go's own parser stops much earlier.
- Policy.BuildsExactlyWhen: CSR mode and AllowAllEcho copy the request by design and are outside the naming theorems.
- Issuance.CheckedCertificateIsWithinBound: the same, and the lifetime clause leaves out the one setting that LifetimeCapHoldsExactlyWhen singles out.
- Challenge.MemoryStore.Validate: constant-time comparison is plain equality; clock readings are parameters.
- HTTP, TLS, PEM and multipart framing, logging and audit lines, YAML loading, process wiring: input and output or flat checks.
- Signature and chain verification, envelopes, key types, CSR parsing and attribute extraction: results of libraries, taken as parameters.
- Role rules and label routing: the role selector is an arbitrary function.
- Token login and renewal, JSON decoding: not part of this model.
- Timers and scheduling: a timeout or cancellation is a step that may happen at any moment.
- Scrubbing the server-generated key, GetCACert, GetCACaps, /cacerts and /csrattrs: not part of this model.
