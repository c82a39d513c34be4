# Verified model of a document-extraction service

The service takes documents from tenants, has them read by one of several providers, interprets them
with a language model, meters and bills the work, reports over webhooks, and signs users in. This
project models its stateful algorithms and protocols and proves what they promise.

- **Metering and entitlements** (`Metering`, `SubscriptionStore`, `Entitlements`): usage is a
  read-modify-write through a cache that may be stale, run concurrently by many processes. The
  protocol is a state machine of atomic steps; trial, price and quota arithmetic is closed over runs.
- **Webhook outbox** (`WebhookOutbox`, `WebhookBackoff`, `WebhookStore`): a retry state machine shared by workers,
  one SQL statement to a step, and the same statements as methods on a table.
- **Session index** (`SessionIndex`, `SessionListing`, `SessionStore`): a per-user index set with its
  own expiry against a scan of all sessions, command by command and as a class.
- **Routing, fallback and cache** (`Router`, `Extraction`), and the **rate limiter** (`RateLimit`).
- **Codecs and parsers** (`Bits`, `Base32`, `IpPrefix`, `IpAddress`, `IpAllowlist`, `IdDates`,
  `IdDateForms`, `Templates`, with helpers in `Text`, `Lists`, `Options`, `Sorting`).
- **Receipts and statements** (`Money`, `Receipts`, `BankStatements`, `Confidence`, `ReceiptFields`,
  `ReceiptConfidence`).
- **Layout** (`GlmMapper`, `ReadingOrder`).
- **Second factor** (`Totp`, `Mfa`, `MfaRace`, `MfaStore`): one request after another, and overlapping
  requests of one user.
- What a process learns of a command it sent to a store, including a reply lost after the command took
  effect, is shared by all of these (`Replies`).

Protocols are total step functions: a step that is not possible leaves the state alone, so a theorem
over all sequences of steps is a theorem over all interleavings. Loops and objects that the service
updates in place are methods and classes, proved against functions; the theorems are about those
functions.

Some promises hold only under a condition; the project then proves the exact condition.

- Webhook states: a finished delivery can change again, because a claim takes no lease, the reaper does
  not look for attempts in flight, and the catch also runs when a committed update loses its reply
  (`FinalIffSettled`, with `OverlapRevivesSucceeded`, `CutInRevivesDead`, `LostReplyRevivesSucceeded`).
- Session index: `SADD` and `EXPIRE` are two commands; a set that expires between them loses a session
  (`FoundIffSetLived` and `ListingIsScanIff`, with `LateExpireLosesSession`).
- Second factor: every request reads, decides and writes. Of two verifications that read before the first
  write both can accept one code (`ReplayedIffReadBefore`, with `TwoReadsAcceptOneStep`); an old set of
  recovery codes can come back (`RegeneratingInvalidatesIff`); and a confirmation can enable a secret it
  has not checked, or none (`ConfirmsItsSecretIff` and `EnabledIsConfirmedIff`, with
  `DisabledWhileConfirming`).
- Mail templates: an ampersand of the template can open an entity (`DecodedRenderingIsRawIff`, with
  `AmpersandBeforeAValue`).
- Rate limiter: a clock that steps back over a window's end makes the local count start again
  (`LocalCountIsRightIff`, with `StepBackRestartsTheCount`); in Redis a request held up for a window's
  length does (`CountIsRightIff`, with `HeldUpRequestRestartsTheCount`).
- Field maps: the request schema does not refuse a chosen name that equals a default name still in use;
  such a map hides a field (`FaithfulIffNoDefaultTaken`, with `TotalNamedConfidence`).
- Dates: `29/02/00` is read differently by a clock before 2000 (`NormalizingIsIdempotentIff`), and years of
  more than four digits can look expired (`LongYearExpiry`, with `ExpiredTooEarly`).
- Code and documentation differ in three places, and the model follows the code: octets with leading
  zeros are accepted (`LeadingZeroAccepted`), negative half cents round up (`RoundingIsHalfAwayIff`),
  and one missing key field does not force a review once twenty are looked for
  (`OneMissingFieldGoesToReviewIff`; the service looks for fewer).
- A cached document may carry the fallback tag of the run that stored it; everything else about it is
  the reading of the provider in its key (`CachedExtractionIsDirectRecognition`).

## Model

| member | source | states |
|---|---|---|
| `Metering.StoredUsageNeverExceedsCalls` | src/billing/subscriptions.ts:131-323 | In every interleaving of cached and uncached reads, row writes, cache drops, plan assignments, crashes and redeliveries, the stored document count is at most the number of distinct metering calls that wrote, and the stored amount at most the sum of their full prices. |
| `Metering.NothingLostIffEveryWriteIsFresh` | src/billing/subscriptions.ts:266-323 | In every interleaving, since the last plan assignment no usage is lost if and only if every call wrote on top of exactly the row it had read. |
| `Metering.JobMeteredAtMostOnce` | src/jobs/worker.ts:56-76 | However often one job is redelivered, it starts at most one metering call, plus one per delivery that Redis failed to answer and one per expiry of its marker. |
| `Metering.InvAlways` | src/billing/subscriptions.ts:131-323 | In every reachable state every copy of the record anywhere (row, process caches, calls under way) is what metering its own lineage of distinct calls one after another would have produced. |
| `Metering.TwoReadsRecordOneDocument` | src/billing/subscriptions.ts:266-323 | A concrete run of two processes that both read before either writes and record two documents as one. |
| `SubscriptionStore.Store.ResolveSubscription` | src/billing/subscriptions.ts:131-154 | A lookup goes by the cached copy while it lasts, however stale, and otherwise by the row, which it then caches for the right time; an unreachable database is never taken for a missing row; a truthful cache stays truthful. |
| `SubscriptionStore.Store.PutSubscription` | src/billing/subscriptions.ts:266-279 | Replaces exactly this tenant's row and leaves no cache entry for it, so that the next lookup sees it; a rejected write changes nothing; when only the reply is lost the row is replaced and the entry stays, so that a truthful cache is then wrong exactly when it holds another copy. |
| `SubscriptionStore.Store.RecordDocumentUsage` | src/billing/subscriptions.ts:291-323 | Puts the copy the lookup goes by, with exactly this document added, in place of the tenant's row, or changes no row at all; a truthful cache stays truthful if and only if it is not a write that took effect with its reply lost. |
| `SubscriptionStore.JobWorker.MeterOnce` | src/jobs/worker.ts:56-76 | A marked job meters nothing; an unmarked one is marked and meters once; without an answer from Redis it meters, whether the marker was set or not. |
| `Entitlements.CoveredExactlyTheFirst` | src/billing/entitlements.ts:36-50 | Under a clock that never runs back the documents the trial covers are exactly a prefix of the run. |
| `Entitlements.TrialAllowanceConserved` | src/billing/subscriptions.ts:299-315 | A counted trial conserves remaining allowance plus covered documents. |
| `Entitlements.AccrualHasClosedForm` | src/billing/entitlements.ts:191-217 | The amount accrued over any run equals a closed form: for a monthly plan with overage, the unit price times the documents beyond both the allowance and the trial. |
| `Entitlements.QuoteIsLeast` | src/billing/entitlements.ts:191-217 | An uncovered document of a per-document plan costs the least amount that is at least the unit price plus the surcharge for its pages and at least the minimum; page counts below zero count as none. |
| `Entitlements.MonthlyQuote` | src/billing/entitlements.ts:191-217 | An uncovered document of a monthly plan costs the overage price, and only once the allowance is used up. |
| `Entitlements.PaidByDocumentAndPage` | src/billing/entitlements.ts:191-217 | Without a minimum a run accrues the unit price for each document and the surcharge for each page that the trial does not cover. |
| `Entitlements.PaidByOverage` | src/billing/entitlements.ts:191-217 | A monthly plan accrues the overage price, in plan fields, for exactly the documents beyond both the allowance and the trial. |
| `Entitlements.NewTrialCovers` | src/billing/subscriptions.ts:70-93 | A new subscription's counted trial covers exactly the documents its policy grants, or those before it ends if these are fewer. |
| `Entitlements.StatusLapsesIff` | src/billing/entitlements.ts:36-51 | The stored status lapses exactly when the trial runs out or the period of a cancelled subscription ends, and then to active exactly when a trial runs out with a payment method at hand. |
| `Entitlements.QuotaGateIsExact` | src/billing/entitlements.ts:152-183 | Gating each document with the quota check processes all of them under overage or without a cap, and otherwise the cap or the trial's documents, whichever is more. |
| `Entitlements.HardStopNeverExceedsCap` | src/billing/entitlements.ts:152-183 | A hard-stop plan never processes more than the cap or the trial's documents. |
| `Entitlements.ProcessedIsTheMostAllowed` | src/billing/entitlements.ts:152-183 | In plan fields: with overage everything offered is processed, otherwise the greatest number that the trial covers or that the limit and the monthly allowance both admit. |
| `Entitlements.EffectiveLimits` | src/billing/entitlements.ts:67-90 | While trialing, a page count or a file size passes exactly when it passes both the plan's ceiling and the trial's own; otherwise the plan's. |
| `WebhookOutbox.ClaimsNeverShareAnAttempt` | src/webhooks/store.ts:259-287 | With any number of overlapping workers and crashes, two claims of one delivery never carry the same attempt number. |
| `WebhookOutbox.RetriesBounded` | src/webhooks/deliver.ts:25-126 | Over its whole life, whatever overlaps, crashes and fails, a delivery is put back in the queue at most MAX_ATTEMPTS - 1 times plus once for each reschedule whose reply from the database was lost, of which there are at most MAX_ATTEMPTS - 1; its back-offs total at most BASE * (2^(MAX_ATTEMPTS-1) - 1) ms plus the delays of those. |
| `WebhookOutbox.DeathAlwaysExplained` | src/webhooks/deliver.ts:48-126 | A dead delivery was blocked, lost its endpoint, or failed an attempt numbered at least MAX_ATTEMPTS. |
| `WebhookOutbox.FinalIffSettled` | src/webhooks/deliver.ts:48-144 | In every run, a finished delivery keeps its status over every continuation if and only if no attempt on it is still being sent and no catch is due that would put it back or bury it. |
| `WebhookOutbox.FinishedStaysFinished` | src/webhooks/deliver.ts:48-144 | After a run without overlapping claims, without the reaper cutting in on an attempt and without a lost reply to a recorded success, succeeded and dead are final over every continuation, even one with all of these. |
| `WebhookOutbox.AttemptsBounded` | src/webhooks/deliver.ts:108-126 | Without overlap a delivery is attempted at most MAX_ATTEMPTS times plus once for each attempt that was given up, so MAX_ATTEMPTS - attempts is a measure of what is left. |
| `WebhookOutbox.OverlapRevivesSucceeded` | src/webhooks/store.ts:299-320 | A concrete overlapping run in which a late failure puts a succeeded delivery back in the queue. |
| `WebhookOutbox.CutInRevivesDead` | src/webhooks/store.ts:329-337 | A concrete run without overlap in which a reaped, dead delivery is revived by the attempt the reaper did not wait for. |
| `WebhookOutbox.LostReplyRevivesSucceeded` | src/webhooks/deliver.ts:75-105 | A concrete run in which the update to succeeded commits, its reply is lost, and the catch puts the delivery back in the queue. |
| `WebhookOutbox.LostReplyReschedulesTwice` | src/webhooks/deliver.ts:75-105 | A concrete run in which one failed attempt is rescheduled twice, so its back-off counts twice. |
| `WebhookBackoff.ClaimedIffDue` | src/webhooks/store.ts:259-287 | A claim takes a delivery exactly when it is pending, its time has come and its endpoint is enabled. |
| `WebhookBackoff.SuccessIsRecorded` | src/webhooks/deliver.ts:46-93 | A status from 200 to 299 makes the delivery succeeded, whatever the row said before. |
| `WebhookBackoff.FailureIsPutOff` | src/webhooks/deliver.ts:108-126 | Any other status puts the delivery off to the failure's clock plus BASE * 2^(attempts - 1) ms, or buries it at the last attempt. |
| `WebhookBackoff.PuttingOffIsLogged` | src/webhooks/deliver.ts:75-126 | Only a failure whose write took effect, short of the last attempt, counts as putting a delivery off. |
| `WebhookBackoff.ReapedIffOrphaned` | src/webhooks/store.ts:329-337 | The reaper buries exactly the pending deliveries whose endpoint is gone and changes nothing else. |
| `WebhookBackoff.FailuresDoubleTheDelay` | src/webhooks/deliver.ts:25-126 | After any run, a delivery not claimed before that fails k times in turn has waited BASE * (2^k - 1) ms in all, the last time BASE * 2^(k-1) from the failure on; the last of MAX_ATTEMPTS failures buries it without a further delay. |
| `WebhookStore.Table.EnqueueDelivery` | src/webhooks/store.ts:222-245 | Adds exactly one pending delivery with no attempts, due at once. |
| `WebhookStore.Table.DeleteEndpoint` | src/webhooks/store.ts:155-160 | Removes the endpoint when it is this tenant's, leaves any other tenant's alone, and leaves every delivery row. |
| `WebhookStore.Table.ClaimDueDeliveries` | src/webhooks/store.ts:259-287 | Claims the earliest due, unlocked deliveries up to the limit, raising each one's attempts by one and nothing else. |
| `WebhookStore.ClaimableIff` | src/webhooks/store.ts:259-287 | What can be claimed is pending, at its time, for an endpoint that exists and is enabled, and not locked by another worker. |
| `WebhookStore.Table.MarkDelivered` | src/webhooks/store.ts:289-296 | Sets exactly this row to succeeded, whatever its status was, also when only the reply is lost; a rejected update changes nothing. |
| `WebhookStore.Table.MarkFailed` | src/webhooks/store.ts:299-320 | Sets exactly this row back to pending at the given time, or to dead when there is none, also when only the reply is lost; a rejected update changes nothing. |
| `WebhookStore.Table.ReapOrphanedDeliveries` | src/webhooks/store.ts:329-337 | Buries exactly the pending deliveries whose endpoint is gone and counts them. |
| `WebhookStore.Table.Attempt` | src/webhooks/deliver.ts:48-106 | Follows the try and the catch: makes the protocol's report write and, when sending or that write fails in any way, the protocol's catch write after it. |
| `WebhookStore.Table.FailOrRetry` | src/webhooks/deliver.ts:108-126 | Reschedules below the attempt ceiling with the doubled back-off, and buries at the ceiling. |
| `WebhookStore.Table.DrainWebhookOutbox` | src/webhooks/deliver.ts:137-144 | Reaps, claims the earliest due batch and attempts every claim, each with its own outcome, clock and database replies; an error in one attempt does not stop the others. |
| `WebhookStore.OnlyOwnWritesMatter` | src/webhooks/deliver.ts:137-144 | However the writes of a batch follow one another, a row ends as its own writes leave it. |
| `WebhookStore.InterleavingDoesNotMatter` | src/webhooks/deliver.ts:142-142 | Two orders of the writes of concurrent attempts with the same order on every row leave the same table. |
| `WebhookStore.EachClaimReportedOnce` | src/webhooks/deliver.ts:137-144 | Reporting a batch of claims changes each claimed row by its own outcome only. |
| `SessionListing.FoundIffSetLived` | src/auth/session-store.ts:81-165 | In every interleaving of Redis commands, a live session whose SADD has run is found through the index if and only if the index set was there in every state since that SADD. |
| `SessionListing.ListingIsScanIff` | src/auth/session-store.ts:81-165 | In every interleaving, listing through the index finds exactly the live sessions of the user a scan would find if and only if for each of them the SADD has run and the set was there ever since. |
| `SessionListing.ListingIsScanWhenCreatesAreTimely` | src/auth/session-store.ts:81-165 | In particular when every create of theirs came through its EXPIRE with the set there from its SADD to its EXPIRE, whatever happens later. |
| `SessionListing.ListingShowsWhatStaysLive` | src/auth/session-store.ts:133-165 | An interrupted listing shows every member of the set it read that is live when it ends, and only members that were live at some moment while it ran. |
| `SessionListing.RevokeEndsAllReachable` | src/auth/session-store.ts:167-183 | After a revoke no other session of the user than the kept one is live of those whose SADD had run with the index set there ever since, whatever runs in between and after. |
| `SessionIndex.RevokeEndsAllOthers` | src/auth/session-store.ts:167-183 | After a revoke no session that was in the index when it began is live but the kept one, whatever runs in between and after. |
| `SessionIndex.LateExpireLosesSession` | src/auth/session-store.ts:81-99 | A concrete run in which the index set expires between SADD and EXPIRE and a live session is left out of the index. |
| `SessionStore.Store.Create` | src/auth/session-store.ts:81-115 | Adds exactly this session; an index write that fails is swallowed. The index goes on agreeing with the sessions if and only if the session was not stored, or its token got into a set that lasts as long as the session. |
| `SessionStore.Store.Resolve` | src/auth/session-store.ts:117-123 | Gives an identity only for a live session, re-read from the account. |
| `SessionStore.Store.Destroy` | src/auth/session-store.ts:93-131 | Ends exactly this session, takes its token out of its user's index set when it was live and the command came through, touches no other set, and keeps the agreement in any case. |
| `SessionStore.Store.List` | src/auth/session-store.ts:133-165 | Shows exactly the live sessions found through the index, each once, the caller's own first and then newest first; nothing when the index cannot be read, an error exactly when a session cannot. With an index that agrees these are the sessions a scan finds. |
| `SessionStore.Store.RevokeOthers` | src/auth/session-store.ts:167-183 | Ends exactly the sessions read off the index but the kept one and counts them, none when the index cannot be read; with an index that agrees only the kept session of the user is left, and other users' are untouched. |
| `SessionStore.ListingIsOrdered` | src/auth/session-store.ts:133-165 | The shown list has one view per session, the caller's own first and then newest first. |
| `SessionStore.ViewsShowTheSessions` | src/auth/session-store.ts:133-165 | Each view is that of its session: the token's first eight characters, when it began and where, and whether it is the caller's. |
| `IpPrefix.PrefixMatches` | src/auth/ip-allowlist.ts:78-88 | The byte loop with its mask holds exactly when the two addresses, as big-endian integers, agree after division by 2^(N-k). |
| `IpPrefix.MaskedEqual` | src/auth/ip-allowlist.ts:86-87 | Comparing two bytes under the mask is comparing their top bits. |
| `IpPrefix.PrefixIsInterval` | src/auth/ip-allowlist.ts:78-88 | Sharing a prefix is lying in one interval of addresses of the family. |
| `IpPrefix.RangesNestOrAreDisjoint` | src/auth/ip-allowlist.ts:97-116 | Two ranges of one family are nested or disjoint. |
| `IpAddress.ParseIpv4` | src/auth/ip-allowlist.ts:19-33 | Accepts exactly four octets of up to three digits and at most 255, and yields their values. |
| `IpAddress.Ipv4ReadIff` | src/auth/ip-allowlist.ts:19-33 | A text reads as an IPv4 address exactly when it is four numerals of one to three digits, joined by dots, of the bytes it yields. |
| `IpAddress.ToGroups` | src/auth/ip-allowlist.ts:57-66 | Accepts exactly colon-separated groups of one to four hexadecimal digits and yields their bytes, high byte first. |
| `IpAddress.ParseIpv6` | src/auth/ip-allowlist.ts:53-74 | Fills the one gap written as `::` with zeros to 16 bytes, or needs all 16. |
| `IpAddress.ParseIp` | src/auth/ip-allowlist.ts:41-75 | The parsed bytes are those the trimmed text denotes in whichever of the accepted forms it has. |
| `IpAddress.DottedQuadParses` | src/auth/ip-allowlist.ts:19-33 | Every dotted quad reads back as its four bytes. |
| `IpAddress.WrittenFormsParse` | src/auth/ip-allowlist.ts:53-74 | Every written form of a 16-byte address (any digits and case, in full or with a run of zero groups as `::`) reads back as that address. |
| `IpAddress.Ipv6RoundTrip` | src/auth/ip-allowlist.ts:53-74 | Every 16-byte address printed as eight groups reads back. |
| `IpAddress.Ipv6AbbreviatedRoundTrip` | src/auth/ip-allowlist.ts:53-74 | Every 16-byte address printed with any of its zero runs as `::` reads back. |
| `IpAddress.MappedFormParses` | src/auth/ip-allowlist.ts:47-49 | The IPv4-mapped and IPv4-compatible forms read as the quad they end with. |
| `IpAddress.LeadingZeroAccepted` | src/auth/ip-allowlist.ts:25-28 | An octet with a leading zero is accepted and read as decimal, although the comment says it is refused. |
| `IpAllowlist.MatchesEntry` | src/auth/ip-allowlist.ts:97-116 | An entry matches exactly the addresses of its same-family interval; a malformed entry or address matches nothing. |
| `IpAllowlist.IsIpAllowed` | src/auth/ip-allowlist.ts:126-132 | A list of blank entries allows everyone; any other list is membership in the union of its entries' ranges. |
| `IpAllowlist.SaveCheck` | src/config/settings-store.ts:71-76 | An entry passes the check on saving exactly when it admits some address. |
| `IpAllowlist.SavedIffAdmitting` | src/config/settings-store.ts:71-76 | An entry admits its own network address as soon as it admits any address. |
| `Router.RouteProvider` | src/providers/router.ts:48-86 | The loop with its name set returns the ranked list of the first eligible candidate of each name, or reports that no provider can serve the request. |
| `Router.PushedAreFirstEligible` | src/providers/router.ts:56-76 | Pushing keeps exactly the first eligible candidate of each name, in candidate order. |
| `Router.ChainIsExactlyTheSatisfying` | src/providers/router.ts:48-86 | The chain names each registered provider that satisfies the request once, and no other. |
| `Router.ChainOfDistinctRegistry` | src/providers/router.ts:48-86 | With distinct names a provider is in the chain exactly when it satisfies the request. |
| `Router.ChainIsTieredAndStable` | src/providers/router.ts:76-110 | Providers covering all preferred capabilities come first; inside each tier policy-then-registry order is kept. |
| `Router.ChainServesTheRequest` | src/providers/router.ts:48-110 | With distinct names the chain has exactly the providers that accept this kind of file and have every required capability, those with every preferred one first. |
| `Router.OrderIsThePolicys` | src/providers/router.ts:48-110 | Inside a tier the primary comes before its fallbacks in their order, a function's own chain replacing the policy's, with the text layer in front when nothing else is asked for; the other providers follow as registered. |
| `Extraction.CacheKeyInjective` | src/cache.ts:12-13 | Different files or providers never share a cache key. |
| `Extraction.RecognizeWithFallback` | src/pipeline.ts:398-430 | The first provider of the chain that is up reads the document, which names it and whom it stood in for. |
| `Extraction.ExtractDocument` | src/pipeline.ts:367-395 | A live cache entry answers with the routed provider's own reading; a miss is read by the first provider that is up, tagged when it stood in, and stored under the provider that read it; sensitive documents leave the cache alone. |
| `Extraction.RunsKeepCacheCoherent` | src/pipeline.ts:367-430 | Over any run of mixed functions with outages and evictions every entry under (file, provider) was read by that provider. |
| `Extraction.CachedExtractionIsDirectRecognition` | src/pipeline.ts:367-430 | Through the cache, every answer equals direct recognition by the provider it names, and while the routed provider is up, by that one, up to timing and the fallback tag. |
| `Extraction.ReadIsRemembered` | src/pipeline.ts:367-395 | After a standard request that the routed provider served, the next one for the same file and provider gets the same document, whoever is down by then, unless it was evicted. |
| `Extraction.SensitiveLeavesNoTrace` | src/pipeline.ts:367-395 | A sensitive request is read by the first provider that is up, whatever is cached, and leaves nothing in the cache. |
| `Extraction.StoredOnlyWhatWasRead` | src/pipeline.ts:367-395 | An entry after a request was there before and is unchanged, or is what this standard request read, under the provider that read it. |
| `Base32.Base32Encode` | src/auth/totp.ts:29-43 | The loop over the wrapping 32-bit register writes the five-bit groups of the byte string, the last filled with zeros. |
| `Base32.Base32Decode` | src/auth/totp.ts:47-63 | The loop reads the bit groups of the cleaned text as bytes; a foreign character makes the whole text invalid. |
| `Base32.ShiftIn` | src/auth/totp.ts:33-34 | Shifting a group into the 32-bit register keeps the pending bits although the register wraps. |
| `Base32.Base32RoundTrip` | src/auth/totp.ts:29-63 | Decoding undoes encoding for every byte sequence. |
| `Base32.DecodesToWhatWasEncoded` | src/auth/totp.ts:45-63 | Any text equal to the encoding up to spacing, padding and case decodes to the bytes. |
| `Base32.DecorationChangesNothing` | src/auth/totp.ts:48-48 | Blanks or padding inserted anywhere never change the result of decoding. |
| `Base32.CaseChangesNothing` | src/auth/totp.ts:48-48 | Letters of the alphabet typed as small letters, anywhere, never change the result of decoding. |
| `Totp.CounterFor` | src/auth/totp.ts:69-69 | Step c is exactly the thirty seconds from c * 30 s on. |
| `Totp.WriteUInt32BE` | src/auth/totp.ts:76-77 | Replaces exactly four bytes of the buffer by the number's big-endian bytes. |
| `Totp.CodeForCounter` | src/auth/totp.ts:72-86 | The two 32-bit halves written in place are the counter's eight big-endian bytes, and the code is that of section 5.3 of RFC 4226 for them. |
| `Totp.BigEndianValue` | src/auth/totp.ts:73-77 | The eight bytes denote the counter. |
| `Totp.TruncatedIsWindow` | src/auth/totp.ts:80-84 | Dynamic truncation is the number of the four bytes at the named offset, modulo 2^31. |
| `Totp.CodeHasSixDigits` | src/auth/totp.ts:85-85 | Every code has exactly six digits. |
| `Totp.VerifyCode` | src/auth/totp.ts:110-125 | The scan over the skew window returns the earliest unused matching step. |
| `Totp.VerifiedIsAnEarliestMatch` | src/auth/totp.ts:110-125 | An accepted step is within one of now, later than the last consumed one, and belongs to the code; if any step in the window qualifies the earliest is accepted. |
| `Totp.BlanksChangeNothing` | src/auth/totp.ts:110-125 | Blanks typed anywhere in a code change nothing. |
| `Mfa.NoStepAcceptedTwice` | src/auth/mfa.ts:117-249 | After any run of requests, one after another, the accepted counters of an enrolment, from the confirming one on, increase strictly, and enabled implies a readable secret, a counter and a code list. |
| `Mfa.RecoveryCodesAreSingleUse` | src/auth/mfa.ts:151-249 | Over any run the recovery codes accepted from a set and those left are together exactly the ten drawn, so at most ten are accepted. |
| `Mfa.RecoveryCodeRecognizedIff` | src/auth/mfa.ts:60-64 | For a hash without collisions, a text that belongs to no time step lets the user in exactly when it is one of the codes left but for blanks, dashes and letter case, and then uses up the first such code alone. |
| `Mfa.EnrolmentWorks` | src/auth/mfa.ts:117-249 | Beginning, confirming and verifying with the secret's own codes enables the factor and accepts exactly the two steps. |
| `MfaRace.ReplayedIffReadBefore` | src/auth/mfa.ts:221-230 | After any run of overlapping verifications and regenerations in one enrolment that ends by accepting a time step, some continuation accepts the same step again if and only if a call still under way read the row before its counter reached the step. |
| `MfaRace.TwoReadsAcceptOneStep` | src/auth/mfa.ts:221-230 | A concrete run of two calls that both read before either writes and both accept one code. |
| `MfaRace.RecoveryAcceptedIffOpen` | src/auth/mfa.ts:221-249 | Whatever requests of any kind overlap, a recovery code not drawn again can still be accepted if and only if the row lets it in, or did when a call still under way read it. |
| `MfaRace.RegeneratingInvalidatesIff` | src/auth/mfa.ts:191-249 | Regenerating the set invalidates an old code if and only if no call still under way read the row while it let that code in. |
| `MfaRace.EnabledIsConfirmedIff` | src/auth/mfa.ts:117-249 | Over any run of overlapping requests an enabled factor always has the secret that was confirmed if and only if every confirmation still found the secret that it had read. |
| `MfaRace.ConfirmsItsSecretIff` | src/auth/mfa.ts:117-188 | A confirmation enables the secret it has checked if and only if, between its read and its write, no enrolment began and the factor was not disabled. |
| `MfaRace.DisabledWhileConfirming` | src/auth/mfa.ts:151-188 | A concrete run in which a factor disabled while its confirmation is under way ends up enabled without a secret. |
| `MfaRace.AloneIsTheStep` | src/auth/mfa.ts:117-249 | A request that finds the row as it has read it writes what the same request does alone. |
| `Mfa.TypingDoesNotMatter` | src/auth/mfa.ts:60-64 | Spaces, dashes and case never change which stored entry a recovery code belongs to. |
| `Mfa.RemovesExactlyOne` | src/auth/mfa.ts:235-243 | A recovery success removes exactly one entry, the first that matches, and keeps the order of the rest. |
| `Mfa.FilterMatched` | src/auth/mfa.ts:233-243 | The full scan with the matched flag removes the first match only. |
| `MfaStore.UserTable.BeginEnrolment` | src/auth/mfa.ts:117-134 | Stores a fresh, decodable secret unconfirmed for this user only; refused on an enrolled account. |
| `MfaStore.UserTable.ConfirmEnrolment` | src/auth/mfa.ts:151-171 | Enables the factor exactly when the code matches the pending secret, with its counter and new codes. |
| `MfaStore.UserTable.VerifyMfa` | src/auth/mfa.ts:221-249 | Moves the counter, or removes one recovery code, or changes nothing, exactly as the step of the run does. |
| `MfaStore.UserTable.RegenerateRecoveryCodes` | src/auth/mfa.ts:191-202 | Replaces the code set of an enrolled user only. |
| `MfaStore.UserTable.DisableMfa` | src/auth/mfa.ts:180-188 | Clears every MFA column of this user and of no other. |
| `IdDates.NormalizingIsIdempotentIff` | src/functions/id-verification/dates.ts:54-133 | Normalizing is idempotent for every text under every later clock and century rule if and only if the first clock already reads the digits 00 as 2000. |
| `IdDates.NormalizeTwice` | src/functions/id-verification/dates.ts:128-133 | With such a first clock a second pass changes nothing. |
| `IdDateForms.AcceptedIffOnCalendar` | src/functions/id-verification/dates.ts:64-69 | Exactly the days of the Gregorian calendar from the year 1000 to the last that a timestamp holds are accepted, and printed with their own numbers. |
| `IdDateForms.MonthIffBegins` | src/functions/id-verification/dates.ts:24-48 | A name is taken for a month exactly when it begins like that month's English or French name. |
| `IdDateForms.SpelledMonthReadsBack` | src/functions/id-verification/dates.ts:91-98 | A date with its month spelled out in any letter case reads back, day first and year first. |
| `IdDateForms.SixDigitsReadBack` | src/functions/id-verification/dates.ts:108-114 | The six digits of a machine-readable zone read back for every year that two digits can stand for. |
| `IdDateForms.ShortDayFirstReadsBack` | src/functions/id-verification/dates.ts:54-124 | DD/MM/YY reads back for these years. |
| `IdDateForms.ShortNamedReadsBack` | src/functions/id-verification/dates.ts:54-98 | So do the day, the month's name and two digits of the year. |
| `IdDateForms.MonthFirstReadsBack` | src/functions/id-verification/dates.ts:118-124 | MM/DD/YYYY reads back when the day is past the twelfth. |
| `IdDateForms.OneOrTwoNumbers` | src/functions/id-verification/dates.ts:100-120 | Two numbers without a month name are no date, nor is one number unless it has six or eight digits. |
| `IdDates.LeapDayOf1900` | src/functions/id-verification/dates.ts:54-69 | 29/02/00 seen by an earlier clock stays as printed and is rewritten by a later one. |
| `IdDates.YearFirstRoundTrip` | src/functions/id-verification/dates.ts:115-124 | Every real date of the years 1000 to 9999 reads back from its year-first form, whatever the separators. |
| `IdDates.DayFirstRoundTrip` | src/functions/id-verification/dates.ts:115-124 | Every real date of the years 1000 to 9999 reads back from DD/MM/YYYY. |
| `IdDates.CompactDayFirst` | src/functions/id-verification/dates.ts:101-107 | DDMMYYYY reads back if and only if its digits are not also a real date of the 1900s or 2000s written year first. |
| `IdDates.CompactFrom1300` | src/functions/id-verification/dates.ts:101-107 | In particular DDMMYYYY reads back for every year from 1300 on. |
| `IdDates.MonthNameRoundTrip` | src/functions/id-verification/dates.ts:91-98 | Every real date of the years 1000 to 9999 written with its month's name in any letter case reads back, day first and year first. |
| `IdDates.PastWindow` | src/functions/id-verification/dates.ts:54-61 | Two-digit years land in the hundred years up to the current one if and only if the clock is between 1999 and 2099, and then every one of those years is what its own two digits are read as. |
| `IdDates.FutureWindow` | src/functions/id-verification/dates.ts:54-61 | Expiry years land in the window from 49 years back to 50 ahead if and only if the clock is between 1949 and 2049, and then every one of those years is what its own two digits are read as. |
| `IdDates.ExpiredIsBeforeToday` | src/functions/id-verification/dates.ts:143-148 | With four-digit years the text comparison says expired exactly when the day lies before today. |
| `IdDates.LongYearExpiry` | src/functions/id-verification/dates.ts:143-148 | A document printed to expire in a year of more than four digits, a day yet to come, is said to be expired if and only if the year's first four digits are below the current year. |
| `IdDates.ExpiredTooEarly` | src/functions/id-verification/dates.ts:143-148 | From 1235 on, 12 AUG 12345 is said to be expired. |
| `IdDates.DatesMatchIffSameDay` | src/functions/id-verification/dates.ts:136-140 | Two readable texts match exactly when they are the same calendar day, however many digits the years have. |
| `IdDates.SameDayMatchesAcrossForms` | src/functions/id-verification/dates.ts:136-140 | A day written day first matches itself written year first. |
| `Money.SumIsOrderFree` | src/functions/money.ts:36-37 | The sum in cents does not depend on the order of the amounts. |
| `Money.SumAppend` | src/functions/money.ts:36-37 | The sum in cents is additive over concatenation. |
| `Money.SumError` | src/functions/money.ts:26-37 | The sum in cents is within half a cent per amount of the exact sum. |
| `Money.CentsSumExactly` | src/functions/money.ts:26-37 | Amounts printed to the cent sum without any error. |
| `Money.RoundingIsHalfAwayIff` | src/functions/money.ts:25-26 | Rounding is the documented half away from zero if and only if the amount is not a negative half cent. |
| `Receipts.ReconcileTotals` | src/functions/receipt-parsing/validate.ts:16-42 | The verdict is high exactly when both checks agree; each mismatch adds its warning after the printed ones; nothing else changes. |
| `Receipts.FlaggedIffFarApart` | src/functions/receipt-parsing/validate.ts:16-42 | On a receipt in whole cents each warning is added exactly when the exact amounts differ by more than two cents and by more than two per cent, with those amounts in it; the verdict is high exactly when neither is. |
| `Receipts.ExactLinesAgree` | src/functions/receipt-parsing/validate.ts:21-28 | n exact amounts that sum to the subtotal pass the line check whenever n + 1 is at most twice the tolerance. |
| `Receipts.CentReceiptIsNeverFlagged` | src/functions/receipt-parsing/validate.ts:16-42 | A receipt printed in whole cents that adds up is never flagged, however long it is. |
| `Receipts.CollapseIsIdempotent` | src/functions/receipt-parsing/collapse.ts:14-28 | Collapsing twice is collapsing once. |
| `Receipts.ReportedLines` | src/functions/receipt-parsing/collapse.ts:14-28 | In single mode one line stands for the printed subtotal, else for the sum of the lines, else for what the total leaves after tax and tip; a receipt with just one line keeps it. |
| `Receipts.CollapsingFirstHidesLineMismatches` | src/functions/receipt-parsing/execute.ts:39-40 | Reconciling first reports every line mismatch; collapsing first would report none. |
| `BankStatements.ReconcileStatement` | src/functions/bank-statement-analysis/execute.ts:31-63 | High exactly when both balances are printed and agree; the summary is the sums of the listed amounts in cents. |
| `BankStatements.ReconcilesIffClose` | src/functions/bank-statement-analysis/execute.ts:31-63 | A statement in whole cents reconciles exactly when both balances are printed and opening plus credits less debits is within two cents or two per cent of the closing balance; the summary is exact. |
| `BankStatements.ChainedStatementIsNeverFlagged` | src/functions/bank-statement-analysis/execute.ts:31-59 | A statement whose running balances chain to the cent is never flagged. |
| `BankStatements.ListingOrderDoesNotMatter` | src/functions/bank-statement-analysis/execute.ts:31-50 | The listing order of transactions does not change the verdict. |
| `Confidence.ScoreFrom` | src/functions/confidence.ts:38-47 | The loop multiplies the clamped factors that apply and keeps their reasons in order. |
| `Confidence.AnyDeductionGoesToReview` | src/functions/confidence.ts:38-60 | When every factor is at most 0.9, the score reaches the bar of 0.95 if and only if there is no deduction. |
| `Confidence.CombineNeverRaises` | src/functions/confidence.ts:50-53 | A combined score is at most the score of each part, and every reason of each part is kept. |
| `Confidence.CombineMultiplies` | src/functions/confidence.ts:50-53 | A combined score is the floored product of the parts, with the reasons of all parts in order. |
| `Confidence.FloorIsThousandths` | src/functions/confidence.ts:33-33 | A score is floored to a whole thousandth, less than a thousandth below. |
| `Confidence.OneMissingFieldGoesToReviewIff` | src/functions/confidence.ts:78-87 | One missing field is enough for review if and only if fewer than twenty fields are looked for. |
| `ReceiptFields.ProjectReceipt` | src/functions/receipt-parsing/fields.ts:172-196 | The loop emits the selected scalars, the item array and always the verdict, a later name replacing an earlier one. |
| `ReceiptFields.BuildReceiptResultSchema` | src/functions/receipt-parsing/fields.ts:203-227 | The loop builds the shape of exactly what the projection emits. |
| `ReceiptFields.ProjectionValidates` | src/functions/receipt-parsing/fields.ts:172-227 | For every receipt and every field map the projection validates under the schema built from that map, with an equal key set. |
| `ReceiptFields.FieldStandsUnderItsName` | src/functions/receipt-parsing/fields.ts:172-196 | Under an accepted map that takes no default name, each field of the receipt stands under the name chosen for it. |
| `ReceiptFields.ItemFieldStandsUnderItsName` | src/functions/receipt-parsing/fields.ts:172-196 | So does each item field selected by itself, in every item. |
| `ReceiptFields.ValidAmounts` | src/functions/receipt-parsing/fields.ts:203-227 | Whatever validates has a number or nothing under the name of an amount, and a text or nothing under any other scalar's. |
| `ReceiptFields.ValidItems` | src/functions/receipt-parsing/fields.ts:203-227 | And items that each have a text under the name of the description and a number or nothing under that of any other field selected by itself. |
| `ReceiptFields.ValidVerdict` | src/functions/receipt-parsing/fields.ts:203-227 | And the verdict and the warnings under their names. |
| `ReceiptFields.AcceptedOneMore` | src/functions/receipt-parsing/fields.ts:88-118 | An accepted map is built up of entries with proper names, each for a path and under a name not yet taken. |
| `ReceiptFields.FaithfulIffNoDefaultTaken` | src/functions/receipt-parsing/fields.ts:88-196 | For an accepted map every emitted value reads back as the canonical one if and only if no chosen name is a default name still in use. |
| `ReceiptFields.TotalNamedConfidence` | src/functions/receipt-parsing/fields.ts:172-196 | A concrete map that the request accepts and under which every receipt loses its total. |
| `ReceiptFields.InvertibleIffEverythingSelected` | src/functions/receipt-parsing/fields.ts:172-196 | A faithful map loses nothing if and only if it selects every field. |
| `ReceiptConfidence.AssessReceiptParsing` | src/functions/receipt-parsing/confidence.ts:18-33 | The loop scores the verdict, the warnings and the fill rate of the selected key fields. |
| `ReceiptConfidence.ScoreOfReceipt` | src/functions/receipt-parsing/confidence.ts:18-33 | Half for a low verdict, nine tenths for each warning and the share of the four key fields that are there, all multiplied and floored, with a reason for each in that order. |
| `ReceiptConfidence.ClearsTheBarIffNoReasons` | src/functions/receipt-parsing/confidence.ts:18-33 | A receipt clears the review bar if and only if there is no reason against it. |
| `ReceiptConfidence.AssessedThroughMap` | src/functions/receipt-parsing/confidence.ts:18-33 | Score and reasons of a projected receipt are those of the receipt over the selected key fields. |
| `ReceiptConfidence.RenamingKeepsTheScore` | src/functions/receipt-parsing/confidence.ts:18-33 | Renaming fields changes neither the score nor the reasons. |
| `ReceiptConfidence.FullSelectionScoresLikeCanonical` | src/functions/receipt-parsing/fields.ts:144-162 | A map that selects all key fields scores like the canonical receipt. |
| `Templates.DecodeUndoesEscape` | src/notification/mail/templates.ts:90-128 | Decoding undoes escaping for every text. |
| `Templates.EntityMeans` | src/notification/mail/templates.ts:106-128 | A known entity decodes to its own character, whatever follows. |
| `Templates.Interpolate` | src/notification/mail/templates.ts:140-149 | One pass over the template's own pieces: inserted values are never read again, and the missing set gains exactly the placeholders without a value. |
| `Templates.MarkupIsTheTemplates` | src/notification/mail/templates.ts:98-149 | Whatever the values, the rendered text has exactly the template's own `<`, `>` and quotes. |
| `Templates.PiecesMakeUpTheTemplate` | src/notification/mail/templates.ts:51-51 | Reading a template into pieces loses nothing. |
| `Templates.DecodedRenderingIsRawIff` | src/notification/mail/templates.ts:90-149 | Decoding the escaped rendering gives the raw rendering for all values if and only if no ampersand of the template opens a known entity in its literal text, or the start of one that runs into a placeholder. |
| `Templates.DecodesToRawUnlessTriggered` | src/notification/mail/templates.ts:90-149 | For given values it does if and only if no ampersand of the template opens a known entity in the rendered text. |
| `Templates.AmpersandBeforeAValue` | src/notification/mail/templates.ts:126-128 | A concrete template and value that form an entity together and decode to something else. |
| `GlmMapper.ToBlocks` | src/providers/glm/mapper.ts:65-81 | The nested loops list every detail once, page by page, counted through. |
| `GlmMapper.ToPages` | src/providers/glm/mapper.ts:88-103 | At least one page, the markdown on the first, sizes where known. |
| `GlmMapper.MapLayoutParsing` | src/providers/glm/mapper.ts:22-62 | Appends every response behind the pages so far, then renumbers the blocks in place. |
| `GlmMapper.DocumentIsNumbered` | src/providers/glm/mapper.ts:30-62 | Pages are 1 to the page count without gaps, block i has index i, and block pages ascend within range. |
| `GlmMapper.EveryDetailIsABlock` | src/providers/glm/mapper.ts:22-103 | Every detail of every response becomes one block, in order, on its page and with its box, content and label, and nothing else does. |
| `GlmMapper.PagesCarry` | src/providers/glm/mapper.ts:84-103 | A response's markdown, trimmed, stands on its first page alone, and each of its sizes on its own page. |
| `GlmMapper.TokensAddUp` | src/providers/glm/mapper.ts:28-36 | The tokens of the responses that report any add up. |
| `GlmMapper.MappingIsCompositional` | src/providers/glm/mapper.ts:22-62 | Mapping xs + ys is mapping xs followed by mapping ys with pages and indices moved behind; tokens add. |
| `GlmMapper.MarkdownIsCompositional` | src/providers/glm/mapper.ts:45-50 | The final trim removes nothing, and the texts of two runs join with a blank line. |
| `ReadingOrder.DetectGutter` | src/functions/resume-parsing/execute.ts:64-77 | The loop over the sorted centres finds the fold's widest gap. |
| `ReadingOrder.GutterIsWidestGap` | src/functions/resume-parsing/execute.ts:64-77 | A gutter is reported exactly when some gap in the middle band is at least 0.15 wide, and is the middle of the first widest. |
| `ReadingOrder.GutterStripIsEmpty` | src/functions/resume-parsing/execute.ts:49-77 | Behind a reported gutter no block's centre lies strictly inside a strip at least 0.15 wide, and a block whose centre lies left of it starts left of the gutter. |
| `ReadingOrder.PageReadsByColumns` | src/functions/resume-parsing/execute.ts:47-58 | A page's blocks, each once: with a gutter those that start left of it before all others, and top edges never decrease inside a side. |
| `ReadingOrder.EveryBlockOnceInOrder` | src/functions/resume-parsing/execute.ts:35-58 | Every usable block is read exactly as often as it is given; pages ascend, and inside a page the blocks that start left of its gutter come before all others, top edges ascending on each side. |
| `ReadingOrder.TextIsTheTranscript` | src/functions/resume-parsing/execute.ts:35-58 | The text is the trimmed contents in exactly that order, one to a line, with a blank line before each further page. |
| `ReadingOrder.EmptyIffNothingUsable` | src/functions/resume-parsing/execute.ts:35-44 | The text is empty exactly when every block lacks a box or has no text but blanks. |
| `RateLimit.LocalLimiter.UnderLimitLocal` | src/http/middleware/rate-limit.ts:53-70 | Whatever the clock does, the lazily swept table answers by the requests of the window since a clock at or past its end last dropped them, and keeps no window that has ended. |
| `RateLimit.LocalCountIsRightIff` | src/http/middleware/rate-limit.ts:53-70 | These are all the requests of the window if and only if no request came in at or past the window's end after one of them; otherwise fewer. |
| `RateLimit.SteadyClockCountsRight` | src/http/middleware/rate-limit.ts:53-70 | In particular a clock that never runs back counts the window of every request right. |
| `RateLimit.StepBackRestartsTheCount` | src/http/middleware/rate-limit.ts:53-70 | A concrete run in which a clock that steps back over the window's end makes it start from one again. |
| `RateLimit.WindowAdmitsExactlyMax` | src/http/middleware/rate-limit.ts:55-84 | A window admits its first max requests and no other. |
| `RateLimit.AnyWindowLengthAdmitsTwiceMax` | src/http/middleware/rate-limit.ts:55-84 | Any half-open interval of one window's length admits at most 2 * max requests. |
| `RateLimit.KeyInjective` | src/http/middleware/rate-limit.ts:55-75 | Two clients or two windows never share a local counter. |
| `RateLimit.RedisKeyInjective` | src/http/middleware/rate-limit.ts:73-75 | Nor a Redis counter. |
| `RateLimit.CountIsRightIff` | src/http/middleware/rate-limit.ts:73-84 | Whatever windows the processes' clocks pick and however their commands interleave, Redis answers a request with the number of that client's requests in that window so far if and only if less than a window's length has gone by since the key first got its expiry; otherwise it answers less. |
| `RateLimit.ExpiryNeverClearsALiveWindow` | src/http/middleware/rate-limit.ts:73-84 | In particular while the window is open by Redis's clock, if that clock had reached the window when the expiry was set. |
| `RateLimit.HeldUpRequestRestartsTheCount` | src/http/middleware/rate-limit.ts:73-84 | A concrete run in which a request held up for a window's length is counted from one again. |
| `Sorting.SortIsOrderedPermutation` | src/functions/resume-parsing/execute.ts:48-57 | The stable sort used by the orderings neither loses nor invents an element. |

## Left out

- Postgres, Redis, BullMQ, S3, SMTP, DNS, HTTP and the language-model clients: each statement or command is one atomic step, and replies are parameters.
- Cryptography: HMAC, the recovery-code hash and the providers' readings are function parameters; random secrets, tokens and codes are parameters.
- IEEE doubles: amounts, scores and coordinates are exact reals. `Intl` formatting is not modelled, and warnings are structured values instead of text.
- Regular expressions and Unicode: tokenizers are written out for ASCII; stripping of diacritics, other Unicode white space and inherited JavaScript object properties used as placeholder names are not modelled.
- Metering: the calendar month behind a period's end is a parameter; refunds and plan catalogue edits are not modelled.
- WebhookOutbox.FinalIffSettled: an update whose reply is lost takes effect when it is lost, not later.
- Totp.VerifyCode: time steps before the first of 1970, for which the service throws, are excluded.
- ReadingOrder.EveryBlockOnceInOrder: assumes boxes that start at 0 <= y0 < 1, as the layout format has them; a top edge of 1 or more ties with the next column.
- RateLimit.CountIsRightIff: Redis's own clock never runs back; the clocks of the processes are free.
- ReceiptFields.FaithfulIffNoDefaultTaken: field paths are an enumeration, so the refusal of unknown path texts is not part of this model.
- Templates: loading template files, the title and the plain-text alternative of a mail are not modelled.
- GlmMapper: provider name and timing stamps are not part of the document modelled.
- Express routes, admin and tenant screens, logging, metrics, archiving, reports, PDF, image and DOCX handling, prompts and settings storage other than the allowlist check are not part of this model.
