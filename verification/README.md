# Souin cache: verified model

Souin is an HTTP cache that sits in front of a handler. This project models the parts of it that have to stay right
over whole runs, and proves what they keep:

- **the two-level store**: index entries under a base key, bodies under variant keys (`Storer.dfy`), shown to refine a
  plain history of stores and deletes (`StoreHistory.dfy`), with eviction (`Eviction.dfy`) and bulk deletion (`SouinApi.dfy`);
- **the eviction lock**, a timed protocol between any number of instances (`EvictionLock.dfy`);
- **request coalescing** in `Upstream` (`Coalescing.dfy`) and the **ownership of pooled buffers** (`BufferPool.dfy`), as
  interleavings of any number of requests;
- **surrogate tags**, comma-joined strings used as ordered sets (`TagText.dfy`, `TagIndex.dfy`), and the purge by tag end
  to end (`SouinApi.dfy`);
- **key encodings**: the printed Vary suffix and its parser (`VaryKey.dfy`), the cache key with its sorted query (`QueryKey.dfy`);
- **what is stored and for how long**: the gate of `Store` and promotion between storers (`Pipeline.dfy`, `Provenance.dfy`);
- **what is served**: the decision tree of `ServeHTTP` (`ServeHttp.dfy`) on top of the delayed writer (`Writer.dfy`) and the
  validator (`Validator.dfy`).

`EndToEnd.dfy` joins parts. `Wrappers.dfy`, `Strings.dfy`, `UrlEscape.dfy`, `HttpHeader.dfy`, `HttpRules.dfy` and `Messages.dfy` are shared.
A Go string is a sequence of bytes; each `char` of the model stands for one byte, and `IsBytes` says so where escaping needs it.
Clocks, upstream answers, map iteration orders, regular expressions and schedules are parameters or free choices, so every
statement holds for all of them.

## Where the code does not do what one would expect

Each of these is a lemma that gives the exact condition, followed by a lemma or run that shows a failing input.

- The eviction lock is exclusive if and only if every instance writes less than the 10 ms verify delay after it looked
  (`SafeExactlyWhenWriteIsPrompt`, `LateWriteBreaksExclusion`).
- `Upstream` compares only when the first Vary line is non-empty; an empty first line hides the others
  (`VariantSafeExactly`, `EmptyVaryLineIsShared`). A `private` in Cache-Control is not seen behind another non-empty
  control header (`OwnOnlyExactly`, `MaskedPrivateIsShared`).
- Every request whose writer is sent gets the status of an upstream answer, if and only if coalescing is off or the
  answer is no upstream failure (`UnansweredExactly`). A request that waits for a flight that ends in a 50x is sent its
  writer as it came: status 200 and no body (`FollowerOfFailure`), or what an earlier stale-if-error attempt left there.
- A cache key with a space but nothing else to escape is lost to its tag's purge (`StoreThenPurge`, `SpaceOnlyKeyIsLost`).
- A varied header value that holds `%3A`, `%3B` or the separator, but no colon or semicolon, is not read back
  (`OwnKeyAccepted`, `OwnKeyIsRejected`); a value and the literal text of its escaped form print alike
  (`SameSuffixExactly`, `EscapedTextPrintsAlike`).
- A rewritten index gets a new lifetime, so an eviction is noticed when a kept response outlives it
  (`EvictionAfterHistoryExactly`, `EvictionIsNoticed`).
- On a storer that hides its index entries from Get, as `Default` does, `BulkDelete` without purge is complete if and
  only if the key compiles as a regular expression (`HiddenBulkDeleteExactly`, `SurvivingVariant`).
- A `no-store` response is stored when Expires sets its freshness (`NoStoreHonouredExactly`, `NoStoreIsStored`), and a
  `Vary: *` response is stored when no-cache lists Vary (`VaryStarStoredExactly`, `VaryStarIsStored`).
- The first copy of a response is fresh from the request's time, a promoted one from its own Date (`SameBasisExactly`,
  `PromotionShortensFreshness`).
- `Revalidate` reports an error also when the client's If-Unmodified-Since or If-Modified-Since is refused, so a stale
  response can be sent although upstream answered (`StaleJustifiedExactly`, `StaleDespiteAnswer`).
- After a successful stale-if-error attempt `Upstream` starts with that answer's body and status in the writer
  (`UpstreamStartsEmptyExactly`, `LeftoverAnswer`), and what it writes then is that body followed by the new one
  (`RightVariant`).
- A stored response that upstream confirms with a 304 is sent after that answer's own body, if and only if that is not
  empty (`StoredBodyIsServed`, `ConfirmedAfterBody`).
- A pooled buffer is lost when the goroutine reads the ownership flag before the handler clears it
  (`PutBackExactlyOnceUnlessLate`, `LateHandOver`).
- If-None-Match is compared line by line: the tags a client lists all match if and only if each line is a single tag,
  or repeats such lines, or one line is `*`, or the first is empty (`ListedTagsMatchExactly`, `TwoTagsMatchNothing`).

## Model

| member | source | states |
|---|---|---|
| `EvictionLock.LeaseEnd` | pkg/middleware/middleware.go:86-87 | the printed expiry is the two-minute lease cut to whole seconds |
| `EvictionLock.StepKeepsInv` | pkg/middleware/middleware.go:65-97 | every step of every instance keeps: an unexpired lease is the stored lock, verified at least the delay after it was written |
| `EvictionLock.LockIsExclusive` | pkg/middleware/middleware.go:65-97 | no run of any number of instances has two with unexpired leases at one instant, when Get to Set takes under 10 ms |
| `EvictionLock.LateWriteBreaksExclusion` | pkg/middleware/middleware.go:85-96 | a run in which a write 10 ms after the look gives the lock to two instances |
| `EvictionLock.SafeExactlyWhenWriteIsPrompt` | pkg/middleware/middleware.go:65-97 | the lock is exclusive if and only if the gap from Get to Set stays below the delay |
| `EvictionLock.LoneCallGetsTheLock` | pkg/middleware/middleware.go:65-97 | a call without competition gets the lock unless another instance's lock is still valid |
| `Coalescing.RunKeepsInv` | pkg/middleware/middleware.go:576-656 | what every interleaving of Upstream calls on one key keeps |
| `Coalescing.RightVariant` | pkg/middleware/middleware.go:580-656 | a written response came from a leader's own answer; its body follows what the leader's buffer held, so there is exactly one copy if and only if that was empty; the receiver agrees on the compared Vary headers; one whose first control header says private, or with a cookie, only from the receiver itself; at most two upstream calls led |
| `Coalescing.VariantSafeExactly` | pkg/middleware/middleware.go:637-647 | an answer only reaches requests that agree with its leader on its Vary, if and only if coalescing is off, it is never shared, or its first Vary line is compared |
| `Coalescing.EmptyVaryLineIsShared` | pkg/middleware/middleware.go:637-647 | `Vary: Cookie` behind an empty Vary line is not compared |
| `Coalescing.OwnOnlyExactly` | pkg/middleware/middleware.go:601-635 | an answer only reaches the request that fetched it, if and only if coalescing is off, it is a 50x, or the text private stands in its first non-empty control header or it sets a cookie |
| `Coalescing.PrivateIsNotShared` | pkg/middleware/middleware.go:601-622 | Cache-Control: private on its own reaches nobody else |
| `Coalescing.AgreeingRequestsShare` | pkg/middleware/middleware.go:580-656 | any other answer is shared by two requests that agree on its Vary fields |
| `Coalescing.MaskedPrivateIsShared` | pkg/middleware/middleware.go:601-622 | Cache-Control: private behind a Surrogate-Control is shared |
| `Coalescing.SentWriterIs` | pkg/middleware/middleware.go:1190-1206 | what is sent after Upstream: the status of an upstream answer of the run, or, for a request that led nothing and shared a failure, the writer as it was on entry |
| `Coalescing.UnansweredExactly` | pkg/middleware/middleware.go:576-656 | every request that is sent its writer is sent an upstream status, if and only if coalescing is off or the answer is no upstream failure |
| `Coalescing.FollowerOfFailure` | pkg/middleware/middleware.go:1190-1206 | a run in which a 503 is sent to the waiting request as 200 without a body |
| `Coalescing.StepCosts` | pkg/middleware/middleware.go:576-658 | every step lowers a total cost, because a leader passes its own Vary check and a solo retry is not shared |
| `Coalescing.NoDeadlock` | pkg/middleware/middleware.go:576-658 | as long as a call has not returned, some step is possible |
| `Coalescing.CoalescingTerminates` | pkg/middleware/middleware.go:549-659 | n concurrent requests take at most n(3n+4) steps, after which every call has returned |
| `Coalescing.LoneRequestCallsOnce` | pkg/middleware/middleware.go:576-656 | a request without company makes one upstream call, whatever the answer |
| `BufferPool.StepKeepsInv` | pkg/middleware/middleware.go:902-914 | every step keeps each buffer with one owner or once in the pool |
| `BufferPool.BuffersAreNeverShared` | pkg/middleware/middleware.go:902-1208 | put back at most once, never while Upstream or the handler, up to sending and the deferred reset, may touch it, never shared between requests, never twice in the pool |
| `BufferPool.PutBackExactlyOnceUnlessLate` | pkg/middleware/middleware.go:1171-1208 | put back exactly once, unless the handler gave the buffer up after the goroutine read the flag |
| `BufferPool.LateHandOver` | pkg/middleware/middleware.go:1175-1186 | a run in which nobody puts the buffer back |
| `Storage.Storer.constructor` | pkg/storage/defaultProvider.go:32-34 | an empty storer |
| `Storage.Storer.Get` | pkg/storage/defaultProvider.go:106-124 | the value under the key unless it expired, in which case it is dropped |
| `Storage.Storer.Set` | pkg/storage/defaultProvider.go:179-186 | the whole new content |
| `Storage.Storer.Delete` | pkg/storage/defaultProvider.go:189-191 | the whole new content |
| `Storage.Storer.DeleteMany` | pkg/storage/defaultProvider.go:194-208 | exactly the keys that match the pattern or start with it are gone, in any visiting order |
| `Storage.Storer.MapKeys` | pkg/storage/defaultProvider.go:47-78 | exactly the readable keys under the prefix, cut, with their values |
| `Storage.Storer.SetMultiLevel` | pkg/storage/defaultProvider.go:139-176 | the body under the variant key and the updated index entry |
| `Storage.Storer.MappingUpdater` | plugins/traefik/override/rfc/revalidation.go:172-209 | the index with this key's times, copied headers and tag |
| `Storage.Storer.SendsVariedHeaders` | plugins/traefik/override/rfc/revalidation.go:118-128 | the request sends every stored varied value |
| `Storage.Storer.ExamineEntry` | plugins/traefik/override/rfc/revalidation.go:115-155 | what one entry contributes to the election |
| `Storage.Storer.MappingElection` | plugins/traefik/override/rfc/revalidation.go:105-158 | for any iteration order and any validator: fresh and stale results are readable candidates, none is missed while what is read decodes, and the validator was last updated with the tag of the fresh one |
| `Storage.Storer.GetMultiLevel` | pkg/storage/defaultProvider.go:127-136 | the election on the base key's index, if there is one |
| `StoreHistory.StoreRefinesHistory` | pkg/storage/defaultProvider.go:106-176 | after any run, index and bodies agree with the history of what was stored and deleted; evictions with any index lifetime that no response outlives are part of it |
| `StoreHistory.CandidatesAreWanted` | plugins/traefik/override/rfc/revalidation.go:115-155 | the candidates of an election are exactly the current variants the history names |
| `StoreHistory.LookupMatchesHistory` | plugins/traefik/override/rfc/revalidation.go:105-158 | a lookup is fresh, or else stale, exactly when a current variant agrees, matches and is in time; the body is the last one stored |
| `EndToEnd.MethodsAreEvents` | pkg/storage/defaultProvider.go:106-208 | reads, pattern deletions and evictions are events of that history |
| `EndToEnd.HistoryIsEvictable` | pkg/storage/defaultProvider.go:139-176 | every history leaves indexes that name variants by their own key, each under one base key |
| `EndToEnd.HeldVariantIsFound` | plugins/traefik/override/rfc/revalidation.go:105-158 | a held copy is served fresh to exactly the requests that agree on its Vary fields and match its tag, until its fresh time |
| `EndToEnd.StoreIsEvent` | pkg/middleware/middleware.go:490-518 | Store is a store of the history, with varied headers that select the agreeing requests |
| `EndToEnd.HistoryIsAsStored` | pkg/storage/defaultProvider.go:139-176 | every history leaves indexes that do not expire before what they list and bodies that end with their entries |
| `EndToEnd.VariedValuesAreSingle` | pkg/middleware/middleware.go:461-465 | Store keeps one value under each canonical name |
| `EndToEnd.StoreLeavesAsStored` | pkg/middleware/middleware.go:490-518 | a history of Store calls leaves the store as evictions expect it |
| `EndToEnd.EvictionAfterHistoryExactly` | pkg/api/souin.go:171-209 | an eviction after any such history is invisible for good if and only if it does not rewrite the index, keeps it for ever, or no kept response ends after it |
| `Pipeline.VariedValuesSelect` | pkg/middleware/middleware.go:461-465 | the stored varied headers select exactly the requests that agree with the stored one; section 4.1 of RFC 9111 |
| `EndToEnd.FreshTagIsItsOwn` | pkg/middleware/middleware.go:959-982 | a fresh response is answered by the entity-tag branch if and only if its own entry has a tag; there with a 304 exactly when the request sent If-None-Match, which then lists that tag or the star |
| `Validator.Revalidator.ParseRequest` | pkg/rfc/revalidation.go:28-61 | the validator of a request, with its two parsed times |
| `Validator.TrimmedETags` | pkg/rfc/revalidation.go:29-35 | the trimmed tags of the first If-None-Match line |
| `Validator.Revalidator.ValidateETagFromHeader` | plugins/traefik/override/rfc/revalidation.go:14-61 | the validator after one more entry |
| `Validator.IsListed` | plugins/traefik/override/rfc/revalidation.go:26-36 | one header line is the star or the tag |
| `Validator.ValidatedAllKeepsRequest` | plugins/traefik/override/rfc/revalidation.go:14-61 | what the request decided survives any sequence of updates; NotModified stays set exactly for requests with If-None-Match |
| `Validator.MatchIsTheRule` | plugins/traefik/override/rfc/revalidation.go:14-40 | an entry's match does not depend on the entries examined before |
| `Validator.MatchExactly` | plugins/traefik/override/rfc/revalidation.go:14-40 | an entry matches if and only if there is no If-None-Match, or an empty first line, or a line that is the star or the whole tag |
| `Validator.NeedsRevalidationExactly` | plugins/traefik/override/rfc/revalidation.go:14-16 | a date condition or an examined tag calls for revalidation |
| `Validator.ListedTagsMatchExactly` | plugins/traefik/override/rfc/revalidation.go:17-40 | for any lines: every tag the client lists is matched if and only if each line is one tag or repeats such lines, or one is the star, or the first is empty; without repeated tags each line has to be one tag |
| `Validator.OneLineMatchesExactly` | plugins/traefik/override/rfc/revalidation.go:25-40 | the same for a single line |
| `Validator.TwoTagsMatchNothing` | plugins/traefik/override/rfc/revalidation.go:25-40 | a line of two tags that matches neither |
| `Validator.ListOnOneLineNeverMatches` | plugins/traefik/override/rfc/revalidation.go:25-40 | two or more tags on one line match no comma-free tag |
| `Eviction.EvictEntries` | pkg/api/souin.go:186-194 | exactly the entries past both times go, with their bodies |
| `Eviction.EvictOne` | pkg/api/souin.go:177-206 | the whole content after one index was visited |
| `Eviction.EvictMapping` | pkg/api/souin.go:171-209 | the whole content afterwards, in any visiting order: an entry and its body are gone if and only if both its times have passed, everything else stays |
| `Eviction.EvictionDropsByTime` | pkg/api/souin.go:186-207 | the same, comparing the times of the entries |
| `Eviction.EvictionIsInvisible` | pkg/api/souin.go:171-209 | for every base key, request and later time a lookup can serve what it could before, apart from the rewritten index's lifetime |
| `Eviction.InvisibleExactly` | pkg/api/souin.go:171-209 | invisible for good, whatever the index's lifetime was, if and only if old and new index are alive together whenever something could be served |
| `Eviction.InvisibleToStoredIndexExactly` | pkg/api/souin.go:171-209 | for an index as stores and evictions leave it: if and only if it is not rewritten, is kept for ever, or no kept response ends after it |
| `Eviction.EvictionIsNoticed` | pkg/api/souin.go:171-209 | a store in which a response is missed after an eviction |
| `Eviction.EvictionLeavesLiveEntries` | pkg/api/souin.go:186-207 | afterwards every index is non-empty, each of its entries has a time that has not passed, and another eviction finds the store in order |
| `Eviction.SetKeepsWellIndexed` | pkg/middleware/middleware.go:494-502 | SetMultiLevel keeps the real key equal to the variant key |
| `SouinApi.SouinAPI.BulkStep` | pkg/api/souin.go:75-106 | one storer after the loop body |
| `SouinApi.SouinAPI.BulkDelete` | pkg/api/souin.go:73-122 | every storer's whole content: the base key, its index, what the index lists and what the key matches as a pattern go, every other key keeps its entry |
| `SouinApi.BulkDeletesTouched` | pkg/api/souin.go:73-122 | the same for one storer, with the index that is kept without a purge |
| `SouinApi.BulkDeleteIsComplete` | pkg/api/souin.go:73-109 | afterwards a lookup at the base key answers nothing, whatever the index held, for either value of purge |
| `SouinApi.HiddenBulkDeleteExactly` | pkg/api/souin.go:101-122 | where Get hides index entries: complete, then and later, if and only if purge is set or the key compiles |
| `SouinApi.SurvivingVariant` | pkg/api/souin.go:113-122 | a variant that is left behind there |
| `SouinApi.SouinAPI.PurgeEverywhere` | pkg/api/souin.go:333-338 | with purge the key is gone everywhere and nothing is added |
| `SouinApi.SouinAPI.PurgeByTags` | pkg/api/souin.go:331-339 | no item is left under any key recorded for a purged tag in any storer; the tag's record is gone unless stale content is kept in a storer the API does not manage; a live key that none of them touches keeps its entry |
| `TagText.ContainsIsMembership` | pkg/surrogate/providers/common.go:167-189 | the position tests are membership in the comma split |
| `TagText.RecordIsOrderedSet` | pkg/surrogate/providers/common.go:191-206 | any sequence of storeTag calls leaves the join of the distinct keys in first-insertion order |
| `TagText.UniqueTag` | pkg/surrogate/providers/common.go:73-92 | the distinct non-empty items, decoded |
| `TagText.SurvivesExactly` | pkg/surrogate/providers/common.go:84-86 | a key comes back if and only if it has no space or its escaped form has a percent sign |
| `TagText.StoreThenPurge` | pkg/surrogate/providers/common.go:243-298 | every key exactly once, in order, if and only if each survives |
| `TagText.LostKeyIsNotReturned` | pkg/surrogate/providers/common.go:84-86 | a key that does not survive is not returned at all |
| `TagText.SpaceOnlyKeyIsLost` | pkg/surrogate/providers/common.go:84-86 | such a key |
| `TagIndex.BaseStorage.StoreTag` | pkg/surrogate/providers/common.go:191-206 | the tag's record gains the key, everything else stays |
| `TagIndex.BaseStorage.Store` | pkg/surrogate/providers/common.go:253-284 | the records of a storable response's tags and of its URI gain the key once, however often they are named; nothing else changes |
| `TagIndex.GainedMeans` | pkg/surrogate/providers/common.go:253-284 | a record lists exactly what it listed before, and the new key when the response was stored under its tag |
| `TagIndex.BaseStorage.SomeCandidate` | pkg/surrogate/providers/common.go:208-210 | one of the controls is not no-store |
| `TagIndex.TagsAreListed` | pkg/surrogate/providers/common.go:253-257 | the tags are the items of the list in the first non-empty tag header |
| `TagIndex.StorableExactly` | pkg/surrogate/providers/common.go:258-284 | recorded if and only if the first control header is empty or one of its items does not say no-store |
| `TagIndex.BaseStorage.PurgeTag` | pkg/surrogate/providers/common.go:243-250 | the tag's items; the record goes only when stale content is not kept |
| `TagIndex.BaseStorage.Purge` | pkg/surrogate/providers/common.go:288-298 | the distinct decoded items of all named tags; their records are gone unless stale content is kept, and nothing else but expired entries |
| `TagIndex.StoredKeysArePurged` | pkg/surrogate/providers/common.go:253-298 | at any point of any run of Store calls, purges and losses, for any number of tags: every key stored since is returned exactly once, if and only if each survives |
| `TagIndex.RecordIsBuilt` | pkg/surrogate/providers/common.go:191-250 | a tag's record is what storing its keys since the last purge or loss makes of an empty one |
| `TagIndex.LossIsPassing` | pkg/storage/defaultProvider.go:106-208 | expiry and deletions are steps of such runs |
| `TagIndex.PurgeReturnsOriginals` | pkg/surrogate/providers/common.go:288-298 | the same for any records that were built by storing lists of keys |
| `UrlEscape.EscapeRoundTrip` | pkg/surrogate/providers/common.go:256 | unescaping undoes escaping on every byte string |
| `UrlEscape.EscapeAlphabet` | pkg/surrogate/providers/common.go:256 | escaped text has no comma, colon, semicolon, ampersand or equals sign |
| `UrlEscape.EscapePercent` | pkg/surrogate/providers/common.go:84 | a percent sign shows exactly the bytes that are neither unreserved nor spaces |
| `VaryKey.GetVariedCacheKey` | pkg/rfc/vary.go:19-37 | the printed suffix, and the caller's names overwritten by the items |
| `VaryKey.VaryVoter` | plugins/traefik/override/storage/abstractProvider.go:27-57 | the vote, panicking on an item without a colon |
| `VaryKey.VoteOnItems` | plugins/traefik/override/storage/abstractProvider.go:38-51 | the vote of the item loop |
| `VaryKey.VoterAcceptsExactly` | plugins/traefik/override/storage/abstractProvider.go:32-54 | with readable values a printed key is accepted exactly when the request agrees on every listed header, else rejected; section 4.1 of RFC 9111 |
| `VaryKey.OtherKeyIsRejected` | plugins/traefik/override/storage/abstractProvider.go:27-57 | a key that neither is the base key nor extends it by a separator is rejected |
| `VaryKey.OtherBaseIsRejected` | plugins/traefik/override/storage/abstractProvider.go:27-57 | so is every key printed for another base key |
| `VaryKey.OwnKeyAccepted` | plugins/traefik/override/storage/abstractProvider.go:33-51 | the printing request is accepted if and only if its values are trimmed and readable |
| `VaryKey.OwnKeyIsRejected` | plugins/traefik/override/storage/abstractProvider.go:33-51 | values with which a request's own key is not accepted |
| `VaryKey.SameSuffixExactly` | pkg/rfc/vary.go:28-36 | two requests print one suffix if and only if their values print alike; for readable values, are equal |
| `VaryKey.EscapedTextPrintsAlike` | pkg/rfc/vary.go:28-36 | two different values with one suffix |
| `HttpHeader.HeaderAllCommaSepValues` | pkg/rfc/utils.go:14-25 | the trimmed fields of every line |
| `HttpHeader.VariedHeaders` | pkg/rfc/vary.go:41-47 | the star flag is set exactly when a field is the star; without it every field is returned |
| `QueryKey.ParseQuery` | context/key.go:100 | the decoded parameters, malformed parts skipped |
| `QueryKey.PartMeans` | context/key.go:100 | which parts of a query are skipped, and where the others are cut |
| `QueryKey.Encode` | context/key.go:104 | the encoding in sorted key order, whatever order the map gives |
| `QueryKey.ParseOfEncoded` | context/key.go:100-104 | parsing an encoded query gives the parameters back |
| `QueryKey.SortedQueryCanonical` | context/key.go:99-105 | two queries sort to one text if and only if their decoded parameters are equal as multisets |
| `QueryKey.ParseKeyInformations` | context/key.go:92-135 | the parts of the key |
| `QueryKey.ComputeKey` | context/key.go:137-165 | the key under the first override that matches, else under the base configuration |
| `QueryKey.SameKeyExactly` | context/key.go:96-162 | exactly when two requests that differ in their query share a key |
| `QueryKey.KeyTellsPartsApart` | context/key.go:112-162 | requests that differ in method, scheme, host, path or body only share a key exactly when that part is disabled |
| `QueryKey.KeyNamesRequest` | context/key.go:112-162 | with no part disabled the key names method, scheme, host and path |
| `QueryKey.HeaderTellsApart` | context/key.go:128-132 | so does a header that the configuration adds |
| `Pipeline.SouinBaseHandler.Admit` | pkg/middleware/middleware.go:325-457 | the early returns of Store amount to the gate, the remaining lifetime and the stored copy |
| `Pipeline.SouinBaseHandler.Store` | pkg/middleware/middleware.go:318-539 | exactly when the gate is passed, every storer that takes part holds the copy, with an index entry that selects the requests that agree on the copy's Vary fields, its tag and its times; nothing else is touched |
| `Pipeline.VaryParts` | pkg/middleware/middleware.go:442-465 | the variant key and varied headers, cut from the overwritten names |
| `Pipeline.SouinBaseHandler.BackfillStorers` | pkg/middleware/middleware.go:764-817 | the faster storers hold the response in the same way, with what is left of its stored lifetime |
| `Pipeline.SetHoldsVariant` | pkg/middleware/middleware.go:461-518 | what one storer holds afterwards, and what is left alone |
| `Pipeline.GateExactly` | pkg/middleware/middleware.go:325-457 | what is stored, on the fields of request, response and configuration, in every mode; section 3 of RFC 9111 |
| `Pipeline.StoredCopyMeans` | pkg/middleware/middleware.go:366-440 | headers, Date, lifetime and fresh time of the stored copy |
| `Provenance.EveryResponsePassedTheGate` | pkg/middleware/middleware.go:318-530 | in every reachable state, evictions, bulk deletions and other writes included, every stored response, backfilled ones included, passed the whole gate |
| `Provenance.StrictGateMeans` | pkg/middleware/middleware.go:326-446 | what the gate asks for in strict mode; section 3 of RFC 9111 |
| `Provenance.VaryStarStoredExactly` | pkg/middleware/middleware.go:413-446 | a `Vary: *` response that passes the rest of the gate is stored if and only if no-cache lists Vary |
| `Provenance.VaryStarKeepsOutExactly` | pkg/middleware/middleware.go:413-446 | the same for a response that would be stored without its Vary header |
| `Provenance.VaryStarIsStored` | pkg/middleware/middleware.go:413-446 | such a response |
| `Provenance.NoStoreHonouredExactly` | pkg/middleware/middleware.go:380-408 | no-store is honoured if and only if Expires does not set the freshness |
| `Provenance.NoStoreIsStored` | pkg/middleware/middleware.go:380-408 | a no-store response that is stored |
| `Provenance.PromotionNeverDrifts` | pkg/middleware/middleware.go:764-816 | a copy's fresh time is its Date, or its exchange's time, plus its lifetime, up to one call's clock gap, however often it was promoted |
| `Provenance.SameBasisExactly` | pkg/middleware/middleware.go:401-429 | both agree if and only if the copy's Date is the request's time |
| `Provenance.PromotionShortensFreshness` | pkg/middleware/middleware.go:401-429 | a response whose promoted copies are fresh ten seconds less |
| `Writer.CustomWriter.WriteHeader` | pkg/middleware/writer.go:67-75 | the status changes until the headers are sent |
| `Writer.CustomWriter.Send` | pkg/middleware/writer.go:88-153 | one status, the buffered body, an empty buffer |
| `Writer.SendAgain` | pkg/middleware/writer.go:88-153 | sending twice gives one status and one copy of the body |
| `ServeHttp.Revalidate` | pkg/middleware/middleware.go:661-739 | the reported error, the statuses written and the buffer left |
| `ServeHttp.ServeHTTP` | pkg/middleware/middleware.go:927-1208 | what is sent to the client, or handed to Upstream, on every path |
| `ServeHttp.DecisionTable` | pkg/middleware/middleware.go:927-1166 | which of the ten things is done, on the fields of the request, the stored responses and what upstream says, in every mode |
| `ServeHttp.UnaskedExactly` | pkg/middleware/middleware.go:930-1012 | in strict mode, without max-stale, a stored response is sent without asking upstream if and only if the request has no no-cache, min-fresh holds, and its own tag answers or it needs no revalidation and is young enough |
| `ServeHttp.RelayedAnswer` | pkg/middleware/middleware.go:661-739 | what the client gets of an upstream answer to a revalidation |
| `ServeHttp.ServeFresh` | pkg/middleware/middleware.go:951-1012 | the fresh branch |
| `ServeHttp.ServeMaxStale` | pkg/middleware/middleware.go:1013-1118 | the branch for requests that accept stale responses |
| `ServeHttp.RevalidateStale` | pkg/middleware/middleware.go:1040-1103 | its revalidation: stale-if-error, time-out, confirmed, 304 of its own, or relayed |
| `ServeHttp.ServeStale` | pkg/middleware/middleware.go:1119-1166 | the stale-if-error branch |
| `ServeHttp.StaleNeedsMaxStaleOrError` | pkg/middleware/middleware.go:951-1166 | in strict mode a stale response needs max-stale, or a reported error with stale-if-error; section 4.2.4 of RFC 9111 |
| `ServeHttp.StaleJustifiedExactly` | pkg/middleware/middleware.go:678-696 | justified by an upstream failure whatever upstream does, if and only if the request carries no date condition or does not get there |
| `ServeHttp.StaleDespiteAnswer` | pkg/middleware/middleware.go:678-696 | a request that is sent a stale response after upstream answered |
| `ServeHttp.NoUnaskedNotModified` | pkg/middleware/middleware.go:959-1103 | an unconditional request gets a 304 only by relaying upstream's own; section 15.4.5 of RFC 9110 |
| `EndToEnd.NoUnaskedNotModifiedEver` | pkg/middleware/middleware.go:938-1103 | the same in every reachable state of the storers |
| `ServeHttp.StoredBodyIsServed` | pkg/middleware/middleware.go:951-1163 | the client gets exactly the stored body; a confirmed one is preceded by the body of the upstream 304 |
| `ServeHttp.ConfirmedAfterBody` | pkg/middleware/middleware.go:1062-1086 | a confirmed response that is sent after the body of the 304 |
| `ServeHttp.UpstreamStartsEmptyExactly` | pkg/middleware/middleware.go:1145-1173 | what is in the writer when Upstream starts, from the request, the stored responses and what upstream said: nothing and status 200, unless a stale-if-error attempt was answered |
| `ServeHttp.LeftoverAnswer` | pkg/middleware/middleware.go:1145-1173 | a request that takes an upstream body and status into Upstream |

## Left out

- Framework adapters, configuration parsing, CDN calls, metrics, logging and TLS: plumbing around the modelled core.
- `ListKeys` and the listing, POST invalidation and flush requests of the API.
- Panics of the handler behind `Upstream`, and `Revalidate` flights in the shared pool, which carry no request headers.
- Interleaving inside one storer method, and the body reader shared with the backfill goroutine: the code takes no lock there.
- Hashed keys, key templates, `disable_vary` and GraphQL body hashes: they add cases, not structure.
- The choice of the storer by X-Souin-Storer is a parameter; the nil dereference for a name that matches none is not modelled.
- The recording of surrogate tags from `Store` runs in its own goroutine and is modelled on its own.
- Compression, protobuf, JSON, HTTP parsing, dates and durations are taken to round-trip; times are numbers.
- Storage.Storer.MapKeys: for `Default` the branch on decoded mappings is not modelled, because index entries are stored as bytes there.
- Storage.Storer.MappingElection: nothing is claimed about which of several stale candidates wins, because map order decides.
- Writer.CustomWriter.Send: range requests, which hand the body to `http.ServeContent`, and the edits of response headers are not modelled.
- ServeHttp.Revalidate: a flight of its own on an unsent writer; flights it shares with other requests are not modelled.
- ServeHttp.ServeHTTP: begins where the storers have been asked; the early bypass branches before that only forward, and what follows `Upstream` is in `Coalescing` and `BufferPool`.
