# A verified model of the gateway's protocols

This project models the parts of an MCP gateway whose guarantees hold over whole runs, and proves
those guarantees in Dafny. `dafny verify dfyconfig.toml` checks everything.

| files | what they model |
|---|---|
| ApprovalTable, ApprovalRuns, ApprovalRepository, ApprovalInterference | the human-approval table: each SQL statement as one atomic step, arbitrary interleavings, the repository's methods, and one creating call among rivals |
| RecencyList, AccessIndex, EventCache, EventReplay, EventGaps | the two-level event cache with its flat access order, refined to a least-recently-used list, and when replay after an id has no gaps |
| RateLimit | the fixed-window limiter and its background clean-up |
| Numbers, Ipv4, IpWhitelist | JavaScript's number text, shifts and masks; IPv4 text, prefixes and the whitelist |
| SensitiveKeys, Json, JsonLaws, Redaction | redaction of secrets in JSON, also in JSON text held by strings |
| Names, ClientSession | names built from a tool name and a server id, their parsing, and resolution over the accessible servers |
| LogQueue, LogExport, LogSync | the batching log queue and the cursor-driven export to a webhook |
| PendingRequests, SocketService | requests to a user's devices that wait for an answer |
| ExpiringRows, Admission, ResultCache | stores with expiring rows and a garbage collector |
| Paths, Extraction, SkillTree | unpacking of uploaded archives and the search for skill directories |
| Text, Wrappers | strings, and the Option and Result datatypes |

Objects that change their fields are classes; what they hold is tied, method by method, to a step
function on values, and the theorems over runs are about those step functions. Code between two
awaits is one step; clocks, random ids, database answers and network answers are parameters.

Where the code differs from its own words the code is followed. README.md:68 of the repository
speaks of a sliding window, but the limiter's window is fixed from the first request, and that request is
admitted even when the limit is zero. The comments on the export's shutdown speak of a last flush, but
the flag set before the call makes it return at once. A counter is unreadable from its expiry
time on, but counts as expired for attempts and for the collector only afterwards.

## Model

| member | source | states |
|---|---|---|
| ApprovalRuns.ExecutionNeedsOneApproval | src/repositories/ApprovalRepository.ts:174-268 | In every interleaving, a request enters EXECUTING at most once, by a claim made before it expired, after exactly one approval of that same row, which came before it expired. |
| ApprovalRuns.ExecutionEndsOnce | src/repositories/ApprovalRepository.ts:270-315 | EXECUTING is left at most once, by markExecuted, markFailed, the stale sweep or a forced expiry, and the status reached then stays for the rest of the run. |
| ApprovalRuns.ApprovalPrecedes | src/repositories/ApprovalRepository.ts:174-218 | A row that is or was executing has an earlier statement that approved it while it was pending and unexpired. |
| ApprovalRuns.UniqueActiveAlways | src/repositories/ApprovalRepository.ts:92-112 | In every state of every run a request_hash has at most one row in PENDING, APPROVED or EXECUTING. |
| ApprovalRuns.ClaimReturnsEveryClaimedRow | src/repositories/ApprovalRepository.ts:220-243 | A claim by hash moves at most one row, so handing back only the first row loses nothing. |
| ApprovalRuns.RankNeverFalls | src/repositories/ApprovalRepository.ts:174-501 | Rows are never deleted; along a run the status rank never falls, equal rank means equal status, and the request and its creation time are constant. |
| ApprovalRuns.FinalStatusIsForever | src/repositories/ApprovalRepository.ts:174-501 | REJECTED, EXPIRED, EXECUTED and FAILED are absorbing. |
| ApprovalRuns.VerdictIsWrittenOnce | src/repositories/ApprovalRepository.ts:174-218 | The decision columns, once filled, are never changed or erased by any later statement. |
| ApprovalRuns.CoherentAlways | src/repositories/ApprovalRepository.ts:270-315 | In every reachable row the result, error and decision columns are filled exactly as the status demands, and every decision was made before the deadline. |
| ApprovalRuns.EntersOnce | src/repositories/ApprovalRepository.ts:174-501 | No status is entered twice by the same request. |
| ApprovalRuns.LeavesOnce | src/repositories/ApprovalRepository.ts:174-501 | No status is left twice by the same request. |
| ApprovalRuns.UpdatedAtGrows | src/repositories/ApprovalRepository.ts:317-333 | With one non-decreasing clock updated_at never goes back and never runs ahead of later statements. |
| ApprovalRuns.HeartbeatShields | src/repositories/ApprovalRepository.ts:317-333 | A claim or heartbeat protects the execution from every later stale sweep whose horizon lies before it. |
| ApprovalRuns.SilentExecutionRecovered | src/repositories/ApprovalRepository.ts:475-489 | A sweep fails an executing row exactly when its last sign of life is not after the horizon. |
| ApprovalRuns.SweepExpiresAllOverdue | src/repositories/ApprovalRepository.ts:461-473 | After an expiry sweep no open request is overdue at the sweep time. |
| ApprovalTable.StatusMoves | src/repositories/ApprovalRepository.ts:174-501 | A statement moves a row from one status to another if and only if the guard of that edge holds; there are no other edges. |
| ApprovalTable.RowsAppear | src/repositories/ApprovalRepository.ts:92-112 | A row appears only by the INSERT, exactly when no active row has its hash, with the request as given, PENDING, both times those of the statement and the other columns empty. |
| ApprovalTable.ColumnsWritten | src/repositories/ApprovalRepository.ts:174-501 | What each statement writes into a row it matches, column by column, and that it leaves the request and its creation time. |
| ApprovalTable.OtherRowsUntouched | src/repositories/ApprovalRepository.ts:190-193 | Statements that name one id leave every other row unchanged. |
| ApprovalTable.UniqueActiveStep | src/repositories/ApprovalRepository.ts:107-109 | Uniqueness of active hashes is kept by each single statement. |
| ApprovalTable.CoherentStep | src/repositories/ApprovalRepository.ts:270-315 | Agreement between status and optional columns is kept by each single statement. |
| ApprovalRepository.Repository.CreateOrGetPending | src/repositories/ApprovalRepository.ts:84-172 | Run alone: returns a row of the hash that is new, as given and PENDING, or unexpired PENDING/APPROVED, or EXECUTING; other rows change only by expiring overdue rows of that hash; with a running clock and fresh ids it never throws and retries at most once. |
| ApprovalRepository.Repository.TryOnce | src/repositories/ApprovalRepository.ts:92-139 | One attempt creates exactly when the hash is free, otherwise returns a usable row if there is one, and changes nothing else. |
| ApprovalRepository.Repository.InsertPending | src/repositories/ApprovalRepository.ts:92-112 | The INSERT succeeds exactly when the hash is free and the id new, and stores the request as given, PENDING, with both times set and the other columns empty; otherwise the table is unchanged. |
| ApprovalRepository.Repository.FindUsable | src/repositories/ApprovalRepository.ts:123-139 | Finds a newest row among those that are open and not overdue or executing, and None exactly when there is none. |
| ApprovalRepository.Repository.Decide | src/repositories/ApprovalRepository.ts:174-218 | Decides exactly a pending unexpired row, writes the verdict, and returns it; otherwise returns null and changes nothing. |
| ApprovalRepository.Repository.ClaimApprovedForExecution | src/repositories/ApprovalRepository.ts:220-243 | Moves and returns the approved unexpired row of the hash, null exactly when there is none; with unique active hashes no other row changes. |
| ApprovalRepository.Repository.ClaimApprovedForExecutionById | src/repositories/ApprovalRepository.ts:245-268 | Moves exactly the named row if it is approved and unexpired, and nothing otherwise. |
| ApprovalRepository.Repository.MarkExecuted | src/repositories/ApprovalRepository.ts:270-293 | Finishes exactly an executing row with its result; otherwise null and no change. |
| ApprovalRepository.Repository.MarkFailed | src/repositories/ApprovalRepository.ts:295-315 | Fails exactly an executing row with its error; otherwise null and no change. |
| ApprovalRepository.Repository.TouchExecuting | src/repositories/ApprovalRepository.ts:317-333 | Changes only updated_at, and only of an executing row. |
| ApprovalRepository.Repository.ExpireHash | src/repositories/ApprovalRepository.ts:153-161 | Expires exactly the overdue open rows of one hash. |
| ApprovalRepository.Repository.ExpireStale | src/repositories/ApprovalRepository.ts:461-473 | Expires and returns exactly the overdue open rows. |
| ApprovalRepository.Repository.RecoverStaleExecuting | src/repositories/ApprovalRepository.ts:475-489 | Fails and returns exactly the executing rows not updated after the horizon. |
| ApprovalRepository.Repository.ForceExpire | src/repositories/ApprovalRepository.ts:491-501 | Afterwards the row is not active; other rows and final rows are unchanged. |
| ApprovalRepository.HashFreed | src/repositories/ApprovalRepository.ts:153-163 | When the lookup found nothing usable, the clean-up statement frees the hash for the retry. |
| ApprovalRepository.PagesListEverything | src/repositories/ApprovalRepository.ts:335-375 | On an unchanging list, reading pages 1..n yields the first n pages of matching rows, each once and in order, and hasMore says exactly whether rows remain. |
| ApprovalRepository.NoneSkipped | src/repositories/ApprovalRepository.ts:362-375 | When rows arrive at the front between reads, reading on until hasMore is false still yields every row that matched at the first read. |
| ApprovalRepository.OneListedTwice | src/repositories/ApprovalRepository.ts:362-375 | Such an arrival can make a row be listed on two pages; an example. |
| ApprovalInterference.AtMostFourAttempts | src/repositories/ApprovalRepository.ts:84-172 | Under arbitrary interference one call sends at most four INSERTs and eleven statements and has then returned or thrown. |
| ApprovalInterference.ReturnsTheRightRow | src/repositories/ApprovalRepository.ts:114-171 | Under interference, a finished call returned either the row it inserted on a free hash, or a row that, after its INSERT had met a busy hash, was found open and not overdue at that INSERT's clock, or executing. |
| ApprovalInterference.CreatesOnlyWhenFree | src/repositories/ApprovalRepository.ts:107-109 | Under interference, the call creates only when the hash is free and keeps active hashes unique. |
| ApprovalInterference.RivalExhaustsRetries | src/repositories/ApprovalRepository.ts:141-163 | Both bounds are reached: against a rival that keeps inserting overdue requests a call sends exactly four INSERTs and eleven statements and throws. |
| EventCache.EventCacheManager.SetEvent | src/mcp/core/EventCacheManager.ts:25-52 | Refines the recency list: the smallest id of a full stream goes, the entry is stored as most recent, and the total limit drops the oldest; all maps and bounds stay in agreement. |
| EventCache.EventCacheManager.GetEvent | src/mcp/core/EventCacheManager.ts:57-73 | A hit returns the cached event and makes it the most recent; a miss changes nothing. |
| EventCache.EventCacheManager.GetEventsAfter | src/mcp/core/EventCacheManager.ts:78-106 | For a cached id the answer is exactly the cached events of the stream with a greater id, in order; for any other id it is empty. |
| EventCache.CollectAfter | src/mcp/core/EventCacheManager.ts:86-101 | The sorted scan collects exactly the events after the given id, strictly ascending, and nothing when the id is absent. |
| EventCache.EventCacheManager.CleanupStream | src/mcp/core/EventCacheManager.ts:111-127 | Removes exactly the entries of one stream from both maps. |
| EventCache.EventCacheManager.CleanupExpired | src/mcp/core/EventCacheManager.ts:132-166 | Removes exactly the entries older than 24 hours, with their access keys, and streams left empty. |
| EventCache.EventCacheManager.ExpireStream | src/mcp/core/EventCacheManager.ts:137-157 | The inner loop removes exactly one stream's stale events and their access keys. |
| EventCache.EventCacheManager.ClearAll | src/mcp/core/EventCacheManager.ts:219-228 | Everything is empty afterwards and valid. |
| EventCache.EventCacheManager.EvictOldestFromStream | src/mcp/core/EventCacheManager.ts:233-252 | Removes exactly the stream's smallest id and leaves other streams alone. |
| EventCache.EventCacheManager.TotalEvents | src/mcp/core/EventCacheManager.ts:259-262 | The total over the streams is the length of the recency list. |
| EventCache.EventCacheManager.EnforceTotalCacheLimit | src/mcp/core/EventCacheManager.ts:257-272 | Drops exactly the excess over maxCacheSize from the old end. |
| EventCache.EventCacheManager.EvictLruEvents | src/mcp/core/EventCacheManager.ts:277-308 | Walking the sorted stamps removes exactly the count least recently accessed entries. |
| AccessIndex.IndexedSet | src/mcp/core/EventCacheManager.ts:313-320 | Stamping a pair with the next counter value, whether or not it was indexed, keeps the keys exactly those cached and their stamps distinct, and moves the pair to the recent end. |
| EventCache.AgreesSet | src/mcp/core/EventCacheManager.ts:40-43 | Storing and stamping a pair keeps both maps in agreement with the list that has it at the recent end. |
| EventCache.SortedAgrees | src/mcp/core/EventCacheManager.ts:280-281 | Stamps are distinct and sorting by stamp gives the recency order of the keys. |
| AccessIndex.KeySplitsBack | src/mcp/core/EventCacheManager.ts:287-290 | Eviction finds an entry again from its access key if and only if neither id contains ':'. |
| RecencyList.OrderIsRecency | src/mcp/core/EventCacheManager.ts:257-320 | In every run the list is ordered by the last set or hit of each entry. |
| RecencyList.LruEvictsTheLeastRecent | src/mcp/core/EventCacheManager.ts:264-268 | When a set evicts by the total limit, exactly the limit remains and every survivor was accessed later than every victim. |
| RecencyList.JustSetSurvives | src/mcp/core/EventCacheManager.ts:39-46 | With a total limit of at least one the entry just set is cached and most recent, and the limit holds. |
| RecencyList.WhatIsStored | src/mcp/core/EventCacheManager.ts:25-55 | After a set, before the total limit, exactly the new event and the old ones are cached, except one of the same pair and the least id of a full stream. |
| RecencyList.WhatGetKeeps | src/mcp/core/EventCacheManager.ts:57-76 | A read neither adds nor loses an event; a hit becomes the most recent one and a miss changes nothing. |
| RecencyList.AlwaysDistinct | src/mcp/core/EventCacheManager.ts:25-52 | No (stream, event) pair is cached twice in any run. |
| EventGaps.ReplayHasNoGapsIff | src/mcp/core/EventCacheManager.ts:78-106 | If ids increase and timestamps do not decrease, replay after every cached id is gap-free throughout a run if and only if no set makes the total limit drop, from that stream, a greater id than one it keeps. |
| EventGaps.ReplayHasNoGaps | src/mcp/core/EventCacheManager.ts:78-106 | Under that condition the answer for a cached id is exactly what arrived on the stream after it, in order, despite per-stream eviction, expiry and the total limit. |
| EventGaps.NeverReadHasNoGaps | src/mcp/core/EventCacheManager.ts:57-73 | A stream whose events are never fetched one by one meets the condition, however often the total limit evicts. |
| EventGaps.NeverFullHasNoGaps | src/mcp/core/EventCacheManager.ts:264-268 | So does every stream while the total limit is never exceeded. |
| EventGaps.CacheIsSuffixIff | src/mcp/core/EventCacheManager.ts:34-40 | Under the same order a stream's cached events are at all times a suffix of what was stored if and only if that condition holds. |
| EventGaps.EvictionKeepsSuffixIff | src/mcp/core/EventCacheManager.ts:277-300 | One eviction by the total limit leaves a stream a suffix if and only if none of its dropped entries has a greater id than one that stays. |
| EventGaps.FullCacheLeavesGap | src/mcp/core/EventCacheManager.ts:264-268 | A concrete run in which the total limit evicts a later event than a refreshed early one, so replay after the early one skips it. |
| RateLimit.RateLimitService.CheckRateLimit | src/security/RateLimitService.ts:27-82 | The answer and the user's new record are those of the window rule; other users' records are unchanged; a denial leaves nothing and says when to retry. |
| RateLimit.RateLimitService.CleanupExpiredCounts | src/security/RateLimitService.ts:90-102 | Removes exactly the records idle for more than two windows. |
| RateLimit.CleanupIsInvisible | src/security/RateLimitService.ts:90-102 | Cleaning at any moments never changes any later answer, for every request sequence, user and limit. |
| RateLimit.Bisimilar | src/security/RateLimitService.ts:47-58 | The cleaned and the never-cleaned tables differ only in records whose window has passed. |
| RateLimit.IntervalBound | src/security/RateLimitService.ts:47-74 | With a constant limit L, any interval of one window length admits at most 2L - 1 requests of a user (one if L is below 1). |
| RateLimit.IntervalBoundIsReached | src/security/RateLimitService.ts:47-74 | For every L of at least one some run admits exactly 2L - 1 in such an interval. |
| RateLimit.WindowBound | src/security/RateLimitService.ts:60-75 | The open window has admitted at most its recorded count, which is at most L. |
| RateLimit.RetryAfterIsExact | src/security/RateLimitService.ts:61-70 | After a denial the next request is admitted exactly from resetTime on; waiting retryAfter seconds suffices and one second less ends before resetTime. |
| RateLimit.RemainingIsExact | src/security/RateLimitService.ts:73-81 | Of a user's next requests before resetTime precisely the first `remaining` are admitted. |
| Numbers.MaskTestIsPrefixTest | src/security/IpWhitelistService.ts:220-228 | The signed 32-bit shift and masks compare equal exactly when the integers agree after dividing by the power of two, for every shift count. |
| Numbers.MaskValue | src/security/IpWhitelistService.ts:221 | The mask as unsigned word is 2^32 minus a power of two whose exponent is the count modulo 32. |
| Numbers.ParseToString | src/security/IpWhitelistService.ts:188-191 | parseInt reads back what toString prints. |
| Numbers.ParseDecimal | src/security/IpWhitelistService.ts:188-191 | parseInt reads a decimal number with or without a sign and ignores whatever follows it. |
| Numbers.ParseHex | src/security/IpWhitelistService.ts:188-191 | parseInt reads a number after 0x as hexadecimal, in either case of the letters. |
| Numbers.ParseFirst | src/security/IpWhitelistService.ts:188-191 | parseInt skips white space in front; any other first character but a digit or a sign makes it fail. |
| Numbers.SignedWord | src/security/IpWhitelistService.ts:221-228 | The 32-bit conversion gives the congruent signed word. |
| Ipv4.IpToNumber | src/security/IpWhitelistService.ts:255-271 | Returns the base-256 value of the four parsed octets as an unsigned 32-bit number, and throws exactly when there are not four octets. |
| Ipv4.IsValidIp | src/security/IpWhitelistService.ts:182-196 | Accepts exactly the canonical dotted texts of four bytes. |
| Ipv4.IsIpMatch | src/security/IpWhitelistService.ts:201-233 | True exactly for equal text, for a zero length, or for addresses whose leading kept bits are equal. |
| Ipv4.DottedDenotes | src/security/IpWhitelistService.ts:255-271 | The dotted text of four bytes denotes their value, and the bytes are recovered from the number. |
| Ipv4.CanonicalInjective | src/security/IpWhitelistService.ts:182-196 | Canonical texts are equal exactly when they denote the same number. |
| Ipv4.LeadingZeroIsAccepted | src/security/IpWhitelistService.ts:263-264 | A non-canonical text shares the number of a canonical one, so conversion is not injective outside canonical text. |
| Ipv4.KeptBitsExact | src/security/IpWhitelistService.ts:213-221 | A written prefix length is the number of bits compared if and only if it is between 1 and 32. |
| Ipv4.WiderMatches | src/security/IpWhitelistService.ts:210-228 | An address that matches network/b matches network/w for every w up to b. |
| Ipv4.MappedClientMatches | src/security/IpWhitelistService.ts:236-242 | A client with a ::ffff: prefix matches exactly what the IPv4 address after it matches. |
| Ipv4.LoopbackMatches | src/security/IpWhitelistService.ts:244-247 | The client ::1 matches exactly what 127.0.0.1 matches. |
| Ipv4.PlainClientMatches | src/security/IpWhitelistService.ts:202-208 | Any other client matches an entry without a prefix length only if it is that text. |
| Ipv4.ExactIsSlash32 | src/security/IpWhitelistService.ts:205-208 | On canonical text an exact entry and its /32 form accept the same addresses. |
| Ipv4.ExactIsSlash32Iff | src/security/IpWhitelistService.ts:205-228 | An entry and its /32 form agree on all clients with canonical text if and only if the entry is canonical or denotes no address. |
| Ipv4.ExactImpliesSlash32 | src/security/IpWhitelistService.ts:205-228 | Without canonical text an exact match still implies the /32 match. |
| Ipv4.Slash32IsLooser | src/security/IpWhitelistService.ts:205-228 | The converse fails for a text with a leading zero. |
| Ipv4.ByteAligned | src/security/IpWhitelistService.ts:220-228 | For /8, /16, /24 and /32 the test compares exactly the leading bytes. |
| IpWhitelist.IsValidIpOrCidr | src/security/IpWhitelistService.ts:155-177 | Accepts exactly a canonical address, or one followed by a prefix length between 0 and 32. |
| IpWhitelist.ValidEntryMeaning | src/security/IpWhitelistService.ts:155-177 | A valid CIDR entry matches exactly the addresses with the same leading b bits, or all when b is zero. |
| IpWhitelist.AnyMatches | src/security/IpWhitelistService.ts:137-140 | The entry 0.0.0.0/0 matches every client, so testing for it first changes no decision. |
| IpWhitelist.IpWhitelistService.IsIpAllowed | src/security/IpWhitelistService.ts:134-150 | True exactly when some entry of the list in force matches the client. |
| IpWhitelist.IpWhitelistService.GetIpWhitelist | src/security/IpWhitelistService.ts:77-90 | A list older than 15 minutes is replaced by what the database has, with the time of the reload; a fresh list or a failed reload changes nothing. |
| IpWhitelist.IpWhitelistService.Initialize | src/security/IpWhitelistService.ts:31-45 | Loads once; a failure leaves the allow-all default and stays uninitialised. |
| IpWhitelist.IpWhitelistService.LoadFromDatabase | src/security/IpWhitelistService.ts:50-71 | Takes the rows, or the allow-all default for no rows; an error changes nothing. |
| IpWhitelist.IpWhitelistService.ReloadFromDatabase | src/security/IpWhitelistService.ts:126-129 | Returns the reloaded list, or fails without changing anything. |
| IpWhitelist.IpWhitelistService.GetStatus | src/security/IpWhitelistService.ts:283-289 | Reported as disabled only when every client is allowed. |
| IpWhitelist.MalformedNeverInNetwork | src/security/IpWhitelistService.ts:229-232 | A client text that denotes no number matches no network of positive length. |
| IpWhitelist.WideningKeepsAccess | src/security/IpWhitelistService.ts:142-147 | Widening one entry locks nobody out. |
| IpWhitelist.MappedClientAllowed | src/security/IpWhitelistService.ts:236-247 | A whitelist lets in a mapped client exactly if it lets in the IPv4 address it carries, and ::1 exactly if 127.0.0.1. |
| Redaction.SecretsAreReplaced | src/utils/logRedaction.ts:44-62 | Every secret at any depth, also inside JSON text in strings, is replaced at its outermost sensitive name, and nothing below it remains. |
| Redaction.UnguardedPlaces | src/utils/logRedaction.ts:44-62 | At every place no sensitive name guards, the output prints as the redaction of what the input has there. |
| Redaction.ShapeIsKept | src/utils/logRedaction.ts:52-61 | Keys, array lengths, positions and plain values are kept; text that is not JSON is redacted as text. |
| Redaction.NoNewPlaces | src/utils/logRedaction.ts:52-61 | Outside strings the output has no place the input did not have. |
| Redaction.ContainsIffSecretSomewhere | src/utils/logRedaction.ts:64-75 | containsSensitiveKey holds exactly when some place, through any nesting of JSON text, is under a sensitive name. |
| Redaction.ErrorParses | src/utils/logRedaction.ts:87-98 | For JSON with a secret, whichever branch is taken, the returned text parses to the redacted value. |
| Redaction.ErrorSecretsAreReplaced | src/utils/logRedaction.ts:87-102 | No secret of a JSON error survives redactError, wherever it stands. |
| Redaction.ErrorTextIsKept | src/utils/logRedaction.ts:88-101 | Other errors, and JSON whose text redaction already gives the redacted value, are returned as redacted text. |
| Redaction.ErrorTextIff | src/utils/logRedaction.ts:88-101 | A JSON error with a secret stays the redacted text exactly if that text reads as the redacted value; else the redacted value is printed. |
| Redaction.StructuredFieldParses | src/utils/logRedaction.ts:77-85 | A structured field that is JSON becomes text that parses to its redaction. |
| Redaction.OtherFieldIsRedactedAsText | src/utils/logRedaction.ts:77-85 | A structured field that is not JSON has its text redacted, and an absent one stays absent. |
| SensitiveKeys.SeparatorsDontMatter | src/utils/logRedaction.ts:14 | Hyphens and underscores anywhere in a name do not change whether it is sensitive. |
| SensitiveKeys.CaseDoesntMatter | src/utils/logRedaction.ts:14 | The case of an ASCII letter does not matter, and the Kelvin sign and the dotted capital I count as k and i. |
| SensitiveKeys.LongerNameStaysSecret | src/utils/logRedaction.ts:21-26 | A name with a partial word stays sensitive in any longer name. |
| SensitiveKeys.StaysSecretIff | src/utils/logRedaction.ts:13-27 | A name is sensitive in every longer name if and only if its normal form contains a partial word. |
| SensitiveKeys.ExactWordsAreExact | src/utils/logRedaction.ts:15-20 | Each exact word is sensitive alone, and inside some longer name it is not. |
| Names.SplitsBackIffSafe | src/mcp/core/ClientSession.ts:685-687 | For every name, the last-separator split gives name and id back if and only if the id contains no separator and does not begin with "-_". |
| Names.GeneratedNamesAreDistinct | src/mcp/core/ClientSession.ts:685-687 | With safe ids two generated names are equal only for equal id and name. |
| Names.CollideIff | src/mcp/core/ClientSession.ts:685-687 | Two ids, the longer first, can generate one name from different pairs if and only if the longer is "-_" followed by the other or ends with the separator and the other. |
| Names.UnsafeIdsCollide | src/mcp/core/ClientSession.ts:685-687 | Instances: two pairs of ids that collide and one pair of unsafe ids that never does. |
| Names.DecimalIdsAreSafe | src/mcp/core/ServerContext.ts:67 | The counter-generated instance ids are safe. |
| ClientSession.ListTools | src/mcp/core/ClientSession.ts:505-566 | The listed names are exactly those made of the allowed tools of the admitted servers, live data before cached, in order. |
| ClientSession.ListedNamesAreDistinct | src/mcp/core/ClientSession.ts:505-566 | With distinct instance ids and no tool twice on a server, all listed names differ. |
| ClientSession.ListedNamesResolve | src/mcp/core/ClientSession.ts:738-752 | Every listed name resolves to its own server and tool. |
| ClientSession.ResolveToolName | src/mcp/core/ClientSession.ts:754-793 | A name not resolved by id resolves exactly when one accessible server offers a usable tool of that name, and to that server. |
| ClientSession.ResolveResourceUri | src/mcp/core/ClientSession.ts:795-834 | The same for resource URIs, where a server's first resource with the URI decides. |
| ClientSession.ToolResolvesInAnyOrder | src/mcp/core/ClientSession.ts:754-793 | Registering the same instances in another order does not change what resolveToolName returns, lookups by id and by server included. |
| ClientSession.ResourceResolvesInAnyOrder | src/mcp/core/ClientSession.ts:795-834 | The same for resolveResourceUri. |
| ClientSession.ContextInAnyOrder | src/mcp/core/ServerManager.ts:825-834 | The context of a server for a user is the same in any order of registration. |
| ClientSession.GetAvailableServers | src/mcp/core/ClientSession.ts:290-309 | The available servers, in order, are exactly the registered instances that are up and whose server has a context that no reason refuses: disabled, down, closed to anonymous sessions, another user's, denied by a permission or preference, or unset and not public. |
| ClientSession.AdmittedIff | src/mcp/core/ClientSession.ts:290-309 | A server is admitted if and only if it has a context and none of those reasons holds. |
| ClientSession.ContextIs | src/mcp/core/ClientSession.ts:291-292 | The context is the shared instance of the server, else the one started for this user. |
| ClientSession.ContextByIdIs | src/mcp/core/ClientSession.ts:744 | An instance id names the shared instance that has it, else this user's own. |
| ClientSession.ToolAllowedIff | src/mcp/core/ClientSession.ts:356-368 | A tool may be used unless the server is another user's template instance or a permission or preference denies it. |
| ClientSession.ResourceAllowedIff | src/mcp/core/ClientSession.ts:380-392 | The same for resources. |
| ClientSession.OfferedIff | src/mcp/core/ClientSession.ts:505-566 | What is offered: of each available server the allowed tools of its live list, or of its cached list if it has no live one. |
| ClientSession.OffersToolIff | src/mcp/core/ClientSession.ts:754-790 | When a server offers a tool of a given name. |
| ClientSession.OffersUriIff | src/mcp/core/ClientSession.ts:795-834 | When a server offers a URI: its first resource with that URI decides. |
| ClientSession.GetServerCapabilities | src/mcp/core/ClientSession.ts:431-497 | A feature is offered or flagged if some accessible server does so; completions and logging are the first server's; resource lists always announce changes. |
| LogQueue.NothingIsLost | src/log/LogService.ts:77-116 | In every run each accepted entry is saved, queued or in flight. |
| LogQueue.ConservedAlways | src/log/LogService.ts:99-116 | Accepted entries are settled, queued or in flight with exact counts, and the writes in the database are exactly accounted for. |
| LogQueue.DrainedMeansSaved | src/log/LogService.ts:99-116 | With nothing queued or in flight the entries saved are exactly those accepted, those written directly during shutdown, and once more each whose write completed in a failed flight. |
| LogQueue.SavedOnceIff | src/log/LogService.ts:99-116 | Then each entry is saved as often as it was accepted or written directly if and only if no write of a failed flight completed. |
| LogQueue.OrderKept | src/log/LogService.ts:99-116 | While at most one flush is under way, entries are settled, in flight and queued in the order of acceptance, despite failures. |
| LogQueue.QueueAscendsIff | src/log/LogService.ts:99-116 | In every run, with entries numbered by acceptance, the queue is always in order if and only if each failed batch is older than all entries queued when it fails. |
| LogQueue.FailKeepsOrderIff | src/log/LogService.ts:111-115 | One failure keeps an ordered queue in order if and only if the failed batch or the queue is empty or the batch's last entry is older than the queue's first. |
| LogQueue.OverlapReverses | src/log/LogService.ts:111-115 | A run with two overlapping failed flushes ends with the queue reversed. |
| LogQueue.QueueStaysShort | src/log/LogService.ts:88-93 | An accepted entry starts a flush exactly when it is the hundredth in the queue. |
| LogQueue.StrandedIffFailed | src/log/LogService.ts:130-140 | From the last shutdown on the queue is empty exactly while no flight has failed: a failed last flush leaves its entries in memory for good. |
| LogQueue.ShutdownSavesAll | src/log/LogService.ts:130-140 | If no flight failed since the shutdown, then once all have ended every accepted entry is saved, with the same exact account. |
| LogQueue.StepConserves | src/log/LogService.ts:77-116 | Each step keeps the exact account. |
| LogQueue.LogService.Enqueue | src/log/LogService.ts:77-94 | Before shutdown the entry joins the queue and a full queue is handed over at once, in order; during shutdown it bypasses the queue. |
| LogQueue.LogService.Flush | src/log/LogService.ts:99-103 | Hands over the whole queue and leaves it empty. |
| LogQueue.LogService.FlushEnded | src/log/LogService.ts:105-115 | Success settles the batch; failure puts it in front of the newer entries. |
| LogQueue.LogService.Shutdown | src/log/LogService.ts:130-140 | Sets the flag and starts a last flush. |
| LogExport.ExportHasNoGaps | src/log/LogSyncService.ts:101-164 | In every run with failures, retries, overlapping ticks, crashes and cursor writes that land late, every log between the initial and the stored cursor is in an acknowledged batch, provided each row that becomes visible late has not been overtaken at that moment. |
| LogExport.CursorNeverFallsIff | src/log/LogSyncService.ts:142-146 | In a run whose late rows are harmless the stored cursor never decreases if and only if every given-up cursor write that lands late lands at or above it. |
| LogExport.StraysAccountedFor | src/log/LogSyncService.ts:144-146 | In every run the cursor writes of a value that may still land are those given up less those that landed, so each lands at most once. |
| LogExport.CursorNeverFalls | src/log/LogSyncService.ts:142-146 | Under that condition it does not decrease between any two states and is never behind the process's cursor. |
| LogExport.StepKeepsSafe | src/log/LogSyncService.ts:101-164 | Each step with a harmless late row at most keeps every overtaken log acknowledged or in the batch being posted. |
| LogExport.StepKeepsRising | src/log/LogSyncService.ts:138-146 | No step lowers the stored cursor unless a late row is harmful or a late cursor write lands below it: the stored cursor and every write still possible are at most one batch ahead of where the next export starts. |
| LogExport.StrayLowersCursor | src/log/LogSyncService.ts:145 | A run from the start in which a cursor write given up as failed lands last and the stored cursor falls from 2 to 1. |
| LogExport.PageReachesMark | src/log/LogSyncService.ts:121-126 | The next page never ends below the stored cursor or a cursor write that may still land, even when a confirmation was lost. |
| LogExport.NoRepeatUnlessWriteLost | src/log/LogSyncService.ts:138-146 | Unless the cursor write of an acknowledged batch is lost, no log is acknowledged twice and acknowledged ids ascend; other crashes and failures and late rows included. |
| LogExport.LostWriteRepeatsIff | src/log/LogSyncService.ts:138-146 | After a run without such a loss an event can lead to a log being acknowledged twice, with no further loss, if and only if it loses one: a crash before the write, or a write given up while the process will export again; rows of the batch still in the table. |
| LogExport.LateRowLeavesNoGapIff | src/log/LogSyncService.ts:121-146 | A row that becomes visible late leads to no gap in any continuation free of further harmful rows if and only if, when it appears, its id is not above the initial cursor or has not been overtaken by the stored cursor, a cursor write still possible, the cursor of a process that will export again, or the batch under way. |
| LogExport.PassedIsNeverExported | src/log/LogSyncService.ts:121-126 | A row whose id the cursors have passed without exporting it is never exported in any continuation. |
| LogExport.ClosingExportsNothing | src/log/LogSyncService.ts:288-297 | Once shutdown has set its flag an idle process exports nothing more, and only earlier cursor writes can still change the stored cursor. |
| LogSync.LogSyncService.SyncLogs | src/log/LogSyncService.ts:101-164 | One pass follows the protocol: guards, page, posts, acknowledgement, cursor; the cursor moves exactly to the end of an acknowledged and stored page. |
| LogSync.LogSyncService.SendLogsToWebhook | src/log/LogSyncService.ts:171-223 | Succeeds exactly when one of at most two posts is answered with success, and stops at the first. |
| LogSync.LogSyncService.Initialize | src/log/LogSyncService.ts:38-62 | Starts from the stored cursor and starts the timer exactly when a webhook is configured; a failed or empty lookup changes nothing. |
| LogSync.LogSyncService.StartSyncTimer | src/log/LogSyncService.ts:68-85 | The timer runs afterwards if it ran before or a webhook is configured. |
| LogSync.LogSyncService.ReloadWebhookUrl | src/log/LogSyncService.ts:233-282 | The webhook and the proxy become those stored, if found; the timer starts when a webhook appears, stops when it goes and otherwise stays as it is. |
| LogSync.LogSyncService.Shutdown | src/log/LogSyncService.ts:288-313 | Stops the timer and posts nothing, because the flag is set first. |
| LogSync.ReachesIsRun | src/log/LogSyncService.ts:101-164 | The path of a pass is a run of the protocol, so the run theorems apply to it. |
| LogSync.PageDrains | src/repositories/LogRepository.ts:60-72 | A page holds every log up to its last id, and everything above the cursor when it is not full. |
| PendingRequests.ResolvedAtMostOnce | src/socket/SocketService.ts:598-617 | In every run the resolver of a request is called at most once. |
| PendingRequests.PendingWhileArmed | src/socket/SocketService.ts:576-592 | A request is pending exactly while its timer is armed, and only for an online user. |
| PendingRequests.OneFate | src/socket/SocketService.ts:576-653 | Every request id is unsent, waiting, settled with one outcome, or dropped: one of these and only one. |
| PendingRequests.FateIsFinal | src/socket/SocketService.ts:598-653 | A settled or dropped request stays so in every continuation: a dropped resolver is never called. |
| PendingRequests.WaitingEnds | src/socket/SocketService.ts:425-446 | A waiting request stops waiting if and only if its own response or timer comes, its user's last device goes, or all are disconnected. |
| PendingRequests.SettledIff | src/socket/SocketService.ts:598-615 | In every run a request has been answered with a body if and only if that response came while it was pending, and has timed out if and only if its timer fired. |
| PendingRequests.LostIff | src/socket/SocketService.ts:425-446 | It has been lost if and only if everyone, or the last device of its user, was disconnected while it was pending. |
| PendingRequests.SentIff | src/socket/SocketNotifier.ts:367-425 | It has been sent if and only if its user had a device then, and it waits for that user. |
| PendingRequests.RemovesOne | src/socket/SocketService.ts:430-434 | A device that goes away is taken from the list once, where it first stands. |
| PendingRequests.LateResponseChangesNothing | src/socket/SocketService.ts:614-616 | A response changes nothing if and only if its id is not pending. |
| PendingRequests.LastDeviceDrops | src/socket/SocketService.ts:436-441 | When a user's last device goes, exactly that user's requests are dropped. |
| PendingRequests.StepKeeps | src/socket/SocketService.ts:425-653 | Each event keeps the invariant over pending requests, timers, connections and resolutions. |
| SocketService.SocketService.OnConnection | src/socket/SocketService.ts:189-193 | Adds the device at the end of its user's list. |
| SocketService.SocketService.OnDisconnect | src/socket/SocketService.ts:425-446 | Removes the device; with the last one the user goes offline and the user's requests are cleared. |
| SocketService.SocketService.Splice | src/socket/SocketService.ts:431-434 | Removes the first device with that socket id, if any. |
| SocketService.SocketService.ClearUserPendingRequests | src/socket/SocketService.ts:623-637 | Clears exactly one user's requests and their timers. |
| SocketService.SocketService.ClearAllPendingRequests | src/socket/SocketService.ts:642-653 | Clears all requests and their timers. |
| SocketService.SocketService.DisconnectAllClients | src/socket/SocketService.ts:531-546 | Drops all requests and forgets all connections. |
| SocketService.SocketService.HandleClientResponse | src/socket/SocketService.ts:598-617 | Resolves exactly a pending request, once, with the body of the response, and disarms its timer; any other response changes nothing. |
| SocketService.SocketService.RemovePendingRequest | src/socket/SocketService.ts:585-592 | Removes the request and its timer if it is pending. |
| SocketService.SocketNotifier.SendRequest | src/socket/SocketNotifier.ts:358-431 | Registers a request with an armed timer exactly when the user is online. |
| SocketService.SocketNotifier.OnTimeout | src/socket/SocketNotifier.ts:394-407 | Removes the request and resolves it as timed out. |
| SocketService.SocketNotifier.NotifyOnlineSessions | src/socket/SocketNotifier.ts:236-273 | Joins the notification under way for the user, or starts exactly one; the map holds exactly the notifications under way. |
| SocketService.SocketNotifier.NotificationEnded | src/socket/SocketNotifier.ts:266-268 | Ends exactly the user's notification, so the next call starts a new one. |
| Admission.CleanupChangesNoAnswer | src/repositories/ResultCacheAdmissionRepository.ts:12-76 | Cleanups inserted anywhere in a sequence of attempts, counts and clears change none of their answers. |
| Admission.CleanupIsInvisible | src/repositories/ResultCacheAdmissionRepository.ts:12-76 | The same for tables that already differ in expired rows. |
| Admission.SteadyAttemptsAllCount | src/repositories/ResultCacheAdmissionRepository.ts:22-29 | Attempts no further apart than the window are all counted. |
| Admission.ExpiryInstant | src/repositories/ResultCacheAdmissionRepository.ts:24-45 | At the instant of expiry a counter is unreadable, yet an attempt still counts on and the collector leaves it. |
| Admission.ClearedStartsAgain | src/repositories/ResultCacheAdmissionRepository.ts:12-56 | A cleared counter is gone, alone; it reads 0 and the next attempt is counted as the first. |
| Admission.OtherCountersUntouched | src/repositories/ResultCacheAdmissionRepository.ts:12-70 | A call changes at most the counter it names. |
| Admission.ResultCacheAdmissionRepository.RecordAttempt | src/repositories/ResultCacheAdmissionRepository.ts:12-38 | Counts one more, or starts at one for a missing or expired counter, and prolongs it. |
| Admission.ResultCacheAdmissionRepository.GetCount | src/repositories/ResultCacheAdmissionRepository.ts:40-51 | The count of an unexpired counter, else zero. |
| Admission.ResultCacheAdmissionRepository.ClearAdmission | src/repositories/ResultCacheAdmissionRepository.ts:53-56 | Removes exactly that counter. |
| Admission.ResultCacheAdmissionRepository.CleanupExpired | src/repositories/ResultCacheAdmissionRepository.ts:58-76 | Deletes a batch of the oldest expired rows and returns how many: all of them or a full batch. |
| ResultCache.CleanupChangesNoRead | src/repositories/ResultCacheRepository.ts:14-108 | Cleanups inserted anywhere change no read. |
| ResultCache.ReadsLastWrite | src/repositories/ResultCacheRepository.ts:14-25 | A read returns the payload of the last undeleted, unexpired write of its key, and nothing older. |
| ResultCache.DeletedStaysGone | src/repositories/ResultCacheRepository.ts:14-88 | A deleted entry is not read again until it is written again. |
| ResultCache.OtherEntriesUntouched | src/repositories/ResultCacheRepository.ts:14-100 | A call changes at most the entry it names. |
| ResultCache.ResultCacheRepository.GetEntry | src/repositories/ResultCacheRepository.ts:14-25 | Returns the row exactly when it has not expired. |
| ResultCache.ResultCacheRepository.UpsertEntry | src/repositories/ResultCacheRepository.ts:27-83 | Overwrites exactly that key. |
| ResultCache.ResultCacheRepository.DeleteEntry | src/repositories/ResultCacheRepository.ts:85-88 | Removes exactly that key. |
| ResultCache.ResultCacheRepository.CleanupExpired | src/repositories/ResultCacheRepository.ts:90-108 | Deletes a batch of the oldest expired rows and returns how many. |
| ExpiringRows.DeleteExpired | src/repositories/ResultCacheRepository.ts:92-100 | The rows deleted are expired, as many as the batch allows, and none is younger than an expired row that stays. |
| ExpiringRows.SweepsFinish | src/repositories/ResultCacheRepository.ts:90-108 | Repeated cleanups leave no expired row after as many batches as they fill, and never touch an unexpired row. |
| Extraction.SafeExtractZip | src/services/SkillsService.ts:145-243 | Writes nothing for an inadmissible archive; otherwise a prefix of the file entries to their resolved paths, never more than 50 MB in all whatever the headers claim; the error names what stopped it, failures to create a directory or write a file included. |
| Extraction.Precheck | src/services/SkillsService.ts:149-210 | Passes exactly an archive of at most 1000 entries, at most 50 MB claimed, and only acceptable names; the error is that of the first test that fails. |
| Extraction.CheckEntry | src/services/SkillsService.ts:183-209 | Accepts exactly relative names that never climb above their start and name something; the path is the target directory followed by the entry's segments. |
| Extraction.OrdinaryNames | src/services/SkillsService.ts:183-209 | Ordinary relative names are accepted and kept as they are; absolute names and names that begin by going up are refused, with their own errors. |
| Extraction.WrittenFilesLieBelow | src/services/SkillsService.ts:200-209 | Every file of an admissible archive lies strictly below the target directory, as segments and as text. |
| Extraction.ResolvedTarget | src/services/SkillsService.ts:189-202 | Normalising, joining and resolving gives the target directory followed by the entry's own segments. |
| Extraction.SamePathSameSegments | src/services/SkillsService.ts:200-209 | Two entries share a path only if their names normalise to the same segments. |
| Extraction.IsPathSafe | src/services/SkillsService.ts:116-120 | True exactly when the resolved path lies strictly below the resolved directory, which is not the root. |
| Paths.PrefixIsBelow | src/services/SkillsService.ts:204 | The textual prefix test with a separator is exactly strict containment of segments. |
| Paths.DotDotLeftIffClimbs | src/services/SkillsService.ts:190-195 | ".." survives normalising exactly when the path goes above its start somewhere on the way. |
| Paths.NormalizedSegments | src/services/SkillsService.ts:190-201 | A normalised relative path pushes the same segments as the original. |
| Paths.TrailingSeparatorStays | src/services/SkillsService.ts:190 | Normalising keeps a trailing separator and adds none, but for the root. |
| SkillTree.FindSkillDirectories | src/services/SkillsService.ts:250-282 | The recursive search with its loop returns the specified list, unreadable directories giving nothing. |
| SkillTree.FoundIffTopmost | src/services/SkillsService.ts:256-276 | A directory is found if and only if it holds SKILL.md and no directory above it does. |
| SkillTree.FoundAreDisjoint | src/services/SkillsService.ts:265-266 | No directory found lies inside another one found. |

## Left out

- EventCache.EventCacheManager.SetEvent: requires ids without ':', a non-empty event id and the event filed under its own id, because access keys are split at ':' and an empty id is never evicted; AccessIndex.KeySplitsBack shows the first condition is exact.
- EventGaps.ReplayHasNoGapsIff: one order of ids (code unit by code unit) stands for both the default sort and localeCompare; the model does not capture locale collation.
- ApprovalRepository.Repository.CreateOrGetPending: the partial unique index on request_hash is taken as given from the ON CONFLICT clause; the bound of one retry assumes the database clock is not behind the caller's.
- ApprovalRuns.UpdatedAtGrows: one clock stands for the application's and the database's.
- ApprovalRepository.NoneSkipped: between two page reads rows only arrive; rows that leave the filter and ties of creation time are not modelled.
- Numbers.ParseToString: integers are unbounded; a prefix length or octet written with more than about fifteen digits would be rounded by a double.
- Redaction.SecretsAreReplaced: JSON.parse and JSON.stringify are a printer and parser with stated laws (Json.Lawful, shown to be satisfiable together by JsonLaws.LawsCanBeMet), redactText is an arbitrary function of text, negative zero is zero, numbers are the finite doubles in one form each, and a stack overflow on very deep values is not modelled. Strings are sequences of characters, not of UTF-16 units.
- ClientSession.ListedNamesAreDistinct: assumes that a downstream server lists no tool twice and that instances started for one user belong to template servers, as the server manager creates them.
- ClientSession.ListTools: only the names of the listed tools; danger levels, hints and the rewriting of `_meta` are not part of this model.
- ClientSession.ToolResolvesInAnyOrder: instances are unique under their id and under the keys the server manager keeps them by.
- LogQueue.NothingIsLost: an entry refused by the database during shutdown is only logged by the code, and is not an accepted entry here.
- LogExport.ExportHasNoGaps: an autoincrement column alone does not make concurrent rows visible in id order; the condition on late rows is exact (LogExport.LateRowLeavesNoGapIff), and a row every cursor has passed is never exported (LogExport.PassedIsNeverExported). Ids are never reused, and rows are deleted only all together.
- LogExport.LostWriteRepeatsIff: the repetition is shown for a batch with a row still in the table; nothing is claimed of a batch deleted in between.
- LogSync.LogSyncService.SyncLogs: one pass with nothing in between; what happens between its awaits is in LogExport.
- PendingRequests.ResolvedAtMostOnce: request ids are assumed fresh and a cleared timer never fires. No claim is made that every request is eventually resolved: a dropped one is not.
- Extraction.SafeExtractZip: POSIX separators; path.normalize and path.resolve are modelled on segments; a file whose write fails may be partly on the disk, which is not modelled.
- SkillTree.FoundIffTopmost: no two entries of a directory share a name; files changing during the search are not modelled.
- What a notification carries, client-device metadata and the Socket.IO transport.
- redactLogValue and redactLogLine, whose recursion depends on what the text patterns produce.
- The mapping from snake-case rows to camel-case objects, counts and lookups by id of the approval table.
- clearCache of the IP whitelist, which only makes the next lookup reload.
- Cache statistics, memory estimates, metrics and logging.
- uploadSkill, deletion and copying of skills, and name validation by regular expression.
- HTTP routing, OAuth, token validation, encryption and process start-up.
