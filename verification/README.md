# hakimi-hub: verified model of the proxy's hard parts

A Dafny model of the racing, caching, codec and matching logic of the hakimi-hub proxy, with proofs of
what those parts promise. `dafny verify dfyconfig.toml` checks all of it.

How the system appears in the model:

- **Connection races.** A `select!` loop is a transition system: an event is one branch taken at one
  time, and `Enabled` says which branches can be taken. A branch whose pattern cannot match is disabled
  and `else` is enabled only when every branch is. The loops themselves are methods that pick any enabled
  branch at any later time and are proved to follow the transition system, so theorems about all event
  sequences are theorems about all runs. Whether an attempt succeeds is an arbitrary function of its index.
- **Two-structure caches.** The evictable cache and the DoH pool are classes with a map and an LRU index;
  their methods are proved to act on the one recency list the two stand for. The concurrent behaviour of
  the cache is a separate model with one transition per atomic step.
- **Codecs.** base64url, DNS messages and HTTP framing work on byte sequences; a read of a stream
  returns any non-empty piece. An index out of range is an explicit outcome of the DNS parser.
- **Matching.** Path patterns and rule tables are proved equal to a regex reading and to a plain scan.
- **Disk cache, probing, breakers, remembered addresses** are classes whose methods are proved against
  functions, and the promises are lemmas over whole runs of those functions.

Time is a number that does not run backwards. Network outcomes, file errors, completion order and clock
readings are parameters or arbitrary choices.

Findings. Where code and intention differ, the model follows the code:

- In `connect_stream` the error "all IPs failed" can never be raised: every failure is reported as "DoH
  returned no IP" (`StreamRace.FailureMeansEverythingFailed`). With remembered addresses the resolver is
  never started before the trial time is over, even if they have all failed.
- In `connect_with_fallback` and `connect_with_ips` the error about an empty international answer can
  never be raised: the resolver has failed before (`ConnectFallback.ConnectWithFallback`).
- The evictable cache exceeds its limit when inserts come faster than its evictor may run, and after the
  first over-limit insert of a process, which only fixes the origin of the evictor's clock
  (`Caches.FirstEvictionIsThrottled`; `Caches.InsertWithinLimitInEveryRun` gives the exact condition).
- As soon as there are two threads the LRU index can keep a key the map has lost, whatever the limit
  (`CacheInterleaving.EqualIffOneThread`); the opposite never happens.
- In the disk cache a put that overlaps a removal of its key, such as the one `get` leaves to a spawned
  task when it finds the entry stale, can leave metadata without a file or a file without metadata
  (`ResourceCacheInterleaving.StaleRequestDisagrees`), and two overlapping puts can leave the data of one
  under the description of the other (`ResourceCacheInterleaving.TwoPutsMixed`; `AgreementIffNoConflict`
  gives the exact condition).
- A DoH response with no `Content-Length` in one of two exact spellings yields a body that depends on how
  the stream was split (`HttpFraming.SplitIndependence` gives the exact condition).
- A pattern with a segment wildcard means what its regex means exactly when it begins with `^` and each
  wildcard is last or followed by a literal beginning with a slash
  (`PathPattern.CompiledIsRegexIffGuarded`); a missing `^` is ignored by the compiler. All text between
  wildcards is taken verbatim, so other metacharacters are outside the class.
- A mirror that has only ever failed is preferred to every mirror that has answered, until it is disabled
  (`MirrorHealths.FailedMirrorIsChosen`; `MirrorHealths.ChosenHasAnswered` gives the exact condition).
- A DNS reply whose owner name leaves no room for the record's fixed part makes the parser index out of
  range (`DnsMessage.ParseOutOfBounds`).
- A fast return of the prober can count a reachable IPv6 address as an IPv6 failure
  (`IpProbers.FastReturnMissesIpv6`; `IpProbers.Ipv6SeenIffNotOutrun` says for which lists it cannot);
  the prober's second collection loop never runs.
- A duplicate among the first ten loaded working addresses is not repaired by later successes
  (`WorkingIps.NoDuplicatesIffLoadedWithout`).

## Model

| member | source | states |
|---|---|---|
| StreamRace.EveryRace | src/mitm/sni_spoof.rs:376-466 | in every state of every run: attempts are in flight, failed or won; nothing streamed is lost; an address is dialled once if the remembered list has no duplicates; `dns_done` is false while racing; DoH starts at most once and not before the trial deadline; the run's length is bounded by the addresses, so any finite delivery ends it |
| StreamRace.FailureMeansEverythingFailed | src/mitm/sni_spoof.rs:412-463 | a failed race started DoH, drained a closed channel, and dialled every remembered and delivered address, all without success, each exactly once if the remembered list has no duplicates; the message is always the DoH one |
| StreamRace.OnlyKnownAddresses | src/mitm/sni_spoof.rs:376-451 | in every state of every run the remembered addresses were dialled first and nothing was dialled that is neither remembered nor sent by DoH |
| StreamRace.WhatCanHappen | src/mitm/sni_spoof.rs:404-466 | in every run an attempt can complete exactly when dialled and not failed; the resolver can start exactly once 2 s have passed, attempts in flight or not; its addresses are taken in the order sent, at most 32 waiting, and dialled unless dialled before |
| StreamRace.StepKeepsInv | src/mitm/sni_spoof.rs:404-466 | each branch keeps the invariant and lowers the measure; the else branch always ends the race, so it never spins |
| StreamRace.SomethingEnabled | src/mitm/sni_spoof.rs:405-465 | while racing some branch of the select, or some resolver step it waits for, is enabled |
| StreamRace.RaceCanFinish | src/mitm/sni_spoof.rs:404-466 | from any reachable state the race can be brought to an end |
| StreamRace.ConnectStream | src/mitm/sni_spoof.rs:352-467 | the loop with its local variables takes only steps of the transition system; it returns a winner that succeeded, or the DoH error after dialling every remembered and every sent address in vain |
| StreamRace.ConnectDomain | src/mitm/sni_spoof.rs:365-411 | dialled are first the domain's remembered addresses, all of them, and then only addresses DoH sent; without a winner all of both were dialled and none accepts; the winner, and only a winner, is moved to the front of the remembered list, and other domains' lists do not change |
| HappyEyeballs.EveryRace | src/mitm/tls_origin.rs:190-237 | launched attempts are a prefix split into failed, in flight and won; attempt i starts no earlier than 100+50(i-1) ms; "all failed" only after every candidate failed; a branch is enabled at every loop head; at most 2n-1 steps |
| HappyEyeballs.LaunchedWhenDue | src/mitm/tls_origin.rs:190-229 | in every run the next candidate can be launched exactly when there is one, none has won, and 100 ms have passed since the first launch or 50 ms since the last of several; an attempt can complete exactly when launched and not failed |
| HappyEyeballs.RaceCanFinish | src/mitm/sni_spoof.rs:198-235 | no reachable state of the race is stuck |
| HappyEyeballs.StepKeepsInv | src/mitm/sni_spoof.rs:178-235 | each branch keeps the invariant and lowers the measure, in the SNI connector's identical loop as well |
| HappyEyeballs.RunHappyEyeballs | src/mitm/tls_origin.rs:168-238 | the loop follows the transition system; it returns a success that succeeded, or failure when no candidate can be reached |
| HappyEyeballs.TryConnectTcp | src/mitm/tls_origin.rs:348-387 | the first accepting address in order, or the error of the last one |
| ConnectFallback.ConnectWithFallback | src/mitm/tls_origin.rs:96-127 | connects exactly when a candidate accepts or, after all failed, an international address does, both lists being what the cache or the answers give; each error exactly in its case, the one about an empty international answer never; a failed list is never left in the cache |
| ConnectFallback.ConnectWithIps | src/mitm/tls_origin.rs:129-166 | the same over addresses resolved beforehand |
| ConnectFallback.GoInternational | src/mitm/sni_spoof.rs:138-153 | after the fallback the cache, if it has room for one list, has the international list in front for the domain, or nothing for it when there is no answer |
| Caches.RunKeepsGood | src/utils/evictable_cache.rs:85-305 | after any timely run keys are distinct, the list is sorted by last access, and the size is at most the limit plus the throttled inserts since it was last within it |
| Caches.GetReturnsLatest | src/utils/evictable_cache.rs:85-129 | a hit is the value of the latest insert of that key with no removal since, no older than the TTL |
| Caches.HitIffYoung | src/utils/evictable_cache.rs:97-129 | after any run a lookup of a cached key gives the value last inserted if and only if there is no TTL or the insert was at most the TTL ago, and nothing otherwise |
| Caches.OrderedByLastUse | src/utils/evictable_cache.rs:106-121 | after any timely run the cached keys stand in the order of their last lookup or insert, latest first |
| Caches.GetKeepsKey | src/utils/evictable_cache.rs:97-126 | a lookup drops the key it asks for if and only if its entry is older than the TTL, else brings it to the front, and leaves every other key its entry |
| Caches.OthersKeepKey | src/utils/evictable_cache.rs:190-221 | an insert that evicts nothing, or a removal, leaves every other key its entry |
| Caches.EvictDropsOld | src/utils/evictable_cache.rs:283-305 | an evict that trims nothing drops exactly the entries older than the age it is given, none without an age |
| Caches.EvictionKeepsMostRecent | src/utils/evictable_cache.rs:265-276 | an unthrottled eviction keeps the front of the list, and everything evicted is no more recent than anything kept |
| Caches.EvictionMatchesFullSort | src/utils/evictable_cache.rs:249-276 | with distinct access times it keeps exactly what a full sort by access time would keep |
| Caches.JustInsertedSurvives | src/utils/evictable_cache.rs:190-208 | a just-inserted key is in the cache exactly when the limit is at least one or the evictor was throttled |
| Caches.FirstEvictionIsThrottled | src/utils/evictable_cache.rs:256-262 | the first eviction attempt of a process is throttled and the limit is exceeded by one |
| Caches.InsertWithinLimit | src/utils/evictable_cache.rs:250-264 | an insert leaves the cache within its limit if and only if there is room for the key or the eviction is not throttled |
| Caches.InsertWithinLimitInEveryRun | src/utils/evictable_cache.rs:250-277 | the same in real time, after any run in a fresh process: the clock has been read before and the evictor last ran a millisecond ago or longer |
| Caches.NanoClock.Nanos | src/utils/evictable_cache.rs:317-327 | readings count from an origin set at the first reading |
| Caches.EvictableCache.Get | src/utils/evictable_cache.rs:85-129 | map and index together act as one move-to-front on the recency list, or drop the entry if it outlived the TTL |
| Caches.EvictableCache.GetEntry | src/utils/evictable_cache.rs:134-178 | the same, returning the entry with its new access time |
| Caches.EvictableCache.Insert | src/utils/evictable_cache.rs:190-208 | a new entry at the front of the list, then the throttled trim |
| Caches.EvictableCache.Remove | src/utils/evictable_cache.rs:211-221 | the key leaves both structures and its value is returned |
| Caches.EvictableCache.Clear | src/utils/evictable_cache.rs:242-247 | both structures are empty |
| Caches.EvictableCache.EvictLruIfNeeded | src/utils/evictable_cache.rs:250-277 | the pop loop leaves exactly the first maxEntries of the list, unless throttled or not over the limit |
| Caches.EvictableCache.Evict | src/utils/evictable_cache.rs:283-305 | removes exactly the entries older than the given TTL, then trims |
| CacheInterleaving.EveryInterleavingCovers | src/utils/evictable_cache.rs:85-126 | under any interleaving of any number of threads every key of the map is indexed, being put, or being removed by the one evictor; when all are idle the map's keys are a subset of the index |
| CacheInterleaving.StepKeepsInv | src/utils/evictable_cache.rs:190-277 | each atomic step keeps that, the index free of duplicates and the lock exclusive |
| CacheInterleaving.OneThreadKeepsThemEqual | src/utils/evictable_cache.rs:348-359 | with one thread the map and the index have the same keys whenever it is idle |
| CacheInterleaving.TwoThreadsLeaveStaleIndex | src/utils/evictable_cache.rs:121-126 | for every limit and any two of any threads: a run that ends idle with an indexed key that is not in the map |
| CacheInterleaving.EqualIffOneThread | src/utils/evictable_cache.rs:85-277 | for every limit and every finite set of threads: map and index have the same keys at every idle moment of every run if and only if there is at most one thread |
| CacheInterleaving.NoDeadlock | src/utils/evictable_cache.rs:265-276 | some thread can always move unless all are idle |
| DohPools.ReturnDropsLongestIdle | src/dns/doh_client.rs:116-143 | a return keeps the pool ordered by last use and within fifty, and evicts only the longest idle connection |
| DohPools.ReturnedIsLive | src/dns/doh_client.rs:86-148 | a connection just returned is the one found for its key, live for less than 60 s |
| DohPools.DohPool.PooledOnceOrHeld | src/dns/doh_client.rs:47-49 | a connection is pooled under one key at most and never while a caller holds it; pool and index keys agree |
| DohPools.DohPool.EvictOldestConnection | src/dns/doh_client.rs:66-84 | drops the least recently used connection from both structures |
| DohPools.DohPool.AcquireConnection | src/dns/doh_client.rs:86-105 | hands out the pooled connection of that very host exactly when idle under 60 s, and unpools it either way |
| DohPools.DohPool.MakeRoom | src/dns/doh_client.rs:116-126 | the eviction loop ends with a free slot after one eviction at most |
| DohPools.DohPool.ReturnConnection | src/dns/doh_client.rs:107-148 | pools the connection as most recent, evicting the oldest if full, or drops it if its key is taken |
| DohPools.DohPool.QueryHost | src/dns/doh_client.rs:307-347 | the live pooled connection of the host is used, a new one only without it; whatever happens to the query none stays with the caller, and a good one ends up with one pooled for the host |
| Base64Url.RoundTrip | src/dns/doh_client.rs:643-670 | a string decodes to the data exactly when it is its encoding |
| Base64Url.Shape | src/dns/doh_client.rs:643-670 | length ceil(4n/3), URL-safe alphabet only, no padding |
| Base64Url.SameNumber | src/dns/doh_client.rs:650-667 | every three bytes and their four characters are the same number, most significant digit first; what is missing at the end counts as zeros |
| Base64Url.KnownAnswers | src/dns/doh_client.rs:645 | "foobar" of RFC 4648 and two bytes that need both URL-safe characters |
| Base64Url.TableInverse | src/dns/doh_client.rs:645 | the table's characters stand for 0 to 63 in order |
| Base64Url.Base64Encode | src/dns/doh_client.rs:643-670 | the loop computes the specified encoding |
| DnsMessage.EncodeDomainName | src/dns/doh_client.rs:694-701 | appends the labels of the domain, each behind its length modulo 256, and a zero byte |
| DnsMessage.NameRoundTrip | src/dns/doh_client.rs:694-701 | reading the labels back gives the domain exactly when each label has 1 to 255 bytes |
| DnsMessage.ExampleName | src/dns/doh_client.rs:694-701 | "a.b" is written 1 a 1 b 0 |
| DnsMessage.BuildDnsQuery | src/dns/doh_client.rs:672-692 | the twelve header bytes, then the labels of the domain, the type with its high byte first, and class 1 |
| DnsMessage.WellFormedResponseIsRead | src/dns/doh_client.rs:703-783 | every well-formed response is read within bounds and yields exactly its A and AAAA addresses in order, an AAAA address being the eight 16-bit numbers of its data in wire order |
| DnsMessage.AddressesComeBack | src/dns/doh_client.rs:754-780 | of a response whose records carry given addresses, octets or big-endian segments, the parser gives back exactly these addresses |
| DnsMessage.ErrorReplyIsReported | src/dns/doh_client.rs:708-712 | a reply with a non-zero code in the low four bits of its second flag byte is reported as that error, and one of fewer than twelve bytes as too short |
| DnsMessage.HeaderLayout | src/dns/doh_client.rs:703-717 | the twelve header bytes field by field, high byte first |
| DnsMessage.RecordLayout | src/dns/doh_client.rs:741-752 | type, class, lifetime, length and data of a record behind its owner name |
| DnsMessage.RecordRead | src/dns/doh_client.rs:732-780 | a record at any offset of any message is read as its address, if it is A or AAAA, and the offset after it |
| DnsMessage.AnswersRead | src/dns/doh_client.rs:727-780 | a run of byte strings that each decode wherever they stand is read as what they decode to, in order |
| DnsMessage.QueryAndResponseAgree | src/dns/doh_client.rs:672-724 | a response that repeats a query's question is read, and the question names the domain asked for |
| DnsMessage.ParseOutOfBounds | src/dns/doh_client.rs:720-752 | a message makes the parser index out of range if and only if it is accepted as a reply and the walk over its records meets one that is cut short in its fixed part |
| DnsMessage.CutShortExample | src/dns/doh_client.rs:732-741 | a message of 29 bytes that does |
| DnsMessage.ParseDnsResponse | src/dns/doh_client.rs:703-783 | the loops compute the specified parse, with errors and out-of-range indexing as outcomes |
| HttpFraming.HeaderEndStable | src/dns/doh_client.rs:612-615 | the header's end, once found, does not move as bytes arrive |
| HttpFraming.SplitIndependence | src/dns/doh_client.rs:565-599 | every split of a response into reads yields exactly its body if and only if the recognised length is at least the body's |
| HttpFraming.LengthLineGivesBody | src/dns/doh_client.rs:565-640 | a response given by its header lines whose first length line, in either recognised casing, has the body's length as its trimmed number is returned as its body for every split |
| HttpFraming.NoLengthLineLosesBody | src/dns/doh_client.rs:582-640 | without such a line every split gives the body back if and only if it is empty |
| HttpFraming.JoinedHeaderIs | src/dns/doh_client.rs:612-615 | the header found in front of a body is exactly its lines |
| HttpFraming.DecimalLengthLine | src/dns/doh_client.rs:618-631 | a name, a space and a decimal number make such a line |
| HttpFraming.ReadResponse | src/dns/doh_client.rs:565-599 | the two read loops stop exactly when the header has ended and the declared body is in, or the stream ends |
| HttpText.FirstLine | src/dns/doh_client.rs:622 | a line ends at CR LF, at LF alone, or at the end of the text |
| HttpText.LinesOfJoined | src/dns/doh_client.rs:622 | the lines of CRLF-joined lines are these lines, the last included |
| HttpText.TrimCuts | src/dns/doh_client.rs:624 | trimming cuts white space off both ends, all of it and nothing else |
| HttpText.ParsesDecimals | src/dns/doh_client.rs:624 | parsing accepts exactly the decimal numbers below 2^64, with any leading zeros and at most one plus sign, as their value |
| HttpText.SameLowerByte | src/proxy/handler.rs:1474 | two bytes agree in lower case exactly if they are equal or one ASCII letter |
| HttpText.ValidUtf8IffEncoded | src/dns/doh_client.rs:620 | the test of the header's encoding accepts exactly the UTF-8 encodings of texts |
| ResponseTransfer.ParseResponseHeaders | src/proxy/handler.rs:1462-1484 | the loop computes the fields that FieldsAreLastLines is about |
| ResponseTransfer.FieldsAreLastLines | src/proxy/handler.rs:1462-1484 | for a response given by its header lines and body: length and type are those of the last lines after the first that name them, in any casing, parsed and trimmed; none if no line does |
| ResponseTransfer.TransferAndCache | src/proxy/handler.rs:844-929 | the client receives the stream unchanged and in order; a body is cached if and only if it is cacheable, all of it is in the stream, and the header read did not go beyond it, whether or not more follows; it has the declared length; the last header read is one without which the header was neither complete nor beyond 64 KiB |
| ResponseTransfer.CompleteIsCacheable | src/proxy/handler.rs:844-929 | a stream that is one response, given by its header lines and body, with the body's length and a cacheable type in the last lines that name them, is one the transfer caches whole |
| PathPattern.GreedyIsRegexIffGuarded | src/intercepts/matcher.rs:116-157 | for chunk lists without empty literals, greedy and regex matching agree on every path if and only if every wildcard is last or followed by a literal beginning with a slash |
| PathPattern.GreedyIsSound | src/intercepts/matcher.rs:116-157 | a greedy match is a regex match for every chunk list |
| PathPattern.GreedyIsComplete | src/intercepts/matcher.rs:116-157 | the converse for guarded lists |
| PathPattern.CompiledIsRegexIffGuarded | src/intercepts/matcher.rs:42-68 | for every pattern with a segment wildcard, the compiled matcher agrees with the regex reading of its text on all paths if and only if the pattern begins with a caret and is so guarded |
| PathPattern.UnanchoredExample | src/intercepts/matcher.rs:44-50 | a pattern without a caret, found by the regex in the middle of a path and missed by the matcher |
| PathPattern.MatchesSegmentPrefix | src/intercepts/matcher.rs:116-157 | the position-based loop computes the greedy match |
| PathPattern.ParseSegmentPrefix | src/intercepts/matcher.rs:74-97 | the compile loop computes the chunk list |
| PathPattern.PrintChunks | src/intercepts/matcher.rs:84-94 | printing the chunks gives the pattern without its trailing star |
| PathPattern.CompileInvertsPrint | src/intercepts/matcher.rs:74-97 | compiling a printed chunk list gives it back exactly when it is canonical and does not print a trailing star |
| PathPattern.OwnerRepoPatternIsRegex | src/intercepts/matcher.rs:42-68 | the shipped owner/repository patterns compile to a matcher equal to the regex |
| PathPattern.TextPattern | src/intercepts/matcher.rs:42-68 | a pattern without a segment wildcard: text and a final `.*` match the paths that begin with the text if there is a caret, that contain it if not; text alone matches that path; no text matches every path |
| RuleMatcher.TablesAreScan | src/intercepts/matcher.rs:240-273 | consulting the three tables equals a plain scan of the rule list, whatever the casing of the host |
| RuleMatcher.ScanFindsFirst | src/intercepts/matcher.rs:248-270 | the reference scan finds nothing exactly when no rule of the kind applies, and otherwise the first that does in rule order |
| RuleMatcher.PlainScanFindsBest | src/intercepts/matcher.rs:248-273 | the action found is that of the first rule of its kind that applies, and no rule of a kind before it applies; nothing exactly when no rule applies |
| RuleMatcher.KindMeaning | src/intercepts/matcher.rs:204-224 | `*.` in front makes a suffix rule, any other star a wildcard rule, no star an exact one |
| RuleMatcher.SameLowerChar | src/intercepts/matcher.rs:240-246 | two characters agree in lower case exactly if they are equal or one ASCII letter |
| RuleMatcher.WildcardMeaning | src/intercepts/matcher.rs:276-282 | the three string tests hold exactly when the host is prefix, something, suffix |
| RuleMatcher.SuffixMeaning | src/intercepts/matcher.rs:256-259 | a suffix rule covers the domain and its subdomains, nothing else |
| RuleMatcher.New | src/intercepts/matcher.rs:189-237 | the tables hold, per host and kind, the rules in configuration order |
| RuleMatcher.MatchDomain | src/intercepts/matcher.rs:240-273 | the lookup equals the plain scan |
| ResourceCaches.EvictionBound | src/cache/resource_cache.rs:402-458 | whatever deletions fail, the metadata left totals at most the limit |
| ResourceCaches.EvictionConserves | src/cache/resource_cache.rs:424-446 | if all deletions succeed, before = freed + after, and one victim fewer would not have sufficed |
| ResourceCaches.FreedIsGone | src/cache/resource_cache.rs:424-446 | the bytes counted as freed are those of the files that are gone |
| ResourceCaches.VictimsAreOldest | src/cache/resource_cache.rs:416-422 | every victim was last accessed no later than every entry kept |
| ResourceCaches.FilesMatchMetadata | src/cache/resource_cache.rs:238-372 | after any run of operations one after another, files and metadata have the same keys and agree on size, data and description of the latest put of each URL |
| ResourceCaches.GetReturnsLatestPut | src/cache/resource_cache.rs:187-236 | in such a run a hit is the latest accepted put of that URL, no older than the TTL |
| ResourceCaches.HitIffYoung | src/cache/resource_cache.rs:187-236 | after any such run a lookup of a cached URL returns its latest accepted put if and only if that was at most the TTL in days of 86400 s ago |
| ResourceCaches.PutIsHit | src/cache/resource_cache.rs:238-294 | a put is accepted exactly when the cache is on, the type cacheable and the data within the limit; it is then what a lookup finds for the TTL, and changes nothing otherwise |
| ResourceCaches.EntryAfter | src/cache/resource_cache.rs:296-372 | which operations remove an entry, by the clock for expiry; all others leave it, replaced only by an accepted put of its key |
| ResourceCacheInterleaving.AgreementIffNoConflict | src/cache/resource_cache.rs:260-314 | overlapping tasks end in agreement of files and metadata under every schedule of their steps if and only if no put shares its key with a removal or with a put whose data it does not describe, whatever is meant by describing |
| ResourceCacheInterleaving.SizesAgreeIff | src/cache/resource_cache.rs:260-314 | keys and sizes agree under every schedule if and only if tasks of one key are all removals or all puts of one length |
| ResourceCacheInterleaving.OriginsAgreeIff | src/cache/resource_cache.rs:260-275 | every entry has data and description of one put under every schedule if and only if there is no such conflict; equal data or equal descriptions make none |
| ResourceCacheInterleaving.TwoPutsMixed | src/cache/resource_cache.rs:260-275 | two puts of one length leave the data of one under the description of the other |
| ResourceCacheInterleaving.SeparatedIsSequential | src/cache/resource_cache.rs:238-315 | any interleaving in which no task begins while a conflicting one for its key is half way ends as the sequential run of the tasks in order of completion; a lookup of a quiet key sees that run at any time |
| ResourceCacheInterleaving.StaleRequestDisagrees | src/cache/resource_cache.rs:206-312 | the removal spawned for a stale entry and the put of the fetched response, one in the middle of the other, leave metadata without file or file without metadata |
| ResourceCaches.ResourceCache.Get | src/cache/resource_cache.rs:187-236 | the specified result, and a removal task exactly for stale or unreadable entries |
| ResourceCaches.ResourceCache.Put | src/cache/resource_cache.rs:238-294 | file and metadata are set together, or nothing changes |
| ResourceCaches.ResourceCache.Remove | src/cache/resource_cache.rs:296-315 | the metadata goes in any case, the file if it can be deleted |
| ResourceCaches.ResourceCache.Clear | src/cache/resource_cache.rs:317-345 | all metadata goes, and exactly the files that can be deleted, which are counted |
| ResourceCaches.ResourceCache.ClearExpired | src/cache/resource_cache.rs:347-372 | exactly the expired entries go, and those of their files that can be deleted, which are counted |
| ResourceCaches.ResourceCache.EvictIfNeeded | src/cache/resource_cache.rs:402-458 | the victims are the shortest prefix of the access order that frees enough, or all; the rest is untouched; the limit holds afterwards |
| ResourceCaches.ResourceCache.SumAll | src/cache/resource_cache.rs:374-375 | adding up the sizes gives the total whatever the order |
| IpProbers.RankingIsSound | src/dns/ip_prober.rs:246-305 | a ranking is a latency-sorted sub-multiset of the probed addresses, all reachable; it is empty only if none is, and omits a reachable one only with three others in |
| IpProbers.BreakerInEveryRun | src/dns/ip_prober.rs:121-185 | the IPv6 breaker is set exactly when the trailing failures reach the threshold, until the recovery time after the latest; IPv6 is probed exactly when enabled and the breaker is not holding, a threshold of zero switching it off |
| IpProbers.Ipv6OnlyWhenAllowed | src/dns/ip_prober.rs:210-220 | while the breaker holds, IPv6 is probed only for lists without IPv4 |
| IpProbers.WhatIsProbed | src/dns/ip_prober.rs:196-220 | probed are, in order, the IPv4 addresses, and exactly if IPv6 is allowed or there is no IPv4 all of them |
| IpProbers.SortIsStable | src/dns/ip_prober.rs:290 | addresses that took as long as each other keep the order they came in |
| IpProbers.EarlyEndMissesNothing | src/dns/ip_prober.rs:229-277 | a collection over at most three addresses, or over before 200 ms, or with fewer than three answers, has every answer |
| IpProbers.FastReturnMissesIpv6 | src/dns/ip_prober.rs:255-282 | of three reachable IPv4 addresses and a reachable IPv6 address behind them, a run of the collection leaves out the last, which counts as an IPv6 failure |
| IpProbers.Ipv6SeenIffNotOutrun | src/dns/ip_prober.rs:229-282 | every run of the collection sees a reachable IPv6 address if and only if there is one and the list has at most three addresses, or fewer than three answering IPv4 addresses stand before each answering IPv6 address or are no slower |
| IpProbers.FasterHeadIsSeen | src/dns/ip_prober.rs:235-244 | an IPv6 address at the head of the list that is faster than three IPv4 addresses is never missed |
| IpProbers.PickBest | src/dns/ip_prober.rs:490-504 | the first of the fastest reachable addresses, or all addresses when none is reachable |
| IpProbers.CollectionIsSound | src/dns/ip_prober.rs:246-277 | whatever the waits and the timing, all probes are accounted for, and some are left unfinished only after three successes |
| IpProbers.IpProber.Collect | src/dns/ip_prober.rs:246-277 | the loop is a run of that transition system to its end |
| IpProbers.IpProber.RecordIpv6ProbeResult | src/dns/ip_prober.rs:142-185 | counter and deadline change as the breaker specifies |
| IpProbers.IpProber.SelectRankedIps | src/dns/ip_prober.rs:194-306 | returns a ranking of what is to be probed, tells the breaker only if it allowed IPv6 and there was some, and caches the head |
| DnsResolvers.ApplyKeepsNonEmpty | src/dns/resolver.rs:27-32 | no cache operation can produce an empty cached list |
| DnsResolvers.FilterIps | src/dns/mod.rs:75-102 | a non-empty list stays non-empty; the result has the public addresses or everything |
| DnsResolvers.WhatFilterLeaves | src/dns/mod.rs:75-102 | what the filter leaves are, in order, exactly the public addresses, or all if none is public |
| DnsResolvers.DnsResolver.RankAndStore | src/dns/resolver.rs:67-110 | the list is the ranking of the filtered answer, or the whole answer if nothing is reachable, and never empty; it is inserted into the cache, in front and surely there if the limit is at least one |
| DnsResolvers.DnsResolver.Resolve | src/dns/resolver.rs:53-111 | the head of the cached list, or of the list just chosen and cached; no address exactly when there is neither hit nor answer, and then the cache is changed by the lookup alone |
| DnsResolvers.DnsResolver.GetCandidates | src/dns/resolver.rs:114-143 | the cached list, or the one newly chosen and cached; empty exactly when there is neither, the cache being changed by the lookup alone |
| DnsResolvers.DnsResolver.ResolveInternational | src/dns/resolver.rs:198-235 | a non-empty list exactly when the answer is non-empty; it is inserted into the cache, in front |
| DnsResolvers.DnsResolver.Invalidate | src/dns/resolver.rs:238-241 | the domain is in neither cache afterwards, other entries keep their order |
| DnsResolvers.DnsResolver.ReprobeAll | src/dns/resolver.rs:153-195 | in any finishing order: of a cache within its limit each of the fifty most recently accessed domains ends with the ranking of its new answer, or as it was if nothing in it is reachable, and no other domain is touched; over the limit entries may go, but none changes otherwise |
| DnsResolvers.ReplacingKeepsOthers | src/dns/resolver.rs:172-191 | caching a new list for a cached domain, within the limit, leaves every other domain its entry |
| DnsResolvers.DnsResolver.Reprobe | src/dns/resolver.rs:172-191 | probes the filtered answer anew, and caches the ranking unless it is empty |
| MirrorHealths.EveryRun | src/intercepts/mirror_health.rs:59-125 | in every run a mirror is marked disabled exactly while its consecutive failures have reached the threshold, and its average is 0 before the first success and afterwards between the extremes observed |
| MirrorHealths.FailuresSinceReset | src/intercepts/mirror_health.rs:59-125 | in every run the consecutive failures are the failures since the last success or recovering query, and the mirror is disabled since the one of them that reached the threshold, exactly if there is one |
| MirrorHealths.AverageIsWeighted | src/intercepts/mirror_health.rs:59-84 | in every run the average is the sum of all response times weighted 0.7^(n-1) for the first and 0.3*0.7^(n-1-i) for the i-th other |
| MirrorHealths.DisabledUntilRecovery | src/intercepts/mirror_health.rs:87-125 | without a success a tripped mirror is unavailable exactly until the recovery time after the failure that tripped it; later failures do not extend it |
| MirrorHealths.OnlyFailuresBeatSuccesses | src/intercepts/mirror_health.rs:22-34 | without a success the average stays 0 through any run, below that of every mirror that has answered in positive time |
| MirrorHealths.MirrorsAreIndependent | src/intercepts/mirror_health.rs:59-125 | after any events of any mirrors each record is the run of that mirror's own events |
| MirrorHealths.ChosenHasAnswered | src/intercepts/mirror_health.rs:128-158 | after any events with positive times, if some usable mirror has answered: the chosen one has answered if and only if no usable mirror is on record without a success |
| MirrorHealths.ChosenIsFastest | src/intercepts/mirror_health.rs:128-158 | after any events the chosen mirror is on record if any usable one is, with the least weighted response time, less than any earlier in the list |
| MirrorHealths.WhatIsUsable | src/intercepts/mirror_health.rs:110-129 | usable are, in order, the mirrors not disabled and those disabled for the recovery time or longer |
| MirrorHealths.FailedMirrorIsChosen | src/intercepts/mirror_health.rs:128-158 | one mirror answers, another fails once, and the one that failed is chosen |
| MirrorHealths.MirrorHealthTracker.RecordSuccess | src/intercepts/mirror_health.rs:59-84 | one success step for that mirror, no other changes |
| MirrorHealths.MirrorHealthTracker.RecordFailure | src/intercepts/mirror_health.rs:87-107 | one failure step for that mirror, no other changes |
| MirrorHealths.MirrorHealthTracker.IsAvailable | src/intercepts/mirror_health.rs:110-125 | the answer, and the recovery it may trigger |
| MirrorHealths.MirrorHealthTracker.GetBestMirror | src/intercepts/mirror_health.rs:128-158 | the first of the fastest available mirrors, none exactly when none is available; the mirrors asked may recover, no other changes |
| WorkingIps.StoreHoldsTenMostRecent | src/dns/working_ip_store.rs:65-77 | after any history the list is the first ten of the distinct addresses by latest success, without duplicates, the latest winner first; loaded addresses count as older successes |
| WorkingIps.TruncationCommutes | src/dns/working_ip_store.rs:72-77 | truncating before moving to the front changes nothing |
| WorkingIps.RecentIsMostRecentFirst | src/dns/working_ip_store.rs:65-77 | repeated move-to-front lists the distinct elements by latest occurrence |
| WorkingIps.NoDuplicatesIffLoadedWithout | src/dns/working_ip_store.rs:72-77 | lists stay free of duplicates under every history if and only if the first ten loaded addresses are |
| WorkingIps.LoadedDuplicatesPersist | src/dns/working_ip_store.rs:73-75 | an example: a success of another address leaves both copies of a loaded one |
| WorkingIps.WorkingIpStore.RecordSuccess | src/dns/working_ip_store.rs:65-77 | the search, removal, insertion and truncation compute one bounded move-to-front for that domain only |

## Left out

- Sockets, TLS handshakes, certificates, tokio and DashMap internals: an attempt is an event with an arbitrary outcome, a channel is a finite queue.
- Concurrent callers of the DoH pool, and interleavings of the cache that involve TTL, remove or clear: the map and the index are claimed to agree only as stated above.
- CacheInterleaving.EveryInterleavingCovers: tracks keys only; the evictor's clock is an arbitrary choice to skip or go on, which covers every timing.
- SHA-256 and persistence (`metadata.json`, `working_ips.json`): the key function is an injective parameter, and stores start empty or from a given map.
- ResourceCaches.FilesMatchMetadata: assumes file operations succeed, as failed deletions leave orphan files by design; the methods state what happens when they fail.
- ResourceCacheInterleaving.AgreementIffNoConflict: a file is written or deleted in one step; a `get` that reads its metadata before and its file after another task's step is not modelled.
- CacheInterleaving.EqualIffOneThread: keys are numbers, of which there are enough for any limit, as there are of strings.
- Patterns without a segment wildcard: `TextPattern` says what they match; that a regex would find text without a caret anywhere is not compared.
- IpProbers.Ipv6SeenIffNotOutrun: probes get their turns in list order after arbitrary waits, which over-approximates the semaphore that other calls share; a probe without an answer may give up at any time.
- `now - created_at` in the disk cache underflows if the wall clock steps back; the clock here does not.
- DNS owner names that mix labels with a trailing pointer.
- Hosts, paths and patterns outside ASCII; trimming of Unicode white space around a content length.
- Shifts and masks are written as division and remainder, on bytes whose bits do not overlap.
- Overflow of 32- and 64-bit counters (failure counts, nanoseconds since start): numbers are unbounded, except the content length, whose overflow is an error as in the source.
- Response times are reals: rounding of the moving average is not modelled, and an unheard-of mirror is slower than any number instead of carrying the largest float.
- `resolve_with_groups`, `select_endpoints`, `query_group`: grouping and deduplication of endpoints, which would only add easy members.
- `match_dns_mapping`: its wildcard choice depends on hash order.
- `select_best_ip`, `select_best_ip_detailed`: thin wrappers over the probing, choice and caching shown here.
- The SNI branch of the handler's transfer differs from the modelled direct branch only in passing the bytes on after a failed header read.
- HTML injection, request rewriting, CLI, UI, PAC, system proxy settings, Git commands and logging: plumbing without a deep property.
