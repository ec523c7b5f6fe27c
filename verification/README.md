# mtrojan in Dafny

A Dafny 4.11 model of the algorithmic cores of the nginx stream module mtrojan, with proofs of what they promise.
The source is C; each part keeps the form the C code has: loops over arrays and buffers are methods with loops over
arrays, the route cache, the UDP mapping table, the connections, the SHA-224 context and the handshake clients are
classes whose methods update fields in place, and what is arithmetic or a plain branch is a function. Every such
method is proved against a function or predicate, and the laws are proved about those.

| area | modules |
|---|---|
| octets and the sorting contract | `Bytes`, `Sorting` |
| domain rules: perfect hash and matchers | `PerfectHash`, `PerfectHashBuild`, `PerfectHashSearch`, `PerfectHashTable`, `DomainRules` |
| CIDR rules: prefix tables and matchers | `IpPrefix`, `IpRules` |
| outbound selection | `Address`, `Routing` |
| route cache as a value, as linked structure, as an object, and as a bounded LRU map | `RouteState`, `RouteChains`, `RouteCache`, `RouteLru` |
| whole runs of routing: refresh safety, transparency, session tracking, recency, expiry | `RouteWorld`, `RouteRun`, `RouteRecency`, `RouteTransparency`, `RouteTracking`, `RouteExpiry`, `RouteRouter` |
| per-session UDP mappings, and how long they last over whole runs | `UdpMappings`, `UdpTiming` |
| relay and close of TCP sessions | `Relay`, `RelaySession` |
| SHA-224 and Trojan keys; its words, functions and constants | `Sha224`, `Sha224Words` |
| Trojan UDP frames and their reassembly | `UdpFrames` |
| the module's own wire formats, plain and key-protected | `Protocol`, `KeyProtocol`, `ProtocolEncode` |
| exact-read loops, SOCKS5 messages, SOCKS5 client | `ExactRead`, `Socks5Codec`, `Socks5Client` |
| HTTP CONNECT | `HttpConnect` |
| every wire form octet by octet | `WireOctets` |

`RouteRouter` is in `Router.dfy`; every other module is in the file of its name. `dafny verify dfyconfig.toml` checks
the whole project.

## How the source is read

- The 32-bit rule hash, the cache key hash, PCRE, `inet_pton`, the resolver, `getaddrinfo` and the AEAD cipher are
  arbitrary functions or parameters; the only assumptions are stated where used (`Inverts`: opening inverts sealing;
  `UniqueTags`: at most one tag opens a ciphertext; `Sized`: lengths as the interfaces fix them; contiguous masks, as
  `ngx_ptocidr` leaves them).
- `recv` and `send` are nondeterministic: each may transfer a part, fail, or not be possible now; a successful send
  moves at least one octet. A connection keeps a log of all it received and sent since the model began. On a `sticky`
  connection a send that was not possible stays so within one handler call.
- Time is a natural number given to each call. The generation counter, clocks and lengths are unbounded, except where
  the width decides something: 32-bit words and masks, the 64-bit bit count of SHA-224, `size_t` in the relay limit,
  8- and 16-bit fields on the wire.
- Entry pointers of the cache are indices into its fixed array; its hash chains are real links (`next`, bucket heads)
  with a ghost list per bucket; its recency and active queues, which nginx keeps as intrusive lists, are sequence
  fields. The UDP mapping table keeps real linked objects.
- `ngx_qsort` is a verified sort with the contract of the library: the same elements, in order.
- A refresh or resolution that the resolver answers at once is a start followed by its completion.

## Where the code does not do what one may expect

Each of these is proved, with a witness and with the exact condition:

- the compiled matcher tries the dot at position 0, the linear one does not (`DomainRules.CompiledIsLinear`,
  `DomainRules.LeadingDotWitness`);
- cache keys are lower-cased but regex rules see the host as sent, so the cache is visible exactly when routing tells
  spellings apart (`RouteTransparency.TransparentIffSpellingBlind`, `RouteTransparency.RegexShowsTheCache`);
- an entry without expiry may depend on resolved addresses: exactly when an IP rule asked before its outbound can
  match some address (`Routing.UnmarkedIsIndependentIff`, `Routing.UnmarkedMayDependOnAddresses`);
- the close at the end of both streams does not look at the octets still pending for the upstream
  (`RelaySession.Session.Close`, `RelaySession.EndLosesPending`);
- a UDP mapping put again keeps its mark of being stale if it is in no queue by then and the put does not track it, and
  so lasts at most 1000 milliseconds, however long the session timeout (`UdpTiming.AfterPut`,
  `UdpTiming.PutKeepsStale`);
- a complete UDP stream frame too short for its address asks for more, for ever
  (`Protocol.AgainForeverIffTooShort`), and so does a complete key record or key UDP init whose plaintext ends within
  its address (`KeyProtocol.CompleteAsksForMoreIff`, `KeyProtocol.AgainForeverIffComplete`,
  `KeyProtocol.UdpInitAsksForMoreIff`).

Nothing here says that the entry a session is tracked on still has that session's key: tracking uses the slot that
selection returned, and that slot may have been recycled in between.

## Model

| member | source | states |
|---|---|---|
| `PerfectHash.KeyLeIsLex` | ngx_stream_mtrojan_rules.c:1453-1474 | the comparator (common prefix, then length) is dictionary order |
| `PerfectHash.Deduplicate` | ngx_stream_mtrojan_rules.c:1122-1137 | the in-place pass leaves, in the first n places, the neighbours with equal keys merged into one entry with their flags or-ed |
| `PerfectHash.UniqueEntries` | ngx_stream_mtrojan_rules.c:1118-1137 | after sorting and merging every key of the input stands exactly once, carrying the OR of the flags of all its duplicates, and no other key stands there |
| `PerfectHashBuild.NextPower` | ngx_stream_mtrojan_rules.c:1361-1373 | the result is the least power of two not below n |
| `PerfectHashBuild.BucketIsRemainder` | ngx_stream_mtrojan_rules.c:1162-1177 | with such a power for the number of buckets, the masked hash is the hash modulo that number |
| `PerfectHashBuild.CountBuckets` | ngx_stream_mtrojan_rules.c:1162-1164 | each counter is the number of items of that bucket |
| `PerfectHashBuild.BucketOffsets` | ngx_stream_mtrojan_rules.c:1166-1172 | each offset is the number of items of all earlier buckets |
| `PerfectHashBuild.FillBuckets` | ngx_stream_mtrojan_rules.c:1174-1177 | the filled array is bucket after bucket, each bucket's items in input order at its offset |
| `PerfectHashBuild.GroupedExactly` | ngx_stream_mtrojan_rules.c:1174-1177 | a bucket's stretch holds exactly the items that hash to it, in increasing order |
| `PerfectHashBuild.FlatIsPermutation` | ngx_stream_mtrojan_rules.c:1162-1177 | the counting sort's result is a permutation of 0, .., n-1 |
| `PerfectHashTable.SortBuckets` | ngx_stream_mtrojan_rules.c:1179-1181 | the buckets are visited each once, with their counts, largest first |
| `PerfectHashSearch.TrySeed` | ngx_stream_mtrojan_rules.c:1204-1235 | a seed is taken exactly when it puts the bucket's items on free, pairwise different slots |
| `PerfectHashSearch.FindSeed` | ngx_stream_mtrojan_rules.c:1203-1240 | the least such seed in 1, .., 65535 is found, or there is none |
| `PerfectHashSearch.SeedIsFirst` | ngx_stream_mtrojan_rules.c:1203-1240 | the seed of the greedy search is the first of 1, .., 65535 under which the bucket meets nothing, or there is none |
| `PerfectHashSearch.MarkGroup` | ngx_stream_mtrojan_rules.c:1242-1251 | exactly the slots of the bucket are taken and exactly its items' positions written |
| `PerfectHashSearch.PlaceStep` | ngx_stream_mtrojan_rules.c:1195-1252 | placing one bucket keeps all finished ones placed on their own, pairwise different slots, whatever `positions` held before |
| `PerfectHashTable.TrySize` | ngx_stream_mtrojan_rules.c:1186-1256 | succeeds exactly when the greedy pass does (largest bucket first, each with the least seed in 1, .., 65535 under which no two items placed so far meet), with exactly its seeds; then all items lie on pairwise different slots |
| `PerfectHashSearch.FitIffNoClash` | ngx_stream_mtrojan_rules.c:1204-1240 | a seed fits the table of free slots exactly when no item of the bucket meets another of it or one placed before |
| `PerfectHashTable.SearchSizes` | ngx_stream_mtrojan_rules.c:1183-1304 | although `positions` and `probe` keep what failed sizes left, the table has the size and the seeds of the greedy search over the sizes, and there is none exactly when that search finds none |
| `PerfectHashTable.SearchIsFirst` | ngx_stream_mtrojan_rules.c:1183-1304 | that search ends at the least of the sizes n, n + (n/8+1), .. up to 2n+1 at which the greedy pass succeeds, and finds none exactly when the pass fails at all of them |
| `PerfectHashTable.WriteSlots` | ngx_stream_mtrojan_rules.c:1258-1295 | each item's slot points at its own key in the data and carries its flags, all other slots are empty |
| `PerfectHashTable.FindHit` | ngx_stream_mtrojan_rules.c:1307-1335 | every key of the table is found in its own slot |
| `PerfectHashTable.FindMiss` | ngx_stream_mtrojan_rules.c:1307-1335 | every other key, of any length, is not found |
| `PerfectHashTable.LookupByRemainder` | ngx_stream_mtrojan_rules.c:1307-1335 | a lookup looks into one slot: the hash under the seed of the key's bucket, its own hash modulo the number of buckets, modulo the size |
| `PerfectHashTable.HoldsDecides` | ngx_stream_mtrojan_rules.c:1097-1335 | lookup answers for exactly the keys of the input, with the OR of all flags given for the key |
| `PerfectHashTable.Build` | ngx_stream_mtrojan_rules.c:1097-1304 | for any hash function: a built table decides the input keys, has n <= size <= 2n+1 slots and the number of buckets of the plan, and has the size and seeds of the greedy search over the merged keys; in that plan two keys share a bucket exactly when their hashes agree modulo the number of buckets; the builder fails exactly when that search does; an empty input gives the empty table |
| `PerfectHashTable.OneKeyNeverFails` | ngx_stream_mtrojan_rules.c:1183-1304 | a single key gets its table whatever the hash |
| `PerfectHashTable.TwinsHaveNoTable` | ngx_stream_mtrojan_rules.c:1307-1335 | of two different keys that the hash cannot tell apart under any seed, every table is wrong about one |
| `PerfectHashTable.TwinsAreRefused` | ngx_stream_mtrojan_rules.c:1300-1303 | the error path is real: the builder refuses every input with two such keys |
| `Bytes.FoldIsSameText` | ngx_stream_mtrojan_rules.c:156-221 | two strings fold alike if and only if they differ at most in the case of letters: octet by octet equal, or 65..90 and 97..122 of one letter |
| `DomainRules.LinearScan` | ngx_stream_mtrojan_rules.c:156-221 | the scan answers whether some rule matches |
| `DomainRules.SameNoCaseFolds` | ngx_stream_mtrojan_rules.c:156-221 | strncasecmp of equal lengths is equality of the lower-cased strings when one of them is free of NUL |
| `DomainRules.TailByKey` | ngx_stream_mtrojan_rules.c:184-210 | the suffix test with its label dot is: behind some dot other than the first octet the lower-cased host is the key |
| `DomainRules.RuleByKeys` | ngx_stream_mtrojan_rules.c:156-221 | what one exact, suffix or wildcard rule matches, said with the keys of the tables |
| `DomainRules.RefusedValues` | ngx_stream_mtrojan_rules.c:90-153 | which rule values are refused, and the kind of every other, in octets |
| `DomainRules.RuleSaysYes` | ngx_stream_mtrojan_rules.c:156-221 | a NUL-free rule matches exactly when the host is its text, or its text behind some dot, case of letters aside, in octets |
| `DomainRules.AnswerInOctets` | ngx_stream_mtrojan_rules.c:289-358 | so for any list of such rules without regular expressions the answer is whether one of them says yes, or the leading-dot case |
| `DomainRules.AddEntry` | ngx_stream_mtrojan_rules.c:1059-1093 | a key is refused exactly when it is empty or longer than 255, else stored lower-cased with its hash |
| `DomainRules.CompilableInOctets` | ngx_stream_mtrojan_rules.c:802-915 | a rule has a usable key exactly when it is a pattern or at most 255 octets stand behind its dot, or its asterisk and dot, if any |
| `DomainRules.CompileDomains` | ngx_stream_mtrojan_rules.c:802-915 | the tables decide exactly the rules' keys, with the flag of suffix rules; all rules then have a usable key and the greedy search found both tables; a refusal means a rule without a usable key, or a table for which that search found none |
| `DomainRules.CompiledScan` | ngx_stream_mtrojan_rules.c:289-358 | answers whether the exact key, the root key with its flag, some dotted tail, or a regex hits |
| `DomainRules.CompiledIsLinear` | ngx_stream_mtrojan_rules.c:289-358 | for NUL-free rules and any regex, compiled and linear matching agree for every host, except that the compiled one also accepts a host whose first octet is a dot and whose rest is a suffix or wildcard key: both directions |
| `DomainRules.LeadingDotWitness` | ngx_stream_mtrojan_rules.c:323-332 | the exception is real: under the rule .a the host .a is such a host and the linear scan rejects it |
| `DomainRules.NulRuleDiffers` | ngx_stream_mtrojan_rules.c:156-221 | NUL-freedom is needed: an exact rule with a NUL matches linearly what its key does not |
| `DomainRules.PlainRulesIgnoreCase` | ngx_stream_mtrojan_rules.c:289-358 | without regex rules and NULs the answer, compiled or not, does not depend on the case of the host |
| `DomainRules.MatchDomain` | ngx_stream_mtrojan_rules.c:289-358 | the entry point: not applicable exactly without rules; tables for hosts of at most 255 octets, linear scan beyond; for NUL-free rules both reduce to the linear scan and the leading-dot case, and without regular expressions to the texts themselves, octet by octet |
| `IpPrefix.PrefixOfMask4` | ngx_stream_mtrojan_rules.c:1376-1400 | an IPv4 mask made from a prefix length gives that length back |
| `IpPrefix.Ipv4Prefix` | ngx_stream_mtrojan_rules.c:1376-1389 | the shifting loop counts the leading ones |
| `IpPrefix.PrefixOfMaskBytes` | ngx_stream_mtrojan_rules.c:1404-1448 | an IPv6 mask made from a prefix length gives that length back |
| `IpPrefix.Ipv6Prefix` | ngx_stream_mtrojan_rules.c:1404-1423 | the octet and bit loops count the leading ones |
| `IpPrefix.Ipv6Mask` | ngx_stream_mtrojan_rules.c:1426-1448 | the masking loop keeps the first bits and clears the rest |
| `IpPrefix.AndIsMask` | ngx_stream_mtrojan_rules.c:1426-1448 | keeping the first bits is the octet-wise AND with the contiguous mask of that length |
| `IpRules.LinearScan` | ngx_stream_mtrojan_rules.c:224-261 | the scan answers whether some CIDR contains the address |
| `IpRules.CountPrefixes` | ngx_stream_mtrojan_rules.c:944-957 | each counter is the number of rules of that family and prefix length |
| `IpRules.FillPrefixes` | ngx_stream_mtrojan_rules.c:959-1006 | each prefix length's array holds exactly its rules' masked addresses |
| `IpRules.DedupInPlace` | ngx_stream_mtrojan_rules.c:1017-1027 | the in-place removal of neighbours leaves the elements without repeats in the first n places |
| `IpRules.SortBucket` | ngx_stream_mtrojan_rules.c:1008-1053 | sorting and removing repeats leaves a sorted array of exactly the same elements |
| `IpRules.BinarySearch` | ngx_stream_mtrojan_rules.c:1523-1577 | the binary search answers membership |
| `IpRules.SearchFamily` | ngx_stream_mtrojan_rules.c:361-437 | from the longest prefix down, the search answers whether the address, masked to some length, is in that length's array |
| `IpRules.CompileIps` | ngx_stream_mtrojan_rules.c:918-1056 | both tables hold, for every prefix length, exactly the masked addresses of the rules, sorted |
| `IpRules.CompiledIsLinear` | ngx_stream_mtrojan_rules.c:361-437 | for contiguous masks and every IPv4, IPv6 or other socket address the tables answer as the linear scan over the rules with their host bits cleared |
| `IpRules.MatchIp` | ngx_stream_mtrojan_rules.c:361-437 | the entry point: not applicable exactly without rules; for canonical CIDRs the linear answer, compiled or not |
| `Routing.SelectOutboundNow` | ngx_stream_mtrojan_module.c:3188-3247 | the loop over the outbounds is the ordered pass whose laws follow |
| `Routing.AnyResolved` | ngx_stream_mtrojan_module.c:3307-3332 | true exactly when some resolved address is matched by the IP rules |
| `Routing.SelectIsFirstMatch` | ngx_stream_mtrojan_module.c:3188-3247 | with addresses the choice is the first outbound in order that matches by domain rule, catch-all, resolved or literal IP, and there is none exactly when nothing matches |
| `Routing.LiteralHits` | ngx_stream_mtrojan_rules.c:1602-1650 | an outbound with CIDRs and no catch-all is hit by a 16-octet IPv6 literal exactly when some IPv6 rule gives its address back for the literal masked octet by octet, and by a 4-octet IPv4 literal exactly when some IPv4 rule holds for the big-endian number of its octets |
| `Routing.LiteralSelection` | ngx_stream_mtrojan_module.c:3188-3247 | for such literals the choice is the first outbound that is a catch-all or is hit so |
| `Routing.LazyIsEager` | ngx_stream_mtrojan_module.c:3188-3247 | an outbound, or no match, settled without addresses is not changed by any address list |
| `Routing.ResolveExactlyWhenNeeded` | ngx_stream_mtrojan_module.c:3188-3247 | addresses are asked for exactly when an IP-rule outbound that needs them comes before every other hit |
| `Routing.TwoPassesAreFirstMatch` | ngx_stream_mtrojan_module.c:3138-3166 | both passes together give the first match in order for the addresses the resolver found |
| `Routing.BindMatchers` | ngx_stream_mtrojan_module.c:5785-5807 | matchers are bound up to the first catch-all, the server's groups before the main ones; routing is on exactly when the first outbound is no catch-all |
| `Routing.UnboundNeverConsulted` | ngx_stream_mtrojan_module.c:5785-5807 | with the rest left unbound every selection is the one with all matchers bound |
| `Routing.RoutingOffIsFirst` | ngx_stream_mtrojan_module.c:3080-3094 | with routing off the first outbound is what the pass would choose |
| `Routing.TtlMarks` | ngx_stream_mtrojan_module.c:3204-3242 | a choice made with addresses expires unless the target is a literal or a domain rule made it |
| `Routing.UnmarkedIsIndependentIff` | ngx_stream_mtrojan_module.c:3188-3247 | a choice made with addresses and left without expiry is the same for every address list if and only if no IP rule asked before it can match any address |
| `Routing.SettledWithoutAddressesIff` | ngx_stream_mtrojan_module.c:3188-3247 | on the configuration: the address-free pass already yields that choice if and only if no outbound before it needs an address, and then no address list changes it |
| `Routing.UnmarkedMayDependOnAddresses` | ngx_stream_mtrojan_module.c:3204-3213 | a witness that the condition can fail: two address lists, one choice with expiry and one without |
| `RouteChains.HashTarget` | ngx_stream_mtrojan_module.c:5872-5898 | hashing a target as sent is hashing its lower-cased key |
| `RouteChains.LowBitsIsRemainder` | ngx_stream_mtrojan_module.c:5910-5914 | the chain of a hash is the hash modulo the number of buckets, a power of two |
| `RouteChains.SameKeyIsKey` | ngx_stream_mtrojan_module.c:5916-5935 | the field-by-field comparison of the walk is equality of lower-cased keys |
| `RouteState.SameKeyIff` | ngx_stream_mtrojan_module.c:5916-5935 | two targets have one key if and only if type, port and host agree, the host of a name up to the case of letters |
| `RouteChains.PrependShape` | ngx_stream_mtrojan_module.c:6041-6043 | a new entry in front of its bucket keeps every entry in exactly one chain, that of its hash |
| `RouteChains.RemoveFirst` | ngx_stream_mtrojan_module.c:6007-6015 | unlinking the first entry of a chain through the pointer to it keeps all other members in their chains |
| `RouteChains.RemoveInner` | ngx_stream_mtrojan_module.c:6007-6015 | unlinking a later entry does so too |
| `RouteChains.OnlyInItsChain` | ngx_stream_mtrojan_module.c:5914-5936 | a key absent from the chain its hash names is absent from the whole cache |
| `RouteCache.Cache.constructor` | ngx_stream_mtrojan_module.c:5825-5869 | an empty cache of the given size with consistent chains |
| `RouteCache.Cache.Search` | ngx_stream_mtrojan_module.c:5914-5936 | the chain walk finds the slot of the key, or none has it |
| `RouteCache.Cache.Lookup` | ngx_stream_mtrojan_module.c:5901-5946 | a hit moves to the front of the recency queue, a miss changes nothing; the result is the slot with the key |
| `RouteCache.Cache.UnlinkActive` | ngx_stream_mtrojan_module.c:6075-6106 | the queue loop empties the entry's active queue and unlinks exactly its sessions |
| `RouteCache.Cache.MarkQueueStale` | ngx_stream_mtrojan_module.c:6109-6150 | exactly the queued sessions tracked on the old outbound become stale |
| `RouteCache.Cache.UpdateEntry` | ngx_stream_mtrojan_module.c:6049-6072 | a new answer under the next generation number, and stale sessions if the outbound changed; all other slots, chains and the recency order stay |
| `RouteCache.Cache.Unchain` | ngx_stream_mtrojan_module.c:6007-6015 | the pointer-to-link loop takes out that entry and no other |
| `RouteCache.Cache.Insert` | ngx_stream_mtrojan_module.c:5949-6046 | refused for size 0 or a bad key; updates in place if the key is there; fills the next free slot; else recycles the least recently used slot, with all sessions unlinked: the whole new state |
| `RouteCache.Cache.TrackTcp` | ngx_stream_mtrojan_module.c:6163-6183 | with draining on and an entry with expiry, the session leaves its old queue and joins the end of the entry's; otherwise nothing changes |
| `RouteCache.Cache.UntrackTcp` | ngx_stream_mtrojan_module.c:6186-6199 | a linked session leaves its queue, and nothing else changes |
| `RouteState.InsertKeeps` | ngx_stream_mtrojan_module.c:5949-6046 | inserts keep slots, recency order, key uniqueness, generations and tracking consistent |
| `RouteState.TrackKeeps` | ngx_stream_mtrojan_module.c:6163-6183 | so does tracking |
| `RouteState.UntrackKeeps` | ngx_stream_mtrojan_module.c:6186-6199 | after untracking the session is in no queue at all |
| `RouteLru.LookupRefines` | ngx_stream_mtrojan_module.c:5901-5946 | a lookup hits exactly when the bounded map has the key, with the map's answer, and makes it the most recent |
| `RouteLru.InsertRefines` | ngx_stream_mtrojan_module.c:5949-6046 | an insert puts the item in front, forgets the key's old item, and keeps at most `size` items |
| `RouteLru.FullInsertEvictsLast` | ngx_stream_mtrojan_module.c:5998-6045 | an unknown key in a full cache evicts the least recently used key and no other |
| `RouteLru.HoldsMostRecentlyUsed` | ngx_stream_mtrojan_module.c:5901-6072 | after any run of lookups, inserts and refresh updates the cache holds exactly the `size` most recently used keys, in that order |
| `RouteLru.AnswersLastWrite` | ngx_stream_mtrojan_module.c:5901-6072 | after any run a key that is found answers what was last written for it |
| `RouteWorld.NextKeeps` | ngx_stream_mtrojan_module.c:3073-3169 | every step of every interleaving of requests, misses, resolver answers, refresh completions, tracking and untracking keeps all invariants |
| `RouteWorld.MovesKeepRefreshes` | ngx_stream_mtrojan_module.c:3747-3797 | slots that were rewritten carry newer generations, so refreshes begun before do not count for them |
| `RouteRun.CurrentMeansUntouched` | ngx_stream_mtrojan_module.c:3763-3774 | a refresh whose generation still matches at completion finds its slot with the key and answer it had when the refresh began, whatever ran in between |
| `RouteRun.CompletionWritesOwnKey` | ngx_stream_mtrojan_module.c:3746-3797 | a completion changes at most its own slot, never its key, and writes only what selection yields for that key; one that is out of date writes nothing; a failed one only clears the mark |
| `RouteRun.OneWriterPerEntry` | ngx_stream_mtrojan_module.c:3663-3743 | in every reachable state an entry is marked as refreshing exactly when one outstanding refresh may still write it, and never two |
| `RouteRun.CachedAnswersAreSelections` | ngx_stream_mtrojan_module.c:3073-3247 | in every reachable state each cached outbound is what selection yields, on some addresses, for a request with the entry's key |
| `RouteRecency.NextPlays` | ngx_stream_mtrojan_module.c:3073-3169 | every step of routing does to slots and recency order exactly what its lookups, writes and renewals do |
| `RouteRecency.RunHoldsMostRecentlyUsed` | ngx_stream_mtrojan_module.c:5901-6072 | after every interleaved run of requests, resolver answers, refresh completions and tracking the cache holds exactly the `size` most recently used keys of that run, in that order, and each answers what was last written for it |
| `RouteTransparency.PlainRulesAreCaseBlind` | ngx_stream_mtrojan_rules.c:289-358 | matchers made of plain NUL-free rules do not see the case of a name |
| `RouteTransparency.SelectIgnoresCaseAndPort` | ngx_stream_mtrojan_module.c:3188-3345 | selection by such matchers depends neither on the case of the name nor on the port |
| `RouteTransparency.TransparentIffSpellingBlind` | ngx_stream_mtrojan_module.c:3073-3169 | with resolution off or literal, a cache of any one size is invisible over all runs if and only if routing gives all spellings of a cacheable key the same outbound |
| `RouteTransparency.CacheIsTransparent` | ngx_stream_mtrojan_module.c:3073-3169 | with case-blind matchers every run over any cache size, 0 included, answers every request as uncached selection does |
| `RouteTransparency.RepliesAreSelections` | ngx_stream_mtrojan_module.c:3073-3169 | in every mode, lazy included, a routed reply is what selection yields for that very request on some address list |
| `RouteTransparency.RegexShowsTheCache` | ngx_stream_mtrojan_module.c:5922-5928 | a regex rule that tells upper from lower case makes the cache visible at every size |
| `RouteTracking.LinkedIffInOneQueue` | ngx_stream_mtrojan_module.c:6163-6199 | in every reachable state a session is linked if and only if it sits, once, in exactly one active queue, that of its own entry |
| `RouteTracking.RecyclingUnlinks` | ngx_stream_mtrojan_module.c:6001-6043 | a recycled slot has the new key, an empty queue, and no session linked to it |
| `RouteTracking.UpdateMarksStale` | ngx_stream_mtrojan_module.c:6049-6150 | an update marks exactly the linked sessions of its entry that were on the old outbound, if the outbound changed |
| `RouteTracking.StaysStale` | ngx_stream_mtrojan_module.c:6109-6199 | over every run that does not track it anew, a stale session stays stale while it is linked |
| `RouteExpiry.LiveIsServed` | ngx_stream_mtrojan_module.c:3099-3124 | an answer that does not expire, or expires later than now / 1000, is served and only its recency changes |
| `RouteExpiry.ExpiredIsRefreshed` | ngx_stream_mtrojan_module.c:3102-3118 | with a resolver, an answer with `expires <= now / 1000` is served once more; a refresh for its slot, generation and target is pending exactly if the target is a name, none was under way and the resolver takes the query |
| `RouteExpiry.ExpiredIsChosenAnew` | ngx_stream_mtrojan_module.c:3102-3169 | without a resolver it is replaced, in its slot, by the choice without addresses or on the system's, for another 60 seconds if that choice expires |
| `RouteExpiry.UnknownIsChosen` | ngx_stream_mtrojan_module.c:3126-3169 | a target without a slot waits for the resolver exactly if the choice needs addresses and there is one; else the fresh choice is stored, for 60 seconds if it expires |
| `RouteExpiry.AnswerIsKept` | ngx_stream_mtrojan_module.c:2277-2303 | a waiting request gets the choice on the resolver's addresses, kept until their validity ends, or for 60 seconds if that is not later than now |
| `RouteExpiry.RefreshRenews` | ngx_stream_mtrojan_module.c:3746-3797 | a refresh whose generation still counts renews its slot, likewise; any other leaves every answer as it is |
| `RouteExpiry.EveryExpiryWasGranted` | ngx_stream_mtrojan_module.c:3073-3169 | in every reachable state an expiry is one that some step of the run granted; an answer that does not expire carries 0 |
| `RouteExpiry.RequestsFollowTheClock` | ngx_stream_mtrojan_module.c:3099-3169 | in every reachable state the clock alone decides whether a request with a slot is served, refreshed or chosen anew |
| `RouteRouter.Router.constructor` | ngx_stream_mtrojan_module.c:5769-5822 | the empty world for this configuration |
| `RouteRouter.Router.SelectOutbound` | ngx_stream_mtrojan_module.c:3073-3169 | one request over the real cache object is exactly one step of the runs above, reply and state |
| `RouteRouter.Router.RouteResolved` | ngx_stream_mtrojan_module.c:2277-2303 | so is a resolver answer for a waiting request |
| `RouteRouter.Router.StartRefresh` | ngx_stream_mtrojan_module.c:3663-3743 | the entry is marked and the query remembered with the entry's generation, unless one is under way or the resolver declines |
| `RouteRouter.Router.RefreshDone` | ngx_stream_mtrojan_module.c:3746-3797 | so is a refresh completion |
| `UdpMappings.BucketIsRemainder` | ngx_stream_mtrojan_module.c:6344-6346 | the bucket is the hash modulo 64 |
| `UdpMappings.AddrEqualIsKey` | ngx_stream_mtrojan_module.c:6305-6328 | comparing addresses with both sides lower-cased is equality of keys |
| `UdpMappings.WalkPrunesTimedOut` | ngx_stream_mtrojan_module.c:6331-6378 | the walk removes exactly the timed-out mappings before the one it finds, keeps all others in place, and finds the first live one of the key |
| `UdpMappings.Bucket.Unlink` | ngx_stream_mtrojan_module.c:6349-6365 | the pointer-to-link removal takes out that mapping and keeps the order of the rest |
| `UdpMappings.Bucket.Walk` | ngx_stream_mtrojan_module.c:6349-6377 | the loop over the linked list does exactly this, and returns the very link found |
| `UdpMappings.Bucket.Insert` | ngx_stream_mtrojan_module.c:6381-6429 | a live mapping is rewritten in place, else a new one stands in front |
| `UdpMappings.Mappings.constructor` | ngx_stream_mtrojan_module.c:6381-6429 | 64 empty buckets |
| `UdpMappings.Mappings.Lookup` | ngx_stream_mtrojan_module.c:6331-6378 | only the key's bucket changes, by the walk; the answer is the one whose timing is stated below |
| `UdpMappings.Mappings.Insert` | ngx_stream_mtrojan_module.c:6381-6429 | only the key's bucket changes, by the insertion |
| `UdpMappings.StepKeeps` | ngx_stream_mtrojan_module.c:6305-6429 | every operation keeps all keys lower-cased, in the bucket of their hash, each once |
| `UdpMappings.OneMappingPerTarget` | ngx_stream_mtrojan_module.c:6305-6429 | after every run a lower-cased target has at most one mapping in the whole table |
| `UdpMappings.LookupFindsTheLiveMapping` | ngx_stream_mtrojan_module.c:6331-6378 | after every run a lookup finds nothing exactly when every mapping of that target has timed out, and otherwise returns the live one, touched |
| `UdpTiming.AnswersToTheLast` | ngx_stream_mtrojan_module.c:6348-6375 | a lookup answers a mapping's outbound up to `last_seen` + timeout, or + min(timeout, 1000) once stale, and nothing after it |
| `UdpTiming.UntouchedAnswersToTheLast` | ngx_stream_mtrojan_module.c:6331-6429 | over every run whose events are about other mappings, a mapping answers up to that moment and never after it |
| `UdpTiming.AfterPut` | ngx_stream_mtrojan_module.c:6381-6429 | after a put, and while nothing touches it, the target answers that outbound for exactly the timeout; for min(timeout, 1000) exactly if the put did not track it and found a live stale mapping of it in no queue |
| `UdpTiming.AfterAsk` | ngx_stream_mtrojan_module.c:6367-6372 | a lookup in time renews the mapping, one too late ends it |
| `UdpTiming.AfterStale` | ngx_stream_mtrojan_module.c:6140-6148 | from the change of its outbound on, a mapping answers for min(timeout, 1000) |
| `UdpTiming.PutKeepsStale` | ngx_stream_mtrojan_module.c:6395-6401 | that a put can leave a mapping stale does happen: put with a timeout of 60000, it is gone after 1001 |
| `Relay.Limit` | ngx_stream_mtrojan_relay.h:18-34 | 32 times the buffer size, modulo 2^64, held between 1 MiB and 4 MiB: the exact value for every size |
| `Relay.ReadSize` | ngx_stream_mtrojan_relay.h:36-48 | a read takes all the room or all that is left of the limit, never more than either, and is 0 only without either |
| `Relay.Flush` | ngx_stream_mtrojan_module.c:4260-4273 | what leaves the buffer is appended to the output in order; it ends with an empty buffer, a blocked connection or an error |
| `Relay.ProcessPending` | ngx_stream_mtrojan_module.c:4194-4205 | the same with no source |
| `Relay.ProcessDirection` | ngx_stream_mtrojan_module.c:4242-4319 | sent and buffered octets are those of before followed by exactly the octets read; the reads it made are at most 16 and their octets at most the limit; it stops only for a blocked destination, an ended or dry source, an event that is not ready after that many reads, or a bound met by them |
| `RelaySession.Session.constructor` | ngx_stream_mtrojan_module.c:4133-4162 | two empty buffers; what was pending from the handshake counts as owed to the upstream |
| `RelaySession.Session.RelayPending` | ngx_stream_mtrojan_module.c:4194-4205 | pending octets go before client octets, or the upstream is blocked |
| `RelaySession.Session.CheckStale` | ngx_stream_mtrojan_module.c:6211-6257 | closed exactly when linked, stale, idle in all four buffers and quiet for the drain timeout |
| `RelaySession.Session.EmptyIsDelivered` | ngx_stream_mtrojan_module.c:4223-4229 | with both relay buffers empty all that was received has been delivered if and only if nothing is pending for the upstream |
| `RelaySession.Session.Close` | ngx_stream_mtrojan_module.c:4223-4233 | the exact conditions of both closes; a drained session has delivered everything, one closed at the end of both streams exactly if nothing was pending |
| `RelaySession.Session.ProcessProxy` | ngx_stream_mtrojan_module.c:4183-4239 | every event conserves both directions; a drained session has delivered all received and pending octets; an event that gives nothing up leaves each direction only for cause |
| `RelaySession.Session.EventWhileStuck` | ngx_stream_mtrojan_module.c:4183-4239 | in an event whose upstream takes nothing, a session whose streams have both ended is closed, and all was delivered if and only if nothing was pending |
| `RelaySession.EndLosesPending` | ngx_stream_mtrojan_module.c:4194-4229 | such an event exists: an octet pending for the upstream, whose send is tried first and cannot be made, is lost by the close |
| `Sha224.ZeroCountIsLeast` | ngx_stream_mtrojan_trojan.c:168-193 | the padding is the shortest that completes a block (section 5.1.1 of FIPS 180-4) |
| `Sha224.PadsOneBlock` | ngx_stream_mtrojan_trojan.c:168-193 | fewer than 56 buffered octets take one block of padding |
| `Sha224.PadsTwoBlocks` | ngx_stream_mtrojan_trojan.c:168-193 | 56 or more take two |
| `Sha224Words.LoadIsBigEndian` | ngx_stream_mtrojan_trojan.c:31-36 | the first octet of a word is its most significant one |
| `Sha224Words.StoreIsBigEndian` | ngx_stream_mtrojan_trojan.c:31-45 | storing is the inverse of loading |
| `Sha224Words.PlusDropsCarry` | ngx_stream_mtrojan_trojan.c:80-140 | words are added modulo 2^32 |
| `Sha224Words.LengthOctets` | ngx_stream_mtrojan_trojan.c:167-193 | the length at the end of the padding is a big-endian number of 64 bits |
| `Sha224Words.SigmasRotate` | ngx_stream_mtrojan_trojan.c:25-118 | the four sigmas are rotations and shifts by the amounts of section 4.1.2 of FIPS 180-4 |
| `Sha224Words.ConstantIsCubeRoot` | ngx_stream_mtrojan_trojan.c:46-63 | the t-th constant is the first 32 bits of the fractional part of the cube root of the t-th entry of the table of primes (section 4.2.2) |
| `Sha224Words.InitialIsSquareRoot` | ngx_stream_mtrojan_trojan.c:65-78 | the initial value is the second 32 bits of the fractional parts of the square roots of the ninth to sixteenth prime (section 5.3.2) |
| `Sha224.Schedule` | ngx_stream_mtrojan_trojan.c:87-99 | the array loop computes the message schedule, words in big-endian order |
| `Sha224.Transform` | ngx_stream_mtrojan_trojan.c:80-140 | the in-place rounds compute the compression function (section 6.2.2 of FIPS 180-4) |
| `Sha224.Context.constructor` | ngx_stream_mtrojan_trojan.c:65-78 | the initial hash value of SHA-224 and an empty buffer |
| `Sha224.Context.Update` | ngx_stream_mtrojan_trojan.c:142-165 | after any update whole blocks are folded and the rest is buffered, for the message so far; the bit count wraps at 2^64 |
| `Sha224.Context.Final` | ngx_stream_mtrojan_trojan.c:167-193 | the digest of the message padded with the bit count held |
| `Sha224.HashPieces` | ngx_stream_mtrojan_trojan.c:65-204 | for every split of a message under 2^61 octets into updates the result is the digest of section 6.3 of FIPS 180-4 of the whole |
| `Sha224.HexIsInjective` | ngx_stream_mtrojan_trojan.c:217-236 | different digests have different keys |
| `Sha224.HexReadsBack` | ngx_stream_mtrojan_trojan.c:217-236 | each octet of the digest is read back from its two digits, the high one first |
| `Sha224.MakeKey` | ngx_stream_mtrojan_trojan.c:206-236 | the 56 lower-case hexadecimal digits of the digest |
| `Sha224.KeyEqual` | ngx_stream_mtrojan_trojan.c:238-253 | the comparison without early exit is equality |
| `Address.ParseSound` | ngx_stream_mtrojan_trojan.c:255-311 | what parses is a well-formed address and stands on the wire octet for octet |
| `Address.ParseWire` | ngx_stream_mtrojan_trojan.c:255-311 | every well-formed address is parsed back from its wire form, whatever follows |
| `Address.ParseStable` | ngx_stream_mtrojan_trojan.c:255-311 | more octets do not change a parsed address |
| `WireOctets.AddressOctets` | ngx_stream_mtrojan_trojan.c:255-311 | types 1, 3 and 4, lengths, the length octet of a name, the port in network order |
| `UdpFrames.ParseFrameSound` | ngx_stream_mtrojan_trojan.c:313-347 | what parses is a frame and stands there octet for octet |
| `UdpFrames.ParseFrameWire` | ngx_stream_mtrojan_trojan.c:313-347 | every frame is parsed back from its wire form, whatever follows |
| `UdpFrames.ParsesIffFrame` | ngx_stream_mtrojan_trojan.c:313-347 | a buffer parses if and only if it begins with a whole frame |
| `WireOctets.FrameOctets` | ngx_stream_mtrojan_trojan.c:313-347 | address, length in network order, octets 13 and 10, payload |
| `UdpFrames.PackUdpFrame` | ngx_stream_mtrojan_trojan.c:349-396 | packs exactly when the type is known and there is room, the host as it stands; for a host of the right length for its type what it wrote is the frame's wire form |
| `UdpFrames.BufferIsLargestFrame` | ngx_stream_mtrojan_module.c:21-22 | no frame is longer than the buffer, and the longest fills it |
| `UdpFrames.FullBufferIsHopeless` | ngx_stream_mtrojan_module.c:4796-4800 | a full buffer that does not parse would not with any continuation |
| `UdpFrames.DeliveredArePrefix` | ngx_stream_mtrojan_module.c:4763-4819 | if frames were sent, what was delivered is the first of them, and the rest of the buffer is the beginning of the next |
| `UdpFrames.UdpClient.DeliverFirst` | ngx_stream_mtrojan_module.c:4777-4794 | delivering the first frame takes exactly its octets off the buffer |
| `UdpFrames.UdpClient.Process` | ngx_stream_mtrojan_module.c:4763-4819 | under any chunking the delivered frames followed by the buffer are what was received; it waits only when nothing can be delivered, and rejects only a full buffer without a frame |
| `UdpFrames.UdpClient.DeliversTheFrames` | ngx_stream_mtrojan_module.c:4763-4819 | a peer that sends frames has them delivered in order, all of them and nothing left once they have arrived, and is never rejected |
| `UdpFrames.UdpClient.RejectedIsHopeless` | ngx_stream_mtrojan_module.c:4796-4800 | a rejected buffer could not have become a frame |
| `WireOctets.HeaderOctets` | ngx_stream_mtrojan_protocol.c:95-119 | type, length, host, port in network order |
| `WireOctets.HeaderAnswers` | ngx_stream_mtrojan_protocol.c:121-156 | an address is refused exactly for a type and length that do not go together, and asks for more exactly while it is shorter than it says |
| `WireOctets.BootstrapOctets` | ngx_stream_mtrojan_protocol.c:235-290 | command 1 or 3, protection 0, or at most 2 under a key, address, payload of at most 16384 octets |
| `WireOctets.BootstrapAnswers` | ngx_stream_mtrojan_protocol.c:292-345 | a bootstrap is refused exactly for its command, its protection or its address; six octets are asked for first |
| `WireOctets.ClassOctets` | ngx_stream_mtrojan_protocol.c:164-173 | the two top bits of the first octet: 00 data, 10 init |
| `WireOctets.UdpInitOctets` | ngx_stream_mtrojan_protocol.c:363-408 | octet 128, flow of 8 octets, address, payload |
| `WireOctets.UdpAnswers` | ngx_stream_mtrojan_protocol.c:410-517 | so is a UDP init, for its first octet, its flow or its address, and a data packet for its class |
| `WireOctets.StreamFrameOctets` | ngx_stream_mtrojan_protocol.c:538-579 | the length of address and payload in network order, then both |
| `WireOctets.StreamFrameAnswers` | ngx_stream_mtrojan_protocol.c:581-617 | a stream frame asks for more until it has the length it announces; then its address decides |
| `WireOctets.RecordOctets` | ngx_stream_mtrojan_protocol.c:749-792 | 12 octets of nonce, the length in network order, ciphertext, 16 octets of tag |
| `WireOctets.RecordWaits` | ngx_stream_mtrojan_protocol.c:794-848 | a record asks for more exactly until it has the length it announces; more than 32768 is refused |
| `WireOctets.DatagramOctets` | ngx_stream_mtrojan_protocol.c:648-690 | nonce, ciphertext, tag |
| `WireOctets.KeyBootstrapOctets` | ngx_stream_mtrojan_protocol.c:880-922 | the epoch in network order, then the bootstrap |
| `WireOctets.KeyUdpInitOctets` | ngx_stream_mtrojan_protocol.c:1004-1061 | epoch, protection, flow, address, payload |
| `Protocol.ReadAddrSound` | ngx_stream_mtrojan_protocol.c:121-156 | what reads as an address is one on the wire, octet for octet |
| `Protocol.ReadAddrHeader` | ngx_stream_mtrojan_protocol.c:121-156 | every well-formed address is read back, whatever follows |
| `Protocol.ReadAddrPrefix` | ngx_stream_mtrojan_protocol.c:121-156 | every strict prefix of an address asks for more |
| `Protocol.ReadAddrStable` | ngx_stream_mtrojan_protocol.c:121-156 | any answer but "more" is final |
| `Protocol.FlowIdPrepared` | ngx_stream_mtrojan_protocol.c:174-189 | the prepared flow id is valid, and a valid one is left alone |
| `Protocol.NoncePrepared` | ngx_stream_mtrojan_protocol.c:191-207 | the prepared nonce is of the init class, and one that already is is left alone |
| `Protocol.BootstrapRoundTrip` | ngx_stream_mtrojan_protocol.c:235-345 | an encoded bootstrap decodes to its fields and consumes exactly its header |
| `Protocol.BootstrapSound` | ngx_stream_mtrojan_protocol.c:292-345 | what decodes is some bootstrap's wire form |
| `Protocol.BootstrapPrefix` | ngx_stream_mtrojan_protocol.c:292-345 | every strict prefix of the header asks for more |
| `Protocol.UdpInitRoundTrip` | ngx_stream_mtrojan_protocol.c:363-456 | a UDP init decodes to its fields and is never taken for a data packet |
| `Protocol.UdpInitSound` | ngx_stream_mtrojan_protocol.c:410-456 | what decodes as a UDP init is one on the wire, octet for octet |
| `Protocol.UdpDataRoundTrip` | ngx_stream_mtrojan_protocol.c:464-517 | a data packet decodes to its fields and is never taken for an init |
| `Protocol.UdpDataSound` | ngx_stream_mtrojan_protocol.c:492-517 | what decodes as a data packet is one |
| `Protocol.StreamFrameRoundTrip` | ngx_stream_mtrojan_protocol.c:538-617 | a stream frame decodes to its fields and consumes exactly its size, whatever follows |
| `Protocol.StreamFrameSound` | ngx_stream_mtrojan_protocol.c:581-617 | what decodes is a frame on the wire |
| `Protocol.StreamFramePrefix` | ngx_stream_mtrojan_protocol.c:581-617 | every strict prefix asks for more |
| `Protocol.AgainForeverIffTooShort` | ngx_stream_mtrojan_protocol.c:603-609 | "more" is answered for ever, with any continuation, if and only if the announced length is too short for the address it must hold |
| `Protocol.EmptyFrameAsksForMore` | ngx_stream_mtrojan_protocol.c:603-609 | the complete frame of length 0 asks for more |
| `KeyProtocol.UnprotectProtected` | ngx_stream_mtrojan_protocol.c:648-733 | what was sealed for a UDP packet opens to nonce and plaintext |
| `KeyProtocol.OpenRecordSealed` | ngx_stream_mtrojan_protocol.c:749-848 | a sealed record opens to nonce and plaintext and consumes exactly its size, whatever follows |
| `KeyProtocol.OpenRecordPrefix` | ngx_stream_mtrojan_protocol.c:794-848 | every strict prefix of a record asks for more |
| `KeyProtocol.OpenRecordStable` | ngx_stream_mtrojan_protocol.c:794-848 | a complete record is judged by its own octets |
| `KeyProtocol.KeyBootstrapRoundTrip` | ngx_stream_mtrojan_protocol.c:880-972 | followed by anything, a key bootstrap decodes to every field and consumes exactly its wire size |
| `KeyProtocol.KeyBootstrapPrefix` | ngx_stream_mtrojan_protocol.c:924-972 | every strict prefix asks for more |
| `KeyProtocol.KeyBootstrapStable` | ngx_stream_mtrojan_protocol.c:924-972 | a complete record gets the same answer whatever follows |
| `KeyProtocol.CompleteAsksForMoreIff` | ngx_stream_mtrojan_protocol.c:924-972 | a complete record asks for more if and only if it opens to a plaintext that ends within its address |
| `KeyProtocol.AgainForeverIffComplete` | ngx_stream_mtrojan_protocol.c:924-972 | with at most one tag opening a ciphertext, "more" is answered for ever, with any continuation, if and only if the record is complete |
| `KeyProtocol.ShortRecordAsksForMore` | ngx_stream_mtrojan_protocol.c:947-958 | sealed by any cipher, a plaintext cut short within its address is such a record |
| `KeyProtocol.KeyBootstrapSound` | ngx_stream_mtrojan_protocol.c:924-972 | what decodes was opened by the cipher under the record's own nonce to exactly the epoch and bootstrap returned |
| `KeyProtocol.KeyUdpInitRoundTrip` | ngx_stream_mtrojan_protocol.c:1004-1127 | a key UDP init decodes to its fields with the prepared nonce |
| `KeyProtocol.KeyUdpInitSound` | ngx_stream_mtrojan_protocol.c:1063-1127 | what decodes was opened by the cipher under the datagram's own nonce, and is exactly the epoch and init returned |
| `KeyProtocol.UdpInitAsksForMoreIff` | ngx_stream_mtrojan_protocol.c:1063-1127 | a key UDP init asks for more if and only if the datagram is too short for nonce and tag, or opens to a plaintext that ends within its address |
| `KeyProtocol.ShortInitAsksForMore` | ngx_stream_mtrojan_protocol.c:1115-1119 | sealed by any cipher, a plaintext cut short within its address does |
| `KeyProtocol.KeyUdpInitIsNoData` | ngx_stream_mtrojan_protocol.c:1004-1127 | it is never accepted as a data packet, nor a data packet as it |
| `ProtocolEncode.WriteAddr` | ngx_stream_mtrojan_protocol.c:95-119 | refused exactly when not well-formed, no space exactly when it does not fit, else the wire form and nothing beside it |
| `ProtocolEncode.EncodeBootstrap` | ngx_stream_mtrojan_protocol.c:235-290 | the same for a bootstrap; a refusal leaves the buffer as it was |
| `ProtocolEncode.EncodeUdpInit` | ngx_stream_mtrojan_protocol.c:363-408 | the same for a UDP init |
| `ProtocolEncode.EncodeUdpData` | ngx_stream_mtrojan_protocol.c:464-490 | the same for a data packet |
| `ProtocolEncode.EncodeStreamFrame` | ngx_stream_mtrojan_protocol.c:538-579 | the same for a stream frame |
| `ProtocolEncode.Seal` | ngx_stream_mtrojan_protocol.c:749-792 | a sealed plaintext stands behind its lead; a failed seal leaves zeros where it would have stood |
| `ProtocolEncode.EncodeKeyBootstrap` | ngx_stream_mtrojan_protocol.c:880-922 | encodes exactly when the fields are valid, fit and the cipher seals, and then leaves the record in the buffer |
| `ProtocolEncode.EncodeKeyUdpInit` | ngx_stream_mtrojan_protocol.c:1004-1061 | the same for a key UDP init |
| `WireOctets.GreetingIsWhole` | ngx_stream_mtrojan_socks5_protocol.c:127-146 | a greeting is whole, bad, or how many octets it asks for, by its first two |
| `WireOctets.RequestIsWhole` | ngx_stream_mtrojan_socks5_protocol.c:246-284 | a request is whole or bad by version 5, command 1 or 3, 0, and the length its address announces; what it asks for until then |
| `WireOctets.ResponseIsWhole` | ngx_stream_mtrojan_socks5_protocol.c:364-396 | so is a reply, with any status |
| `WireOctets.TrojanIsWhole` | ngx_stream_mtrojan_module.c:1673-1717 | a Trojan request likewise, by command 1 or 3 and address type 1, 3 or 4, with two octets behind the address |
| `ExactRead.GreetingIsExact` | ngx_stream_mtrojan_socks5_protocol.c:127-146 | "more" always asks for something new and never for more than any greeting that begins so; what is done or bad stays so; at most 257 octets |
| `ExactRead.RequestIsExact` | ngx_stream_mtrojan_socks5_protocol.c:246-284 | the same for requests, at most 262 octets |
| `ExactRead.ResponseIsExact` | ngx_stream_mtrojan_socks5_protocol.c:364-396 | the same for replies, at most 262 octets |
| `ExactRead.TrojanIsExact` | ngx_stream_mtrojan_module.c:1673-1717 | the same for Trojan requests, at most 262 octets |
| `ExactRead.PrefixAsksWithin` | ngx_stream_mtrojan_socks5_protocol.c:7-37 | a strict prefix of a message asks for more, within the message |
| `ExactRead.Reader.ReadMessage` | ngx_stream_mtrojan_module.c:1720-1764 | the read loop ends with a message exactly when one is whole, having taken no octet beyond it, and waits only for a source with nothing to give |
| `ExactRead.ReadsTheMessage` | ngx_stream_mtrojan_module.c:1720-1764 | if the peer's octets begin with a message, the loop ends with that message |
| `WireOctets.GreetingOctets` | ngx_stream_mtrojan_socks5_protocol.c:40-70 | 5, the number of methods, 0, and 2 with credentials |
| `WireOctets.MethodOctets` | ngx_stream_mtrojan_socks5_protocol.c:73-125 | which choices of a method, and which answer to the credentials, are accepted |
| `WireOctets.MessageOctets` | ngx_stream_mtrojan_socks5_protocol.c:185-243 | 5, command or status, 0, address; a datagram has three zeros in front |
| `WireOctets.AuthRoundTrip` | ngx_stream_mtrojan_socks5_protocol.c:93-113 | a reader of section 2 of RFC 1929 gets both credentials back, whatever follows |
| `Socks5Codec.SelectMethod` | ngx_stream_mtrojan_socks5_protocol.c:149-167 | "no authentication" exactly when it is offered, wherever it stands |
| `Socks5Codec.MessageSize` | ngx_stream_mtrojan_socks5_protocol.c:246-396 | a built request or reply has the length its first octets announce, whatever follows |
| `Socks5Codec.RequestRoundTrip` | ngx_stream_mtrojan_socks5_protocol.c:185-302 | a request parses back to command and address, whatever follows |
| `Socks5Codec.ResponseRoundTrip` | ngx_stream_mtrojan_socks5_protocol.c:305-413 | an accepting reply parses back to its address, whatever follows |
| `Socks5Codec.RequestSound` | ngx_stream_mtrojan_socks5_protocol.c:287-302 | what parses is a request on the wire (section 4 of RFC 1928) |
| `Socks5Codec.ResponseSound` | ngx_stream_mtrojan_socks5_protocol.c:399-413 | what parses is an accepting reply on the wire (section 6 of RFC 1928) |
| `Socks5Codec.RefusedIffEmptyName` | ngx_stream_mtrojan_socks5_protocol.c:246-302 | a complete request is refused if and only if it names an empty host |
| `Socks5Codec.UdpPacketRoundTrip` | ngx_stream_mtrojan_socks5_protocol.c:416-503 | a datagram parses back to address and payload |
| `Socks5Codec.UdpPacketSound` | ngx_stream_mtrojan_socks5_protocol.c:480-503 | what parses is a datagram on the wire, unfragmented |
| `Socks5Codec.BuildRequest` | ngx_stream_mtrojan_socks5_protocol.c:185-243 | built exactly when command and address are valid and there is room |
| `Socks5Codec.BuildResponse` | ngx_stream_mtrojan_socks5_protocol.c:305-361 | built exactly when the address is valid and there is room |
| `Socks5Codec.BuildUdpPacket` | ngx_stream_mtrojan_socks5_protocol.c:416-477 | built exactly when the address is valid and all of it fits |
| `Socks5Codec.BuildGreeting` | ngx_stream_mtrojan_socks5_protocol.c:40-70 | built exactly when there is room (section 3 of RFC 1928) |
| `Socks5Codec.BuildAuth` | ngx_stream_mtrojan_socks5_protocol.c:93-113 | built exactly when the credentials have encodable lengths and fit (section 2 of RFC 1929) |
| `Socks5Client.Client.constructor` | ngx_stream_mtrojan_module.c:2605-2632 | begins by writing the greeting, having heard nothing |
| `Socks5Client.Client.ReadMethod` | ngx_stream_mtrojan_module.c:2639-2676 | goes on to the credentials only if the server asked for them and a user name is configured, to the request only if it needs none |
| `Socks5Client.Client.ReadAuth` | ngx_stream_mtrojan_module.c:2694-2715 | goes on to the request only if the server accepted the credentials |
| `Socks5Client.Client.LoadRequest` | ngx_stream_mtrojan_module.c:2972-3014 | a cleared client gets its request exactly when the target has a wire form; what it loads is that wire form, for UDP the one of the unspecified address |
| `Socks5Client.Client.ReadResponse` | ngx_stream_mtrojan_module.c:2733-2852 | reads no octet beyond the reply, and finishes only on a whole accepting one |
| `Socks5Client.ClearedOctets` | ngx_stream_mtrojan_module.c:2639-2715 | a client is cleared exactly after 5, 0, or after 5, 2, 1, 0 with credentials configured |
| `Socks5Client.AcceptingReplyOctets` | ngx_stream_mtrojan_module.c:2733-2852 | an accepting reply is exactly 5, 0, 0 and an address |
| `Socks5Client.RequestOctets` | ngx_stream_mtrojan_module.c:2972-3014 | the request is 5, 1, 0 and the target, or for UDP 5, 3, 0 and 0.0.0.0 with port 0 |
| `Socks5Client.Client.KnowsMaySay` | ngx_stream_mtrojan_module.c:2605-2852 | at every step the octets written are a prefix of greeting, then credentials only if asked for and configured, then request only once cleared |
| `Socks5Client.Client.Process` | ngx_stream_mtrojan_module.c:2605-2852 | under any partial sends and receives the above holds after every event; the handshake is finished only after an accepted method, successful authentication if asked for, and an accepting reply; an event ends only for cause |
| `HttpConnect.FindHeaderEnd` | ngx_stream_mtrojan_http_proxy_protocol.c:7-25 | finds the end of the first blank line, or that there is none |
| `HttpConnect.ParsePort` | ngx_stream_mtrojan_http_proxy_protocol.c:77-103 | the accumulator loop with its early exits answers as the port function, whose accepted inputs are characterised next |
| `HttpConnect.PortIsCanonical` | ngx_stream_mtrojan_http_proxy_protocol.c:77-103 | a port is accepted if and only if it is the canonical decimal of a number from 1 to 65535, and is that number |
| `HttpConnect.DivideAuthority` | ngx_stream_mtrojan_http_proxy_protocol.c:197-225 | finds where host and port stand: between brackets and behind their colon, else around the last colon |
| `HttpConnect.ParseConnectNow` | ngx_stream_mtrojan_http_proxy_protocol.c:143-242 | the scanning parser gives the answer that the laws below are about, on every input |
| `HttpConnect.DependsOnHeaderOnly` | ngx_stream_mtrojan_http_proxy_protocol.c:143-242 | the answer is settled by the octets up to the first blank line |
| `HttpConnect.SameUnderAnyChunking` | ngx_stream_mtrojan_http_proxy_protocol.c:143-242 | however a request arrives in pieces, the first answer but "more" is the same |
| `HttpConnect.ConnectRoundTrip` | ngx_stream_mtrojan_http_proxy_protocol.c:143-242 | a rendered CONNECT request, bracketed or not, followed by anything, parses back to host, port and exact length |
| `WireOctets.LineText` | ngx_stream_mtrojan_http_proxy_protocol.c:143-242 | the rendered line is the text "CONNECT host:port HTTP/1.", or with the host in brackets |
| `WireOctets.NotAllowedIff` | ngx_stream_mtrojan_http_proxy_protocol.c:27-74 | a complete header is answered as not allowed exactly when its line has 17 octets and begins with one of GET, POST, HEAD, PUT, DELETE, OPTIONS, PATCH, TRACE and a space |
| `WireOctets.LooksLikeHttpIff` | ngx_stream_mtrojan_http_proxy_protocol.c:43-60 | octets look like HTTP exactly as long as they and one of the nine methods agree |
| `WireOctets.AsksForOne` | ngx_stream_mtrojan_http_proxy_protocol.c:143-160 | "more" is answered exactly without a blank line, and asks for one octet |
| `WireOctets.HostAddress` | ngx_stream_mtrojan_http_proxy_protocol.c:106-140 | a host of at most 16 (46) octets that inet_pton takes, up to its first NUL, is that address; any other is a name |
| `HttpConnect.BareRequestEnds` | ngx_stream_mtrojan_http_proxy_protocol.c:143-242 | a request without header fields ends at its own blank line, so the round trip applies to it |
| `HttpConnect.AcceptedIsRendered` | ngx_stream_mtrojan_http_proxy_protocol.c:143-242 | what is accepted begins with the rendering of its host and a canonical port |
| `HttpConnect.AcceptedHasWireForm` | ngx_stream_mtrojan_http_proxy_protocol.c:106-140 | the address accepted has a wire form and a port other than 0 |

## Left out

- nginx event registration, timers, pools, logging and connection objects; configuration parsing, merging and listen
  checks; reading `/etc/resolv.conf`.
- Allocation failures, and with them the error paths that only they reach.
- Buffer cleansing, except after a failed seal (`ProtocolEncode.Seal`).
- `ngx_stream_mtrojan_inbound.c`, `ngx_stream_mtrojan_ip_prefer.h`, rendering an address as text, literal detection
  before resolving (it is the parameter `literal` of a configuration), fixed response texts, and the `block` and
  `ip_prefer` settings: one branch each.
- The SOCKS5 and HTTP servers' own state machines around `Socks5Codec` and `HttpConnect`, and the fallback path.
- The links from cache entries to UDP mappings, and their fate at the end of a session. What they do to a mapping (stale,
  detached) is an event of `UdpMappings.Step`, at any place and time.
- RouteCache.Cache.Insert: the counter of generations does not wrap.
- RouteCache.Cache.Lookup: the recency and active queues are sequence fields, so the intrusive list surgery of
  `ngx_queue_remove` and `ngx_queue_insert_head` is not shown.
- RouteTracking.StaysStale: a session that is tracked anew starts fresh, so runs that do so are excluded.
- RouteTransparency.TransparentIffSpellingBlind: for the modes that resolve nothing. In lazy mode replies depend on what
  the resolver said and when; `RouteTransparency.RepliesAreSelections` is what holds then.
- RouteTransparency.CacheIsTransparent: regex rules are covered only as far as they do not tell case.
- DomainRules.CompiledIsLinear: for rules without NUL octets; `DomainRules.NulRuleDiffers` shows why.
- IpRules.CompiledIsLinear: for contiguous masks; the linear side has its host bits cleared, which canonical CIDRs
  already have. The tables are sequence values between the phases of the compiler, arrays within each phase.
- PerfectHashTable.Build: equally large buckets follow each other as the library's sort leaves them, so the greedy
  search is stated for the order it yields, whichever that is. The finished table is an immutable value, and the phases
  of the one long C function are methods of their own.
- RelaySession.Session.ProcessProxy: order across pending and relayed octets is proved for sticky upstream connections;
  for others no octet is lost or invented. A session that a failed send ends promises conservation only.
- UdpFrames.UdpClient.HandOn: where a frame goes, and that a frame kept for a resolver answer is sent later, is not
  followed; it counts as delivered when it is taken off the buffer.
- UdpFrames.UdpClient.Process: `events` bounds the reads of one call, because a peer may never stop sending.
- Sha224.Context.Update: the word sums are in the order the code adds them, which addition modulo 2^32 does not see.
- KeyProtocol.KeyBootstrapRoundTrip: needs a cipher whose opening inverts its sealing, and room for the plaintext.
- Socks5Client.Client.ReadResponse: connecting the datagram socket of UDP mode is a parameter that says whether it could
  be set up.
- HttpConnect.ConnectRoundTrip: for hosts without space, CR and LF, and without the octet that would end or begin the
  bracketed form early; other hosts cannot be rendered in a request line.
