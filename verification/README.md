# Mango WAF: a verified model of its stateful engines

Mango WAF is a reverse-proxy shield. This project models the small engines inside it that carry
exact behaviour over unbounded runs, and proves what each of them promises. Code that updates its
state in place is a class whose methods are proved against a step function; the theorems are about
all runs of these steps. Each mutex-protected method is one atomic step, and a clock reading is a
real-valued argument.

| engine | files | main results |
|---|---|---|
| token buckets | `token_bucket.dfy`, `meters.dfy` | a call is granted iff no window of the past would be overdrawn; window bound; a spaced caller is never refused |
| per-address limiter, 256 shards, idle eviction | `ip_limiter.dfy`, `sharding.dfy` | sharding and eviction are invisible, and exactly when |
| adaptive limiter with a penalty box | `penalty_box.dfy`, `adaptive_limit.dfy` | window bounds in normal and in low traffic, ten closed seconds after a breach, least wait, when a ban is asked for, what the cleanup forgets |
| kernel packet filter, both forms | `packet_filter.dfy`, `bytes.dfy` | the reordering keeps verdict and counter, and exactly when; what is dropped, for every packet behind VLAN tags |
| kernel drop map and its user-space totals | `blacklist.dfy`, `drop_accounting.dfy`, `poll_reports.dfy`, `xdp_manager.dfy` | conservation, monotone reports, which keys a poll may visit for its report to stand, exactness iff every address kept to one life of its entry |
| TLS ClientHello parser | `client_hello.dfy` | parsing inverts encoding; the version reported; it leaves its bounds exactly on odd suite lengths at the end of the buffer |
| rule engine with keyword pre-filter | `rule_engine.dfy`, `prefilter.dfy`, `inspection.dfy`, `text.dfy` | what an inspection matches, scores and blocks; the pre-filter is invisible, and exactly on which requests and for which rules and patterns |
| upstream pool | `upstream.dfy`, `cyclic.dfy` | bounded waiting, each live backend once a round, down iff the last three checks failed |
| ban table with lazy expiry, kernel copy | `ban_state.dfy`, `ban_copies.dfy` | bans are those of the history; exactly which addresses the kernel map holds, whatever it held at start |
| ban gossip | `gossip.dfy`, `replication.dfy` | a delivered ban holds; provenance and expiry bound of every ban under loss, repetition and reordering; message bound; one leader |
| challenge proofs | `challenge.dfy` | exact cookie lifetime, who is let through without a cookie, a tight bound of two lifetimes on any accepted proof |
| configuration centre | `config_center.dfy` | hooks always see the configuration in force, restores reinstate what was saved, a failed save changes nothing |
| configuration diff | `diff.dfy` | the diff determines both texts |
| security log ring and live stream | `log_store.dfy`, `log_stream.dfy` | queries answer from the latest events; no event is sent twice; what a poll misses |
| attack hysteresis | `attack_detector.dfy` | under attack iff one of the last ten checks exceeded; starts and ends alternate |

Where the code falls short of a property one would expect of it, the model keeps the code and states
the exact condition:

- `IpLimiters.EvictionInvisibleIff`: evicting an idle bucket shows as soon as a burst of at least one
  token needs more than ten minutes to refill.
- `PenaltyBoxes.EvictionUnseenIff`: the five-minute cleanup shows in strict traffic exactly when the bucket
  had violations or was not full again; `LenientTrafficSeesEviction`: lenient traffic sees it always.
- `PacketFilters.VerdictsDifferIff`: the frames that tell the two filters apart, by tags, header length,
  source and port; `ExtraTagsDiffer` and `ShortHeaderDiffers` build such frames.
- `DropAccounting.ExactIff`: a poll's total is exact iff no address was dropped from in two lives of its
  entry, or in one that ended before a poll read its last count.
- `PollReports.UndisturbedIff`: a poll whose loop visits a key twice can report more than was dropped;
  `UnbanRestartsIteration`: UnbanIP does not wait for a poll, and removing the entry at which the map
  iteration stands makes it start over.
- `ClientHellos.PanicsIff`: an odd cipher-suite length that ends with the buffer indexes past it;
  `OddSuitesPanic` is such a buffer.
- `ClientHellos.SixteenSkippedIff`: the GREASE test accepts every 0x?a?a, not only the sixteen values its
  comment lists, so an offer of 0x1a2a is passed over.
- `Prefilters.PrefilterInvisibleOnIff`: a request shows the pre-filter iff some word of a value it offers is
  not in the concatenated payload; `DecodingShowsIff` brings that down to the decoded arguments.
- `Prefilters.PrefilterInvisibleIff`: a negated rule with a keyword loses matches to the pre-filter.
- `Prefilters.KeywordSoundIff`: an rx rule of any pattern loses matches iff the pattern matches some text
  without the extracted keyword; `EscapeShows` is one with a backslash.
- `BanCopies.CoveredIffCanonical`: among the strings in use, two spellings of one address share a kernel
  entry, and unbanning one uncovers the other.
- `BanCopies.InKernelIff`: an entry outlives its ban iff isBanned deleted the ended ban before Cleanup did,
  or the entry was there at start and nobody named the address since.
- `Challenges.FullLifetimeIff`: the issue time is stored in whole seconds, so up to a second of the
  lifetime is lost.
- `ConfigCenters.RepeatedTimeLosesText`: a revision written at the time of an older one replaces it.
- `LogStreams.PollCatchesUpIff`: a poll misses events iff more than fifty wait or one has an ID at or below
  the last one sent; `SentLaterIff`: what a poll cannot reach is never sent.

The comment in docs/SETUP.md speaks of ten seconds without harmful requests before an attack ends;
the code counts ten ticks at or below the threshold, and the model follows the code.

## Model

| member | source | states |
|---|---|---|
| TokenBuckets.GrantedIffEveryWindowHasRoom | perf/pool.go:72-90 | after any timely history of calls and rate changes, a call on a bucket that started full is granted exactly when no window opened by an earlier call would be overdrawn by it |
| TokenBuckets.WindowBound | perf/pool.go:72-97 | tokens granted between two calls total at most capacity + rate × time, with the largest rate in force when SetRate intervenes |
| TokenBuckets.SpacedCallerNeverRefused | perf/pool.go:68-90 | calls at least 1/rate apart on a fresh bucket with capacity ≥ 1 are all granted |
| TokenBuckets.RangeKeptIff | perf/pool.go:73-90 | a call keeps every bucket within 0..capacity exactly when neither the rate nor the request is negative |
| TokenBuckets.LevelWithinRoom | perf/pool.go:73-90 | the level never exceeds what any window since an earlier call leaves |
| TokenBuckets.TightWindow | perf/pool.go:73-90 | some window accounts for the level exactly |
| TokenBuckets.TokenBucket.constructor | perf/pool.go:58-65 | a new bucket is full |
| TokenBuckets.TokenBucket.AllowN | perf/pool.go:73-90 | the in-place refill and take are the step function; the answer tells whether the tokens were there |
| TokenBuckets.TokenBucket.Allow | perf/pool.go:68-70 | a call for one token |
| TokenBuckets.TokenBucket.SetRate | perf/pool.go:93-97 | changes the rate and nothing else, without refilling first |
| TokenBuckets.TokenBucket.LastSeen | perf/pool.go:100-104 | the time of the last call |
| IpLimiters.EvictionInvisible | perf/pool.go:129-225 | while burst stays the same and is at most 600 × every rate in force, the evicting limiter answers every run as one that keeps a bucket per address for ever |
| IpLimiters.EvictionInvisibleIff | perf/pool.go:144-225 | for all rates and bursts: eviction is invisible in all traffic iff burst < 1 or burst ≤ 600 × rate |
| IpLimiters.EvictionShows | perf/pool.go:209-225 | otherwise some run of calls and sweeps is answered differently |
| IpLimiters.RunsAgree | perf/pool.go:144-225 | a simulation between the evicting and the never-evicting limiter carries over to all answers |
| IpLimiters.OwnBucket | perf/pool.go:144-168 | an address has no bucket before its first call, and then the one that its own calls and the rate changes produce from a full bucket with the settings in force at that call |
| IpLimiters.IPRateLimiter.constructor | perf/pool.go:129-141 | 256 empty shards |
| IpLimiters.IPRateLimiter.Find | perf/pool.go:144-167 | the address's bucket, made full if there is none, in the shard its FNV-1a hash selects |
| IpLimiters.IPRateLimiter.Allow | perf/pool.go:144-168 | through the shards: the answer and state of one map of buckets |
| IpLimiters.IPRateLimiter.PushRate | perf/pool.go:171-206 | every bucket of every shard gets the new rate |
| IpLimiters.IPRateLimiter.SetGlobalRate | perf/pool.go:171-184 | rate changes for new and present buckets, burst stays |
| IpLimiters.IPRateLimiter.SetRate | perf/pool.go:187-206 | rate and burst change for new buckets, present ones keep their capacity |
| IpLimiters.IPRateLimiter.Sweep | perf/pool.go:209-225 | exactly the buckets idle for more than ten minutes are gone, in all shards |
| IpLimiters.IPRateLimiter.SweepShard | perf/pool.go:213-223 | sweeping one shard touches no other |
| Sharding.HoldsPut | perf/pool.go:144-167 | storing a key in its shard keeps all shards parts of one map |
| Sharding.HoldsDrop | core/sharded_map.go:54-60 | removing a key from its shard keeps all shards parts of one map |
| PenaltyBoxes.PassWindowBound | detection/detection.go:206-277 | in any window of length T of one bucket's life at most (Burst + 5) + (RPS + 2)·T requests pass, and at most Burst + RPS·T if no request of the window is lenient |
| AdaptiveLimits.AdaptiveWindowBound | detection/detection.go:206-277 | in runs of calls for all addresses at any global traffic, with the baseline moving: at most Burst + RPS·T requests of an address pass in a window in which the traffic is never below half of a positive baseline, or in an engine that does not adapt; 5 and 2·T more in any window |
| AdaptiveLimits.FiveMorePass | detection/detection.go:241-258 | below half of a positive baseline the smaller bound fails: some run lets Burst + 5 requests of an address pass at one instant |
| AdaptiveLimits.RoomForFiveIff | detection/detection.go:241-258 | what a request outside the box finds in its bucket is level plus inflow up to a ceiling, with rate and ceiling 2 and 5 higher exactly when the engine adapts, the baseline is positive and the traffic is below half of it; only then can it find Burst + 5 |
| AdaptiveLimits.DisabledPassesAll | detection/detection.go:206-210 | with the limit off every request passes and no buckets are kept |
| PenaltyBoxes.BreachClosesBox | detection/detection.go:228-276 | in the 10 s after a breach nothing passes and no further breach occurs |
| PenaltyBoxes.WaitIsLeast | detection/detection.go:228-239 | a refusal's wait is within 1..10 and is the least whole number of seconds after which the box is open |
| PenaltyBoxes.ViolationsCountRefusals | detection/detection.go:228-276 | the violation count is the number of refusals |
| PenaltyBoxes.BanRequiredIff | detection/detection.go:228-276 | when exactly a refusal asks for a ban: from the 4th refusal on a breach, from the 51st inside the box |
| PenaltyBoxes.SweepSparesTheBox | detection/detection.go:356-363 | an idle bucket is never inside its penalty, so the cleanup frees nobody early |
| PenaltyBoxes.EvictionUnseenIff | detection/detection.go:356-363 | for strict traffic, all replies after the cleanup agree with the old bucket's iff it had no violations and was full again |
| PenaltyBoxes.FullAtIff | detection/detection.go:253-258 | full again means tokens + idle time × RPS ≥ Burst; a burst that refills within five minutes always is |
| PenaltyBoxes.LenientTrafficSeesEviction | detection/detection.go:241-258 | after every eviction some lenient traffic is answered differently |
| PenaltyBoxes.EveryLifeQualifies | detection/detection.go:206-277 | every bucket's life satisfies what these theorems ask of a bucket |
| PenaltyBoxes.NewIsSound | detection/detection.go:212-220 | a new bucket satisfies the invariant of the window and box theorems |
| PenaltyBoxes.RateLimitBucket.constructor | detection/detection.go:214-219 | a new bucket is full and outside the box |
| PenaltyBoxes.RateLimitBucket.Decide | detection/detection.go:222-277 | the in-place decision is the step function and its reply |
| PenaltyBoxes.Engine.constructor | detection/detection.go:84-111 | no counters at first |
| PenaltyBoxes.Engine.CheckRateLimit | detection/detection.go:206-277 | one step of the runs of AdaptiveWindowBound: changes the bucket of the asked address only; nothing at all when rate limiting is off |
| PenaltyBoxes.Engine.UpdateConfig | detection/detection.go:113-132 | a reload forgets all counters |
| PenaltyBoxes.Engine.CleanupBuckets | detection/detection.go:356-363 | exactly the buckets idle for more than five minutes are gone |
| Blacklists.KeyOfInjective | core/xdp.go:216-224 | two IPv4 addresses never share a key of the kernel map |
| Blacklists.BpfMap.constructor | xdp/mango_xdp.c:12-19 | the map is empty |
| Blacklists.BpfMap.UpdateNoExist | core/xdp.go:225-239 | inserts a zero counter only if the key is new and there is room |
| Blacklists.BpfMap.Delete | core/xdp.go:254-259 | removes the key, with its counter |
| Blacklists.BpfMap.AddOne | xdp/mango_xdp.c:83-85 | counts one drop for a key that is present |
| PacketFilters.ReorderingPreservesVerdict | xdp/mango_xdp.c:23-89 | on frames without extra tags and with a legal header length the blacklist-first filter and bin/xdp/mango_xdp.c give the same verdict and counter |
| PacketFilters.VerdictsDifferIff | bin/xdp/mango_xdp.c:23-84 | the programs differ iff the source is banned and either extra tags hide a packet that is not SSH, or a header below five words has extra tags or makes header bytes look like port 22 |
| PacketFilters.OldDropMeaning | bin/xdp/mango_xdp.c:23-84 | the older program drops and counts an IPv4 packet iff it has no tag or a single one it knows, its source is banned and it is not TCP to port 22 |
| PacketFilters.ExtraTagsDiffer | bin/xdp/mango_xdp.c:23-84 | every packet with two tags, or a 0x9100 tag, from a banned source and not TCP: dropped by the current program, passed by the older |
| PacketFilters.ShortHeaderDiffers | bin/xdp/mango_xdp.c:23-84 | a frame with header length 0 whose total length is 22: dropped by the current program, passed by the older |
| PacketFilters.DropMeaning | xdp/mango_xdp.c:23-89 | every IPv4 packet behind any number of VLAN tags is dropped and counted iff it has at most two tags, its source is banned and it is not TCP to port 22 |
| PacketFilters.XdpDropBanned | xdp/mango_xdp.c:23-89 | the pointer-moving program never reads past data_end on any frame, and gives this verdict and counter update |
| PacketFilters.OldXdpDropBanned | bin/xdp/mango_xdp.c:23-84 | likewise for the older program |
| DropAccounting.Conservation | core/xdp.go:263-301 | in every interleaving of packets, bans, unbans, visits and polls, from any sound start, lifetimeDrops is the sum of lastObserved and at most the packets really dropped |
| DropAccounting.AttachIsSound | core/xdp.go:58-101 | attaching to a live map with any counters is such a start |
| DropAccounting.PolledCovers | core/xdp.go:263-301 | after an uninterrupted poll the total is at least the sum of the current counters |
| DropAccounting.ReportedNeverDecreases | core/xdp.go:263-301 | totals of successive uninterrupted polls never decrease |
| PollReports.InterruptedReport | core/xdp.go:276-300 | as long as a poll's loop visits no key twice, with any events between its visits, what it adds up never exceeds lifetimeDrops, which is thus what it reports |
| PollReports.InterruptedReportsGrow | core/xdp.go:276-300 | totals of successive polls whose loops visit no key twice never decrease, whatever interrupts them |
| PollReports.UndisturbedIff | core/xdp.go:276-300 | for any sequence of visited keys: polls with these visits report lifetimeDrops from every start and with all interruptions iff no key occurs twice, and a key that does disturbs the report of some map by itself |
| PollReports.UnbanRestartsIteration | core/xdp.go:243-289 | two visits, an unban of the second key, and the first key again: the poll reports more than was dropped, the next one less |
| DropAccounting.ExactIff | core/xdp.go:243-301 | after attaching to any map and any run, a poll's total is exact iff each address was dropped from in one life of its entry only, whose last drop a poll had read if an unban ended it |
| DropAccounting.ExactWithoutLoss | core/xdp.go:243-301 | every poll is exact in runs where no unban of an address follows a drop of it |
| DropAccounting.UnbanLosesDrops | core/xdp.go:243-301 | ban, drop, unban, poll reports too little |
| DropAccounting.RebanKeepsCounter | core/xdp.go:227-239 | banning again never resets a counter |
| DropAccounting.NeverOverfull | xdp/mango_xdp.c:12-19 | in no run do bans put more than a million addresses into the map |
| DropAccounting.BannedTrafficIsDropped | core/xdp.go:211-240 | after a ban with room in the map the address's packets are dropped and counted, except TCP to port 22 |
| XdpManagers.XDPManager.constructor | core/xdp.go:31-40 | no drops observed at first |
| XdpManagers.XDPManager.BanIP | core/xdp.go:211-240 | the map gets the IPv4 key if enabled; a malformed address and a full map are errors, a disabled manager and a key already there are not |
| XdpManagers.XDPManager.UnbanIP | core/xdp.go:243-260 | the map loses the key; the observations stay |
| XdpManagers.XDPManager.GetStats | core/xdp.go:263-301 | one poll: count, total and new observations in terms of the whole map |
| XdpManagers.XDPManager.VisitEntry | core/xdp.go:283-288 | one counter's growth is added to the lifetime total |
| XdpManagers.XDPManager.AddEntry | core/xdp.go:279-289 | one turn of the loop keeps its sums those of the entries seen |
| XdpManagers.XDPManager.PollEntries | core/xdp.go:268-294 | the loop's result does not depend on the order in which the map is iterated |
| ClientHellos.RoundTrip | fingerprint/tls_parser.go:12-161 | for every ClientHello that fits its length fields, parsing its encoding, whatever follows it, reports exactly its suites, extensions and versions |
| ClientHellos.EveryExtensionReported | fingerprint/tls_parser.go:117-145 | with one extension per type, the report lists the types in order and gives groups, point formats, signature algorithms, ALPN, SNI and versions as encoded |
| ClientHellos.ExtensionReadsBack | fingerprint/tls_parser.go:163-240 | inside an extension a list ends where its length field says: bytes after it are not reported |
| ClientHellos.VersionReported | fingerprint/tls_parser.go:147-158 | the version reported of any ClientHello with one extension per type is the largest it offers that is not of the form 0x?a?a, and its legacy version if there is none or no such extension |
| ClientHellos.Tls13Reported | fingerprint/tls_parser.go:147-158 | a ClientHello that offers 0x0304 and otherwise only lower versions and the sixteen GREASE values is reported with 0x0304, wherever these stand |
| ClientHellos.SixteenSkippedIff | fingerprint/fingerprint.go:83-86 | the test takes 240 more values for GREASE than the sixteen it names: the report is the largest offer besides the sixteen iff each of the 240 that is offered is below a version that stands, or the largest of them is also the legacy version |
| ClientHellos.HighestIsMaximum | fingerprint/tls_parser.go:147-158 | the loop's maximum over the offered versions that are not GREASE; VersionReported says which these are |
| ClientHellos.PanicsIff | fingerprint/tls_parser.go:12-161 | the parser stays in bounds on every input except exactly those with an odd suite length whose suites end with the caller's buffer |
| ClientHellos.OddSuitesPanic | fingerprint/tls_parser.go:92-95 | a 47-byte ClientHello with one byte of suites is such an input |
| ClientHellos.ReadNumbers | fingerprint/tls_parser.go:175-185 | the two-byte numbers of a slice, an odd byte left over |
| ClientHellos.ReadPointFormats | fingerprint/tls_parser.go:187-197 | the point formats, cut at the end of the data |
| ClientHellos.ReadAlpn | fingerprint/tls_parser.go:211-228 | the protocol names up to the first that does not fit |
| ClientHellos.ReadExtension | fingerprint/tls_parser.go:129-142 | one extension's effect on the report |
| ClientHellos.ReadExtensions | fingerprint/tls_parser.go:117-145 | the extension loop, up to the first that does not fit |
| ClientHellos.ReadVersion | fingerprint/tls_parser.go:147-158 | the version loop, whose result VersionReported describes |
| ClientHellos.ReadSuites | fingerprint/tls_parser.go:92-96 | the suite loop, which may run past an odd length |
| ClientHellos.ReadAfterSuites | fingerprint/tls_parser.go:98-160 | compression methods and extensions |
| ClientHellos.ParseClientHelloBody | fingerprint/tls_parser.go:61-161 | the cursor-moving body parser is the parsing function |
| ClientHellos.ParseClientHello | fingerprint/tls_parser.go:12-46 | the record and handshake headers, and each of their errors |
| Prefilters.PrefilterInvisibleOnIff | rules/engine.go:135-181 | for any ASCII request, inspection with both keyword checks agrees with inspection without them for all lists of rules with keywords from rx patterns of literals and '.', iff every word of four or more keyword characters in a value it offers is in its payload |
| Prefilters.PrefilterInvisible | rules/engine.go:112-197 | on origin-form requests without percent-encoding it gives the same matches, score, blocked flag, action and top rule for all such lists |
| Prefilters.DecodingShowsIff | rules/engine.go:337-361 | on any origin-form request, encoded or not, it does iff every word of an argument value is in the payload |
| Prefilters.DecodingShows | rules/engine.go:337-361 | a deliverable request with an encoded letter in its query: the rule that looks for the word blocks it only without the pre-filter |
| Prefilters.PrefilterInvisibleIff | rules/engine.go:266-426 | for one enabled rule of literals and '.' the pre-filter is invisible on all deliverable requests of that form iff the rule is not a negation with a keyword |
| Prefilters.KeywordSoundIff | rules/engine.go:388-426 | for one enabled rx rule of any pattern that looks at headers it is invisible on all such requests iff every header text the pattern matches contains the extracted keyword |
| Prefilters.EscapeShows | rules/engine.go:481-509 | a pattern with an escaped letter that matches a text without the keyword: the inspections differ |
| Prefilters.AddedRuleIsPrepared | rules/engine.go:429-447 | rules that AddRule accepts carry the keyword and compiled form the theorems ask for |
| Inspections.InspectionIs | rules/engine.go:112-197 | the matches of any request that is not for a static file are exactly the rules, in list order, that are enabled, within the level, let through by the pre-filter when it is on, and have a target offering a value their operator accepts, each showing the first such value; blocked iff one of them has action block or drop, with action and top rule those of the last such one; the score adds 25, 15, 10, 5 and 1 by severity |
| Inspections.EveryAcceptingRuleMatches | rules/engine.go:112-197 | with the pre-filter on, on requests in origin form without percent-encoding the safe rules that match are exactly those that are enabled, within the level and accept a value |
| Inspections.StaticAssetIs | rules/engine.go:127-130 | which paths are static files: those under /_next/static/ and those with one of six endings |
| Inspections.OperatorMeaning | rules/engine.go:388-426 | the pattern operators look, whatever the case, anywhere in a value, at all of it, at its start or its end; rx and !rx ask the regular expression; unknown operators accept nothing |
| Inspections.TargetsOffer | rules/engine.go:266-335 | the values each target offers |
| Inspections.ArgsOffered | rules/engine.go:337-361 | the arguments of a query written with & and ; are its values in order, decoded where all their escapes are good |
| Inspections.CookiesOffered | rules/engine.go:363-386 | the cookies of a Cookie header are its values in order, without spaces around them and quotes around the value |
| RuleEngines.FirstTargetIs | rules/engine.go:266-335 | a rule matches iff a target offers a value its operator accepts, and shows the first |
| RuleEngines.MatchContainsKeyword | rules/engine.go:388-426 | whatever a pattern of literals and '.' matches contains its keyword in lower case |
| RuleEngines.KeywordIsLongestRun | rules/engine.go:481-509 | the keyword is a longest run of keyword characters, empty when too short or when the pattern has choices |
| RuleEngines.EscapeTakenForLiteral | rules/engine.go:481-509 | the letter of an escape is taken for a literal |
| RuleEngines.ExtractRequiredKeyword | rules/engine.go:481-509 | the scanning loop computes the keyword |
| RuleEngines.Engine.constructor | rules/engine.go:96-110 | no rules at first |
| RuleEngines.Engine.SetParanoiaLevel | rules/engine.go:25-38 | the level ends up within 1..4; a level in that range is taken as it is |
| RuleEngines.Engine.AddRule | rules/engine.go:429-447 | appends the prepared rule, or reports a pattern that does not compile and changes nothing |
| RuleEngines.Engine.MatchArgs | rules/engine.go:337-361 | the first matching query argument |
| RuleEngines.Engine.MatchCookies | rules/engine.go:363-386 | the first matching cookie value |
| RuleEngines.Engine.MatchValues | rules/engine.go:266-335 | the first value of one target that the operator accepts |
| RuleEngines.Engine.MatchRule | rules/engine.go:266-335 | the first target that offers such a value |
| RuleEngines.Engine.Inspect | rules/engine.go:112-197 | the loop over the rules computes the inspection that InspectionIs describes; the three counters |
| Upstreams.BoundedWaiting | core/upstream.go:92-145 | under arbitrary health changes of the others, a backend that stays alive is returned within any n consecutive calls on n backends |
| Upstreams.EachAliveOnce | core/upstream.go:122-142 | with a fixed alive set of m, any m consecutive calls return each alive backend exactly once |
| Upstreams.CallTurnsQueue | core/upstream.go:122-142 | a call returns the head of the queue of live backends and moves it to the end |
| Upstreams.FallbackTakesTurns | core/upstream.go:137-142 | with no backend alive, the calls take turns over all of them |
| Upstreams.DownIffLastThreeFailed | core/upstream.go:207-221 | a backend is down exactly when its last three checks all failed |
| Upstreams.DownIffProbesFail | core/upstream.go:194-221 | a backend is down exactly when each of its last three probes ended in an error or in status 500, 502 or 504 |
| Upstreams.Backend.constructor | core/upstream.go:57-90 | a backend starts alive |
| Upstreams.Backend.Record | core/upstream.go:207-221 | one check's effect on Failures and IsAlive |
| Upstreams.Pool.constructor | core/upstream.go:57-90 | the turn starts at the first backend |
| Upstreams.Pool.FindAlive | core/upstream.go:122-135 | the distance to the first live backend from Current |
| Upstreams.Pool.GetNext | core/upstream.go:92-145 | which backend is returned and where Current goes, with the fallback and the empty pool |
| BanStates.LazyExpiryRefinesHistory | core/pipeline.go:860-874 | an address is banned at t iff the latest ban since the last unban set an expiry ≥ t, whatever queries and cleanups deleted |
| BanCopies.InKernelIff | core/pipeline.go:993-1131 | whatever the kernel map held at start, with room in it and strings that do not spell one address twice, a bannable IPv4 address is in it iff it is banned, left the table through isBanned, or was there at start and has not been named |
| BanCopies.CopiesCoherent | core/pipeline.go:993-1131 | in every reachable state nobody whitelisted or trusted is banned, the counter covers the entries and, under the same conditions, every banned IPv4 is in the kernel map |
| BanCopies.KernelCovers | core/pipeline.go:1014-1131 | with room in the kernel map and strings that do not spell one bannable address twice, every banned IPv4 address is in it |
| BanCopies.CoveredIffCanonical | core/pipeline.go:1062-1081 | for any set of strings: the kernel map covers the bans in all runs that ban and unban these iff no two of them spell one bannable address |
| BanCopies.LazyDeletionStrandsKernelEntry | core/pipeline.go:860-874 | such an entry: ban, late query, cleanup |
| BanStates.NoProtectedBanned | core/pipeline.go:1014-1024 | no whitelisted or trusted address is ever banned |
| BanStates.CounterCovers | core/pipeline.go:1014-1131 | BannedIPs exceeds the number of entries by those that late queries and single unbans removed since the last UnbanAllIPs |
| BanStates.ShardedTimeMap.constructor | core/sharded_map.go:19-28 | all shards empty |
| BanStates.ShardedTimeMap.Load | core/sharded_map.go:39-45 | the value under the key, through its shard |
| BanStates.ShardedTimeMap.Store | core/sharded_map.go:47-52 | replaces one key |
| BanStates.ShardedTimeMap.Delete | core/sharded_map.go:54-60 | removes one key |
| BanStates.ShardedTimeMap.LoadOrStore | core/sharded_map.go:63-79 | keeps a present value, stores an absent one, and tells which |
| BanStates.ShardedTimeMap.Cleanup | core/sharded_map.go:82-97 | exactly the entries that ended before now are gone; their number is returned |
| BanStates.ShardedTimeMap.CleanupShard | core/sharded_map.go:84-95 | the same for one shard |
| BanStates.ShardedTimeMap.Clear | core/sharded_map.go:99-107 | nothing is left |
| BanStates.ShardedTimeMap.Snapshot | core/sharded_map.go:109-120 | all shards in one map |
| BanStates.Pipeline.constructor | core/pipeline.go:239-277 | nobody is banned at first; the kernel map is left as found |
| BanStates.Pipeline.BanIp | core/pipeline.go:1014-1054 | table, counter and kernel map after a ban, none for protected addresses |
| BanStates.Pipeline.BanIPRemote | core/pipeline.go:1006-1011 | a remote ban changes the state as a ban does |
| BanStates.Pipeline.BanIPLocal | core/pipeline.go:993-1003 | a local ban, and whether it is to be broadcast |
| BanStates.Pipeline.IsBannedNow | core/pipeline.go:860-874 | the answer, and the lazy deletion, which leaves counter and kernel map alone |
| BanStates.Pipeline.UnbanIP | core/pipeline.go:1062-1081 | the entry and its kernel key go |
| BanStates.Pipeline.UnbanAllIPs | core/pipeline.go:1100-1113 | all entries and their kernel keys go |
| BanStates.Pipeline.Cleanup | core/pipeline.go:1116-1131 | exactly the ended bans go from table and kernel map |
| Gossip.BanProvenance | cluster/gossip.go:95-123 | under loss, duplication and reordering every ban entry on any node expires less than 61 s after the ban of some node's own decision for that address would |
| Replications.DeliveredBanHolds | cluster/gossip.go:95-123 | in every run of the cluster: once a decision of a meshed node is delivered to a meshed node of another name at most 60 whole seconds later, the address is banned there exactly until delivery time plus duration, unless that node protects it, until it bans the address anew or lifts the ban |
| Replications.EchoIgnored | cluster/gossip.go:98-103 | delivering a node's own message, or one more than 60 whole seconds old, leaves the cluster as it was |
| Replications.HandlersGet | cluster/gossip.go:95-123 | only messages of other nodes at most 60 whole seconds old reach a handler: unban and unban_all the unban handler, with the address and with "all", every other action the ban handler |
| Replications.NodeIsPipeline | core/pipeline.go:993-1011 | each node's ban table is that of a pipeline that runs through its accepted decisions, the bans delivered to it and its own queries, cleanups and unbans |
| Gossip.DecisionsAreEvents | core/pipeline.go:993-1003 | every decision so recorded was made and accepted by a node |
| Gossip.BroadcastsBounded | main.go:202-204 | handling a remote ban sends nothing: never more broadcasts than local decisions |
| Gossip.ExactlyOneLeader | cluster/gossip.go:453-474 | nodes that agree on the members agree on exactly one leader |
| Gossip.MeshNode.constructor | cluster/gossip.go:211-246 | nothing queued at first |
| Gossip.MeshNode.BroadcastBan | cluster/gossip.go:326-347 | queues one ban message with the node's name and the time in whole seconds |
| Gossip.MeshNode.NotifyMsg | cluster/gossip.go:75-139 | the handler that HandlersGet describes |
| Gossip.MeshNode.IsLeader | cluster/gossip.go:453-474 | the running minimum finds whether the node has the lowest key |
| Gossip.Edge.constructor | main.go:202-204 | a node is its pipeline and its mesh |
| Gossip.Edge.Decide | core/pipeline.go:993-1003 | a local decision bans and queues one message |
| Gossip.Edge.Deliver | main.go:202-204 | a delivered ban is taken over and nothing is queued |
| Challenges.FreshCookieVerifiesIff | challenge/challenge.go:98-197 | a cookie issued at s verifies at exactly the times up to the lifetime after the second of s |
| Challenges.FullLifetimeIff | challenge/challenge.go:180-197 | the full lifetime is served iff the cookie was issued on the second |
| Challenges.ProofLifetimeBound | challenge/challenge.go:62-197 | over any run of solves, verifications, evictions and clears, an accepted request rests on an issue less than two lifetimes old |
| Challenges.BoundIsTight | challenge/challenge.go:98-162 | a request is accepted at any time below two lifetimes in some run |
| Challenges.AcceptedIff | challenge/challenge.go:98-162 | over any run, a request is accepted iff its address proved itself less than a lifetime before, or it shows a good proof cookie, or a good session cookie and no proof cookie |
| Challenges.CookielessIff | challenge/challenge.go:62-172 | over any run, a request without a cookie is accepted iff its address last solved a challenge, or showed a good proof cookie past the cache, since the last clear and less than a lifetime before, whatever evictions, requests and session cookies came between |
| Challenges.SessionsProveNothing | challenge/challenge.go:153-178 | an address that since the last clear has neither solved a challenge nor shown a proof cookie is refused whenever it shows no cookie |
| Challenges.CookieOkIff | challenge/challenge.go:117-151 | a cookie value is accepted iff it is signed, names an owner and, where its stamp is a number, is not older than the lifetime |
| Challenges.MalformedRefused | challenge/challenge.go:117-151 | a value without a bar, or without an underscore before it, is refused |
| Challenges.ParseShown | challenge/challenge.go:134-139 | parsing a printed timestamp gives it back |
| Challenges.Manager.constructor | challenge/challenge.go:39-52 | nobody is verified at first |
| Challenges.Manager.CheckCookie | challenge/challenge.go:117-151 | which cookie values are accepted at a time |
| Challenges.Manager.VerifyProof | challenge/challenge.go:98-162 | cache first, then cookies: one step of the runs of CookielessIff and ProofLifetimeBound |
| Challenges.Manager.SetProofCookie | challenge/challenge.go:165-172 | a solve is cached and gets its cookie |
| Challenges.Manager.SetSessionCookie | challenge/challenge.go:175-178 | the same cookie value, nothing cached |
| Challenges.Manager.SetCookie | challenge/challenge.go:180-197 | the value is the signed address and time |
| Challenges.Manager.ClearCache | challenge/challenge.go:62-68 | nobody is cached |
| Challenges.Manager.EvictExpired | challenge/challenge.go:70-81 | exactly the entries older than the lifetime go |
| ConfigCenters.SaveIsTransaction | config/center.go:186-264 | a save succeeds iff the text is valid, the revision is written and no hook fails; otherwise configuration and text are unchanged |
| ConfigCenters.HooksSeeConfigInForce | config/center.go:247-260 | after a save that reached the hooks every registered hook was last called with the configuration in force, whichever failed |
| ConfigCenters.AlwaysInForce | config/center.go:186-264 | in every run of registrations, saves and restores the configuration in force is that of the text in force, and no hook was last called with another |
| ConfigCenters.RestoreReinstates | config/center.go:321-330 | when no revision time repeats, restoring a version succeeds iff its file can be read, the new revision is written and no hook fails, and then text and configuration are those saved under it |
| ConfigCenters.RepeatedTimeLosesText | config/center.go:200-206 | a save keeps the text of version v iff it is made at another time or of the same text |
| ConfigCenters.HistoryIsKept | config/center.go:200-216 | history files keep the text of every revision |
| ConfigCenters.MainFileFollows | config/center.go:218-257 | the main path stays if it takes the text or nothing does, and else moves to the first alternative that does; then the main file holds the text in force, also after a rollback that can be written |
| ConfigCenters.ConfigCenter.constructor | config/center.go:69-97 | a centre with a loaded configuration and no hooks |
| ConfigCenters.ConfigCenter.RegisterReloadHook | config/center.go:100-104 | one more hook, which has not been called |
| ConfigCenters.ConfigCenter.SaveYAML | config/center.go:186-264 | the in-place save, its early returns, the hook loop and the rollback are the save of the model |
| ConfigCenters.ConfigCenter.TriggerHooks | config/center.go:247-260 | hooks are called in order up to the first that fails, then all of them with the old configuration |
| ConfigCenters.ConfigCenter.WriteMain | config/center.go:221-242 | the first alternative path that takes the text becomes the main path |
| ConfigCenters.ConfigCenter.RestoreRevision | config/center.go:321-330 | saves what the version's file holds, or reports that it is not there |
| Diffs.DiffDeterminesBothTexts | config/center.go:457-503 | for all texts, the context and minus lines of the diff without their marks spell the old text, the context and plus lines the new one |
| Diffs.GenerateDiff | config/center.go:457-503 | the two-pointer loop ends, and both texts can be recovered from what it returns |
| Diffs.EditsDetermineBoth | config/center.go:478-500 | the same for the marked lines, from any point of the loop |
| Diffs.OnlyInsertions | config/center.go:479-500 | when the new text is the old one with foreign lines put in, no line is marked as removed |
| Diffs.OnlyDeletions | config/center.go:479-500 | when the new text is the old one with all copies of some lines left out, no line is marked as added |
| Diffs.CollectLines | config/center.go:467-474 | the set of a text's lines |
| LogStores.PlacesMeaning | core/logstore.go:172-216 | a query's answer: matching events only, newest first, at most the limit, and a match is left out only when that many newer ones are there |
| LogStores.MatchesMeaning | core/logstore.go:180-208 | what a query with spaces around its parts accepts: its type or ALL, its domain within the event's, its search text within address, domain, path, rule, action and description put together, all ignoring case |
| LogStores.LogStore.constructor | core/logstore.go:67-78 | an empty ring |
| LogStores.LogStore.Append | core/logstore.go:88-99 | the ring holds the last min(count, capacity) events since the last clear |
| LogStores.LogStore.Clear | core/logstore.go:219-227 | the ring is empty again |
| LogStores.LogStore.QueryLogs | core/logstore.go:172-216 | the newest at most 500 matches among the events the ring holds |
| LogStores.Accepts | core/logstore.go:195-208 | the three filters of a query |
| LogStreams.SentAtMostOnce | api/dashboard.go:2274-2321 | over any appends, clears and polls no event is sent twice, in whatever order IDs enter the ring |
| LogStreams.PollCatchesUpIff | api/dashboard.go:2282-2317 | a poll sends all events newer than the last batch that the ring still holds iff they are at most 50 and none has an ID at or below the last one sent |
| LogStreams.NothingLost | api/dashboard.go:2274-2321 | with IDs in order and polls that keep up, every event is sent |
| LogStreams.SentLaterIff | api/dashboard.go:2282-2317 | an unsent event is sent in some continuation of the run iff a poll made now would send it: one cut off by the batch size, the ring or a smaller ID is lost for good |
| LogStreams.LateEventIsLost | api/dashboard.go:2292-2296 | an unsent event with an ID at or below the last one sent is sent in no continuation of the run |
| LogStreams.LateArrivalIsLost | api/dashboard.go:2292-2296 | an event recorded with an ID at or below the last one sent is such an event |
| LogStreams.NewEvents | api/dashboard.go:2289-2313 | the loop takes the newest events down to the first already sent, at most 50 |
| LogStreams.Collect | api/dashboard.go:2282-2313 | the query and the loop: as many of the ring's newest events as one poll sends |
| LogStreams.Stream.Tick | api/dashboard.go:2281-2321 | one tick sends exactly the events of one poll of the model and moves lastSentID |
| AttackDetectors.UnderAttackIff | core/server.go:1069-1105 | after every check a domain is under attack iff one of its last ten checks exceeded its threshold |
| AttackDetectors.SlidingWindow | core/server.go:1043-1106 | the same in ticks, for a domain configured once |
| AttackDetectors.UnderAttackFromReadings | core/server.go:1043-1106 | a domain configured once is under attack iff in one of the last ten ticks the cluster's requests to it were above its own limit, or without one above the emergency threshold, or without that above 200 |
| AttackDetectors.StartsAndEndsAlternate | core/server.go:1075-1105 | starts and ends of a domain strictly alternate, each end reports the time since its start, and AttacksDetected is the number of all starts |
| AttackDetectors.EventsAtTheEdges | core/server.go:1075-1105 | an event is raised exactly when a check moves its domain into the ten-check window or out of it |
| AttackDetectors.Detector.constructor | core/server.go:1033-1046 | no domain is under attack at first |
| AttackDetectors.Detector.Tick | core/server.go:1043-1106 | one tick over the configured domains, with the cluster's sums and each domain's threshold |
| AttackDetectors.Detector.Observe | core/server.go:1069-1105 | one check's effect on flags, counts, start times and events |

## Left out

- RuleEngines.Engine.constructor: starts without rules, while the source loads its OWASP set when the WAF is
  enabled; the theorems are about all lists of rules.
- Upstreams.Pool.GetNext: starts from the pool of a host; the lookup by host name, which is fuzzy and depends
  on map order, and weights (stored, never used) are not modelled.
- Gossip.MeshNode.NotifyMsg: the ban branch only; metric and alert messages are not modelled.
- ConfigCenters.ConfigCenter.constructor: starts without revisions; the theorems about runs start from any
  state whose listed revisions have their files.
- Clocks, randomness and the results of I/O are arguments; one locked method is one step, and a method
  that reads the clock twice reads it once here.
- Counters and IDs are unbounded integers; 64-bit wrap-around is not modelled.
- Case conversion is that of ASCII, and what is assumed of regular expressions is assumed on ASCII text only;
  FNV-1a runs over the low byte of each character. Requests whose URL is not path + "?" + query, as with
  percent-encoded paths, are covered by PrefilterInvisibleOnIff alone.
- net.ParseIP, the regular-expression engine beyond literals and '.', url.QueryUnescape, HMAC and the
  YAML decoder are parameters.
- Rule hit counters, updates to a rule through a shared pointer, and the rule file loader.
- The HTTP probes of the health checks.
- Gossip.Edge.Deliver: returns what the unban handler gets and does not run it, because the installed
  handler broadcasts again; nothing is claimed about unban messages.
- BanStates.Pipeline.Cleanup: the snapshot, the deletions and the kernel updates are one step, so a ban
  made between them is not modelled.
- IpLimiters.IPRateLimiter.Sweep: the 256 shards are swept in one step, while the source releases each
  shard's lock before it takes the next.
- ConfigCenters.ConfigCenter.SaveYAML: a hook is a call that may fail; what it does to its own component
  is not modelled.
- BanStates.Pipeline.constructor: installs no mesh handlers; the source's NewPipeline does so if a mesh exists
  by then, and that ban handler would broadcast again. main.go creates the shield before the mesh, so its own
  handlers are in place, and Gossip.BroadcastsBounded is about that order.
- Alerts, domain metrics, memberlist itself and its merge of remote state.
- GetBannedIPsList, which drops an entry at its exact expiry instant, the ban queue to the operating
  system and Cloudflare, and dynamic whitelists with their own expiry.
- Session tracking, baseline statistics, anomaly and behaviour scores, and floating-point rounding.
- Challenge pages, proof-of-work and Turnstile checks: a solve is an event.
- Recording, sampling and geo lookup of log events; the channel between recorder and worker.
- The revision index file, the list loaded from it, named backups (reusing a name overwrites the file),
  the wording of a restore's description, UpdateConfig's merge of cluster settings, and changes made
  through the configuration pointer that GetConfig returns.
- Relative and absolute names of one file count as different paths in the alternatives of a save.
- HTTP handlers, TLS, WebSocket, dashboards and remote APIs: plumbing around unseen libraries.
