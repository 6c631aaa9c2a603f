# AITP/Kelan decision machinery in Dafny

A model of the parts of AITP and Kelan that decide: which packets pass, which requests are
refused, when Ollama is asked, which verdict a session gets, which handshake earns a token, and
what the bounded indexes remember. Each component is modelled in the form it has in the
repository: the objects that update fields are classes whose methods are proved against
specification functions, and what the design promises over whole runs is proved about those
functions as lemmas.

`dafny verify dfyconfig.toml` checks the project.

| file | component |
|---|---|
| `Common.dfy` | options, results, machine-width naturals, bounded queues |
| `FixedWindow.dfy`, `Fnv.dfy`, `Packet.dfy`, `XdpFilter.dfy`, `XdpRuns.dfy` | the XDP program: rate gate, bucket hash, headers, one packet, whole runs |
| `CFilter.dfy` | the C packet filter |
| `SlidingLog.dfy` | the HTTP rate limiter |
| `Trust.dfy`, `Sentinel.dfy`, `TrustEngine.dfy`, `EndToEnd.dfy` | fallback rules, anomaly detector, circuit breaker and engine, their composition |
| `VerdictCache.dfy` | the verdict cache of the Ollama client |
| `Handshake.dfy`, `Protocol.dfy` | the handshake manager, and the API handler as interleaved steps |
| `SessionStore.dfy`, `PermitMap.dfy` | the bounded session store, the userspace permit map |
| `Tokens.dfy`, `HexIdentity.dfy` | base64url and web tokens, hexadecimal entity ids |

## How the system is read

- Time is an input that never goes back: nanoseconds or seconds as naturals in the packet
  filters and the permit map, `real` seconds in the Python services.
- Fresh values (UUIDs, ephemeral keys) are parameters; a session id is assumed never to repeat.
  Cryptography, JSON and hexadecimal libraries are arbitrary functions passed in.
- The packet filters run on one CPU. XDP results hold for arbitrary permits at every packet, so
  userspace may rewrite the permit map at any moment.
- `AitpMinHdr` is 16 bytes with the session id at offset 8, its C alignment. A rejected bounds
  check is the `Aborted` action. The kernel filter does not look at `expires_at`.

Where the code does not keep what a reader might expect, the code is modelled as it is and the
exact condition is proved:

- The fixed-window interval bound fails for the thresholds 0 and 2^32 - 1 and holds for all
  others (`BoundHoldsExactly`).
- HALF_OPEN grants every call until a result arrives (`HalfOpenGrantsEveryone`), although the
  comment in `kelan-python/kelan/ai/engine.py:71` speaks of one probe; the outage bound is
  therefore stated for evaluations that follow one another.
- One evaluation can count as two failures: exactly when Ollama is asked and answers with an error
  verdict while the anomalies hold text, null, a list or an object under one of the four rule keys
  (`TwoFailuresIff`, `TextOpensBreakerAtOnce`). `/api/trust/evaluate` passes such anomalies on; the
  detector never reports them (`EngineWithoutOllama`).
- The two fallback rule sets do not always agree (`RuleSetsAgreeIff`).
- `SessionManager` never evicts the empty session id (`WindowExactIff`, `EmptyIdLingers`).
- A cleanup can be noticed by a question that reads an earlier second (`CleanupUnnoticedIff`).
- The C filter does not count the drop of a short payload (`DropsBalance`).
- The C filter's 32-bit counter wraps: 200 more packets pass per turn (`RateLayerExact`).
- `complete_session` does not look at the phase; that a token is earned follows from the order of
  calls in the API handler (`EverySessionIsLawful`).
- While a phase-3 handler waits for its verdict, its session is lost if and only if, more than 60
  seconds after the SYN, a purge runs or the session's own phase-3 message is repeated
  (`SuspendedSessionSurvivesIff`, `LateReplayLosesToken`).
- A plus sign is accepted as the first character of a hexadecimal pair (`PrintParsed`).

## Model

| member | source | states |
|---|---|---|
| FixedWindow.RateTable.CheckRate | kelan-ebpf/kelan-ebpf-program/src/main.rs:212-241 | one packet updates exactly its bucket's entry and is dropped exactly when the window is open and its saturating count exceeds the threshold; a bucket outside the table fails open |
| FixedWindow.IntervalBound | kelan-ebpf/kelan-ebpf-program/src/main.rs:212-241 | over any run of a bucket, a half-open interval of k windows passes at most (k+1)·threshold packets, and one fewer if none of them lies in the zero-initialised first window |
| FixedWindow.IntervalBoundIsTight | kelan-ebpf/kelan-ebpf-program/src/main.rs:231-240 | for every legal threshold and every k >= 1 whose k windows fit into the 64-bit clock, some run reaches (k+1)·threshold |
| FixedWindow.BoundAttainedIff | kelan-ebpf/kelan-ebpf-program/src/main.rs:228-240 | that bound is reached by some run if and only if k >= 1 and k windows fit into the clock |
| FixedWindow.LaterBoundIsTight | kelan-ebpf/kelan-ebpf-program/src/main.rs:231-240 | outside the zero-initialised first window the smaller bound (k+1)·threshold - 1 is reached for every k >= 1 whose k+1 windows fit into the clock |
| FixedWindow.BoundHoldsExactly | kelan-ebpf/kelan-ebpf-program/src/main.rs:238-240 | the interval bound holds of all runs if and only if the threshold is neither 0 nor the largest u32 |
| FixedWindow.WindowExact | kelan-ebpf/kelan-ebpf-program/src/main.rs:238-240 | an open window passes exactly the packets its remaining allowance covers, however many arrive; saturation never lets the count wrap |
| FixedWindow.OpenedWindowExact | kelan-ebpf/kelan-ebpf-program/src/main.rs:231-240 | of the n packets of a window opened by its first packet exactly min(n, threshold) pass, and at least one |
| Fnv.ComputeKey | kelan-ebpf/kelan-ebpf-program/src/main.rs:249-264 | the unrolled hash computes the fold of the four-round state, a key below 65536 |
| Fnv.RoundIsBijective | kelan-ebpf/kelan-ebpf-program/src/main.rs:257-260 | each round is a bijection on 32-bit states, with an explicit inverse on both sides |
| Fnv.SingleOctetNeverCollides | kelan-ebpf/kelan-ebpf-program/src/main.rs:257-260 | two addresses that differ in exactly one octet, whichever it is, reach different 32-bit states before the fold |
| Fnv.OctetsAreBigEndian | kelan-ebpf/kelan-ebpf-program/src/main.rs:253 | the octets hashed are the base-256 digits of the address, the most significant first |
| Fnv.XorIsBitwise | kelan-ebpf/kelan-ebpf-program/src/main.rs:257-260 | the exclusive-or sets exactly the bits in which its operands differ |
| Fnv.FoldMixesHalves | kelan-ebpf/kelan-ebpf-program/src/main.rs:263 | the key is the exclusive-or of the two halves of the state |
| Packet.BigEndianInjective | kelan-ebpf/kelan-ebpf-program/src/main.rs:155 | big-endian reading tells apart any two byte strings of the same length |
| Packet.BigEndian64IsBigEndian | kelan-ebpf/kelan-ebpf-program/src/main.rs:155 | the session id read from a header is the big-endian value of its eight bytes |
| Packet.ClassifyFrame | kelan-ebpf/kelan-ebpf-program/src/main.rs:91-155 | every frame written from its fields, of any header length and cut off at any byte, is recognised for what the fields say |
| Packet.AitpHeaderReadsBack | kelan-ebpf/kelan-ebpf-program/src/main.rs:151-159 | version, SYN flag and session id of an AITP header are read back as they were written |
| XdpFilter.Program.TryKelanXdp | kelan-ebpf/kelan-ebpf-program/src/main.rs:91-202 | for every packet length and IHL value all reads are in bounds, and the interleaved parsing, gating and counting equals classifying the packet first and then deciding |
| XdpFilter.Program.FilterUdp | kelan-ebpf/kelan-ebpf-program/src/main.rs:123-137 | the UDP gate is consulted once per UDP packet, before anything behind it |
| XdpFilter.Program.FilterAitp | kelan-ebpf/kelan-ebpf-program/src/main.rs:139-172 | the SYN gate is consulted only for SYNs of complete AITP packets to the port |
| XdpFilter.Program.CheckPermit | kelan-ebpf/kelan-ebpf-program/src/main.rs:174-201 | a message of version 4 passes under a permit whose verdict is not 0, or as a SYN without a permit; everything else is dropped |
| XdpFilter.DecisionMeaning | kelan-ebpf/kelan-ebpf-program/src/main.rs:91-202 | exactly when a packet passes, is aborted, and is counted under each of the statistics, in terms of gates, version and permits |
| XdpFilter.Program.KelanXdp | kelan-ebpf/kelan-ebpf-program/src/main.rs:83-88 | a packet passes if and only if gates, version and permits admit it, and is aborted if and only if a header that has to be read is cut short |
| XdpFilter.Program.IncrementStat | kelan-ebpf/kelan-ebpf-program/src/main.rs:318-322 | a counter moves only if its key is present, and wraps at 64 bits |
| XdpRuns.StatsAreHits | kelan-ebpf/kelan-ebpf-program/src/main.rs:318-322 | after any run every statistic holds its start value plus the packets counted under it, modulo 2^64, and no key appears or disappears |
| XdpRuns.EveryPacketCountedOnce | kelan-ebpf/kelan-ebpf-program/src/main.rs:91-202 | over every run each packet aborts or is counted under exactly one of 1 to 5; passes are 1 and 3, drops 2, 4 and 5 |
| XdpRuns.StatsBalance | kelan-ebpf/kelan-ebpf-program/src/main.rs:62-70 | the same balance read off the statistics map |
| XdpRuns.StatZeroCountsIp | kelan-ebpf/kelan-ebpf-program/src/main.rs:101 | statistic 0 counts exactly the IPv4 and IPv6 packets of a run |
| XdpRuns.ActionsMeaning | kelan-ebpf/kelan-ebpf-program/src/main.rs:91-202 | at every position of a run the packet passes if and only if the gates as they then stand, its version and the permits of that moment admit it |
| XdpRuns.BucketsDoNotInterfere | kelan-ebpf/kelan-ebpf-program/src/main.rs:123-172 | in any interleaved run the actions for one bucket's packets are those of the run with all other packets removed |
| XdpRuns.UdpGateIsFixedWindow | kelan-ebpf/kelan-ebpf-program/src/main.rs:123-137 | inside the whole filter, a bucket's UDP gate is the fixed-window limiter run on that bucket's arrivals |
| XdpRuns.SynsPassTheirGate | kelan-ebpf/kelan-ebpf-program/src/main.rs:157-191 | the SYNs the filter passes are among those the bucket's SYN gate passed |
| XdpRuns.SynGateIsFixedWindow | kelan-ebpf/kelan-ebpf-program/src/main.rs:157-171 | a bucket's SYN gate is the fixed-window limiter run on the SYNs its UDP gate forwards, and on nothing else |
| XdpRuns.BucketRatesBounded | kelan-ebpf/kelan-ebpf-program/src/main.rs:123-172 | in any k seconds a bucket gets at most (k+1)·50 SYNs and (k+1)·200 UDP packets through, whatever else arrives |
| XdpRuns.SourceSynsBounded | kelan-ebpf/kelan-ebpf-program/src/main.rs:49-54 | no source address gets more than (k+1)·50 SYNs through in k seconds, even when it shares its bucket |
| XdpRuns.Process | kelan-ebpf/kelan-ebpf-program/src/main.rs:83-202 | the program called on raw packets one after the other, under permits that change in between, answers, counts and moves its gates as the run of arrivals the results above speak of; each answer is a pass if and only if the packet is then admitted |
| XdpRuns.ArrivingIsHashed | kelan-ebpf/kelan-ebpf-program/src/main.rs:123-124 | raw packets arrive under the bucket of their own source |
| CFilter.AssembleSessionId | aitp-ebpf/src/xdp_filter.bpf.c:182-186 | the shift-or loop yields the big-endian value of the eight bytes |
| CFilter.SessionIdInjective | aitp-ebpf/src/xdp_filter.bpf.c:182-186 | different session bytes give different ids |
| CFilter.KindOfFrame | aitp-ebpf/src/xdp_filter.bpf.c:112-144 | a frame written from its fields and cut off anywhere is looked at if and only if its fields and length say so, and then for its source and payload |
| CFilter.SessionIdReadsBack | aitp-ebpf/src/xdp_filter.bpf.c:177-186 | a session id written from the fourth payload byte on is the one read; a shorter payload has none |
| CFilter.PassesIff | aitp-ebpf/src/xdp_filter.bpf.c:146-203 | a packet to the port passes if and only if its source is not blocked and has sent fewer than 200, and its session is permitted |
| CFilter.CountedAgainstSource | aitp-ebpf/src/xdp_filter.bpf.c:146-175 | every packet to the port of an unblocked source counts against it, whatever becomes of it, and no other does |
| CFilter.Filter.AitpXdpFilter | aitp-ebpf/src/xdp_filter.bpf.c:112-203 | the program's answer, counter update and drop counting for every packet, layer by layer |
| CFilter.Filter.FilterTarget | aitp-ebpf/src/xdp_filter.bpf.c:144-203 | blacklist, rate and permit layers in that order; a short payload has already used up rate |
| CFilter.DropsBalance | aitp-ebpf/src/xdp_filter.bpf.c:144-203 | over every run the drop counter moves on by the packets dropped less the short payloads, modulo 2^64 |
| CFilter.PassesFollowCounter | aitp-ebpf/src/xdp_filter.bpf.c:161-175 | a source's passes depend on its own arrivals and counter only |
| CFilter.BelowClosedForm | aitp-ebpf/src/xdp_filter.bpf.c:163-164 | closed form of the passes over any stretch of the wrapping counter |
| CFilter.RateLayerExact | aitp-ebpf/src/xdp_filter.bpf.c:161-175 | from a reset exactly min(n, 200) of n packets pass, if and only if n is at most 2^32 |
| SlidingLog.Limiter.EnforceRateLimit | kelan/api/server.py:230-241 | the pruned per-client list answers as the full log of accepted times would, equals that log filtered to the window, and no other client is touched |
| SlidingLog.Prune | kelan/api/server.py:233 | the comprehension keeps exactly the recent times in order |
| SlidingLog.PruningIsMonotone | kelan/api/server.py:233-234 | pruning early loses nothing a later request asks about |
| SlidingLog.AcceptedAreSpaced | kelan/api/server.py:233-241 | accepted requests `limit` apart are at least `window` apart in time |
| SlidingLog.WindowHoldsAtMostLimit | kelan/api/server.py:233-241 | no half-open interval as long as the window holds more than `limit` accepted requests |
| SlidingLog.RejectedRequestsNeverDelay | kelan/api/server.py:236-241 | removing a rejected request changes no acceptance |
| SlidingLog.RefusedIff | kelan/api/server.py:236-241 | a request is refused if and only if the `limit` latest acceptances all lie inside the window |
| Trust.FallbackRaisesIff | kelan/ai/engine.py:83-100 | the fallback raises if and only if a dictionary holds text, null, a list or an object under one of the four rule keys |
| Trust.FallbackMeaning | kelan/ai/engine.py:83-100 | the verdict on missing, null, non-dictionary and dictionary anomalies: denied for the first limit exceeded, watched or allowed otherwise |
| Trust.FallbackRulesMeaning | kelan-python/kelan/ai/engine.py:84-113 | the same for the other rule set, with its own confidences and reasons |
| Trust.FallbackRulesRaisesIff | kelan-python/kelan/ai/engine.py:84-113 | the other rule set raises if and only if such a value is met before the first limit exceeded |
| Trust.RuleSetsAgreeIff | kelan-python/kelan/ai/engine.py:84-113 | on which dictionaries the two rule sets reach the same verdict or both raise, and that a denial of the first is one of the second |
| Sentinel.SentinelDetector.Analyze | kelan/sentinel/detector.py:35-87 | the report is that of the unbounded raw history, with the queue caps applied to the counts, and the event log is the last 2000 alarms of the whole run |
| Sentinel.SentinelDetector.RunChecks | kelan/sentinel/detector.py:38-87 | the three checks in order; later findings overwrite the pattern |
| Sentinel.SentinelDetector.AnalyzeEnrolment | kelan/sentinel/detector.py:41-55 | the 5-second enrolment count over a queue of 200 |
| Sentinel.SentinelDetector.AnalyzeConnection | kelan/sentinel/detector.py:57-69 | the 1-second connection count over a queue of 1000 |
| Sentinel.SentinelDetector.AnalyzeAuth | kelan/sentinel/detector.py:71-85 | the 60-second authentication count over an unbounded list |
| Sentinel.AlarmRaisedIff | kelan/sentinel/detector.py:41-85 | over a whole run an alarm is raised if and only if some request calls for it by the unbounded counts |
| Sentinel.InWindow | kelan/sentinel/detector.py:44 | the comprehension counts the times inside the window |
| Sentinel.TallyCountsPlaces | kelan/sentinel/detector.py:38-76 | the unbounded count is the number of requests of the kind from the key less than the window old |
| Sentinel.ContainsIff | kelan/sentinel/detector.py:41 | the substring test on the intent finds the part wherever it stands, and only then |
| Sentinel.ReportMeaning | kelan/sentinel/detector.py:41-85 | each finding is in the report if and only if its unbounded count exceeds the threshold, with that count capped by its queue |
| Sentinel.PatternIsLastFinding | kelan/sentinel/detector.py:46-82 | the reported pattern is that of the last finding |
| Sentinel.BoundedQueueCount | kelan/sentinel/detector.py:28-69 | under a non-decreasing clock a bounded queue counts min(true count, bound) |
| Sentinel.BoundNeverMattersIff | kelan-python/kelan/sentinel/anomaly.py:53-114 | a queue bound never hides or invents a flag, over all histories, if and only if it exceeds the flag's threshold |
| EndToEnd.FallbackIsRawVerdict | kelan/ai/engine.py:83-100 | on every history the fallback verdict on the detector's report is the verdict on the unbounded history, and no report makes the rules raise |
| EndToEnd.EngineWithoutOllama | kelan/ai/engine.py:124-145 | an engine that gets nothing from Ollama answers with the raw verdict |
| EndToEnd.MorePastNeverLowersSeverity | kelan/sentinel/detector.py:35-87 | adding past events anywhere in the history never lowers the verdict |
| EndToEnd.DenialReachesTheHandshake | kelan/api/server.py:529-541 | when the engine asks and the client answers DENY, the suspended handler decides DENY and issues no token |
| EndToEnd.ApprovalReachesTheHandshake | kelan/api/server.py:529-551 | any other usable answer earns a session that is still pending its token |
| EndToEnd.ErrorsCountAsFailures | kelan/ai/ollama_client.py:243-250 | every error verdict of the client is MONITOR with confidence 0, repeats at most 60 characters of the exception, and counts as a failure for the engine |
| TrustEngine.CircuitBreaker.RecordSuccess | kelan/ai/engine.py:56-61 | a success resets and closes |
| TrustEngine.CircuitBreaker.RecordFailure | kelan/ai/engine.py:63-68 | a failure counts, stamps the time, and opens at the threshold |
| TrustEngine.CircuitBreaker.AllowCall | kelan/ai/engine.py:70-80 | asking for permission turns an open breaker half-open once recovery has passed |
| TrustEngine.BreakerMeaning | kelan/ai/engine.py:56-80 | under any order of calls: the counter is the trailing run of failures, closed means shorter than the threshold, half-open means probed since, and the stamp is the latest failure |
| TrustEngine.ClosedMeaningIff | kelan/ai/engine.py:49-54 | that reading of closed holds of all runs if and only if the threshold is positive |
| TrustEngine.GrantMeaning | kelan-python/kelan/ai/engine.py:60-72 | exactly when a call is granted, in terms of the past results and probes |
| TrustEngine.SuccessRestoresTolerance | kelan/ai/engine.py:56-68 | from any state one success restores tolerance of threshold - 1 failures, and the next one opens |
| TrustEngine.HalfOpenGrantsEveryone | kelan/ai/engine.py:80 | half-open grants every call until a result arrives |
| TrustEngine.HybridTrustEngine.Evaluate | kelan/ai/engine.py:124-168 | Ollama's verdict is returned whenever it is asked and gives one that is no error, the fallback's otherwise; what the breaker records, and how the counters move, including a fallback that raises |
| TrustEngine.WhoDecides | kelan/ai/engine.py:124-145 | exactly when Ollama's verdict is the engine's |
| TrustEngine.CountersAreExact | kelan/ai/engine.py:147-150 | over any run each counter moves by the number of its own evaluations |
| TrustEngine.TwoFailuresIff | kelan/ai/engine.py:130-145 | one evaluation records two failures if and only if Ollama is asked, answers with an error verdict, and a rule key holds an unreadable value |
| TrustEngine.TextOpensBreakerAtOnce | kelan/ai/engine.py:63-68 | with such anomalies one timeout opens a breaker of threshold 2, which with a number in their place stays closed |
| TrustEngine.OutageBound | kelan/ai/engine.py:124-145 | n > threshold failing calls, one after the other from a healthy breaker, take longer than (n - threshold) recovery periods |
| VerdictCache.OllamaClient.Evaluate | kelan/ai/ollama_client.py:207-250 | a hit returns what the latest miss of a session alike in entity, intent and anomalies stored, whatever was interleaved before; a session like none before is a miss; errors are never stored; hits and misses add up; evaluations one after the other keep the cache the last 501 successful misses in order |
| VerdictCache.SameKeyIff | kelan/ai/ollama_client.py:195-205 | two sessions share a fingerprint if and only if entity, intent and anomalies agree, with missing ones read as empty |
| VerdictCache.LookupFindsLatestLike | kelan/ai/ollama_client.py:211-213 | looking a fingerprint up in the log finds the latest session alike, or none if there is none |
| VerdictCache.OllamaClient.Probe | kelan/ai/ollama_client.py:210-218 | the part before the await: lookup and counting; a hit is the latest entry of the log under any interleaving |
| VerdictCache.OllamaClient.Remember | kelan/ai/ollama_client.py:228-230 | the part after it: trim the oldest above 500, then assign |
| VerdictCache.InsertKeepsShape | kelan/ai/ollama_client.py:228-230 | under any interleaving keys stay distinct, the size stays within 501, and the key answers with its new verdict |
| VerdictCache.InsertKeepsCurrent | kelan/ai/ollama_client.py:228-230 | under any interleaving every answer the cache still holds is the latest one stored for its key |
| VerdictCache.InsertIsLogSuffix | kelan/ai/ollama_client.py:228-230 | a miss extends the log and the cache remains its last 501 entries |
| VerdictCache.LookupInSuffix | kelan/ai/ollama_client.py:211-213 | what the cache answers is the latest entry of the whole log |
| Handshake.HandshakeManager.ReceiveSyn | kelan/protocol/handshake.py:72-108 | a SYN is refused for a missing post-quantum key, malformed hex or a key that encapsulation rejects, and then changes nothing; an accepted one adds exactly its own pending session, stamped with the time it arrived and holding what it sent |
| Handshake.HandshakeManager.ReceiveKemComplete | kelan/protocol/handshake.py:111-154 | the checks in order, the deletion of an expired session, and the update in place of the accepted one only |
| Handshake.KemAcceptedIff | kelan/protocol/handshake.py:111-154 | exactly which key completions are accepted, and the key and hash an accepted one adds |
| Handshake.KemRefusedFirst | kelan/protocol/handshake.py:117-123 | the refusals of unknown, late and repeated completions, in order, and that only a late one changes anything |
| Handshake.PlausibleIff | kelan/protocol/crypto.py:49-56 | the quick signature check refuses exactly what is short, all zeros, or all ones in either case |
| Handshake.HandshakeManager.CompleteSession | kelan/protocol/handshake.py:157-162 | a pending session is removed and given a token, whatever its phase |
| Handshake.HandshakeManager.PurgeExpired | kelan/protocol/handshake.py:165-168 | exactly the expired sessions are deleted |
| Protocol.ApiServer.Phase1 | kelan/api/server.py:464-499 | which SYN is refused and with which status; an accepted one opens a session stamped with the time of the request and holding its entity, intent and nonce |
| Protocol.Phase1RefusalMeaning | kelan/api/server.py:463-469 | phase 1 answers 403 for a missing or ill-sized post-quantum key and 500 for key bytes that do not decode or cannot be used |
| Protocol.ApiServer.Phase3 | kelan/api/server.py:501-528 | the key-completion step with every refusal; an accepted completion comes at most 60 seconds after the phase-1 request of its session and carries a signature over that session, and a later one is refused with 403 |
| Protocol.Phase3RefusalMeaning | kelan/api/server.py:470-505 | phase 3 answers 403 for an ill-sized ciphertext where one is required, and 400 for a missing part |
| Protocol.ApiServer.ResumePhase3 | kelan/api/server.py:529-551 | the step after the verdict: a token exactly for a verdict other than DENY on a session still pending |
| Protocol.ApiServer.AbandonPhase3 | kelan/api/server.py:529 | an evaluation that raises leaves the session as it is |
| Protocol.ApiServer.PurgeExpired | kelan/protocol/handshake.py:165-168 | the purge step of the protocol |
| Protocol.EverySessionIsLawful | kelan/api/server.py:501-551 | over all interleavings each session's events are a prefix of SYN, one verified key completion within 60 s, one verdict, and a token only after a verdict other than DENY |
| Protocol.OneTokenPerSession | kelan/protocol/handshake.py:157-162 | a session id never yields two tokens |
| Protocol.DeniedNeverGetsToken | kelan/api/server.py:532-541 | a denied session never gets a token |
| Protocol.SuspendedSessionSurvivesIff | kelan/api/server.py:529-541 | while its handler is suspended, whatever else interleaves, a session stays pending if and only if neither a purge nor its own repeated key completion comes more than 60 s after its SYN |
| Protocol.SuspendedSessionGetsTokenIff | kelan/api/server.py:529-541 | the resumed handler issues the token if and only if, besides, the verdict is not DENY |
| Protocol.LateReplayLosesToken | kelan/protocol/handshake.py:118-123 | on concrete messages: a repetition 61 s after the SYN costs an allowed session its token |
| Protocol.RunKeepsInv | kelan/api/server.py:455-557 | every step keeps manager, suspended handlers and history in agreement |
| SessionStore.SessionManager.Store | kelan-python/kelan/protocol/session.py:49-79 | the record holds what was passed in and a token exactly when the verdict is not DENY; after any calls the dictionary is the full log restricted to the retained ids, with their latest records |
| SessionStore.SessionManager.Get | kelan-python/kelan/protocol/session.py:81-82 | a lookup answers from the full log |
| SessionStore.SessionManager.RecentVerdicts | kelan-python/kelan/protocol/session.py:84-88 | the membership guard never filters anything, for every limit; the listing is the latest calls, newest first, each with what is last known of its session |
| SessionStore.ListingIsLatestFirst | kelan-python/kelan/protocol/session.py:84-88 | entry i of a listing belongs to the i-th latest call |
| SessionStore.LatestIsLast | kelan-python/kelan/protocol/session.py:68 | the latest record of an id is the one no later call replaces |
| SessionStore.CountByVerdict | kelan-python/kelan/protocol/session.py:90-94 | each count is the number of sessions with that verdict, and they sum to the size |
| SessionStore.StoreKeepsRefinement | kelan-python/kelan/protocol/session.py:70-77 | one store with eviction keeps the dictionary a window on the log, repeated ids included |
| SessionStore.WindowExactIff | kelan-python/kelan/protocol/session.py:74-77 | the keys are exactly the ids of the last `capacity` calls, if and only if the empty id is not lingering; the size bound follows |
| SessionStore.EmptyIdLingers | kelan-python/kelan/protocol/session.py:74-77 | with capacity 1, storing "" and then "a" leaves two sessions, where any other first id is evicted |
| PermitMap.BpfEnforcer.RevokeByEntity | kelan-ebpf/kelan-ebpf-loader/src/userspace.rs:84-95 | the result is the drop in map size and no permit with the prefix is left |
| PermitMap.RetainOthers | kelan-ebpf/kelan-ebpf-loader/src/userspace.rs:86-93 | the counting retain, entry by entry in any order |
| PermitMap.BpfEnforcer.IsPermittedNow | kelan-ebpf/kelan-ebpf-loader/src/userspace.rs:97-107 | a session is permitted when its permit is not a denial and has not expired |
| PermitMap.PermittedIff | kelan-ebpf/kelan-ebpf-loader/src/userspace.rs:74-107 | over any run a session is permitted if and only if some permit of it still stands, is not a denial, and has no expiry or one that lies ahead |
| PermitMap.LastAnswer | kelan-ebpf/kelan-ebpf-loader/src/userspace.rs:97-107 | a question at the end of a run is answered from the map held then |
| PermitMap.BpfEnforcer.CleanupExpiredSessions | kelan-ebpf/kelan-ebpf-loader/src/userspace.rs:197-212 | no answer at or after the cleanup changes |
| PermitMap.CleanupIsUnobservable | kelan-ebpf/kelan-ebpf-loader/src/userspace.rs:197-212 | two runs that differ only in cleanups give the same answers if no question reads an earlier second than a cleanup before it |
| PermitMap.CleanupIsUnobservableWhenClocked | kelan-ebpf/kelan-ebpf-loader/src/userspace.rs:197-212 | in particular under a non-decreasing clock |
| PermitMap.CleanupUnnoticedIff | kelan-ebpf/kelan-ebpf-loader/src/userspace.rs:204-205 | a cleanup in second c goes unnoticed by a question in second a, whatever the permits, if and only if c <= a or a is at least the largest expiry |
| Tokens.DecodeEncode | kelan/api/server.py:186-191 | decoding an encoding returns the bytes for every byte string under the `4 - len % 4` padding rule, and the encoding is URL-safe and free of dots |
| Tokens.EncodeInjective | kelan/api/server.py:186-187 | different bytes have different encodings |
| Tokens.KnownEncodings | kelan/api/server.py:186-187 | two test vectors of section 10 of RFC 4648 |
| Tokens.KnownUrlSafeEncoding | kelan/api/server.py:186-187 | the two characters of the URL-safe alphabet |
| Tokens.JunkIsSkipped | kelan/api/server.py:189-191 | the lenient decoder skips characters outside the alphabets wherever they stand |
| Tokens.LoneSextetNeverDecodes | kelan/api/server.py:189-191 | a text with one character beyond whole groups of four never decodes |
| Tokens.DecodeEncodeJwt | kelan/api/server.py:193-216 | a token decodes under its secret to the expiry check of its own claims |
| Tokens.SignedTokenExpires | kelan/api/server.py:213-215 | a signed token without `exp` never expires; with a non-zero number it is accepted up to that second and refused as expired later |
| Tokens.LoginTokenLastsADay | kelan/api/server.py:760-777 | a login token is accepted for exactly 24 hours |
| Tokens.AcceptedIff | kelan/api/server.py:202-216 | exactly which texts are accepted, for which claims and when |
| Tokens.AcceptedIsUnexpired | kelan/api/server.py:213-215 | no accepted text carries a number under `exp` that has passed |
| Tokens.OnlySignedTokensDecode | kelan/api/server.py:202-211 | a text that decodes ends in the signature of everything before its last dot |
| HexIdentity.ParseFull | aitp-sdk/src/client.rs:436-446 | the loop fills the array with the 32 parsed pairs, or fails exactly when one does not parse |
| HexIdentity.Parse | aitp-sdk/src/client.rs:422-447 | the whole parser, with its in-place copies, computes the specified result, including the panic on short texts of odd length |
| HexIdentity.PrintedBytesReadBack | aitp-sdk/src/client.rs:424-434 | printed bytes of any number are read back cut or zero-padded to 32 |
| HexIdentity.KnownHex | aitp-sdk/src/types.rs:302-304 | each byte is printed as two lower-case digits, the more significant first |
| HexIdentity.StrictIff | aitp-sdk/src/client.rs:436-446 | a full-length text is accepted if and only if each of its pairs is, and is read pair by pair |
| HexIdentity.LenientAt | aitp-sdk/src/client.rs:424-434 | in a shorter text an ill-formed pair contributes nothing, wherever it stands |
| HexIdentity.PaddedIdRoundTrip | aitp-sdk/src/client.rs:423 | whitespace around an id is ignored |
| HexIdentity.IdRoundTrip | aitp-sdk/src/types.rs:302-304 | every 32-byte id is read back from its printed form |
| HexIdentity.TargetRoundTrip | aitp-sdk/src/client.rs:405-419 | a printed id, '@' and a valid address parse to that id and address |
| HexIdentity.TargetAddressFirst | aitp-sdk/src/client.rs:405-419 | without '@' the id is all zeros, and an address that does not parse refuses the target whatever the id |
| HexIdentity.PrintParsed | aitp-sdk/src/client.rs:436-446 | a parsed text is recovered by printing, up to case and the accepted plus sign |

## Left out

- Cryptographic algorithms, key generation and HKDF: arbitrary functions; only the order of checks and what is signed is modelled.
- The Ollama HTTP client, its retries and prompts, and the parser of its answers: an oracle that answers or raises.
- Verdict hooks, broadcasting, Prometheus counters, persistence and the remaining HTTP endpoints: plumbing around the modelled decisions.
- `str.upper` on intents: the detector receives the upper-cased text.
- `record_port_probe` and the detectors' event readers: simple set sizes and slices.
- `SentinelEngine` of kelan-python: the same queues with a bound of 2000 for connections; the general queue lemmas cover it, its lifetime counter of failed logins is not modelled.
- `HybridTrustEngine` of kelan-python: the same breaker; only its rule set is modelled.
- Several CPUs, LRU eviction, and the portable fallback headers of the C filter.
- SDK sessions, sockets and packet handling: aitp_core is not part of this model.
- Non-ASCII texts in hexadecimal ids, and SHA-256 collisions between cache fingerprints.
- VerdictCache.OllamaClient.Evaluate: does not model the latency and raw-text fields of a verdict, because no decision reads them.
- VerdictCache.SameKeyIff: compares numbers in the anomalies by value, so 1 and 1.0 share a fingerprint in the model, although their JSON texts differ.
- Handshake.HandshakeManager.ReceiveSyn: does not model the ciphertext and server key of the reply, because no later step reads them.
- The permits and revocations that the verdict hook sends to the kernel before the handler resumes: plumbing outside the handshake state.
- The wait of phase 1 while an anomaly is saved: no handshake state has been read by then, so it is part of the arrival of the SYN.
