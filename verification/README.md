# A verified model of the semantic classification service

The service classifies a text under the identity of a resident classifier. Around the expensive
model forward it puts an exact-result cache with single-flight coalescing, an approximate text cache,
an optional semantic cache, a bounded handoff to a pool of worker threads, and a log-scale latency
histogram. This project models those mechanisms in Dafny and proves how they behave over every run.

| file | what it models |
|---|---|
| `Types.dfy` | texts as bytes, classifications, errors, outcomes |
| `ExactCache.dfy` | the bounded exact-result cache, as a class and as a value, and the queue it refines |
| `SingleFlight.dfy` | the concurrent protocol over cache, in-flight table and slots, one step per locked section |
| `ProtocolCache.dfy` | what the shared cache holds over any run of that protocol, and whom it serves |
| `ForwardBound.dfy` | how often that protocol runs the forward of one key |
| `Prefilter.dfy` | shingles, MinHash signatures, similarity, band keys |
| `TextCache.dfy` | the ring of entries behind the band index, as a class and as a value |
| `Identity.dfy` | the exact key's preimage and the tag of the approximate tiers |
| `Service.dfy`, `ServiceRuns.dfy` | the tiers composed around one request, all requests interleaved |
| `ServiceCache.dfy` | what the service's exact cache holds over any run, and which requests it answers |
| `TextTierRuns.dfy` | what the text tier remembers over a run of the service, and which forwards it saves |
| `TagSharing.dfy` | the runs in which the text tier answers one identity with another's result, and for which identities there are any |
| `Handoff.dfy` | submitters, channel and workers, all steps interleaved with hang-ups and the clock |
| `Histogram.dfy` | bucket arithmetic, the histogram, and the exact percentile |
| `Bench.dfy` | the benchmark's keys, warm-up, measurement and self-check |
| `ConcurrentMeasure.dfy` | the benchmark's workers measuring at once, against the single-flight protocol |
| `Ranker.dfy` | cosine similarity, anchor scores, and the order of labels |
| `Breaker.dfy` | the circuit breaker of the semantic cache |

**Runs.** The concurrent parts (`SingleFlight`, `Service`, `Handoff`) are transition systems. A run is a
schedule: a sequence of choices of who moves next and what the environment answers. Every result about
them holds for every schedule, hence for every interleaving. `Service` steps are shown to be
`SingleFlight` steps or none, so the protocol's results carry over. A call holds one lock at a time, so a
locked section is one step; waiting on the condition variable and being notified are separate steps, and
a lost wakeup would be a reachable stuck state.

**What is left open.** Hash functions, the digest, trimming, tokenizing, embedding and ranking are
arbitrary functions. The digest is assumed free of collisions only among the requests of one run.
Similarities, quantiles and cosines are exact reals; the clock is a natural number that never goes back.
History annotations (slot creator, slot writes, the slot a call used, the order of sends) are marked as
such and never read by a step.

## Where the code and its documentation differ

- `src/cache.rs:339-344` promises one forward per distinct key for identical concurrent misses. The
  fast-path read and the registration are separate sections, so a late call can forward a key again after
  it has been stored: `TwoForwardsOfOneKey`. `ForwardsAgainIffLate` says exactly when that can happen, and
  `LateCallsBoundForwards` by how much.
- `src/cache.rs:442-443` says that pipes keep the fields of the identity tag from aliasing.
  `TagUnambiguousIff` gives exactly the identities that no other identity can be mistaken for, and
  `TextTierIsolatesIff` shows that exactly those are never answered with another identity's result.
- `src/cache/breaker.rs:1-3` says that a dead backend costs one probe per cooldown window.
  `OneProbePerWindowIff` shows that this is so exactly for a threshold of one with a single caller; the
  reader-side breaker has a threshold of five and serves every inference worker (`src/cache/redis.rs:159`,
  `src/handoff.rs:67-79`). `WindowBoundIsExact` gives the bound for every threshold and number of callers,
  `threshold + callers - 1`. A write-back asks that breaker too and never reports to it
  (`src/cache/redis.rs:266-296`), so it can use up the half-open state; the bound holds with any number of
  those in between.
- `src/bench.rs:29-31` says that a hit-mode measurement hits when at least as many keys are warmed as are
  measured. That is not enough: keys of the run that the cache already holds keep their old places, so the
  warm-up can evict a key it has just hit. Run numbers start at zero in every process
  (`src/bench.rs:48`), so a second process against the same service meets such keys.
  `BenchmarkRun.StaleRunIsRejected` is that run, reached from an empty cache;
  `BenchmarkRun.RunIsAcceptedAfterAnythingIff` shows that only trivial runs are safe after anything; and
  `HitRunAcceptedIff` gives the exact condition for each cache, with room for the missing keys and absence
  of all of them as special cases.
- `src/handoff.rs:11-13` says that deadlines and cancellation are not implemented, and
  `src/handoff.rs:188-190` that the permit is dropped before the decrement. The code does implement both,
  and decrements first; the model follows the code.

## Model

| member | source | states |
|---|---|---|
| `ExactCaches.ExactCache.constructor` | src/cache.rs:190-199 | a new cache is empty and its capacity is at least one |
| `ExactCaches.ExactCache.Insert` | src/cache.rs:202-221 | storing leaves the cache in the specified next value; the eviction loop runs at most once and never finds the queue empty |
| `ExactCaches.ExactCache.ClassifyWith` | src/cache.rs:244-267 | a hit returns the stored result and runs no forward; a miss runs it once and stores only a success |
| `ExactCaches.MapSize` | src/cache.rs:165-176 | the map and the order list always have the same size |
| `ExactCaches.StoreKeepsValid` | src/cache.rs:202-221 | after a store the order still lists each key of the map once, within capacity, and the key has its new value |
| `ExactCaches.StoreRefinesQueue` | src/cache.rs:202-221 | map plus order behave as a bounded queue of pairs: overwrite in place, or append after dropping the front when full |
| `ExactCaches.RunIsFifo` | src/cache.rs:202-267 | over any run of calls, what is live is exactly the newest `capacity` of all arrivals, evictions and live entries add up to the arrivals, and every call is a hit or a forward |
| `ExactCaches.RunReflects` | src/cache.rs:202-267 | over any run, the live keys are the newest `capacity` of the history of stores and each holds the result that the miss of its last arrival computed |
| `SingleFlight.StepKeepsInv` | src/cache.rs:345-396 | every section of every call keeps the protocol invariant: slots belong to their creators, the table to the registered calls, sleepers to forwarders that have not notified |
| `SingleFlight.SingleFlightSafety` | src/cache.rs:345-396 | in every reachable state a key is in the table exactly when one call is forwarding it, two forwards of a key never overlap, the unwrap never fails, no slot is written twice, and a coalesced answer is the result of another call's forward of the same key |
| `SingleFlight.NeverStuck` | src/cache.rs:373-395 | while some call is unanswered some call can move, because a sleeper's forwarder is awake |
| `SingleFlight.SingleFlightProgress` | src/cache.rs:373-395 | a run makes at most eight moves per call, and one that cannot be extended has answered every call |
| `SingleFlight.StepKeepsJustified` | src/cache.rs:380-395 | the protocol invents nothing: what forwards of a key satisfy, everything held or answered for that key satisfies |
| `SingleFlight.PathTellsWhatHappened` | src/cache.rs:345-396 | over any run, a call that missed the cache is never reported as a hit, one that ran the forward is a miss, one that found another's forward is coalesced |
| `SingleFlight.WayIsDecidedByFinds` | src/cache.rs:350-372 | a cached key makes a call a hit with the cached result, else a key in the table makes it wait, else it runs the forward |
| `ProtocolCache.SharedCacheIsFifo` | src/cache.rs:202-221 | at every moment of every interleaving the shared cache lists the newest `capacity` keys in the order they were newly published, everything older is evicted, each live key holds what was published last for it, and the forward count is the number of successful forwards |
| `ProtocolCache.StartsAsHitIff` | src/cache.rs:350-356 | a call that starts is answered from the cache exactly when its key is among the newest `capacity` arrivals, with what was published last for it |
| `ProtocolCache.RecentKeyHits` | src/cache.rs:202-221 | without any assumption on room, a call that starts while fewer than `capacity` new keys have been published since its own arrived is a hit |
| `ForwardBounds.LateCallsBoundForwards` | src/cache.rs:350-372 | while a key stays cached, its further forwards are at most the calls that were past the fast path and not yet registered |
| `ForwardBounds.LaterCallsHit` | src/cache.rs:350-356 | a call that reads the cache while its key stays cached never runs a forward |
| `ForwardBounds.LateCallCanForward` | src/cache.rs:357-372 | a call that is past the fast path can still start a forward of a cached key, without any eviction |
| `ForwardBounds.ForwardsAgainIffLate` | src/cache.rs:339-344 | a cached key can be forwarded again exactly when some call for it is past the fast path and not yet registered |
| `ForwardBounds.RoomMeansKept` | src/cache.rs:202-221 | a cache with room for every key of the calls never drops a key it holds |
| `ForwardBounds.RoomBoundsForwards` | src/cache.rs:350-385 | with room for every key, the bound on forwards holds from the first store to the end of any run |
| `ForwardBounds.AnsweredOnceThenHits` | src/cache.rs:350-385 | with room for every key, once a call has been answered with a result by any path, every later call for that key is a hit: it neither forwards nor waits |
| `ForwardBounds.TwoForwardsOfOneKey` | src/cache.rs:339-344 | a run of two calls for one key, with no eviction and no failure, in which its forward runs twice |
| `Prefilter.SortDedup` | src/prefilter.rs:108-114 | sorting and deduplicating keeps exactly the same shingles, strictly ascending |
| `Prefilter.ShinglesAreTriples` | src/prefilter.rs:100-115 | the shingles of three tokens or more are exactly the hashes of all runs of three neighbours, each once and ascending; fewer tokens are hashed whole, none give none |
| `Prefilter.SameShinglesIffSameTriples` | src/prefilter.rs:108-114 | where the token hash tells the triples of two lists apart, they have the same shingles exactly when they have the same triples |
| `Prefilter.ComputeSignature` | src/prefilter.rs:124-142 | the nested loops over an array of minima compute the specified signature |
| `Prefilter.RowIsLeast` | src/prefilter.rs:129-141 | each row is attained by some shingle and is least among all of them |
| `Prefilter.SignatureRowIsLeast` | src/prefilter.rs:117-142 | row `i` of a signature is the least value of permutation `i` over the shingles, and attained; all rows are zero without shingles |
| `Prefilter.SameShinglesSameSignature` | src/prefilter.rs:117-142 | a signature depends only on the set of shingles |
| `Prefilter.JaccardOneIffEqual` | src/prefilter.rs:60-75 | similarity is one exactly between equal, non-empty signatures |
| `Prefilter.JaccardCountsRows` | src/prefilter.rs:60-75 | similarity times the number of rows is the number of rows that agree; different lengths and no rows have none |
| `Prefilter.FullBands` | src/prefilter.rs:152-166 | a full-length signature has one key for each of 32 bands of four rows |
| `Prefilter.BandsCutFromFront` | src/prefilter.rs:152-166 | any signature is cut from the front into the bands asked for, at least one and at most one per row, of equal height, the band number hashed in |
| `Prefilter.CloseSignaturesShareBand` | src/prefilter.rs:152-166 | signatures that agree on more than 96 of 128 rows have a band key in common |
| `TextCaches.InsertKeepsIndex` | src/cache/text.rs:138-179 | after an insert each id is filed under a key exactly as often as the key occurs among its entry's band keys, and nothing stale is filed |
| `TextCaches.RingHoldsLastInserts` | src/cache/text.rs:138-179 | after any inserts slot `m` modulo capacity holds insert `m` for each of the last `capacity` inserts, and the index agrees with the ring |
| `TextCaches.LiveEntryWasInserted` | src/cache/text.rs:145-175 | every live entry is one of the last `capacity` inserts |
| `TextCaches.BestIsMaximal` | src/cache/text.rs:116-131 | the scan keeps a comparable candidate of maximal similarity |
| `TextCaches.CandidateIffProposed` | src/cache/text.rs:120-125 | the candidates met under the band keys are exactly the live entries that share a band key |
| `TextCaches.LookupServesBestProposed` | src/cache/text.rs:112-136 | a lookup serves something exactly when a live entry of the identity that shares a band is close enough, and then the closest such entry |
| `TextCaches.BandedLookupRefinesScan` | src/cache/text.rs:112-136 | above 96/128 the lookup serves something exactly when a scan of all live entries of the identity would, and serves an entry no live one beats |
| `TextCaches.ServedIsVerified` | src/cache/text.rs:117-136 | anything served was computed under the same identity and is verified close |
| `TextCaches.LiveEntryHitsItself` | src/cache/text.rs:112-136 | a live entry is found again by its own signature at every threshold |
| `TextCaches.BandsMissAtThreeQuarters` | src/cache/text.rs:49 | at or below 96/128 there is a cache and a query that a scan serves and the bands miss |
| `TextCaches.BandsCompleteIffAboveThreeQuarters` | src/cache/text.rs:33-49 | over every reachable cache, banding loses nothing exactly for thresholds above 96/128 |
| `TextCaches.MemoryTextCache.constructor` | src/cache/text.rs:100-108 | a new cache is empty, its capacity at least one, its threshold within zero and one |
| `TextCaches.MemoryTextCache.Find` | src/cache/text.rs:112-136 | the nested loops compute the specified lookup |
| `TextCaches.MemoryTextCache.Scan` | src/cache/text.rs:121-130 | the inner loop continues the running best over the ids of one key |
| `TextCaches.MemoryTextCache.Record` | src/cache/text.rs:138-179 | an insert leaves ring, index and cursor in the specified next value and keeps them in agreement |
| `TextCaches.MemoryTextCache.Unfile` | src/cache/text.rs:163-168 | the old entry's id is dropped under each of its keys |
| `TextCaches.MemoryTextCache.File` | src/cache/text.rs:176-178 | the new id is pushed under each key |
| `Identities.LittleEndianRoundTrip` | src/cache.rs:134 | a 64-bit length prefix is read back as the length |
| `Identities.PreimageRoundTrip` | src/cache.rs:111-119 | the hashed bytes decode to exactly the fields that were fed, and how many |
| `Identities.KeyPreimageInjective` | src/cache.rs:103-136 | two preimages are equal exactly for the same identity, presence of the digest included, and the same text |
| `Identities.Hasher.UpdateField` | src/cache.rs:133-136 | one field appends its length prefix and its bytes |
| `Identities.NewKey` | src/cache.rs:103-123 | the key is the digest of the preimage of the fields in order, the digest field only when present |
| `Identities.TagInjectiveOnPipeFree` | src/cache.rs:442-459 | on pipe-free identities, with or without a digest, equal tags mean equal identities |
| `Identities.AliasCollides` | src/cache.rs:454-459 | every identity with a digest or a pipe shares its tag with another one |
| `Identities.TagUnambiguousIff` | src/cache.rs:442-459 | an identity can be mistaken for no other exactly when it has no digest and no pipe |
| `Service.StepKeepsCoreInv` | src/classify.rs:447-530 | every step of a request is a single-flight step or none, and the request runs its forward exactly while the protocol has it forwarding |
| `Service.KeysIsolate` | src/classify.rs:455-470 | two requests of a run have the same key exactly when identity and trimmed text are the same |
| `Service.AnswersStayWithIdentityAndText` | src/classify.rs:460-517 | over any interleaving and any semantic tier, what is true of every forward's result for its own identity and text is true of every answer, hits and coalesced waits included |
| `Service.TextHitIsServed` | src/classify.rs:495-498 | a text-cache hit is the exact result of a request text close to the asked one, under the same tag |
| `Service.TextCacheHoldsOnlyExactResults` | src/classify.rs:499-514 | with any semantic tier, every text-cache entry is what direct classification of some request gives |
| `Service.ApproximationNeverCompounds` | src/classify.rs:486-517 | with the text tier on and the semantic tier off, every answer of every interleaving is the exact result of one request text verified close to the asked text, of the same identity where identities are pipe-free |
| `Service.CacheIsTransparent` | src/classify.rs:447-530 | with both approximate tiers off, every answer of every interleaving is what embedding and ranking directly return |
| `Service.SemanticHitIsServed` | src/classify.rs:500-505 | a request that the semantic tier serves is answered with that, as a miss of the exact cache, whatever happens in between |
| `Service.RankingIsServed` | src/classify.rs:506-517 | a request that is ranked is answered with its own ranking, failures included, whatever happens in between |
| `Service.EmbeddingFailureIsServed` | src/classify.rs:500 | a failed embedding is the request's answer with any tiers, whatever happens in between |
| `Service.EmbeddingIsRanked` | src/classify.rs:500-507 | an embedding that succeeds is ranked, unless the semantic tier is on and answers |
| `ServiceCache.ExactCacheIsFifo` | src/classify.rs:517 | in every run the exact cache of the service holds the newest `cacheCapacity` keys, each with what was stored for it last |
| `ServiceCache.ConsultsAsHitIff` | src/classify.rs:517-519 | a request that consults the exact cache is a hit exactly when its key is among those, and is answered with what was stored last |
| `TextTierRuns.RankingsFillTextCache` | src/classify.rs:499-514 | over any run the text cache changes by the successful rankings, one insert each in order, and by nothing else |
| `TextTierRuns.ForwardRunsIffNothingIsInReach` | src/classify.rs:495-500 | at every threshold, in any reachable state, a request goes on to the model exactly when none of the last `capacity` rankings of the run is under its tag, close enough and shares a band with its text; otherwise it is served the closest of those |
| `TextTierRuns.ForwardRunsIffNothingCloseIsRemembered` | src/classify.rs:495-500 | the same without the bands for every threshold above 96/128, where a close ranking always shares one |
| `TextTierRuns.RepeatedTextIsServed` | src/classify.rs:495-514 | at every threshold, a text asked again under its tag is served without the model while fewer than `capacity` rankings have followed its own |
| `TagSharing.SharedTagServesOther` | src/classify.rs:471-498 | for any two requests with different keys that share tag and signature there is a run that answers the second with the exact result of the first |
| `TagSharing.TextTierIsolatesIff` | src/classify.rs:460-498 | over every service, set of requests and interleaving, an identity is only ever answered with its own results exactly when it has no digest and no pipe in a field |
| `ServiceRuns.EveryAnswerIsCountedOnce` | src/classify.rs:517-522 | each of the three counters is the number of requests answered by its own cache path, and together they are all requests answered by the core |
| `ServiceRuns.DeltaIsInvisible` | src/classify.rs:448-454 | taking delta-only requests out of any run changes no cache, slot, counter or other answer; they are only answered by abstaining, without signals and with the provenance of their identity |
| `ServiceRuns.NeverStuck` | src/classify.rs:475-517 | while some request is unanswered some request can move |
| `ServiceRuns.EveryRequestIsAnswered` | src/classify.rs:447-530 | a run makes at most 82 moves per request, and one that cannot go on has answered every request |
| `Handoffs.StepKeepsInv` | src/handoff.rs:145-274 | every step of submitters, workers, callers and the clock keeps permits, count, channel, workers, metrics and history in balance |
| `Handoffs.AdmissionStaysBounded` | src/handoff.rs:238-274 | at every step the admitted count lies between zero and the permits in use, these and the recorded maximum within the bound, the channel within the permits in use, and a send with a permit never bounces |
| `Handoffs.RefusedIffFull` | src/handoff.rs:244-250 | admission is refused exactly when every permit is held |
| `Handoffs.SubmissionAlone` | src/handoff.rs:238-274 | from any state, a submission by itself is refused without a trace, rejected by a full channel with permit and count given back, or queued at the end with both kept |
| `Handoffs.MaxIsGreatestSeen` | src/handoff.rs:255-256 | the recorded maximum is the greatest admitted count any submitter has seen after its own increment, up to those about to compare |
| `Handoffs.ClockCountsTicks` | src/handoff.rs:158-160 | the clock that deadlines are compared with counts the ticks of the run |
| `Handoffs.JobsAreConserved` | src/handoff.rs:145-192 | every job sent is queued, at a worker, or gone as classified, expired or cancelled; at most one job per worker is classified at a time; receives are in send order; the two metrics count exactly the jobs that left that way, up to those still at a worker |
| `Handoffs.LostJobsAreNeverClassified` | src/handoff.rs:157-184 | a job whose deadline has passed or whose caller has hung up before its checks never reaches the classifier in any continuation |
| `Handoffs.VerdictOfJob` | src/handoff.rs:157-187 | a received job whose deadline has come when the clock is read leaves as expired, told so exactly if its caller has not hung up by the second check; one read in time is cancelled exactly if its caller has, and is classified otherwise |
| `Handoffs.JobsInTimeAreClassified` | src/handoff.rs:157-191 | a job found in time, whose caller does not hang up, can only leave through the classifier |
| `Handoffs.EveryAttemptSettles` | src/handoff.rs:145-274 | with a worker, a run makes at most eleven advancing moves per attempt, and when nothing can advance every attempt is settled, every permit is back and the count is zero |
| `Histograms.LeadingBits` | src/metrics.rs:68-77 | a value above seven has an octave of at least three and leading bits between eight and fifteen |
| `Histograms.IndexMonotone` | src/metrics.rs:68-77 | larger latencies never fall into earlier buckets |
| `Histograms.IndexAvoidsGap` | src/metrics.rs:68-90 | no latency lands in buckets 8 to 23, so the shift of a populated bucket is never negative |
| `Histograms.LowerBoundInBucket` | src/metrics.rs:80-90 | a bucket's lower bound lies in that bucket |
| `Histograms.LowerBoundIsClose` | src/metrics.rs:31-38 | a latency's lower bound never exceeds it, is exact below eight microseconds, and within an eighth below 2^41, clamped values included for the first |
| `Histograms.Histogram.constructor` | src/metrics.rs:55-63 | a new histogram has seen nothing |
| `Histograms.Histogram.Record` | src/metrics.rs:92-97 | recording adds one sample to its bucket, the count and the maximum |
| `Histograms.Histogram.Quantile` | src/metrics.rs:101-114 | the cumulative scan returns the lower bound of the bucket of the exact nearest-rank sample and never falls through |
| `Histograms.Histogram.StagePercentiles` | src/metrics.rs:213-228 | the three percentiles are the specified quantiles, in order, and at most the maximum |
| `Histograms.ScanStopsAtRank` | src/metrics.rs:105-112 | the running total is below a rank exactly up to the bucket of the sample of that rank |
| `Histograms.TimesIsProduct` | src/metrics.rs:105 | the position that the quantile code computes is the product of count and fraction |
| `Histograms.NearestRankRoundsUp` | src/metrics.rs:105 | the first rank at or past a position is the position rounded up, between one and the count |
| `Histograms.PercentileIsNearestRank` | src/bench.rs:119-126 | the benchmark's percentile is the sample of the first rank at or past `n * p / 100` |
| `Histograms.QuantileIsNearestRank` | src/metrics.rs:99-114 | the reported quantile is the bucket start of the sample of the first rank at or past `n * q` |
| `Histograms.QuantileWithinEighthOfPercentile` | src/metrics.rs:99-114 | the reported quantile is in the bucket of the exact percentile of the same samples, never above it, and within an eighth |
| `Histograms.QuantilesAreMonotone` | src/metrics.rs:213-228 | quantiles are ordered and at most the greatest sample |
| `Bench.MeasuredKeysAreDistinct` | src/bench.rs:155-161 | measured contexts are distinct per run and index for any seeds, also after the service trims them |
| `Bench.WarmKeysAreNeverMeasured` | src/bench.rs:167-178 | a miss-mode warm key is never a measured key, for any seeds, runs and indices |
| `Bench.TrimTakesEnds` | src/classify.rs:455 | trimming takes whitespace off both ends, all of it and nothing else |
| `Bench.RoomKeepsAll` | src/bench.rs:29-31 | from any cache, warming keys of which the missing ones fit beside what is held loses neither a warmed key nor one that was there |
| `Bench.HitWindowIffCached` | src/bench.rs:218-234 | the hit-mode check accepts a measured window exactly when every key is cached at its start |
| `Bench.MissWindowIffGone` | src/bench.rs:201-217 | the miss-mode check accepts a measured window exactly when every key has left the queue by its turn |
| `Bench.WindowAcceptedIff` | src/bench.rs:191-237 | a window is accepted exactly if the one kind of answer grew by the measured number and no other counter grew; a coalesced wait is rejected in both modes |
| `Bench.HitRunAcceptedIff` | src/bench.rs:191-237 | from any cache, warming and then measuring is accepted exactly when each measured key is among the newest `capacity` of what was held and what the warm-up added: always with room for the missing keys, and from a cache free of them exactly when the warm-up fits |
| `Bench.AcceptedAfterAnythingIff` | src/bench.rs:29-31 | for any distinct numbered keys, a hit-mode run is accepted after every sequence of earlier requests exactly when it measures nothing or warms one key |
| `Bench.StaleKeyBreaksWarmup` | src/bench.rs:167-170 | after earlier requests for key 0 and then others up to the capacity, a warm-up of two keys or more evicts key 0 and the check rejects the window |
| `Bench.BenchmarkRun.StaleRunIsRejected` | src/bench.rs:155-170 | that rejected run with the measured keys of a benchmark run, from an empty cache |
| `Bench.BenchmarkRun.RunIsAcceptedAfterAnythingIff` | src/bench.rs:155-170 | a hit-mode run of the benchmark is accepted after anything exactly when it measures nothing or warms one key |
| `Bench.BenchmarkRun.SendOne` | src/bench.rs:338-351 | one request is one classify of the trimmed context, and succeeds exactly when that is cached or its forward succeeds |
| `Bench.BenchmarkRun.Warmup` | src/bench.rs:359-365 | the warm-up is the run of the warm keys; in hit mode, whatever the cache held, with room for the missing keys all of them and all that was held stay, and from a cache free of them the measured keys stay exactly if they fit; in miss mode measured keys that were absent stay absent |
| `Bench.BenchmarkRun.Measure` | src/bench.rs:374-385 | from absent keys exactly `n` misses and no hit, from cached keys exactly `n` hits and no miss; the hit-mode check accepts exactly when all are cached, the miss-mode check exactly when each is gone by its turn |
| `Bench.SplitRanges` | src/bench.rs:430-464 | the workers' ranges tile 0..n in order, with sizes that differ by at most one |
| `ConcurrentMeasure.ConcurrentWindow` | src/bench.rs:395-405 | workers measuring pairwise distinct keys never wait for one another in any interleaving, whatever the cache holds; free of the keys the miss-mode check accepts every complete run, and the hit-mode check accepts one exactly when all keys were cached |
| `ConcurrentMeasure.CoalescedWindowIsRejected` | src/bench.rs:212-216 | a complete run in which some call waited for another is rejected by both checks, whatever the keys |
| `ConcurrentMeasure.PathsAreTheServiceCounters` | src/classify.rs:518-522 | the paths counted for a window are what the service's counters show once every request is answered |
| `Ranker.CosineWithinOne` | src/ranker.rs:108-128 | every cosine of equally long vectors is between minus one and one |
| `Ranker.CosineBounded` | src/ranker.rs:108-128 | the squared dot product is at most the product of the squared norms |
| `Ranker.CosineTimesNorms` | src/ranker.rs:108-128 | the similarity times both norms is the dot product, sign included; a vector is wholly similar to itself, a zero vector to nothing |
| `Ranker.CosineIgnoresScale` | src/ranker.rs:108-128 | scaling either vector by a positive number changes no similarity |
| `Ranker.DotPicks` | src/ranker.rs:109-113 | the dot product with a unit vector is the component |
| `Ranker.DotAdds` | src/ranker.rs:109-113 | the dot product is additive |
| `Ranker.DotScales` | src/ranker.rs:109-113 | the dot product is homogeneous |
| `Ranker.ScoreIsMaximumMean` | src/ranker.rs:80-95 | a score is zero without anchors, and else the attained maximum of the mean similarity over all choices of `k` anchors, `k` being `top_k` but at least one and at most all |
| `Ranker.AnchorRankScores` | src/ranker.rs:77-103 | each label, and nothing else, is ranked, with the best mean of `top_k` of the similarities of its own anchors |
| `Ranker.RankingInOrder` | src/ranker.rs:97-101 | with distinct labels the ranking is a permutation by score descending, then by label |
| `Ranker.RankingDescends` | src/ranker.rs:97-101 | the greater score comes first, and of equal scores the label that is bytewise lexicographically less |
| `Ranker.PrecedesIsLexicographic` | src/ranker.rs:100 | label order: a proper prefix comes first, else the first byte that differs decides |
| `Ranker.RankingIsUnique` | src/ranker.rs:97-101 | any list in that order with the same members is the ranking |
| `Ranker.AnchorRankIsCanonical` | src/ranker.rs:77-103 | the ranking depends neither on the order of labels nor on the order of a label's anchors |
| `Ranker.SingleAnchorsRankByCosine` | src/ranker.rs:42-77 | labels with one anchor each are ranked exactly as prototypes are, for every `top_k` |
| `Breakers.CircuitBreaker.MayProceed` | src/cache/breaker.rs:32-44 | the answer and the next state are the specified ones: refuse while open, then half-open with the count reset |
| `Breakers.CircuitBreaker.RecordSuccess` | src/cache/breaker.rs:46-50 | a success closes the breaker and clears the count |
| `Breakers.CircuitBreaker.RecordFailure` | src/cache/breaker.rs:52-58 | a failure counts, and opens the breaker for the cooldown at the threshold |
| `Breakers.OpenIffThresholdReached` | src/cache/breaker.rs:32-58 | over any interleaving of calls and outcomes there is an opening time exactly when the failures in a row have reached the threshold |
| `Breakers.FailuresOpen` | src/cache/breaker.rs:52-58 | failures in a row open the breaker exactly when with those counted before they reach the threshold, until a cooldown after the last |
| `Breakers.BreakerCycle` | src/cache/breaker.rs:32-58 | after a success it takes `threshold` failures to open; open, it refuses every call before the opening time however many ask; from then on it lets through, and again takes `threshold` new failures |
| `Breakers.ProbesAreBounded` | src/cache/breaker.rs:32-58 | with any number of callers, each with one failing lookup under way at most, at most `threshold + callers - 1` lookups get through in any window as long as the cooldown, from any state and under any interleaving |
| `Breakers.BurstFillsWindow` | src/cache/breaker.rs:32-58 | failing lookups one after the other, and then one of each caller at once, meet that bound |
| `Breakers.WindowBoundIsExact` | src/cache/breaker.rs:32-58 | over all runs of a new breaker against a dead backend, a number bounds the lookups per window exactly when it is at least `threshold + callers - 1` |
| `Breakers.OneProbePerWindowIff` | src/cache/breaker.rs:1-3 | one lookup per window exactly for a threshold of one with a single caller |

## Left out

- The model forward itself: tensors, tokenizer, softmax and trained heads are library calls and floating
  point; `embed` and `rank` are arbitrary functions of identity and trimmed text.
- Requested signals and session metadata: they reach the runtime but are no part of any cache key, so the
  runtime is taken to be deterministic in identity and trimmed text.
- Rounding and NaN in `f32` and `f64`; counters that would wrap at 64 bits.
- gRPC, health, HTTP, Redis, configuration and taxonomy files, environment variables: input and output.
- The contents of the semantic cache: its answers are arbitrary, and what is inserted has no effect on
  the model. Its hit counters are recorded inside it and left out with it.
- Panics, poisoned locks and spurious wakeups of the condition variable.
- The two-lock acquisition inside the text cache: a lookup takes the index before the entries and an
  insert the other way round. Each call is one step, and freedom from deadlock there is not claimed.
- A change of identity between reading the metadata and running the forward of the same request.
- `SharedCache` and `ServiceCore` are modelled as transition systems on values, because their point is
  interleaving; the heap aliasing of their shared slots is the slot number.
- The bodies of library sorts: insertion sorts stand for them, and `RankingIsUnique` shows that the
  choice does not matter.
- `src/queue.rs`, the readiness and runtime checks, the telemetry ring and the command-line tools would
  only add easy members.
- BandsMissAtThreeQuarters: the witness is a pair of full-length signatures; that some pair of texts has
  them under the shipped hash functions is not claimed, so `BandsCompleteIffAboveThreeQuarters` speaks of
  caches filled with arbitrary signatures of full length.
- SendOne: the metrics that the harness compares are the counters of the cache it drives, which agree
  with the service's hit and miss counters for a single serial caller; coalescing never occurs there.
- JobsAreConserved: the metrics are compared with the settled jobs up to the jobs still at a worker,
  because a worker reports before it releases the permit.
