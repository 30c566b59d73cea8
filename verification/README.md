# Metrum AI Bench in Dafny

A model of the parts of Metrum AI Bench whose results other people rely on: which prompts a
benchmark run sends, what it measures while it runs, and what it concludes afterwards. Each module
follows one component of the program. Algorithms that work on arrays and mutable state are methods
with loops and classes, proved against specifications that do not mention the algorithm;
calculations are functions with lemmas about them.

- **Prompt-mix solver** (`MixScore`, `CompositionCount`, `MixBuckets`, `MixSearch`,
  `MixOptimality`, `MixMeaning`, `PromptLibrary`). The solver picks a multiset of library rows whose mean or
  median lengths hit two targets. The saturating table counts compositions of joint-length
  buckets, the array search visits every one of them once, every row-level mix is matched by one
  of them, and so the public answer is true: an accepted mix meets every limit, a `proven_empty`
  refusal means that no mix at all does, and an exhaustive answer is the best there is. The score
  comparison treats excess values within 1e-12 as equal, so a near miss, a mix that misses its
  tolerances by no more than that, can displace a hit, and the last two claims need a condition.
  They hold when some feasible mix is strictly better, by size and repeats, than every near miss
  (`Harmless`). When no excess lies between 1e-12 and 2e-12 (`NoBand`), the outcome is decided
  exactly: the search succeeds if and only if the first least visited vector among hits and near
  misses is a hit (`FeasibleFirst`), for libraries without ties if and only if near misses are
  harmless, and an accepted mix is then always optimal. `WrongProofOfEmptiness` is a library of
  three rows that the program reports as proven impossible although two of its rows fit. The
  shortcut that draws from a single cell is complete and optimal among single-cell mixes.
  `MixMeaning` says all of this of the library rows themselves: which rows are chosen how often, the
  mean as the value with no surplus, the median as the middle of the sorted sample.
- **Time-weighted metrics** (`SweepSpec`, `TimeWeighted`, `RunMetrics`, `StageMeaning`). The sweep line over
  clipped, sloped segments returns the area under the pointwise sum, the length of the union of
  the segments, and the least upper bound of the sum. On a stage, integrals equal row totals:
  Little's law, the prefill and decode split, the tokens and the token-seconds;
  and at every moment each block is the plain sum over the records.
- **Streaming** (`Json`, `Sse`, `ChatStream`, `StreamMeaning`). The incremental server-sent-events parser is the
  byte-by-byte reader, whatever the chunks. The consumer's public result is the same for every
  way of cutting a body into reads exactly when every event behind `[DONE]` is harmless to the
  tally it meets; an unparsable event behind `[DONE]` shows that this can fail. `StreamMeaning`
  gives every reported value and every error class in closed form over the events.
- **Vision requests** (`ImageCache`, `Template`, `RequestBody`, `BodyMeaning`, `ReadBack`). The cache is the list of most
  recently touched keys, and a larger cache never misses more. Splicing base64 payloads into a
  serialized skeleton gives the bytes of the plain serialization, unless the extra body replaces
  `messages`; then exactly the unspliced cases agree. The body is determined key by key from the
  request, and its text reads back as that body.
- **Scoring and knees** (`Asr`, `Ratios`, `Knee`, `KneeMeaning`). The two-row edit distance is the least cost of
  an edit script and a metric. The one-pass saturation and p95 scans meet their quadratic
  definitions, and the knee does not depend on units. Every detection is explained on the stages, without
  normalization or scans.
- **Running** (`Concurrency`, `Endpoints`, `Runner`, `PromptSequence`). In every interleaving the
  in-flight gauge equals the live guards and stays within the cap, and no permit is lost. Round
  robin serves weights in exact proportion; across the wrap of its counter it does so exactly when
  the list is unchanged by rotation. No measured request starts before the last warmup request has
  finished. A recorded prompt order replays against any pool exactly when the pool has the
  prompts.

Two places where the code does not do what its text says:

- A replayed run that also writes a sequence log (src/bin/metrum-ai-bench-cli-llm.rs:925-935)
  passes the order together with the pool that was already reordered by it, so the order is applied
  twice. `ReplayLogTrueIff` says exactly when the log is still true, `ReplayLogWrong` gives a log
  that names the wrong prompts and one that stops with an index out of range, and
  `ReplayLogWithoutOrder` shows that leaving the order out is right.
- A prescribed entry without a fingerprint whose index is out of range is always reported for slot
  0 (src/prompt_sequence.rs:138-141). `ReportedSlot` says that such a report names the right slot
  exactly when that is slot 0, and that a missing fingerprint always names it;
  `RangeErrorBlamesSlotZero` gives two entries of which the second fails and slot 0 is blamed.

`dafny verify dfyconfig.toml` checks the project.

## Model

| member | source | states |
|---|---|---|
| `MixScore.FilterCandidates` | src/prompt_library.rs:321-334 | candidates are exactly the rows the reasoning filter keeps, each with its own lengths |
| `MixScore.FilterKeepsOrder` | src/prompt_library.rs:321-334 | candidates come in row order, once for each kept row, equal rows included |
| `MixScore.StatPermutation` | src/prompt_library.rs:242-269 | mean and median do not depend on the order of the rows |
| `MixScore.StatConstant` | src/prompt_library.rs:242-269 | a constant sample has that constant as mean and as median |
| `MixMeaning.CenterIff` | src/prompt_library.rs:242-269 | the mean is the one value from which the deviations sum to zero; the median is the middle of the sorted sample, or the mean of its two middle values |
| `MixMeaning.MedianHalves` | src/prompt_library.rs:249-262 | at least half of the values are at most the median and at least half are at least it |
| `MixMeaning.FeasibleHits` | src/prompt_library.rs:297-334 | a feasible mix of candidates is an eligible choice of library rows whose statistics are the achieved values, within both tolerances |
| `MixMeaning.HitsFeasible` | src/prompt_library.rs:297-334 | every eligible choice of rows with statistics within tolerance is a feasible mix of candidates |
| `MixMeaning.LeastMix` | src/prompt_library.rs:297-319 | a least feasible mix of candidates is least in size deviation, then repeats, among all choices of rows |
| `MixScore.FeasibleExcess` | src/prompt_library.rs:297-319 | excess is never negative, and zero exactly when both gaps are within tolerance |
| `MixScore.SameLengthsSameExcess` | src/prompt_library.rs:297-319 | mixes with the same joint lengths in any order have the same achieved values and excess |
| `MixScore.CountExtraCopies` | src/prompt_library.rs:271-277 | the histogram loop counts picks minus distinct rows |
| `MixScore.MultiplicityOk` | src/prompt_library.rs:279-289 | true exactly when no row occurs more often than the limit |
| `MixScore.Evaluate` | src/prompt_library.rs:297-319 | nothing for an empty mix, otherwise its true score, achieved values and gaps |
| `CompositionCount.CompositionsSound` | src/prompt_library.rs:608-654 | every listed vector respects the caps and has the asked-for sum |
| `CompositionCount.CompositionsComplete` | src/prompt_library.rs:608-654 | every such vector is listed |
| `CompositionCount.CompositionsDistinct` | src/prompt_library.rs:608-654 | no vector is listed twice |
| `CompositionCount.WaysCounts` | src/prompt_library.rs:579-592 | the counting recurrence is the number of listed vectors |
| `CompositionCount.WaysSnoc` | src/prompt_library.rs:582-592 | adding a bucket sums a window of the counts before it |
| `CompositionCount.WaysGrow` | src/prompt_library.rs:593-600 | adding buckets never reduces the number of compositions |
| `CompositionCount.AddBucket` | src/prompt_library.rs:583-592 | the sliding window gives every entry the capped sum of its window of the old row |
| `CompositionCount.AddBucketIsTable` | src/prompt_library.rs:582-592 | capping each entry keeps the table equal to the capped true counts |
| `CompositionCount.TableTotal` | src/prompt_library.rs:602-604 | the capped sum over lengths is the capped true number of compositions |
| `CompositionCount.PrefixTotal` | src/prompt_library.rs:593-600 | stopping early cannot turn an inexact verdict into an exact one |
| `CompositionCount.CountCompositions` | src/prompt_library.rs:579-605 | the total is the smaller of work limit plus one and the true number; within the limit the table is right for every length |
| `MixBuckets.RoundRobinRepeats` | src/prompt_library.rs:626-631 | cycling a bucket within its capacity keeps every row within the repeat limit |
| `MixBuckets.CompositionWithinLimits` | src/prompt_library.rs:566-578 | every vector within the caps and of a permitted length composes to a permitted mix |
| `MixBuckets.ComposeMatches` | src/prompt_library.rs:626-631 | cycling the bucket counts of a mix shows exactly its joint lengths |
| `MixBuckets.ComposeRepeatsLeast` | src/prompt_library.rs:626-631 | cycling uses at least as many distinct rows as any mix with those bucket counts |
| `MixBuckets.MixHasComposition` | src/prompt_library.rs:566-578 | every permitted row-level mix is matched by a vector within the clipped caps, with the same excess and deviation and no more repeats |
| `MixSearch.ConsiderComposition` | src/prompt_library.rs:531-544 | keeps the candidate exactly when there was none or it scores better |
| `MixSearch.SuffixCaps` | src/prompt_library.rs:610-613 | each suffix entry is the capacity of the buckets from there on |
| `MixSearch.BuildMix` | src/prompt_library.rs:626-631 | the nested loop builds the composed mix |
| `MixSearch.TakeValue` | src/prompt_library.rs:648-650 | one step down changes the three arrays at one place each |
| `MixSearch.SkipToLow` | src/prompt_library.rs:638-640 | starting at the least completable entry skips no vector |
| `MixSearch.SearchLength` | src/prompt_library.rs:618-653 | the array search ends, visits every composition of a length once in order, and counts them |
| `MixOptimality.AllCompositionsMembers` | src/prompt_library.rs:614-654 | the visited vectors are exactly those within the caps with a sum in range |
| `MixOptimality.AllCompositionsCount` | src/prompt_library.rs:605-654 | their number is the counted number of compositions |
| `MixOptimality.AllCompositionsDistinct` | src/prompt_library.rs:614-654 | over all lengths each vector is visited once |
| `MixOptimality.MixVisited` | src/prompt_library.rs:546-681 | every permitted row-level mix is matched by a visited vector that is no worse |
| `MixOptimality.ExactBestPermitted` | src/prompt_library.rs:531-544 | the exhaustive answer exists exactly when capacity reaches the shortest length, and respects all limits |
| `MixOptimality.ExactBestIsOptimal` | src/prompt_library.rs:546-681 | wherever near misses are harmless: if a feasible mix exists the exhaustive answer is feasible and least in deviation, then repeats |
| `MixOptimality.ExactBestFeasibleIff` | src/prompt_library.rs:531-681 | without a band, the exhaustive answer is feasible exactly when the first least vector among hits and near misses is a hit, and then it is optimal |
| `MixOptimality.HiddenFails` | src/prompt_library.rs:231-239 | without a band, a near miss better than everything feasible makes the search fail in every bucket order |
| `MixOptimality.FoundIffHarmless` | src/prompt_library.rs:231-239 | without bands and ties, what is feasible is found exactly when near misses are harmless |
| `MixOptimality.CapacityNeeded` | src/prompt_library.rs:572-578 | too little capacity means that no permitted mix exists |
| `MixOptimality.NearMissSticks` | src/prompt_library.rs:231-239 | a near miss of the preferred size without repeats is never displaced, whatever follows |
| `MixOptimality.NearMissHidesFeasibleMix` | src/prompt_library.rs:231-239 | a concrete library where the exhaustive search ends on a near miss although a feasible mix exists, in every bucket order |
| `PromptLibrary.Shuffle` | src/prompt_library.rs:560-565 | every outcome of the draws is a permutation |
| `PromptLibrary.GroupByLengths` | src/prompt_library.rs:551-565 | buckets partition the candidates by joint length |
| `PromptLibrary.TryPairs` | src/prompt_library.rs:655-679 | balanced pairs stay within half the work limit and keep only permitted, truly scored mixes |
| `PromptLibrary.SearchAll` | src/prompt_library.rs:608-654 | skipping lengths the table calls empty loses nothing; work is the true number of compositions |
| `PromptLibrary.SearchCompositions` | src/prompt_library.rs:546-681 | exact holds exactly when the true number fits the work limit; then the answer is the best of all compositions and work is their number |
| `PromptLibrary.BestHomogeneousCell` | src/prompt_library.rs:434-478 | the chosen cell and count are no worse than any feasible mix of one joint length |
| `PromptLibrary.CycleRows` | src/prompt_library.rs:496-520 | unique rows first, then repeats pass by pass, is cycling through the cell |
| `PromptLibrary.TryHomogeneousBucket` | src/prompt_library.rs:413-529 | finds a single-cell mix exactly when a feasible one exists, reports it truthfully, and no single-cell mix is better |
| `PromptLibrary.SeedMix` | src/prompt_library.rs:336-366 | a random start respects the repeat limit and reaches the count unless capacity is smaller |
| `PromptLibrary.TryMove` | src/prompt_library.rs:368-408 | every move keeps valid rows and a permitted length, and replaces at most two picks, adds one or removes one |
| `PromptLibrary.NearestRow` | src/prompt_library.rs:758-765 | a row nearest to both targets |
| `PromptLibrary.LocalSearch` | src/prompt_library.rs:766-816 | ends on a permitted, truly scored mix, at the work limit or at a perfect score: the climb over one proposed move per unit of work; a start within tolerances that no near miss beats is only replaced by one no worse |
| `PromptLibrary.ClimbKeepsBest` | src/prompt_library.rs:795-815 | where permitted excess values differ by more than 1e-12 or not at all, neither the start nor any permitted move proposed is better than the mix kept |
| `PromptLibrary.SelectMix` | src/prompt_library.rs:683-858 | for every random outcome: an accepted mix is an eligible choice of kept library rows whose mean or median is the reported one and within both tolerances, with its true gaps and repeats; with harmless near misses a proven-empty failure of a valid request rules out every choice of rows; exhaustive answers are least with harmless near misses or without a band, and without a band succeed exactly when the first least vector is a hit; a failure shows the rows and statistics of a miss; which path answers; work stays within the limit |
| `PromptLibrary.HiddenIsReportedEmpty` | src/prompt_library.rs:741-858 | on the exhaustive path without a band, a near miss better than everything feasible is reported as proven empty |
| `PromptLibrary.WrongProofOfEmptiness` | src/prompt_library.rs:231-239 | the example library is reported as proven empty for every random outcome although two of its rows fit |
| `SweepSpec.ValueIsLine` | src/time_weighted.rs:159-216 | the sum of contributions at a time is the line of the open segments |
| `SweepSpec.EventsGiveLoad` | src/time_weighted.rs:166-182 | events up to a time add up to the segments open at it |
| `SweepSpec.AreaIsTotal` | src/time_weighted.rs:168-181 | the closed-form integral is the area under the sum, cell by cell, on every grid |
| `SweepSpec.ActiveGridIndependent` | src/time_weighted.rs:187-208 | the covered length is the same on every grid |
| `SweepSpec.ActiveIsUnion` | src/time_weighted.rs:187-208 | active time is the length of the cells covered throughout, every other cell being uncovered throughout |
| `SweepSpec.CellConstant` | src/time_weighted.rs:187-208 | between neighbouring grid points the open segments do not change |
| `TimeWeighted.GroupStep` | src/time_weighted.rs:187-208 | processing all events of one time keeps peak and active time right up to it |
| `TimeWeighted.Scan` | src/time_weighted.rs:182-208 | peak and active time of the pointwise sum; the reset of the line when nothing is open stores what is there |
| `TimeWeighted.OrderedAverages` | src/time_weighted.rs:209-215 | average ≤ active average ≤ maximum |
| `TimeWeighted.Sweep` | src/time_weighted.rs:159-216 | integral is the area, active time the length of the union, maximum the least upper bound; nothing to report exactly for no rows or an empty window |
| `RunMetrics.SpanNonNegative` | src/time_weighted.rs:92-156 | every request contributes nonnegative, nondecreasing segments |
| `RunMetrics.Compute` | src/time_weighted.rs:92-156 | each of the six blocks has area, active time, least upper bound and ordered averages of the segments of all spans, or nothing without rows or window |
| `RunMetrics.Conserved` | src/time_weighted.rs:92-156 | for rows inside the window the integrals are the latencies, the prefill and the decode seconds, the token-seconds and the token counts of the rows |
| `RunMetrics.ClockStartsAtZero` | src/strategic.rs:459-480 | no send is before the origin and some send is at it |
| `RunMetrics.SuccessInside` | src/strategic.rs:432-450 | no success is clipped by its stage window |
| `RunMetrics.BlockRows` | src/time_weighted.rs:92-156 | which rows make each block report a value |
| `RunMetrics.StageTimeWeighted` | src/strategic.rs:391-423 | over the stage window: all six blocks measured with peak and active time; Little's law, prefill seconds and decode seconds, token-seconds and token totals; which blocks report |
| `StageMeaning.SendsAre` | src/strategic.rs:452-480 | a record is sent its offset after the least offset if every record has one, else its wall-clock distance to the first |
| `StageMeaning.WindowIs` | src/strategic.rs:424-450 | the window ends when the last measured record does |
| `StageMeaning.StageMeans` | src/strategic.rs:385-423 | from the record fields: at every moment each block is the sum over the successes then in that phase, of one, of their tokens or of their rate, and its integral is the total of their seconds or tokens |
| `StageMeaning.PhasesAddUp` | src/time_weighted.rs:107-118 | prefill and decode seconds add up to the latency of the rows with a first token |
| `Asr.DistanceLeast` | src/asr.rs:138-150 | no edit script is cheaper than the distance |
| `Asr.DistanceAttained` | src/asr.rs:138-150 | a script of exactly that cost exists |
| `Asr.DistanceSymmetric` | src/asr.rs:138-150 | the distance is symmetric |
| `Asr.DistanceZero` | src/asr.rs:138-150 | zero exactly for equal sequences |
| `Asr.DistanceBounds` | src/asr.rs:138-150 | between the length difference and the longer length |
| `Asr.DistanceTriangle` | src/asr.rs:138-150 | the triangle inequality |
| `Asr.EditDistance` | src/asr.rs:138-150 | the two rolling rows compute the distance |
| `Asr.ErrorRate` | src/asr.rs:98-120 | edits per reference item; none exactly for an empty reference against a nonempty hypothesis; zero exactly when the sequences agree |
| `Asr.TranscriptErrorRates` | src/asr.rs:127-136 | both recorded rates, an unscorable transcript counting as fully wrong |
| `Sse.RunLine` | src/sse.rs:32-48 | a complete line read byte by byte is handled as a line |
| `Sse.SseParser.constructor` | src/sse.rs:27-30 | a new parser holds nothing |
| `Sse.SseParser.Feed` | src/sse.rs:32-93 | events and new state are those of the byte-by-byte reader |
| `Sse.ChunksIrrelevant` | src/sse.rs:32-48 | splitting the bytes anywhere gives the same events and final state |
| `Sse.EventRoundTrip` | src/sse.rs:54-93 | an encoded payload comes back as one event, with or without the optional space and with blanks behind it, whatever comment, id or event lines surround it |
| `Sse.EventIs` | src/sse.rs:77-91 | that event is the end marker, the parsed value or raw text, of a payload whose lines are those that were sent |
| `Sse.CrLfIsLf` | src/sse.rs:36-42 | a line ended by CR LF is the line ended by LF |
| `Sse.StreamRoundTrip` | src/sse.rs:54-93 | consecutive encoded payloads come back in order, once each |
| `ChatStream.Consumer.constructor` | src/chat_stream.rs:133-151 | a new consumer has seen nothing |
| `ChatStream.Consumer.Feed` | src/chat_stream.rs:165-268 | a chunk applies its events in order up to the first failing one |
| `ChatStream.ConsumeStream` | src/chat_stream.rs:371-411 | reads until an error, `[DONE]` or the end, then classifies |
| `StreamMeaning.StreamMeans` | src/chat_stream.rs:165-298 | how far a body is read, and in closed form over those events: text, finish reason, first reasoning, TTFT and gaps, each usage count and its presence, and exactly when each error arises |
| `StreamMeaning.VisibleAgrees` | src/sse.rs:95-118 | which choices carry visible output |
| `StreamMeaning.ReasoningCount` | src/usage.rs:25-52 | the first nonzero of the three reasoning counts, zero only if every reported one is, none if none is |
| `ChatStream.TimingTelescopes` | src/chat_stream.rs:165-298 | under a nondecreasing clock, TTFT plus all gaps is the last visible-token time and within latency |
| `ChatStream.ConsumeIsApply` | src/chat_stream.rs:387-406 | any cut applies all events once, or a prefix that contains `[DONE]` |
| `ChatStream.ChunksDoNotMatterIff` | src/chat_stream.rs:387-406 | all cuts of a body agree exactly when stopping anywhere behind `[DONE]` comes to the same |
| `ChatStream.ChunksDoNotMatterPerEvent` | src/chat_stream.rs:165-298 | all cuts agree exactly when each event behind `[DONE]` is parsed, no error, and leaves the report of the tally it meets unchanged, or is `[DONE]` again |
| `ChatStream.ChunksDoNotMatter` | src/chat_stream.rs:387-406 | all cuts agree when no event follows `[DONE]` |
| `ChatStream.ChunksMatterAfterDone` | src/chat_stream.rs:387-406 | an unparsable event behind `[DONE]` makes two cuts of one body disagree |
| `ImageCache.NewCache` | src/vlm.rs:37-46 | a new cache is empty; a capacity of zero is refused |
| `ImageCache.Cache.Get` | src/vlm.rs:48-61 | a hit returns the value and makes the key most recent; a miss changes nothing |
| `ImageCache.Cache.Put` | src/vlm.rs:63-73 | stores the value, makes the key most recent and evicts the least recent one when full |
| `ImageCache.Cache.GetOrLoad` | src/vlm.rs:75-195 | a hit touches, a successful load puts, a failed load changes nothing |
| `ImageCache.CacheIsRecency` | src/vlm.rs:36-73 | after any run the cache holds exactly the most recently touched keys in order, with last-put values |
| `ImageCache.RecencyOrder` | src/vlm.rs:36-73 | the recency list holds every touched key in the order of the last touches |
| `ImageCache.SmallerContained` | src/vlm.rs:36-73 | along any run of loads a cache stays contained in the one with one more place |
| `ImageCache.MissesMonotone` | src/vlm.rs:88-98 | more capacity never means more misses |
| `Template.FindUnique` | src/vlm.rs:483-498 | the only place where a token occurs, if there is exactly one |
| `Template.SpliceIsWeave` | src/vlm.rs:517-525 | replacing the holes of a woven text weaves it with the new fills |
| `Template.SpliceLoses` | src/vlm.rs:517-525 | if every token holds a character no fill holds, each replacement loses one of them |
| `Template.SpliceAll` | src/vlm.rs:517-525 | the copying loop splices all tokens; overlapping tokens abort |
| `RequestBody.EscapeBase64` | src/vlm.rs:410-419 | base64 text needs no escaping |
| `RequestBody.BodyTemplate` | src/vlm.rs:321-406 | for any payloads the body is one fixed template woven with the escaped payloads |
| `BodyMeaning.BodyCarries` | src/vlm.rs:321-406 | every key of the body carries its last override, null removing it, or what the request asks for: model, limits, flags, and the conversation with system text, prompt and images in order |
| `BodyMeaning.BodySorted` | src/vlm.rs:372-394 | every key occurs once, in sorted order |
| `BodyMeaning.MergeLookup` | src/request.rs:8-27 | after merging, each key carries its last override or what it carried before |
| `ReadBack.BodyReadsBack` | src/vlm.rs:471-482 | the plain text of a request reads back, by the JSON grammar, as its body with nothing left over |
| `ReadBack.ValueReads` | src/vlm.rs:471-482 | every serialized value reads back as itself, whatever follows it |
| `RequestBody.ReplacedIgnoresImages` | src/vlm.rs:388-394 | an override of messages leaves nothing of the images in the body |
| `RequestBody.SpliceIsPlain` | src/vlm.rs:430-526 | unique hits are the real holes, so the splice is the plain serialization |
| `RequestBody.SpliceDiffers` | src/vlm.rs:430-526 | when messages was overridden, a splice that goes ahead differs from the plain serialization |
| `RequestBody.OverrideIsSpliced` | src/vlm.rs:430-526 | such a splice does go ahead for an override that is the first placeholder |
| `RequestBody.BuildRequestBytes` | src/vlm.rs:430-526 | equals the plain serialization for every prompt and image list with base64 payloads unless messages is overridden, and then exactly when the tokens are not placeable |
| `Knee.FirstSaturatedStage` | src/strategic.rs:1111-1144 | the scan with a running minimum returns the least stage of the pairwise definition |
| `Knee.LargestRiseIsLargest` | src/strategic.rs:1173-1195 | the single pass finds the largest rise over all ordered pairs with a positive baseline |
| `Knee.LargestP95Rise` | src/strategic.rs:1173-1195 | the loop computes that rise |
| `Knee.KneedleInterior` | src/strategic.rs:1146-1171 | the Kneedle candidate is a measured interior stage |
| `Knee.DetectIsSound` | src/strategic.rs:1197-1258 | exactly one of index and reason; the knee exists exactly when there are enough points and a candidate, is the earlier candidate, and is never the last stage |
| `Knee.DetectKneeOnAxis` | src/strategic.rs:1197-1258 | the filled-in detection is that decision |
| `KneeMeaning.DetectMeans` | src/strategic.rs:1111-1258 | every detection on the measured stages: the first overloaded stage, the first largest p95 rise, the knee as the earlier of bend and overload or the reason why there is none, all stated without division or scans |
| `KneeMeaning.KneedleIsBend` | src/strategic.rs:1146-1171 | Kneedle answers exactly when both ranges exceed the tolerance and there is an interior entry, with the one farthest from the diagonal of the box, the last on ties |
| `KneeMeaning.LargestRiseIsFirst` | src/strategic.rs:1173-1195 | the scan returns the first position reaching the largest factor, over the first least positive value before it |
| `Knee.DetectIgnoresUnits` | src/strategic.rs:1197-1258 | positive rescaling of throughput and p95 leaves the verdict unchanged while the absolute range tests agree |
| `Concurrency.InFlightTracker.constructor` | src/concurrency.rs:37-46 | an empty gauge whose cap is at least one |
| `Concurrency.InFlightTracker.NoteAcquire` | src/concurrency.rs:58-63 | one acquire, one wait if it waited, nothing else |
| `Concurrency.InFlightTracker.Enter` | src/concurrency.rs:66-73 | returns and samples the count including this request and raises the peak to it |
| `Concurrency.InFlightTracker.Leave` | src/concurrency.rs:76-79 | one fewer in flight, nothing else |
| `Concurrency.InFlightTracker.ResetCounts` | src/concurrency.rs:94-101 | clears samples and counters, keeps current, sets the peak to it |
| `Concurrency.GaugeWithinCap` | src/concurrency.rs:145-192 | every guard is backed by a permit |
| `Concurrency.StepKeeps` | src/concurrency.rs:58-192 | every step of every task keeps permits conserved, the gauge equal to its guards and all readings within the cap |
| `Concurrency.WaitsKept` | src/concurrency.rs:58-101 | a step keeps waits covered by acquires exactly when it is not a reset that catches an acquire half counted |
| `Concurrency.RunsAreSafe` | src/concurrency.rs:58-192 | in every interleaving, resets included: gauge equals live guards, at most cap; when all tasks are done no permit is lost; waits at most acquires if no reset catches an acquire half counted |
| `Concurrency.PermitFirstOvershoots` | src/concurrency.rs:294-308 | for every cap, freeing the permit before the guard admits a run that reads cap plus one |
| `Concurrency.ResetRace` | src/concurrency.rs:58-101 | a reset between the two counter updates of any waiting acquire leaves a wait without an acquire |
| `Endpoints.LoadEndpoints` | src/endpoints.rs:342-382 | the expanded list in file order, or the first complaint |
| `Endpoints.ExpandedCount` | src/endpoints.rs:358-381 | the list holds every endpoint as often as its weights say |
| `Endpoints.ExpandedLists` | src/endpoints.rs:358-381 | each config entry is listed in file order as often as its weight, at least once, with its trimmed URL and key and its own name or the host name |
| `Endpoints.ExpandedNames` | src/endpoints.rs:358-381 | no entry expands to nothing, and every listed name has a counter |
| `Endpoints.RoundRobinFair` | src/endpoints.rs:155-157 | any number of full turns without a wrap serves every endpoint in exact proportion, from any counter |
| `Endpoints.RoundRobinFairIff` | src/endpoints.rs:155-157 | fair from every counter across the wrap exactly when rotation by the counter range leaves the list unchanged |
| `Endpoints.WrapUnfair` | src/endpoints.rs:155-157 | three endpoints on a 64-bit counter: the turn from its last value serves one twice and another never |
| `Endpoints.WeightsAreShares` | src/endpoints.rs:155-157 | weights in the file are shares of the traffic |
| `Endpoints.EndpointSelector.constructor` | src/endpoints.rs:97-117 | a zero counter and no ejection for every name |
| `Endpoints.EndpointSelector.NoteConnectFailure` | src/endpoints.rs:122-128 | ejects a known name exactly until now plus the backoff, changes nothing else |
| `Endpoints.EndpointSelector.LeastLoaded` | src/endpoints.rs:158-173 | the first entry with the least key: healthy before ejected, then fewer in flight |
| `Endpoints.EndpointSelector.Select` | src/endpoints.rs:143-183 | counts the chosen entry and moves the counter only for round robin; least-inflight picks an ejected entry only if all are ejected, and never one with more in flight |
| `Endpoints.EndpointSelector.DropLease` | src/endpoints.rs:85-94 | one fewer in flight on that name |
| `Endpoints.SelectInTurn` | src/endpoints.rs:155-157 | consecutive selections from the selector's own counter are those counted by the fairness results |
| `Endpoints.CountersAreLeases` | src/endpoints.rs:85-183 | in every run no counter underflows and each equals its live leases |
| `Endpoints.UseSelector` | src/endpoints.rs:85-183 | any run of selections, drops and failures on the selector object is such a run of events, so its counters are its live leases |
| `Endpoints.FewestKeeps` | src/endpoints.rs:158-173 | picking one with the fewest keeps all within one |
| `Endpoints.SelectSerially` | src/endpoints.rs:143-183 | any number of least-inflight picks without ejections or drops keeps distinct endpoints within one, and every pick is counted |
| `Runner.StopFlag.constructor` | src/runner.rs:41-43 | neither stopped nor signaled |
| `Runner.StopFlag.Stop` | src/runner.rs:45-47 | stops without counting as a signal |
| `Runner.StopFlag.OnSignal` | src/runner.rs:57-68 | stops, and exits hard exactly when an earlier real signal was seen |
| `Runner.OnlyLaterSignalsExitHard` | src/runner.rs:40-69 | in every interleaving exactly the real signals after the first exit hard |
| `Runner.WarmupBarrier.constructor` | src/runner.rs:129-143 | no shift and no join errors |
| `Runner.WarmupBarrier.BeforeSlot` | src/runner.rs:145-177 | the first measured slot waits for and removes all handles, counts failed joins, resets the tracker and fixes the shift; other slots change nothing |
| `Runner.Dispatch` | src/bin/metrum-ai-bench-cli-llm.rs:1134-1165 | for any schedule, durations and stop: every warmup request has finished before any measured one starts, each slot is due by its shifted schedule, nothing is sent early, join errors are the failed warmups |
| `Runner.GapKeptIff` | src/runner.rs:171-177 | the shift keeps a gap exactly when the later slot does not pass the longest duration or the slots coincide |
| `Runner.FirstMeasuredDue` | src/runner.rs:163-168 | the first measured slot is due at the barrier or at its own time, whichever is later |
| `Runner.NoCatchUp` | src/runner.rs:109-120 | every later measured slot keeps its distance to the first one |
| `PromptSequence.WriteSequenceLog` | src/prompt_sequence.rs:44-75 | one row per slot describing the prompt at its index, up to the first slot whose index is invalid |
| `PromptSequence.CopiesAreAll` | src/prompt_sequence.rs:111-118 | a fingerprint's list is all its pool indices, ascending |
| `PromptSequence.ValidatePrescribedSequence` | src/prompt_sequence.rs:148-161 | accepts exactly orders within a nonempty pool, otherwise names the first bad slot |
| `PromptSequence.ResolvePrescribedOrder` | src/prompt_sequence.rs:104-146 | resolves every slot by fingerprint, then by index, or fails with the first slot that does not resolve |
| `PromptSequence.PickMeans` | src/prompt_sequence.rs:122-143 | what one slot comes to: a pool prompt with its fingerprint, else its own index if it has none, else which error |
| `PromptSequence.ReportedSlot` | src/prompt_sequence.rs:132-141 | a range error names the right slot exactly when it is slot 0; a missing fingerprint always names the right one |
| `PromptSequence.RangeErrorBlamesSlotZero` | src/prompt_sequence.rs:138-141 | two entries of which the second is out of range and slot 0 is reported |
| `PromptSequence.PromptPool.ApplyPrescribedSequence` | src/prompt_sequence.rs:170-174 | the pool becomes the prompts in the given order |
| `PromptSequence.RecordThenReplay` | src/prompt_sequence.rs:44-174 | recorded rows resolve exactly when the pool has every recorded prompt, and then slot s sends recorded prompt s mod N |
| `PromptSequence.RecordAndReplay` | src/prompt_sequence.rs:53-174 | logging, resolving and applying in sequence does that, for any pools, order and request count |
| `PromptSequence.UsesExactly` | src/prompt_sequence.rs:119-131 | each copy of a prompt is used once per full turn, plus once if the last turn got to it |
| `PromptSequence.CopiesUsedEvenly` | src/prompt_sequence.rs:119-131 | two copies of one prompt are used equally often to within one |
| `PromptSequence.ReplayLogTrueIff` | src/bin/metrum-ai-bench-cli-llm.rs:925-935 | the log of a replayed run is true exactly when the order settles on the slots in use |
| `PromptSequence.ReshuffleLogTrueIff` | src/bin/metrum-ai-bench-cli-llm.rs:925-935 | for a reshuffle without duplicates that is only the order that changes nothing |
| `PromptSequence.ReplayLogWrong` | src/bin/metrum-ai-bench-cli-llm.rs:925-935 | a replay whose log names the wrong prompt, and one whose log panics |
| `PromptSequence.ReplayLogWithoutOrder` | src/prompt_sequence.rs:44-49 | logging the reordered pool without the order is always true |
| `PromptSequence.LogFromOriginalPool` | src/prompt_sequence.rs:44-49 | logging the original pool with the order is always true as well |

## Left out

- MixOptimality.ExactBestIsOptimal: assumes that near misses are harmless. `ExactBestFeasibleIff` decides every other library whose excess values avoid the band between 1e-12 and 2e-12; inside that band the comparison is not transitive and the outcome is whatever the chain of comparisons gives.
- MixOptimality.FoundIffHarmless: excludes exact ties between a near miss and a least feasible mix, where the order of visits decides; `ExactBestFeasibleIff` covers them.
- PromptLibrary.SelectMix: answers of the local search claim no optimality, as in the program.
- PromptLibrary.SeedMix: the redraw until a row below the limit is hit is modelled by its successful draw, so termination with probability one is not part of the model.
- PromptLibrary.TryMove: does not say how likely each kind of move is.
- PromptLibrary.GroupByLengths: the program walks buckets in key order; the model allows any order and proves everything for every order.
- PromptLibrary.ClimbKeepsBest: assumes well separated excess values, because the comparison is not transitive inside 1e-12.
- ReadBack.ValueReads: the reading of numbers, booleans and null is a parameter that must invert how they are written.
- Knee.DetectIgnoresUnits: the range tests compare with an absolute epsilon, so a rescaling that changes their answers is excluded.
- ChatStream.ConsumeStream: the trace timeline and the drain of the body after `[DONE]` are not part of this model.
- RequestBody.BuildRequestBytes: text is sequences of characters; the UTF-8 bytes of the output are not modelled, and how numbers are written is a parameter.
- Concurrency.RunsAreSafe: a counter reset is one atomic step.
- Endpoints.EndpointSelector.Select: in-flight counters are unbounded; only the round-robin counter wraps.
- Endpoints.LoadEndpoints: trimming, URL validation and host names are parameters, and reading the file is left out.
- PromptSequence.RecordThenReplay: assumes that fingerprints are nonempty and differ for the different prompts in play; loading refuses an empty log before any of this.
- Floating point: `real` throughout, so rounding, infinities and NaN are not part of the model. Widths of `usize` and `u64` matter only for the round-robin counter and durations and are modelled there; saturating arithmetic elsewhere cannot saturate on lists that fit in memory.
- Asr text normalization and word splitting: the distances and rates are over already normalized sequences.
- SHA-256, base64 and image decoding, JSON parsing and UTF-8 decoding: parameters with stated properties.
- HTTP, TLS, retries, telemetry sampling, signal installation and process exit: foreign libraries and wall-clock behaviour.
- Loading of Parquet, Hugging Face, YAML and CSV data, and all exporters and report formats: input and output.
- Percentiles, bootstrap intervals and the field-by-field stage summaries: they would only add easy members.
