# Selective-read byte-range engine: a verified model

The selective-read experiment reads Parquet pages sparsely: it fetches a prefix of each page, finds out
from the levels and lengths where the selected rows lie, and reads only their bytes when a cost model
says that this is worth it. This project models that engine in Dafny and proves what it is meant to
guarantee.

| files | model |
|---|---|
| `Times`, `EqualShare`, `EqualShareTheorems`, `EqualShareLaws` | the reference simulation of ordered range reads that share bandwidth, its theorems, and what some runs take in closed terms |
| `Slots`, `Simulation` | the 32-slot arrays, masks, cached minima, service clock and early return that compute it |
| `Draws`, `ExtraCosts`, `TrialLaws` | paired trials over reproducible draws, in slices, and what they cost where no simulation is needed to tell |
| `Limits`, `ObjectStore` | limits that the parts share, and what the store answers |
| `Bytes`, `Base128`, `DefinitionLevels`, `LengthStream`, `LengthCodec` | the page parsers, a decoder for the length stream, and encoders they invert |
| `Spans`, `PageValues`, `ExactRanges`, `WrittenPages`, `AcceptedStreams`, `AcceptedPages`, `Discovery` | byte ranges of the selected rows, pages as writers lay them out, the converse that only such pages are accepted, and bounded discovery |
| `GapMerging`, `CoveringPlans`, `RangePlanner`, `Costs`, `PayloadPlan` | which ranges to read together, and whether to read sparsely at all |
| `ProbeBudgets`, `Fetching` | the budget that concurrent page probes share, and one page's cache and rounds |
| `PageReader`, `PageParts`, `RangeRequests` | the sparse page buffer, pages inside larger requests, and calls for several ranges |
| `EstimatorPool`, `EstimatorAnswers` | permit, worker channels, replies and caches, one atomic step at a time, and what callers receive |
| `BatchCurve` | calibrated request costs |
| `BalancedOrders`, `Rechunking`, `Pieces` | run orders, re-chunking of row streams |
| `SplitMix`, `DecimalDraws` | the generator of words, and unbiased decimals from it |
| `Numbers`, `Options`, `Ranks`, `Remainders`, `Sets`, `Sorting` | what the others share |

Parsers are specified by functions (`Varint`, `Definitions`, `LengthStreamEnd`, `ValueRanges`, ...) and the
loops of the program are methods proved against them; theorems are about the functions. The simulator
is a class proved against the reference simulation in the same way. The length stream follows "Delta
Encoding (DELTA_BINARY_PACKED = 5)" and "Delta-length byte array (DELTA_LENGTH_BYTE_ARRAY = 6)", the
levels "Run Length Encoding / Bit-Packing Hybrid (RLE = 3)", of Apache Parquet's Encodings specification.

Times and bandwidths are exact reals, so the program's tolerances (1e-8, 1e-12) become equalities.
Infinite times are `Never`. Bit masks are sets of slots. Responses of the object store, what other pages
reserve between the requests of one page and the words drawn for delays enter as function parameters;
every theorem holds for all of them. The estimator pool takes the cost of a trial as such a parameter
too; `EstimatorAnswers` instantiates it with the simulator.

Costs are computed with saturating 128-bit arithmetic. Past saturation more requests can cost less
(`Costs.SaturationExample`, whose 2^128 - 1 bytes the function's argument admits but no page reaches);
`Costs.SaturatedCost` says exactly when, for every accepted profile. `ProbeBudgets.DecisionFits` shows
that scans of practical size stay far below that.

## Model

| member | source | states |
|---|---|---|
| `EqualShareTheorems.ClosedFormIsRun` | benches/selective_read/src/delta_length_simulation.rs:213-249 | once every request is sent and every prefix delivered, the sorted-arrival recurrence gives exactly the time that simulating all remaining events gives |
| `EqualShareTheorems.UnsettledDoesNotFinish` | benches/selective_read/src/delta_length_simulation.rs:250-326 | no event finishes a run before the closed form applies, so a non-empty run always leaves through it |
| `EqualShareTheorems.BytesConserved` | benches/selective_read/src/delta_length_simulation.rs:328 | after any number of iterations, busy time at full bandwidth plus the bytes in flight and unsent is the total |
| `EqualShareTheorems.EventsUsed` | benches/selective_read/src/delta_length_simulation.rs:324-325 | a run takes exactly four events per split range and two per other range, at most 4n, and each iteration uses one until none is left |
| `EqualShareTheorems.ElapsedAtLeastTransfer` | benches/selective_read/src/delta_length_simulation.rs:329 | no run is shorter than total bytes over bandwidth |
| `EqualShareTheorems.RunIsAfter` | benches/selective_read/src/delta_length_simulation.rs:192-331 | the time of a run can be read off after any number of its iterations |
| `EqualShareTheorems.LoneSplitAddsOneWait` | benches/selective_read/src/delta_length_simulation.rs:296-323 | splitting a lone request costs exactly its second delay, whatever its size |
| `EqualShareLaws.OneWindow` | benches/selective_read/src/delta_length_simulation.rs:192-249 | up to 32 whole requests are all sent at once and only then share the link |
| `EqualShareLaws.EqualDelaysPayOnce` | benches/selective_read/src/delta_length_simulation.rs:192-249 | up to 32 whole requests with one delay take that delay once, and then the transfer of all their bytes |
| `EqualShareLaws.PingsInWaves` | benches/selective_read/src/delta_length_simulation.rs:193-209 | any number of empty requests with one delay take it once for every 32 of them, the last ones included |
| `EqualShareLaws.SplitsPayTwice` | benches/selective_read/src/delta_length_simulation.rs:250-323 | up to 32 split requests with the same two delays take each of them once and the transfer of all their bytes, whatever their sizes |
| `EqualShare.EventKeepsInv` | benches/selective_read/src/delta_length_simulation.rs:250-323 | every event keeps each sent range in exactly one of waiting, receiving or done, everything before the front done, and the window at most 32 wide |
| `EqualShare.IssueKeepsInv` | benches/selective_read/src/delta_length_simulation.rs:193-209 | sending requests keeps the same invariant |
| `EqualShare.WindowIsFull` | benches/selective_read/src/delta_length_simulation.rs:193-209 | after sending, all ranges are sent, or exactly the 32 from the first unfinished one on |
| `EqualShare.SomethingInFlight` | benches/selective_read/src/delta_length_simulation.rs:268 | an unfinished run always has a next event |
| `EqualShare.StepUsesOne` | benches/selective_read/src/delta_length_simulation.rs:192-326 | one iteration uses up exactly one of the outstanding events |
| `Slots.FirstSlot` | benches/selective_read/src/delta_length_simulation.rs:77-80 | of the slots in a mask, the one whose range comes first in the window, across the wrap-around |
| `Slots.MinimumScalar` | benches/selective_read/src/delta_length_simulation.rs:82-94 | the least time of all slots, and among equal times the earlier range |
| `Slots.EventSlots.Push` | benches/selective_read/src/delta_length_simulation.rs:115-122 | stores one event in its slot and keeps the cached best event right |
| `Slots.EventSlots.Take` | benches/selective_read/src/delta_length_simulation.rs:286-288 | empties one slot, leaves every other event, and drops the cache |
| `Slots.EventSlots.Peek` | benches/selective_read/src/delta_length_simulation.rs:124-141 | the lexicographic minimum of (time, range) over all events, from the cache or recomputed |
| `Simulation.Simulator.SkipDone` | benches/selective_read/src/delta_length_simulation.rs:193-195 | moves the front over finished ranges, as far as the reference does |
| `Simulation.Simulator.IssueRequests` | benches/selective_read/src/delta_length_simulation.rs:196-209 | sends every request the window admits; no slot is ever occupied |
| `Simulation.Simulator.OnResponse` | benches/selective_read/src/delta_length_simulation.rs:270-295 | a response takes the arrays, masks, clock and service to the reference state after that response |
| `Simulation.Simulator.OnBody` | benches/selective_read/src/delta_length_simulation.rs:297-323 | a finished body takes them to the reference state after that body, completing the range or requesting its tail |
| `Simulation.Simulator.NextEvent` | benches/selective_read/src/delta_length_simulation.rs:250-324 | one loop iteration performs exactly the next event of the reference simulation |
| `Simulation.Simulator.Arrivals` | benches/selective_read/src/delta_length_simulation.rs:222-233 | the outstanding responses, each listed once with its time, range and kind |
| `Simulation.DrainArrivals` | benches/selective_read/src/delta_length_simulation.rs:235-241 | the loop over sorted arrivals computes the recurrence and the bytes still to arrive |
| `Simulation.Simulator.FinishInClosedForm` | benches/selective_read/src/delta_length_simulation.rs:213-249 | the early return is the time of the whole run, and the bytes add up to the expected total |
| `Simulation.Simulator.Run` | benches/selective_read/src/delta_length_simulation.rs:160-331 | the slot arrays, masks, service clock and early return compute the reference time; non-empty inputs always return early; at most 4n events |
| `ExtraCosts.SkippedSeed` | benches/selective_read/src/delta_length_simulation.rs:44 | the wrapped seed offset is the seed after that many draws |
| `ExtraCosts.ExtraCosts` | benches/selective_read/src/delta_length_simulation.rs:35-69 | a slice of the trials has the costs those trials have in one uninterrupted sequence of draws |
| `ExtraCosts.SlicesInOrder` | benches/selective_read/src/delta_length_cost.rs:101-103 | the worker slices are in order and tile all trials, for any number of workers |
| `ExtraCosts.PooledCosts` | benches/selective_read/src/delta_length_cost.rs:97-127 | joining the workers' slices gives every trial its own cost, for any number of workers |
| `TrialLaws.LoneSplitCost` | benches/selective_read/src/delta_length_simulation.rs:44-66 | a lone split request costs, in each trial, exactly the duration drawn for its tail: split time less ordinary time |
| `TrialLaws.NothingSplit` | benches/selective_read/src/delta_length_simulation.rs:54-66 | requests of which none is split cost nothing extra |
| `TrialLaws.AllSplitCost` | benches/selective_read/src/delta_length_simulation.rs:58-66 | when all durations are equal, splitting up to 32 requests costs exactly that duration |
| `TrialLaws.BytesOfOneSecond` | benches/selective_read/src/delta_length_simulation.rs:43 | as many bytes as pass in a second take 10^9 units of time, after the delay |
| `TrialLaws.SlicesAreBalanced` | benches/selective_read/src/delta_length_cost.rs:101-103 | every worker has a whole share of the 1024 trials, rounded down or up |
| `Bytes.Take` | benches/selective_read/src/delta_length.rs:103-108 | advances exactly over the bytes asked for, or names the end that is missing |
| `Base128.ReadVarint` | benches/selective_read/src/delta_length.rs:110-123 | the parsing loop computes the specified number or its error |
| `Base128.VarintInvertsEncode` | benches/selective_read/src/delta_length.rs:110-123 | every 64-bit number is read back from its base-128 form, wherever it stands |
| `Base128.SignedInvertsZigzag` | benches/selective_read/src/delta_length.rs:125-127 | the signed numbers are read back from their zigzag form |
| `Base128.AcceptedInteger` | benches/selective_read/src/delta_length.rs:110-123 | what is accepted as a number is at most ten bytes, of which only the last has no continuation bit, and the number below 2^64 that their groups of seven bits write out |
| `Base128.DenotedInteger` | benches/selective_read/src/delta_length.rs:110-123 | the converse: all such bytes, the shortest form or not, are accepted as that number |
| `DefinitionLevels.ReadDefinitions` | benches/selective_read/src/delta_length.rs:129-162 | the parsing loop computes the specified levels or their error |
| `DefinitionLevels.DefinitionsInvertRuns` | benches/selective_read/src/delta_length.rs:129-162 | any mix of repeated and bit-packed runs, with padding in the last group only and headers written out in any way, is read back as the levels it stands for |
| `DefinitionLevels.LevelsRoundTrip` | benches/selective_read/src/delta_length.rs:129-162 | every sequence of levels has runs that stand for it and is read back from them |
| `DefinitionLevels.NothingMayFollow` | benches/selective_read/src/delta_length.rs:154-160 | levels are read only if nothing follows the last run that counts; zeros there give way to an ordinary read, anything else is invalid |
| `DefinitionLevels.AcceptedDefinitions` | benches/selective_read/src/delta_length.rs:129-162 | the converse: whatever is accepted as levels is such a mix of runs and nothing else |
| `LengthStream.ReadLengthStreamEnd` | benches/selective_read/src/delta_length.rs:166-207 | the locating loop computes the specified end or its error |
| `LengthStream.LengthStreamAgrees` | benches/selective_read/src/delta_length.rs:166-207 | locating the end in a prefix either asks for bytes beyond the prefix or gives what the whole gives |
| `LengthCodec.AcceptedGeometry` | benches/selective_read/src/delta_length.rs:166-187 | an accepted header describes full miniblocks that fill blocks of at most 32768 values, names as many values as there are levels, and begins with a non-negative length |
| `LengthCodec.StreamDecodes` | benches/selective_read/src/delta_length.rs:166-207 | the end found is where the writer stopped and the decoded values are the ones written, for any block geometry, any widths in unused miniblocks and integers written out in any way |
| `LengthCodec.LengthsRoundTrip` | benches/selective_read/src/delta_length.rs:166-207 | every list of non-negative 32-bit lengths has a stream, whose end is found and which decodes to the lengths, whatever follows it |
| `AcceptedStreams.AcceptedStream` | benches/selective_read/src/delta_length.rs:166-207 | the converse: whatever is accepted as a length stream was laid out so by some writer, and decodes to what was written |
| `LengthCodec.MiniblocksDecode` | benches/selective_read/src/delta_length.rs:191-204 | the used miniblocks decode to their deltas and end where they were written |
| `LengthCodec.AccumulateInvertsDifferences` | benches/selective_read/src/delta_length.rs:236-251 | 32-bit lengths are restored from any deltas that lead from each to the next modulo 2^32, plain or wrapped |
| `PageValues.StreamOfSlice` | benches/selective_read/src/delta_length.rs:237-251 | the stream ends at the same place in the slice that is handed to the decoder |
| `PageValues.ReadPlacement` | benches/selective_read/src/delta_length.rs:252-286 | the row loop computes the specified ranges or their error |
| `PageValues.ReadValueRanges` | benches/selective_read/src/delta_length.rs:209-287 | the whole parse computes its specification, errors included |
| `PageValues.ValueRangesAgree` | benches/selective_read/src/delta_length.rs:209-287 | parsing a prefix either asks for bytes beyond it, and for none of the payload, or already gives the whole body's result |
| `ExactRanges.RangesAreExact` | benches/selective_read/src/delta_length.rs:252-286 | the ranges are ordered, apart, inside the payload, and cover exactly the bytes of the selected rows placed by summing lengths; all lengths end at the page's end |
| `ExactRanges.PlacementSucceeds` | benches/selective_read/src/delta_length.rs:257-286 | rows are placed exactly when all lengths are non-negative, end at the page's end, and the selected rows make at most 8192 separate stretches; too many stretches are the only other failure |
| `WrittenPages.StructureFound` | benches/selective_read/src/delta_length.rs:216-252 | whatever runs, block geometry, bit widths, padding, wrapped deltas and forms of integers the writer chose, or if it left the lengths of an all-null page out, its levels, lengths and payload are found as they were written |
| `WrittenPages.PlainLayout` | benches/selective_read/src/delta_length.rs:209-251 | every list of values has such a layout |
| `WrittenPages.ValueOfRow` | benches/selective_read/src/delta_length.rs:252-282 | the bytes from a row's start to the next row's start are the row's value |
| `WrittenPages.WrittenPageIsRead` | benches/selective_read/src/delta_length.rs:209-287 | for any values, any runs for their levels and any layout of their lengths, the omitted one included: the page is read exactly when the selected rows make at most 8192 separate stretches of bytes; the ranges cover exactly the bytes of the selected rows, and each row's bytes are its value |
| `AcceptedPages.AcceptedPageIsWritten` | benches/selective_read/src/delta_length.rs:209-287 | the converse: every page that is accepted, byte for byte, is the page that some writer laid out for some values |
| `AcceptedPages.AcceptedExactlyWritten` | benches/selective_read/src/delta_length.rs:209-287 | a page is accepted if and only if some writer laid it out for that many rows and the selected ones make at most 8192 separate stretches |
| `AcceptedPages.OneMeaning` | benches/selective_read/src/delta_length.rs:209-287 | whoever laid a page out, it means the same values |
| `Discovery.RestCovers` | benches/selective_read/src/delta_length.rs:67-70 | trimming the ranges by the held prefix keeps exactly the bytes not held |
| `Discovery.RestSeparated` | benches/selective_read/src/delta_length.rs:67-70 | what remains is still ordered, apart and non-empty |
| `Discovery.TargetGrows` | benches/selective_read/src/delta_length.rs:87-91 | every probe grows the prefix, reaches what is needed, doubles the prefix unless the page or the limit ends it, and reads no further than that |
| `Discovery.Extend` | benches/selective_read/src/delta_length.rs:80-95 | an extension reaches the byte that the parse of the held prefix asks for, and reads at most to the larger of that byte, 4096 and twice the held prefix |
| `Discovery.LittleIsHeld` | benches/selective_read/src/delta_length.rs:80-95 | when the page is understood, at most the initial prefix, 4096 bytes, or twice the bytes before the payload are held |
| `Discovery.Discover` | benches/selective_read/src/delta_length.rs:41-101 | a plan is the whole body's ranges less the held prefix, which is all that the fetcher cached and at most 4096 bytes, the initial prefix or twice the bytes before the payload; every extension was asked for by the parse of what was held before it; an invalid page is invalid as a whole; at most nine fetches within the page and 1 MiB; every fallback has its cause: page or selection outside the limits, a refused extension, a parse that gives up, or a limit that leaves no room for what is needed |
| `RangePlanner.MergeRanges` | crates/delta-arrow-reader-core/src/reader/backend/direct_parquet/range_planning.rs:69-99 | for any largest gap: ordered ranges, further apart than that, that cover exactly the requested bytes and what lies between two requests at most that far apart |
| `RangePlanner.MergeSmallestGaps` | benches/selective_read/src/delta_length_reader.rs:229-253 | the plan that reads across exactly the listed gaps |
| `GapMerging.MergeByShape` | benches/selective_read/src/delta_length_reader.rs:229-253 | merging gaps keeps the ranges ordered, adds exactly the gap bytes and removes one range per gap |
| `GapMerging.MergeByCovers` | benches/selective_read/src/delta_length_reader.rs:229-253 | merging gaps loses no requested byte |
| `GapMerging.SmallestFirst` | benches/selective_read/src/delta_length_reader.rs:201-222 | merging the k smallest gaps costs exactly their sizes |
| `GapMerging.NoChoiceBeatsSmallest` | benches/selective_read/src/delta_length_reader.rs:201-222 | no other choice of as many gaps reads fewer bytes |
| `GapMerging.FirstAreEarliest` | benches/selective_read/src/delta_length_reader.rs:201-222 | the gaps merged are chosen by size and, among equal ones, by position |
| `CoveringPlans.MergeByCoversOnly` | benches/selective_read/src/delta_length_reader.rs:229-253 | a merged plan reads nothing but requested bytes and merged gaps |
| `CoveringPlans.JoinedPlan` | benches/selective_read/src/delta_length_reader.rs:184-190 | any plan that covers the request is at least as large as some merged plan of no more ranges |
| `CoveringPlans.CoveringPlanBytes` | benches/selective_read/src/delta_length_reader.rs:184-190 | any plan of fewer ranges that covers the request reads at least the exact bytes and the smallest gaps |
| `RangePlanner.BestCount` | benches/selective_read/src/delta_length_reader.rs:208-220 | the loop finds the first cheapest count of smallest gaps within the budget |
| `RangePlanner.Choose` | benches/selective_read/src/delta_length_reader.rs:191-225 | the chosen plan covers the request within the budget and no covering plan of as few ranges is cheaper, or as cheap and smaller; it merges smaller gaps before larger ones and earlier before later; there is none only if no such plan is priced and fits |
| `Costs.CostInBytes` | benches/selective_read/src/delta_length_reader.rs:101-112 | for accepted profiles the cost never falls as bytes grow, saturation included, and only the count decides whether it is defined |
| `Costs.CostInRequests` | crates/delta-arrow-reader-core/src/reader/backend/direct_parquet/cost_model/range_cost.rs:44-65 | nor does it fall as requests grow, unless bytes and waiting together exceed 128 bits |
| `Costs.TransportInWaiting` | crates/delta-arrow-reader-core/src/reader/backend/direct_parquet/cost_model/range_cost.rs:51-58 | the transport cost does not fall with the waiting exactly as long as the sum of bytes and waiting does not saturate |
| `Costs.SaturatedCost` | crates/delta-arrow-reader-core/src/reader/backend/direct_parquet/cost_model/range_cost.rs:44-65 | for every accepted profile, exactly when more requests cost no less: the sum does not saturate, the waiting is the same, or the requests' own costs decide |
| `Costs.SaturatedStoredCost` | crates/delta-arrow-reader-core/src/reader/backend/direct_parquet/cost_model/range_cost.rs:44-65 | with 64-bit numbers and fewer than 2^60 requests the last case cannot occur: past saturation more waves are always priced lower |
| `Costs.SaturatedFromNone` | crates/delta-arrow-reader-core/src/reader/backend/direct_parquet/cost_model/range_cost.rs:44-65 | the same comparison with no request at all, also exact |
| `Costs.SaturationExample` | crates/delta-arrow-reader-core/src/reader/backend/direct_parquet/cost_model/range_cost.rs:44-65 | an instance: the largest byte count that the argument's type admits costs less in 33 requests than in one |
| `Costs.CostAtLeast` | crates/delta-arrow-reader-core/src/reader/backend/direct_parquet/cost_model/range_cost.rs:44-65 | nothing costs nothing, and a read costs at least its bytes and one latency, unless that sum saturates |
| `Costs.CostOfRead` | crates/delta-arrow-reader-core/src/reader/backend/direct_parquet/cost_model/range_cost.rs:44-65 | what a read costs, saturation aside: its bytes after one delay or, if that is longer, a 32nd of its bytes, rounded up, after one delay for every 32 requests; or its requests' own cost when that is higher still |
| `Costs.OneWaveOrNoBytes` | crates/delta-arrow-reader-core/src/reader/backend/direct_parquet/cost_model/range_cost.rs:44-65 | up to 32 requests pay one delay and their bytes; requests for no bytes pay one delay for every 32 of them |
| `Costs.ReadCost` | crates/delta-arrow-reader-core/src/reader/backend/direct_parquet/cost_model/range_cost.rs:44-65 | the transport cost in the same closed terms, for any latency and overhead |
| `Costs.DelayIs` | crates/delta-arrow-reader-core/src/reader/backend/direct_parquet/cost_model/range_cost.rs:86-100 | the delay of an accepted profile is what its bandwidth transfers in its latency |
| `Costs.TransportCostInBytes` | benches/selective_read/src/delta_length_reader.rs:101-112 | the transport's own cost does not fall as bytes grow either |
| `PayloadPlan.SavesTenth` | benches/selective_read/src/delta_length_reader.rs:138-147 | away from saturation a plan is used exactly when the prefix and the plan are at most three quarters of the body and the plan costs less than nine tenths of reading the rest |
| `PayloadPlan.WinnerSaves` | benches/selective_read/src/delta_length_reader.rs:150-156 | if any covering plan saves, the planner's choice saves |
| `PayloadPlan.PayloadRanges` | benches/selective_read/src/delta_length_reader.rs:114-157 | fails exactly when the prefix exceeds the body or the request exceeds the rest; a plan covers the request, stays inside it and saves; the transport's best plan is taken whenever it saves, else the cheapest plan if that saves; none is returned only if no covering plan saves |
| `ProbeBudgets.AnyOrderIsSafe` | benches/selective_read/src/delta_length_reader.rs:342-378 | after any reservations in any order: the charge and the fallback stay within the limit, bytes are conserved, and each round holds exactly what was granted in it |
| `ProbeBudgets.FirstRoundClosed` | benches/selective_read/src/delta_length_reader.rs:343-345 | with the fallback paid up front, round 0 never changes |
| `ProbeBudgets.OrderDoesNotMatter` | benches/selective_read/src/delta_length_reader.rs:342-378 | two reservations granted in both orders leave the same account |
| `ProbeBudgets.IncrementalDecision` | benches/selective_read/src/delta_length_reader.rs:346-374 | the running charge never underflows and decides as the whole account does |
| `ProbeBudgets.DecisionFits` | benches/selective_read/src/delta_length_reader.rs:349-374 | in a budget opened for up to 2^79 bytes and 2^32 requests, no sum behind a decision overflows 128 bits, whatever was reserved before and even if the request is refused |
| `ProbeBudgets.EstimateWithinLimit` | benches/selective_read/src/delta_length_reader.rs:323-337 | an estimated fallback is charged in full, rounded up to a whole byte, and within the limit |
| `ProbeBudgets.EstimateAccepted` | benches/selective_read/src/delta_length_reader.rs:323-331 | an estimate that 128 bits hold is accepted exactly when the bytes that it takes to transfer are worth at most a twentieth of the ordinary cost |
| `ProbeBudgets.WithinFivePercent` | benches/selective_read/src/delta_length_reader.rs:342-378 | after any reservations all that was granted, and the fallback on top, cost at most 21 twentieths of the ordinary read |
| `ProbeBudgets.ProbeBudget.Reserve` | benches/selective_read/src/delta_length_reader.rs:342-378 | grants exactly when the account stays affordable; a grant adds to one round, a refusal changes nothing |
| `ProbeBudgets.FirstGrant` | benches/selective_read/src/delta_length_reader.rs:342-378 | a new budget grants a first reservation exactly when what it costs and giving up after it are within the limit |
| `ProbeBudgets.SecondGrant` | benches/selective_read/src/delta_length_reader.rs:342-378 | a second one is decided by both together: two rounds pay for themselves, two requests of one round are paid as one read |
| `ProbeBudgets.New` | benches/selective_read/src/delta_length_reader.rs:290-309 | a budget exists exactly when the first prefixes of all pages, 8192 bytes each, are affordable; its limit is 21 twentieths of the ordinary cost, rounded down |
| `ProbeBudgets.FromEstimate` | benches/selective_read/src/delta_length_reader.rs:311-340 | a budget exists exactly when the estimate is within a twentieth and the prefixes of 8192 bytes fit the request; its limit is 21 twentieths of the ordinary cost, rounded down |
| `Fetching.Fetcher.Fetch` | benches/selective_read/src/delta_length_reader.rs:732-764 | what the cache holds is answered from it and asks nothing of the budget; otherwise exactly the missing bytes are reserved in the next round, read and cached |
| `Fetching.OneMoreCharged` | benches/selective_read/src/delta_length_reader.rs:736-750 | each extension adds the grant of its own round to the record of grants, whatever other pages reserved before |
| `Fetching.ChargedRounds` | benches/selective_read/src/delta_length_reader.rs:286 | the granted rounds of a page are always fewer than the nine that the budget has |
| `PageReader.StoreIsHonest` | benches/selective_read/src/delta_length_reader.rs:749-762 | bytes fetched from a page body are the body's own |
| `PageReader.DiscoverPage` | benches/selective_read/src/delta_length_reader.rs:720-785 | the cache is the plan's prefix and a prefix of the page, and little more than the bytes before the payload; the page grew by consecutive extensions, the k-th of them granted and charged to round k, k < 9; a fallback has its cause; behind a reliable store only a bad body fails |
| `PageReader.SelectedRowCovered` | benches/selective_read/src/delta_length_reader.rs:797-804 | every byte of a selected row lies in the page's ranges |
| `PageReader.SparseIsReadable` | benches/selective_read/src/delta_length_reader.rs:705-864 | a buffer with the held prefix and the ranges' bytes has the page's structure, ranges, levels, lengths and selected rows |
| `PageReader.MissingRanges` | benches/selective_read/src/delta_length_reader.rs:797-813 | the ranges still to read cover exactly the selected bytes not cached |
| `PageReader.Carve` | benches/selective_read/src/delta_length_reader.rs:828-850 | destinations can be split off exactly when the ranges are in order, disjoint and inside |
| `PageReader.GoodPlanFits` | benches/selective_read/src/delta_length_reader.rs:814-850 | the planner's reads have disjoint destinations beyond the cached bytes |
| `PageReader.FillPayload` | benches/selective_read/src/delta_length_reader.rs:828-859 | each read fills its own part of the buffer with the file's bytes and nothing else changes |
| `PageReader.FillPage` | benches/selective_read/src/delta_length_reader.rs:824-859 | the buffer starts with the header and all cached bytes and holds every read at its place |
| `PageReader.FinishPage` | benches/selective_read/src/delta_length_reader.rs:867-876 | the held bytes and the rest of the page make up the stored page |
| `PageReader.ReadPayload` | benches/selective_read/src/delta_length_reader.rs:797-864 | once a page's structure is known the page is always completed: sparse, with zeros wherever nothing was read, if a plan that covers the selected rows saves, and whole only if none saves; the payload plan and the destinations cannot fail |
| `PageReader.ReadBody` | benches/selective_read/src/delta_length_reader.rs:722-864 | the result is the stored page or equals it on the given header, on levels and lengths and in every selected row; it is whole only for a stated cause: the discovery was turned away, or no covering plan saves; behind a reliable store only a bad body fails |
| `PageReader.ReadPage` | benches/selective_read/src/delta_length_reader.rs:705-876 | a page is the stored page, or a buffer equal to it on the header, levels and lengths and in every selected row, with the same ranges, where the header is the one that its size function reports; it is read whole only without a header size, after a discovery that was turned away, or if no covering plan saves; behind a reliable store it fails only for a rejected header or a bad body |
| `PageParts.RangeParts` | benches/selective_read/src/delta_length_reader.rs:517-543 | pages inside the range are parts of their own, and a page across its border leaves it whole; the parts tile the range exactly when the pages in it are in order or one crosses its border |
| `PageParts.SplitByBytes` | benches/selective_read/src/delta_length_reader.rs:517-543 | told by bytes: a range with only some bytes of a page in it is read whole; otherwise every page with all its bytes in it is a part of its own |
| `PageParts.PiecesInPlace` | benches/selective_read/src/delta_length_reader.rs:698-702 | every piece stands after the pieces of the parts before it |
| `PageParts.SizeIsExact` | benches/selective_read/src/delta_length_reader.rs:517-543 | parts without gaps ask for at least the stretch they span, and for no more exactly when they tile it |
| `PageParts.TilesInPlace` | benches/selective_read/src/delta_length_reader.rs:698-702 | parts that tile a range stand in the answer where they stand in the range |
| `PageParts.ReadRange` | benches/selective_read/src/delta_length_reader.rs:676-703 | each part of the answer is the stored bytes or a page that reads like the stored one, at its own place; every page was weighed, whole only for a stated cause; behind a reliable store only an unreadable page fails it |
| `PageParts.ReadRequest` | benches/selective_read/src/delta_length_reader.rs:517-543 | for any candidates, overlapping ones included: the answer is made of the parts, every page among them weighed, and has the requested size exactly when the pages in the range are in order and apart or one crosses its border |
| `RangeRequests.ModeledAreValid` | benches/selective_read/src/delta_length_reader.rs:255-276 | what is simulated for a call has the call's own sizes, is split exactly where a range is one candidate page, and satisfies the simulator's conditions |
| `RangeRequests.SplitsAreCounted` | benches/selective_read/src/delta_length_reader.rs:255-276 | a call is simulated with as many split reads as it has pages with first prefixes to pay |
| `RangeRequests.PartsAreCounted` | benches/selective_read/src/delta_length_reader.rs:159-176 | the fallback is priced with one request for every part of every range, and first prefixes for exactly those parts that are pages |
| `RangeRequests.AllowanceIs` | benches/selective_read/src/delta_length_reader.rs:177-179 | the time allowed is what a twentieth of the ordinary cost takes to transfer, in whole nanoseconds |
| `RangeRequests.RoundedUpIs` | benches/selective_read/src/delta_length_reader.rs:318-323 | an estimate that 128 bits hold is charged as the next whole nanosecond |
| `RangeRequests.OpenBudget` | benches/selective_read/src/delta_length_reader.rs:159-183 | a budget is opened exactly for a call with pages whose first prefixes and whole fallback it can pay, or, with an estimator, one that can be simulated and whose estimate comes in time and within five percent; the first prefixes of all its pages are then paid |
| `RangeRequests.EveryMoment` | benches/selective_read/src/delta_length_reader.rs:342-378 | after every prefix of all that is asked of a budget, its charge and the fallback are within the limit and no byte is lost |
| `RangeRequests.ReadRanges` | benches/selective_read/src/delta_length_reader.rs:631-674 | for any ranges, candidates and estimates: a call gets a budget exactly when it has pages and can pay for them; then every page is weighed, and whole only for a stated cause; every answer is the stored bytes or made of stored bytes and pages that read like the stored ones; the one budget stays affordable throughout; behind a reliable store only an unreadable page of a budgeted call fails it |
| `EstimatorPool.EveryRunKeeps` | benches/selective_read/src/delta_length_cost.rs:59-139 | every interleaving of callers, timeouts, workers and the collector keeps the pool's invariant |
| `EstimatorPool.JobsNeedThePermit` | benches/selective_read/src/delta_length_cost.rs:76-124 | a queued or running job implies that its batch holds the permit; batches never overlap |
| `EstimatorPool.PermitReturnsLast` | benches/selective_read/src/delta_length_cost.rs:91-137 | the permit comes back only when every dispatched job has replied or been lost |
| `EstimatorPool.ChannelIsFree` | benches/selective_read/src/delta_length_cost.rs:97-116 | a living worker's channel is always free when its batch comes to it |
| `EstimatorPool.AnswersAreRight` | benches/selective_read/src/delta_length_cost.rs:49-137 | each cache holds at most 128 distinct keys, each with the value of its own estimator and ranges; a complete batch answers with the value of its own trials |
| `EstimatorPool.SuccessIsExtra` | benches/selective_read/src/delta_length_cost.rs:117-129 | replies of all workers, collected in order, are exactly the trials of the key |
| `EstimatorPool.MedianIsMiddle` | benches/selective_read/src/delta_length_cost.rs:128-129 | the value of a batch is the mean of two of its 1024 costs, or zero if that is negative: at most 511 costs are less than the first and at least 512 are not greater, and one more of each for the second |
| `EstimatorPool.NeverStuck` | benches/selective_read/src/delta_length_cost.rs:91-137 | while the permit is held, some step of the batch or its jobs is possible |
| `EstimatorPool.ProgressEnds` | benches/selective_read/src/delta_length_cost.rs:91-137 | such steps are finitely many, whatever callers do meanwhile |
| `EstimatorPool.PermitComesBack` | benches/selective_read/src/delta_length_cost.rs:91-137 | from every reachable state the batch and its jobs alone return the permit, within one step more than they have left |
| `EstimatorAnswers.EveryCallerIsAnswered` | benches/selective_read/src/delta_length_cost.rs:59-139 | every batch is answered exactly once, when it ends, unless its caller left before; every value received is the one of the caller's own estimator and ranges |
| `EstimatorAnswers.AskedAgain` | benches/selective_read/src/delta_length_cost.rs:64-77 | a request in the cache is answered from it at once and starts nothing; a late or refused one is answered with nothing |
| `EstimatorAnswers.WhenABatchStarts` | benches/selective_read/src/delta_length_cost.rs:76-98 | a batch starts exactly for an accepted request in time, not in the cache, when the permit is free |
| `EstimatorAnswers.AcceptedRequests` | benches/selective_read/src/delta_length_cost.rs:64-73 | requests of 1 to 64 non-empty ranges are accepted, of at most 2^53 bytes, and split only above 8192 bytes |
| `EstimatorAnswers.HealthyBatchSucceeds` | benches/selective_read/src/delta_length_cost.rs:91-137 | a batch of which nothing was lost ends, when nothing more is lost, with the value for its caller and in the cache |
| `EstimatorAnswers.RememberedIsFound` | benches/selective_read/src/delta_length_cost.rs:130-135 | a value that was stored is found; only the oldest of 128 entries makes room for it |
| `EstimatorAnswers.LeavingChangesNothingElse` | benches/selective_read/src/delta_length_cost.rs:91-93 | a caller that leaves gives up its answer and changes nothing else: permit, jobs, caches and all other answers are those of the run in which nobody leaves |
| `EstimatorAnswers.WorkerReply` | benches/selective_read/src/delta_length_cost.rs:167-178 | what a worker computes for a job is the slice of the simulated trials that the pool expects |
| `EstimatorAnswers.ExtraIsSimulated` | benches/selective_read/src/delta_length_cost.rs:128-129 | the value of a key is the median of the simulator's 1024 paired costs for it |
| `EstimatorAnswers.AnswersAreSimulated` | benches/selective_read/src/delta_length_cost.rs:59-139 | every value that any caller ever receives is that median, for an accepted request and its own profile |
| `BatchCurve.MakespanGrows` | benches/selective_read/src/delta_length_profile.rs:27-32 | one more request never ends a batch earlier |
| `BatchCurve.MakespanBounds` | benches/selective_read/src/delta_length_profile.rs:27-32 | greedy scheduling on 32 slots is within one duration of an even share |
| `BatchCurve.EqualDurationsRunInWaves` | benches/selective_read/src/delta_length_profile.rs:27-32 | equal durations take one duration per wave of 32 |
| `BatchCurve.OrderStatistics` | benches/selective_read/src/delta_length_profile.rs:37-39 | pointwise larger samples have larger order statistics |
| `BatchCurve.RequestBatchCosts` | benches/selective_read/src/delta_length_profile.rs:23-41 | 65 entries from zero, each the middle of the sorted makespans of all trials with shared draws |
| `BatchCurve.MiddleIsMedian` | benches/selective_read/src/delta_length_profile.rs:37-39 | the middle is the mean, rounded down, of two of the 1024 outcomes, told by counting as for the estimator |
| `BatchCurve.DrawsOfTrial` | benches/selective_read/src/delta_length_profile.rs:12-31 | trial t uses draws 64t+1 and on, whatever the number of requests |
| `BatchCurve.BatchOfOne` | benches/selective_read/src/delta_length_profile.rs:23-41 | a lone request takes in each trial the first duration drawn for it |
| `BatchCurve.EveryCurveIsAccepted` | benches/selective_read/src/delta_length_reader.rs:66-80 | positive durations give a curve that the cost model accepts |
| `BatchCurve.EqualDurationsCost` | benches/selective_read/src/delta_length_profile.rs:23-41 | with all durations equal, entry n is one duration per wave of 32 |
| `BalancedOrders.RowsArePermutations` | xtask/src/scan_scheduling.rs:214-231 | every order holds every item exactly once |
| `BalancedOrders.OrdersZigzag` | xtask/src/scan_scheduling.rs:214-231 | order r starts with item r and goes back and forth from it, one item further at every step; the second half are the same orders backwards |
| `BalancedOrders.ColumnsAreBalanced` | xtask/src/scan_scheduling.rs:214-231 | each item stands at each position in exactly one rotation and one backward row |
| `BalancedOrders.PairsAreBalanced` | xtask/src/scan_scheduling.rs:214-231 | each ordered pair of different items stands together in exactly two spots, for even and odd counts |
| `BalancedOrders.SpotsDiffer` | xtask/src/scan_scheduling.rs:214-231 | those two spots exist and are different |
| `BalancedOrders.EachOrderOnce` | xtask/src/scan_scheduling.rs:548 | any 2n consecutive repetitions of a case use every order once |
| `BalancedOrders.NextOrder` | xtask/src/scan_scheduling.rs:548 | the next repetition of a case, and the next case of a repetition, use the next order |
| `BalancedOrders.EveryCycleIsBalanced` | xtask/src/scan_scheduling.rs:526-551 | in any such cycle every item directly follows every other exactly twice |
| `BalancedOrders.EveryCycleRotates` | xtask/src/scan_scheduling.rs:526-551 | in any such cycle every item runs at every position exactly twice |
| `Rechunking.BoundsPlus` | benches/selective_read/src/fixtures.rs:318-326 | bounds and null counts of two batches merge into those of their concatenation |
| `Rechunking.BoundsHold` | benches/selective_read/src/fixtures.rs:351-395 | no value passes the bounds |
| `Rechunking.BoundsAttained` | benches/selective_read/src/fixtures.rs:351-395 | some value attains each bound, and without values there are none |
| `Rechunking.NullsCounted` | benches/selective_read/src/fixtures.rs:351-395 | the null count is the number of nulls |
| `Rechunking.Stats.Update` | benches/selective_read/src/fixtures.rs:311-331 | folding in a batch gives the bounds of all rows seen |
| `Rechunking.TableWriter.FlushBatch` | benches/selective_read/src/fixtures.rs:514-545 | what is pending is written as one batch, and a file that is full is finished |
| `Rechunking.TableWriter.FinishFile` | benches/selective_read/src/fixtures.rs:547-585 | the open file is recorded with its batches and the bounds of all its rows |
| `Rechunking.TableWriter.Push` | benches/selective_read/src/fixtures.rs:498-512 | keeps all rows in order: full files, full batches of the open file, and less than a batch pending |
| `Rechunking.TableWriter.EndFile` | benches/selective_read/src/fixtures.rs:587-590 | the files hold exactly the pushed rows; all but the last are full, and every batch but a file's last is full |
| `Rechunking.SameRowsSameFiles` | benches/selective_read/src/fixtures.rs:498-585 | files, batches and bounds depend only on the concatenated rows |
| `Rechunking.WriteTable` | benches/selective_read/src/fixtures.rs:498-594 | batches of any sizes give full files of full batches holding their rows in order |
| `Rechunking.RowSource.NextFile` | benches/selective_read/src/production.rs:156-191 | exactly the next rows, with the rest of a batch carried over; it fails only when rows run out or a batch is empty |
| `Pieces.CutIsUnique` | benches/selective_read/src/fixtures.rs:498-512 | there is only one way to cut rows into pieces of one size with a shorter last one |
| `DecimalDraws.FitsUpTo38` | benches/selective_read/src/page_fixtures.rs:60-61 | precisions up to 38 are exactly those whose values fit 128 bits |
| `DecimalDraws.DecimalInBounds` | benches/selective_read/src/page_fixtures.rs:66-71 | an accepted draw gives a decimal within the bounds, counted up from the least one |
| `DecimalDraws.ThresholdIsLeftover` | benches/selective_read/src/page_fixtures.rs:62 | as many draws are rejected as are left over from whole turns |
| `DecimalDraws.DecimalsAreUnbiased` | benches/selective_read/src/page_fixtures.rs:59-74 | each decimal within the bounds comes from equally many draws, and no other decimal from any |
| `SplitMix.FoldedOneToOne` | benches/selective_read/src/page_fixtures.rs:46-48 | laying higher bits over lower ones loses nothing |
| `SplitMix.TimesOneToOne` | benches/selective_read/src/page_fixtures.rs:46-47 | neither does a 64-bit multiplication by an invertible factor |
| `SplitMix.MixedOneToOne` | benches/selective_read/src/page_fixtures.rs:43-49 | different seeds are mixed into different 64-bit words |
| `DecimalDraws.SeedsDiffer` | benches/selective_read/src/page_fixtures.rs:44 | the seed comes back only after all 2^64 words |
| `DecimalDraws.ThresholdBelowHalf` | benches/selective_read/src/page_fixtures.rs:61-62 | less than half of the draws are rejected, at every precision |
| `DecimalDraws.SomeAccepted` | benches/selective_read/src/page_fixtures.rs:63-73 | from every seed, at every precision, one of the next 2^63 draws is accepted |
| `DecimalDraws.Random.Decimal` | benches/selective_read/src/page_fixtures.rs:59-74 | the loop ends; the first accepted draw decides, and the words of rejected draws are consumed |

## Left out

- Floating-point rounding, the bit pattern order of `event_key` and the AVX-512 minimum, which has the contract of `Slots.MinimumScalar`.
- In paired trials and calibration the words mixed from the seeds are any function of them; `SplitMix.Mixed`, which the decimals use, is one.
- The library's delta decoder: `LengthCodec.DecodeLengths` is a decoder written from the specification. Its own failures cannot occur on a stream that `LengthStreamEnd` accepts.
- `header_size` and the Thrift parser behind it: any function that stays inside the prefix.
- Object-store requests, chunked responses, permits of the reader, metrics and deadlines. Reads of one page are made one after the other; their destinations are disjoint, so their order does not matter.
- The requests of other pages to the shared budget are given as what they ask before each request of one page; what the store answers does not depend on them.
- `Reader::new`: which pages are eligible. Without a cost model it lists none, and a call without pages opens no budget.
- RangeRequests.ReadRanges: ranges are answered one after the other, each page with any requests that others make of the budget meanwhile; that covers what each page sees in a concurrent call. Deadlines of the estimate are part of the estimator.
- `choose_bounded_range_plan_avoiding`: without cached ranges, as it is called here, it is `RangePlanner.Choose` with the transport's own cost; barriers between cached ranges are not modelled.
- `choose_range_plan`, `candidate_range_plans` and `execute_range_plan` of the production planner.
- ProbeBudgets.ProbeBudget.Reserve: sums are unbounded integers; `ProbeBudgets.DecisionFits` shows that the program's 128-bit sums do not overflow for up to 2^79 bytes and 2^32 requests, beyond which overflow is not modelled.
- RangePlanner.Choose: plans of more ranges than the exact one are compared only in `PayloadPlan.PayloadRanges`, where the cost is known not to fall with the number of requests.
- Costs of trials are reals, so the check for non-finite costs has no counterpart; deadlines are events that may occur at any time.
- PageReader.ReadPage: a page is at least as long as the first prefix, which page eligibility guarantees.
- Rechunking.TableWriter.Push: a batch has the table's columns; schema mismatches are not modelled.
- Starting and shutting down worker threads; a worker that is lost is `Die`.
- `measure`, `calibrate` and `summarize` of the calibration.
- Rechunking.RowSource.NextFile: a batch is invalid when it is empty; schema and null checks are not modelled.
- Parquet and Arrow writing, column types, file inspection, hashes, disk budgets and manifests: a file is its batches and the bounds recorded for it, and every value is an integer or null.
- `ordered_cases`, skipped repetitions and the processes that the scheduler starts.
- Fixtures, TPC-H generation, deletion vectors, reports, charts, release tooling and the Go and Python adapters.
