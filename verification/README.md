# Benchmark analysis tools: a verified model

A Dafny 4.11 model of the measurement and analysis tools in `benchmarks/`, the programs whose numbers decide which
kernels, drafters and proposal settings are kept. Each tool is modelled with the branches, ties and edge cases of its
code. Loops are methods with invariants. Some are proved directly against sets, sums and orders; others against a fold
of the loop body (`Edges`, `GapsOf`, `InsertAll`, `Probes`), and lemmas then say what the fold means without it.

| module | tool | main results |
|---|---|---|
| `RoundLedger`, `IdleFrontier`, `ExclusiveActivity`, `RoundWindows`, `WindowColumns`, `RowLaws` | round ledger of a profiler trace | three independent sweeps (union, idle frontier, prioritised partition) agree and close each window; windows tile; grouped columns against exclusive credit; every column of a row as a number of instants or kernels |
| `ReplayGaps` | replay gaps of a profiler trace | intervals tile the trace; the running-interval scan finds the first tool's idle edges |
| `RecencyTail`, `DraftCoverage`, `AlignmentCoverage`, `CoverageCounts` | dynamic draft vocabulary | the bounded tail is a recency window; coverage is monotone in its size; counters as numbers of positions |
| `DraftRanking` | static draft vocabulary | global and per-rank rankings, optimality of the prefix, quotas |
| `Nucleus`, `SelectorChain`, `SelectorAlignment`, `SelectorLaws` | proposal selector | truncation, backward messages as sums over all paths, telescoping proposals, proxies and their bounds, laws of the scales |
| `ExtractionQueue` | hidden-state extraction clients | invariants and termination of the work queue under every interleaving, with failures |
| `SplitAttention` | attention split over ranks | localisation, log-sum-exp merge, width of the local selection |
| `LongContext` | prompt fitting | capped binary search and the exact reach of its cap |
| `AcceptanceDumps`, `Calibration` | acceptance and confidence reports | double counting of accepted tokens, calibration error, ranking score |

`Sorting`, `Spans`, `RealSums`, `IntegerFacts` and `Options` hold the shared theory: insertion sort with uniqueness of
sorted order, sets of instants covered by half-open spans, finite sums of reals, products and quotients of naturals.

Time is integer nanoseconds and a set of spans is read as the set of instants it covers. Probabilities are exact
reals. Softmax inputs appear as their positive exponentials, so a log-sum is a sum and a masked entry is absent.
Products and quotients of reals are written `Times` and `Ratio`.

Several expected properties are false of the code in full generality. Each is stated with the exact condition under
which it holds and with an input on which it fails:

- `union_ns` starts its frontier at zero, so it misses negative timestamps, and a row's assertion fails there
  (`UnionExactWhenNonNegative`, `NegativeTimeIsMissed`; `LedgerCloses`, `NegativeWindowFails`).
- The gap tool's union service counts time past the end of the interval when an activity overruns it
  (`BusyInsideIffNoOverrun`, `OverrunCountsOutside`).
- The gap tool reports an interval without activity whatever the threshold, and under a kind that none of its idle
  columns counts (`GapsAreLongIdleEdgesIff`, `EmptyIntervalIgnoresThreshold`; `IdleColumnsAddIff`,
  `EmptyIntervalHasNoColumn`).
- The balanced draft vocabulary can be smaller than requested (`BalancedIsFullIff`, `UnevenShardsFallShort`).
- The rate-based token estimate overstates the mean when draft lengths differ (`RatesMeetMeanIff`,
  `MixedLengthsOverstate`).
- The 24-probe cap can stop the prompt search early (`CapReach`, `CapBites`; `CapIsExact` for a range that fits).

## Model

| member | source | states |
|---|---|---|
| `RoundLedger.UnionNs` | benchmarks/analyze_flashnext_round_ledger.py:15-20 | the sorted sweep returns the number of distinct covered instants from time zero on, for every list of spans, in any order, overlapping or inverted |
| `RoundLedger.UnionExactWhenNonNegative` | benchmarks/analyze_flashnext_round_ledger.py:15-20 | the sweep equals the whole covered time if and only if no non-empty span starts before zero (its frontier starts at zero) |
| `RoundLedger.NegativeTimeIsMissed` | benchmarks/analyze_flashnext_round_ledger.py:15-20 | two covered instants before time zero of which the sweep counts none |
| `RoundLedger.ClippedMeaning` | benchmarks/analyze_flashnext_round_ledger.py:23-24 | clipping intersects the covered instants with the window |
| `RoundLedger.ServiceTiles` | benchmarks/analyze_flashnext_round_ledger.py:23-24 | summed service time is additive over adjacent windows, straddling spans included |
| `RoundLedger.UnionTiles` | benchmarks/analyze_flashnext_round_ledger.py:15-24 | covered time is additive over adjacent windows, straddling spans included |
| `IdleFrontier.IdleEdges` | benchmarks/analyze_flashnext_round_ledger.py:27-45 | the sweep with its cursor and `previous` label yields the idle edges of the window, reported by length and both neighbours |
| `IdleFrontier.EdgesNamed` | benchmarks/analyze_flashnext_round_ledger.py:27-45 | edges lie in the window, in time order and without overlap; the label before an edge belongs to the first activity in sort order that ends there, the label after it to the first that starts there, and a missing label means a window end |
| `IdleFrontier.EdgesMeaning` | benchmarks/analyze_flashnext_round_ledger.py:27-45 | the edges cover exactly the instants of the window that no activity covers |
| `IdleFrontier.IdleTotal` | benchmarks/analyze_flashnext_round_ledger.py:27-45 | the reported durations sum to the uncovered time of the window |
| `IdleFrontier.ReportedAre` | benchmarks/analyze_flashnext_round_ledger.py:38-44 | each reported gap is the length of its edge with the labels on its two sides |
| `IdleFrontier.VisitingOrder` | benchmarks/analyze_flashnext_round_ledger.py:35 | activities are visited by start, stop, scope and name, ties broken in that order |
| `IdleFrontier.TextOrder` | benchmarks/analyze_flashnext_round_ledger.py:35 | labels compare at the first character in which they differ, and a prefix comes first |
| `ExclusiveActivity.CollectPoints` | benchmarks/analyze_flashnext_round_ledger.py:49-55 | the point dictionary holds the window ends and every clipped span end, each with the openings minus closings of every label there |
| `ExclusiveActivity.ExclusiveActivityNs` | benchmarks/analyze_flashnext_round_ledger.py:48-67 | every label is credited the number of instants at which it is the active label of highest priority (the idle label when none is), and the keys are exactly those that own an instant and the idle label |
| `ExclusiveActivity.PartitionClosesWindow` | benchmarks/analyze_flashnext_round_ledger.py:66 | the closing assertion: any such credit sums to the window length over the priority labels and the idle label |
| `ExclusiveActivity.IdleIsUncovered` | benchmarks/analyze_flashnext_round_ledger.py:56-65 | with known labels only, the idle label owns exactly the instants nothing covers |
| `RoundWindows.LedgerCloses` | benchmarks/analyze_flashnext_round_ledger.py:200-221 | gap durations equal the window minus the swept busy time if and only if no covered instant of the window is negative; this is the row's assertion |
| `RoundWindows.NegativeWindowFails` | benchmarks/analyze_flashnext_round_ledger.py:221 | a kernel before time zero in whose window the gap durations differ from the window minus the swept busy time, so the row's assertion fails |
| `RoundWindows.WindowRow` | benchmarks/analyze_flashnext_round_ledger.py:200-250 | a row is produced if and only if that condition holds, and then it holds covered, idle, overlapped and per-label time in terms of instants |
| `RoundWindows.RowCloses` | benchmarks/analyze_flashnext_round_ledger.py:200-250 | the union sweep, the idle sweep and the prioritised sweep agree on idle time; busy plus idle and the sum of credits both equal the window |
| `RoundWindows.WindowBounds` | benchmarks/analyze_flashnext_round_ledger.py:190-198 | each window bound is the minimum entry time over the ranks of its replay ordinal |
| `RoundWindows.RankRows` | benchmarks/analyze_flashnext_round_ledger.py:201-250 | the rows of one window are produced if and only if every rank's accounts close in it, one row per rank |
| `RoundWindows.RoundRows` | benchmarks/analyze_flashnext_round_ledger.py:199-250 | a round gives its rows if and only if its common window advances and closes on every rank |
| `RoundWindows.Ledger` | benchmarks/analyze_flashnext_round_ledger.py:186-260 | the trimmed loop over rounds and ranks succeeds if and only if there are enough rounds and each of them advances and closes on every rank, and then holds the row of every rank in every round over the windows between the earliest entries |
| `RoundWindows.RoundsTile` | benchmarks/analyze_flashnext_round_ledger.py:189-250 | over any run of advancing windows busy, idle and overlapped time and the credit of every label sum to those of the one whole window, straddling kernels included |
| `RoundWindows.LedgerTiles` | benchmarks/analyze_flashnext_round_ledger.py:189-260 | so do every rank's rows in a finished ledger |
| `WindowColumns.ComputeColumns` | benchmarks/analyze_flashnext_round_ledger.py:207-243 | union time by scope and by family, and clipped service and calls by kernel, each with exactly the keys of the kernels that reach into the window; classification is any function of the name |
| `WindowColumns.UnionColumnIsTime` | benchmarks/analyze_flashnext_round_ledger.py:230-237 | where the accounts close, a union column holds the time during which some kernel with the key runs in the window |
| `WindowColumns.CreditWithinUnion` | benchmarks/analyze_flashnext_round_ledger.py:230-249 | no scope is credited more exclusive time than its own union time |
| `WindowColumns.TargetCreditIsUnion` | benchmarks/analyze_flashnext_round_ledger.py:230-249 | the target scope, of highest priority, is credited exactly its union time |
| `WindowColumns.CallsConserve` | benchmarks/analyze_flashnext_round_ledger.py:242-243 | calls by key sum to the number of kernels, whatever the key |
| `WindowColumns.ServiceConserve` | benchmarks/analyze_flashnext_round_ledger.py:238-241 | clipped service by key sums to the clipped service of all kernels, whatever the key |
| `RowLaws.ExclusiveByPriority` | benchmarks/analyze_flashnext_round_ledger.py:48-67 | on a row: target work is credited all its time in the window, draft work its time without target work, work outside graphs its time without either, copies their time without any kernel, and `no activity` the rest |
| `RowLaws.OverlapIsExcess` | benchmarks/analyze_flashnext_round_ledger.py:223-229 | the overlap column is the sum over the window's instants of the kernels running beyond the first |
| `RowLaws.RowCounts` | benchmarks/analyze_flashnext_round_ledger.py:202-228 | busy and idle time are the covered and uncovered instants of the window; the kernel count is the kernels that run at one of its instants or take no time strictly inside it |
| `RowLaws.RowGapsNamed` | benchmarks/analyze_flashnext_round_ledger.py:218-222 | every gap of a row is an idle stretch of the window; its labels belong to activities that end and start exactly there |
| `RowLaws.CallColumn` | benchmarks/analyze_flashnext_round_ledger.py:210-242 | a call column has a key if and only if some active kernel has it, with the number of those kernels |
| `RowLaws.ServiceColumn` | benchmarks/analyze_flashnext_round_ledger.py:238-241 | a service column sums, over the instants of the window, how many kernels of the key run |
| `RowLaws.UnionColumnValue` | benchmarks/analyze_flashnext_round_ledger.py:230-237 | a union column is the number of instants of the window in which some kernel of the key runs, where the accounts close |
| `RowLaws.KeysSeparate` | benchmarks/analyze_flashnext_round_ledger.py:210-216 | keys of the known scopes agree if and only if scope and family, or scope and name, agree |
| `ReplayGaps.AnalyzeInterval` | benchmarks/analyze_sm70_nsys_replay_gaps.py:172-265 | busy time is the number of covered instants, raw service the sum of lengths, overlap and idle their differences, the idle columns the gap lengths by kind, and the gaps those of the running-interval fold |
| `ReplayGaps.BusyInsideIffNoOverrun` | benchmarks/analyze_sm70_nsys_replay_gaps.py:172-265 | union service equals the busy time inside the interval if and only if no activity runs past its end |
| `ReplayGaps.OverrunCountsOutside` | benchmarks/analyze_sm70_nsys_replay_gaps.py:172-241 | an activity of two instants in an interval of one is counted busy for two |
| `ReplayGaps.GapsAreLongIdleEdgesIff` | benchmarks/analyze_sm70_nsys_replay_gaps.py:172-241 | the non-empty reported gaps are, in place and order, the idle edges of the other tool's sweep that reach the threshold, if and only if the interval has activity, has no length, or is no shorter than the threshold; overruns do not matter |
| `ReplayGaps.EmptyIntervalIgnoresThreshold` | benchmarks/analyze_sm70_nsys_replay_gaps.py:181-192 | an interval of five instants without activity is reported at a threshold of ten |
| `ReplayGaps.UnitThresholdIsExact` | benchmarks/analyze_sm70_nsys_replay_gaps.py:172-241 | with a threshold of 1 ns the gaps always sum to the uncovered time, and are the idle edges if and only if the interval has activity or length |
| `ReplayGaps.IdleColumnsAddIff` | benchmarks/analyze_sm70_nsys_replay_gaps.py:248-263 | front, internal and tail idle time at 1 ns sum to the idle column if and only if no activity overruns and the interval has activity or no length |
| `ReplayGaps.EmptyIntervalHasNoColumn` | benchmarks/analyze_sm70_nsys_replay_gaps.py:181-192 | an idle interval without activity appears in none of the three columns |
| `ReplayGaps.GapsNamed` | benchmarks/analyze_sm70_nsys_replay_gaps.py:172-265 | every gap carries the names of the activities that end and start it, or the interval marker |
| `ReplayGaps.GapsNamedFirst` | benchmarks/analyze_sm70_nsys_replay_gaps.py:172-241 | of several activities that end or start at a gap, it is named after the first in scan order |
| `ReplayGaps.CreateIntervals` | benchmarks/analyze_sm70_nsys_replay_gaps.py:96-131 | intervals are created if and only if every rank has the same, sufficient number of ranges and an edge is dropped; they are exactly the kept steps of every rank up to the start of the next step, each once, rank by rank and step by step |
| `ReplayGaps.IntervalsFollow` | benchmarks/analyze_sm70_nsys_replay_gaps.py:114-123 | the intervals of a rank follow each other without overlap |
| `ReplayGaps.LoadIsLoaded` | benchmarks/analyze_sm70_nsys_replay_gaps.py:134-169 | joining on the start and sorting gives an interval exactly the input the scan expects |
| `ReplayGaps.IntervalsTile` | benchmarks/analyze_sm70_nsys_replay_gaps.py:134-169 | the intervals of a rank together load, as a multiset, exactly the activities that start between the kept edges |
| `ReplayGaps.ColumnsMeaning` | benchmarks/analyze_sm70_nsys_replay_gaps.py:248-263 | front and tail columns are the time before the earliest start and after the latest stop where they reach the threshold; with the inner column they add up to all reported gaps; busy, raw, overlap and idle columns against covered instants |
| `RecencyTail.Tail.constructor` | benchmarks/analyze_sm70_dynamic_draft_vocab.py:86-95 | the tail starts as the insertion of the initial tokens into an empty tail |
| `RecencyTail.Tail.Insert` | benchmarks/analyze_sm70_dynamic_draft_vocab.py:100-107 | base tokens are skipped, a known token moves to the recent end, and the oldest entry goes when over capacity |
| `RecencyTail.TailIsRecencyWindow` | benchmarks/analyze_sm70_dynamic_draft_vocab.py:85-107 | after any history the tail is the last `capacity` entries of the least-to-most-recently-used order of distinct non-base tokens |
| `RecencyTail.InTailIffRecent` | benchmarks/analyze_sm70_dynamic_draft_vocab.py:97-107 | a token is in the tail if and only if it was used and fewer than `capacity` distinct other non-base tokens were used since |
| `RecencyTail.TailSize` | benchmarks/analyze_sm70_dynamic_draft_vocab.py:100-107 | the tail holds the smaller of its capacity and the number of distinct non-base tokens seen |
| `RecencyTail.TailInclusion` | benchmarks/analyze_sm70_dynamic_draft_vocab.py:118-124 | tails of two sizes, each seeded with its own slice of the ranking and fed the same tokens, stay nested in order |
| `RecencyTail.RecentMonotone` | benchmarks/analyze_sm70_dynamic_draft_vocab.py:118-124 | what is recent at a smaller tail size is recent at every larger one |
| `DraftCoverage.OutputCoverage` | benchmarks/analyze_sm70_dynamic_draft_vocab.py:110-156 | each counter is the number of output tokens with that outcome, where the outcome is decided by recency in the record's own history |
| `DraftCoverage.HitsAndMissesPartition` | benchmarks/analyze_sm70_dynamic_draft_vocab.py:125-156 | active hits, cold misses and repeat misses sum to the tokens, and base hits are among the active hits |
| `DraftCoverage.CoverageMonotone` | benchmarks/analyze_sm70_dynamic_draft_vocab.py:110-156 | active coverage never falls as the tail grows, per data set |
| `AlignmentCoverage.SeedTail` | benchmarks/analyze_sm70_dynamic_draft_vocab.py:190-198 | the tail starts from the seed slice and, under the prompt policy, the prompt |
| `AlignmentCoverage.CountStep` | benchmarks/analyze_sm70_dynamic_draft_vocab.py:235-325 | a step adds its top-k entries, masses and samples, and those of them that are active by recency |
| `AlignmentCoverage.Feed` | benchmarks/analyze_sm70_dynamic_draft_vocab.py:337-364 | after a step the tail is what inserting exactly the policy's tokens of that step makes of the whole history |
| `AlignmentCoverage.AlignmentCoverage` | benchmarks/analyze_sm70_dynamic_draft_vocab.py:179-410 | the totals are those of scoring every step against the recency of everything inserted before it |
| `AlignmentCoverage.CoverageMonotone` | benchmarks/analyze_sm70_dynamic_draft_vocab.py:179-410 | top-k, mass and sampled coverage never fall as the tail grows, under every insertion policy |
| `AlignmentCoverage.BaseOnlyIsLeast` | benchmarks/analyze_sm70_dynamic_draft_vocab.py:433-452 | the base-only report bounds every tail size, seed and policy from below |
| `CoverageCounts.OutputCountersMeaning` | benchmarks/analyze_sm70_dynamic_draft_vocab.py:110-156 | base hits, active hits, cold and repeat misses are numbers of output positions: in the base, in base or tail at that point, missed and not yet produced, missed and produced before |
| `CoverageCounts.PeakMeaning` | benchmarks/analyze_sm70_dynamic_draft_vocab.py:127-148 | the peak bounds the tail after every output token and is attained, or is zero |
| `CoverageCounts.AlignmentCountersMeaning` | benchmarks/analyze_sm70_dynamic_draft_vocab.py:235-325 | hits, covered mass and sampled hits count the top-k entries and samples in the base or in the tail left by everything inserted before the step |
| `CoverageCounts.InsertedMeaning` | benchmarks/analyze_sm70_dynamic_draft_vocab.py:337-364 | a step inserts the valid prefix of its output and then its candidates, as the policy says |
| `CoverageCounts.PlaceholdersIgnored` | benchmarks/analyze_sm70_dynamic_draft_vocab.py:337-364 | a placeholder in the valid prefix changes nothing |
| `CoverageCounts.StreamAppends` | benchmarks/analyze_sm70_dynamic_draft_vocab.py:191-364 | the insertions are the seed prompt, if the policy uses it, and then those of each step in order |
| `CoverageCounts.SlicesMeaning` | benchmarks/analyze_sm70_dynamic_draft_vocab.py:117-118 | base and seed are consecutive slices of the ranking, cut where it ends |
| `Nucleus.OrderPermutes` | benchmarks/analyze_dflash2_selector_alignment.py:55 | the descending sort is a permutation, ties in original order |
| `Nucleus.KeepTest` | benchmarks/analyze_dflash2_selector_alignment.py:56-58 | the test on cumulative probability before an entry keeps exactly the shortest sorted prefix that reaches the threshold |
| `Nucleus.KeptIsShortest` | benchmarks/analyze_dflash2_selector_alignment.py:56-58 | the kept prefix reaches the threshold and no shorter one does, or it is everything |
| `Nucleus.KeepSorted` | benchmarks/analyze_dflash2_selector_alignment.py:55-61 | the loop yields the sorted probabilities with dropped entries at zero and their sum |
| `Nucleus.CompactProbs` | benchmarks/analyze_dflash2_selector_alignment.py:52-64 | the scattered, renormalised result is `Compact` |
| `Nucleus.CompactIsDistribution` | benchmarks/analyze_dflash2_selector_alignment.py:52-64 | the result is non-negative and sums to one, for every positive weight vector and threshold above zero |
| `Nucleus.CompactAt` | benchmarks/analyze_dflash2_selector_alignment.py:52-64 | a kept entry holds its share of the kept mass at its original place; a dropped one is zero |
| `Nucleus.CompactKeepsRatios` | benchmarks/analyze_dflash2_selector_alignment.py:52-64 | entries that survive keep their ratios |
| `Nucleus.CompactAll` | benchmarks/analyze_dflash2_selector_alignment.py:57-64 | from a threshold of one on the result is plain normalisation |
| `Nucleus.OrderIsStable` | benchmarks/analyze_dflash2_selector_alignment.py:55 | the sorted order is descending, and equal entries keep their places |
| `SelectorChain.BackwardMessages` | benchmarks/analyze_dflash2_selector_alignment.py:101-109 | the backward loop fills every step with its normalised message |
| `SelectorChain.PathsComplete` | benchmarks/analyze_dflash2_selector_alignment.py:101-109 | the enumeration of suffix paths contains exactly the paths |
| `SelectorChain.PathsDistinct` | benchmarks/analyze_dflash2_selector_alignment.py:101-109 | the enumeration lists no path twice |
| `SelectorChain.PathSumsSolve` | benchmarks/analyze_dflash2_selector_alignment.py:101-109 | sums over enumerated paths satisfy the unnormalised backward recursion |
| `SelectorChain.MessageIsPathSum` | benchmarks/analyze_dflash2_selector_alignment.py:101-109 | every message is the total weight of all suffix paths, up to one positive factor per step |
| `SelectorChain.TotalPositive` | benchmarks/analyze_dflash2_selector_alignment.py:101-109 | the total weight of all paths is positive, so shares of it are defined |
| `SelectorChain.ProposalsTelescope` | benchmarks/analyze_dflash2_selector_alignment.py:128-156 | with full messages the row probabilities along a path multiply to its weight over the weight of all paths |
| `SelectorChain.PathsFormDistribution` | benchmarks/analyze_dflash2_selector_alignment.py:128-156 | and sum to one over all paths |
| `SelectorAlignment.OverlapWithinSupport` | benchmarks/analyze_dflash2_selector_alignment.py:67-88 | overlap lies between zero and the target mass on supported candidates, which is at most the whole target mass |
| `SelectorAlignment.CompletionProxy` | benchmarks/analyze_dflash2_selector_alignment.py:195-201 | the loop computes one plus the sum of prefix products |
| `SelectorAlignment.ProxyMonotone` | benchmarks/analyze_dflash2_selector_alignment.py:195-201 | the proxy is monotone in every position |
| `SelectorAlignment.TargetRow` | benchmarks/analyze_dflash2_selector_alignment.py:159-163 | every target row is a distribution |
| `SelectorAlignment.Predecessors` | benchmarks/analyze_dflash2_selector_alignment.py:112-125 | there is a path if and only if every drafted token but the last occurs exactly once among its candidates, and then it holds those places |
| `SelectorAlignment.RecordPath` | benchmarks/analyze_dflash2_selector_alignment.py:112-125 | a record has a path if and only if, besides, its draft has the anchor row |
| `SelectorAlignment.ChainRow` | benchmarks/analyze_dflash2_selector_alignment.py:128-156 | every chain proposal is a distribution over the candidates |
| `SelectorAlignment.CachedRow` | benchmarks/analyze_dflash2_selector_alignment.py:128-156 | every cached proposal is a distribution over the candidates |
| `SelectorAlignment.MixedIsDistribution` | benchmarks/analyze_dflash2_selector_alignment.py:147-156 | greedy mixing with a share in [0, 1] keeps a distribution |
| `SelectorAlignment.Proposals` | benchmarks/analyze_dflash2_selector_alignment.py:128-156 | there are proposals if and only if the mixing share lies in [0, 1] and the logits are cached or the record has a path, and then they are one distribution per step |
| `SelectorAlignment.EvaluateMeaning` | benchmarks/analyze_dflash2_selector_alignment.py:204-227 | a configuration is evaluated if and only if every record has proposals, and each mean is the mean over the records of the overlap of target and proposal |
| `SelectorAlignment.ProxyBelowSupport` | benchmarks/analyze_dflash2_selector_alignment.py:204-227 | no configuration's proxy exceeds the candidate-support proxy of the same records |
| `SelectorAlignment.FullMessageRow` | benchmarks/analyze_dflash2_selector_alignment.py:128-156 | with full messages and no truncation a chain proposal is the telescoping row |
| `SelectorAlignment.RecordTelescopes` | benchmarks/analyze_dflash2_selector_alignment.py:128-156 | on a record the proposals of the drafted candidates multiply to that path's weight over the weight of all paths through the transformed lattice |
| `SelectorAlignment.NoMessageRow` | benchmarks/analyze_dflash2_selector_alignment.py:295-324 | with no message and unit scales a proposal is rebuilt from the recorded lattice scores alone |
| `SelectorAlignment.PositionPolicy` | benchmarks/analyze_dflash2_selector_alignment.py:346-366 | the policy takes, per position, the first configuration with the largest mean overlap |
| `SelectorAlignment.PolicyDominates` | benchmarks/analyze_dflash2_selector_alignment.py:346-366 | the position-wise policy's proxy is at least that of every single configuration with non-negative overlaps |
| `SelectorAlignment.EvaluatedPolicyDominates` | benchmarks/analyze_dflash2_selector_alignment.py:346-412 | so of evaluated configurations, whose overlaps are never negative, none beats the policy |
| `SelectorLaws.OverlapPlusShortfall` | benchmarks/analyze_dflash2_selector_alignment.py:67-79 | overlap is the target mass less what the proposal falls short of it, entry by entry |
| `SelectorLaws.OverlapFullIff` | benchmarks/analyze_dflash2_selector_alignment.py:67-79 | overlap is the whole target mass if and only if the proposal's mass on every target id reaches the target's |
| `SelectorLaws.OverlapWithinProposal` | benchmarks/analyze_dflash2_selector_alignment.py:67-79 | with distinct target ids overlap is at most the proposal's mass |
| `SelectorLaws.SupportAttainedIff` | benchmarks/analyze_dflash2_selector_alignment.py:67-88 | overlap is the support if and only if every supported target entry is met |
| `SelectorLaws.MeanSupportMeaning` | benchmarks/analyze_dflash2_selector_alignment.py:295-324 | the support of a step is the mean, over the records, of the target mass on that step's candidates |
| `SelectorLaws.ProxyUnrolls` | benchmarks/analyze_dflash2_selector_alignment.py:195-201 | the expected length is one plus, if the first position succeeds, the expected length of the rest |
| `SelectorLaws.TargetRowMeaning` | benchmarks/analyze_dflash2_selector_alignment.py:159-163 | a target row is the truncated softmax of its own step's logits at the record's temperature and threshold |
| `SelectorLaws.ChainProposalMeaning` | benchmarks/analyze_dflash2_selector_alignment.py:91-146 | a proposal is the truncated distribution of the transformed weight after the drafted predecessor times the message raised to its exponent |
| `SelectorLaws.CachedProposalMeaning` | benchmarks/analyze_dflash2_selector_alignment.py:128-146 | a cached proposal is the truncated softmax of the logits realised at its own step |
| `SelectorLaws.UnaryProposal` | benchmarks/analyze_dflash2_selector_alignment.py:91-146 | without messages and edges a proposal is the truncated softmax of the scaled unary logits, whatever predecessor and lattice |
| `SelectorLaws.LatticeProposal` | benchmarks/analyze_dflash2_selector_alignment.py:91-146 | without messages and with equal scales it is the truncated softmax of the scaled lattice row |
| `SelectorLaws.ProposalsHomogeneous` | benchmarks/analyze_dflash2_selector_alignment.py:91-156 | multiplying temperature and both scales by one positive factor changes no proposal |
| `SelectorLaws.ProposalsMix` | benchmarks/analyze_dflash2_selector_alignment.py:147-156 | the greedy share shrinks every entry of the unmixed proposal by the share and gives it to the first largest one |
| `ExtractionQueue.StepKept` | benchmarks/benchmark_hidden_state_extraction.py:133-177 | every client step keeps queue, held prompts, results and sentinels in balance |
| `ExtractionQueue.RunKept` | benchmarks/benchmark_hidden_state_extraction.py:133-177 | the balance holds in every reachable state of every interleaving, and the steps left are determined by it |
| `ExtractionQueue.WaitingFindsItem` | benchmarks/benchmark_hidden_state_extraction.py:143-147 | a waiting client always finds an item: `get` never blocks, also after failures |
| `ExtractionQueue.SentinelAfterPrompts` | benchmarks/benchmark_hidden_state_extraction.py:240-247 | no client stops while a prompt is queued |
| `ExtractionQueue.SentinelPerClient` | benchmarks/benchmark_hidden_state_extraction.py:240-247 | the queue ends in exactly one sentinel per client that has not stopped |
| `ExtractionQueue.HaltsWhenAllDone` | benchmarks/benchmark_hidden_state_extraction.py:240-258 | a run can go no further if and only if every client has stopped or failed |
| `ExtractionQueue.EveryPromptOnce` | benchmarks/benchmark_hidden_state_extraction.py:133-258 | without failures every halted run stores the result of every prompt exactly once and leaves nothing queued or unfinished |
| `ExtractionQueue.FailuresLeaveSentinels` | benchmarks/benchmark_hidden_state_extraction.py:133-258 | with failures and a surviving client a halted run has taken every prompt and leaves one sentinel and one unfinished prompt per failed client |
| `ExtractionQueue.RunsAreBounded` | benchmarks/benchmark_hidden_state_extraction.py:133-177 | no run is longer than two steps per prompt plus one per client |
| `DraftRanking.RankingMeaning` | benchmarks/analyze_sm70_draft_vocab_coverage.py:261-275 | a ranking lists every id of its range once: mandatory first, then training count, background count and id |
| `DraftRanking.LocalIsRestriction` | benchmarks/analyze_sm70_draft_vocab_coverage.py:378-389 | a shard's ranking is the global ranking restricted to the shard |
| `DraftRanking.TopMeetsShardInPrefix` | benchmarks/analyze_sm70_draft_vocab_coverage.py:394-404 | the global top of any size meets a shard in a prefix of the shard's own ranking |
| `DraftRanking.ShardsPartition` | benchmarks/analyze_sm70_draft_vocab_coverage.py:382-389 | every id lies in exactly one shard |
| `DraftRanking.PrefixIsOptimal` | benchmarks/analyze_sm70_draft_vocab_coverage.py:261-301 | the global prefix covers the most training occurrences of all id sets of its size that respect the mandatory ids |
| `DraftRanking.QuotasSum` | benchmarks/analyze_sm70_draft_vocab_coverage.py:406-409 | quotas sum to the subset size |
| `DraftRanking.BalancedSelection` | benchmarks/analyze_sm70_draft_vocab_coverage.py:406-415 | each rank contributes the first entries of its own ranking up to its quota, and the selected set is the union of the picks |
| `DraftRanking.PickMeaning` | benchmarks/analyze_sm70_draft_vocab_coverage.py:410-412 | a pick has no repetition, stays in its shard, and is as long as quota and shard allow |
| `DraftRanking.BalancedSize` | benchmarks/analyze_sm70_draft_vocab_coverage.py:413-415 | picks of different ranks share no id, so the selected set is as large as the picks together |
| `DraftRanking.BalancedIsFullIff` | benchmarks/analyze_sm70_draft_vocab_coverage.py:406-415 | the selected set never exceeds the requested size and reaches it if and only if no shard is smaller than its quota |
| `DraftRanking.EvenShardsAreFull` | benchmarks/analyze_sm70_draft_vocab_coverage.py:382-415 | with an evenly divided vocabulary the selected set has the requested size |
| `DraftRanking.UnevenShardsFallShort` | benchmarks/analyze_sm70_draft_vocab_coverage.py:382-415 | ten requested of ten ids over four ranks select nine, whatever the statistics |
| `DraftRanking.RankingOrder` | benchmarks/analyze_sm70_draft_vocab_coverage.py:261-275 | earlier ranked ids are mandatory first, then by training count, then by background count, then by smaller id |
| `DraftRanking.WidthIsLeast` | benchmarks/analyze_sm70_draft_vocab_coverage.py:382-389 | the shard width is the least that covers the vocabulary |
| `DraftRanking.QuotasEven` | benchmarks/analyze_sm70_draft_vocab_coverage.py:406-409 | an earlier rank's quota is that of a later one or one more |
| `SplitAttention.LocalRoundTrip` | vllm/models/qwen4_exp/nvidia/ops/qsa_dcp.py:30-31 | the owner of a position finds it again at its local index, for every world size and interleave |
| `SplitAttention.PartialSums` | benchmarks/benchmark_qwen38_dcp_numerics.py:110-124 | a rank's mass and numerator over its local cache and localised ids are those of the positions it owns |
| `SplitAttention.ShardsPartition` | vllm/models/qwen4_exp/nvidia/ops/qsa_dcp.py:29-36 | whatever is summed over the selected positions, the ranks together sum it over each position once |
| `SplitAttention.MergeIsAttention` | benchmarks/benchmark_qwen38_dcp_numerics.py:125-128 | log-sum-exp weights recombine the shard outputs to unsharded attention, with empty shards and when every shard is empty |
| `SplitAttention.ShardedAttention` | benchmarks/benchmark_qwen38_dcp_numerics.py:108-128 | the loop over ranks and the merge return unsharded attention for every selection and every width that holds each rank's ids |
| `SplitAttention.GroupSplitsEvenly` | vllm/models/qwen4_exp/nvidia/ops/qsa_dcp.py:49-58 | a group divisible over the ranks gives every rank exactly its share |
| `SplitAttention.SelectionWidthSuffices` | vllm/models/qwen4_exp/nvidia/ops/qsa_dcp.py:40-61 | complete groups plus the open group's tail never own more columns on a rank than the selection width |
| `SplitAttention.AttendSelection` | vllm/models/qwen4_exp/nvidia/ops/qsa_dcp.py:40-61 | attention cut to the selection width is unsharded attention, for every selection |
| `SplitAttention.CausalIsSelection` | benchmarks/benchmark_qwen38_dcp_numerics.py:66-67 | a causal row is complete groups, the open group's tail and unused columns |
| `SplitAttention.AttendCausal` | benchmarks/benchmark_qwen38_dcp_numerics.py:39-128 | two ranks and 1026 of 2051 localised columns give every causal row whose keys are cached dense attention up to its position; the cache may hold fewer keys than the row has columns, as the 1568 of the benchmark |
| `SplitAttention.LocalizeMeaning` | vllm/models/qwen4_exp/nvidia/ops/qsa_dcp.py:16-37 | a localised row holds, in order, the local places of the ids the rank owns, and then unused columns |
| `SplitAttention.SelectionWidthIsTight` | vllm/models/qwen4_exp/nvidia/ops/qsa_dcp.py:40-61 | a full selection with a complete open group fills the width on every rank |
| `SplitAttention.AttendIsAverage` | benchmarks/benchmark_qwen38_dcp_numerics.py:108-128 | attention is the weighted average of the selected values, and zero when none is selected |
| `SplitAttention.DenseAttention` | benchmarks/benchmark_qwen38_dcp_numerics.py:129-135 | over the first keys it is the weighted average of those keys |
| `LongContext.SearchUnits` | benchmarks/benchmark_dsv4_dspark_long_context.py:108-122 | the capped loop ends where the probe recursion ends; the returned count belongs to the returned units and fits unless the units are zero |
| `LongContext.FitMessages` | benchmarks/benchmark_dsv4_dspark_long_context.py:93-122 | the same for the search range computed from the sampled tokens per unit |
| `LongContext.FittedIsLargest` | benchmarks/benchmark_dsv4_dspark_long_context.py:108-122 | below the cap, a monotone token count gets the largest fitting count of the range, or zero |
| `LongContext.CapUnreached` | benchmarks/benchmark_dsv4_dspark_long_context.py:103-108 | no target up to 13,980,985 tokens reaches the cap, so none up to 13,000,000 |
| `LongContext.FitIsLargest` | benchmarks/benchmark_dsv4_dspark_long_context.py:93-122 | for such targets the search is complete on its range |
| `LongContext.RangeSuffices` | benchmarks/benchmark_dsv4_dspark_long_context.py:103-105 | the result is the largest fitting count of all if and only if the first count past the range does not fit |
| `LongContext.CapIsExact` | benchmarks/benchmark_dsv4_dspark_long_context.py:108-122 | when the whole range fits, the search reaches its end if and only if the range is below 2^24 |
| `LongContext.CapBites` | benchmarks/benchmark_dsv4_dspark_long_context.py:108-122 | above it the cap stops the search of a one-token prompt early |
| `LongContext.CapReach` | benchmarks/benchmark_dsv4_dspark_long_context.py:93-122 | the capped search finds the largest fitting count of its range for every monotone token count if and only if the target is at most 13,980,985 |
| `LongContext.AffineFitIsFound` | benchmarks/benchmark_dsv4_dspark_long_context.py:93-122 | when every unit adds the same number of tokens, every target up to 13,980,985 gets the largest fitting count of all: the tokens left by the base over the tokens per unit |
| `AcceptanceDumps.StepAcceptance` | benchmarks/analyze_spec_alignment_dumps.py:118-131 | acceptance is the longest stretch on which draft and output agree without a placeholder |
| `AcceptanceDumps.StepRows` | benchmarks/analyze_spec_alignment_dumps.py:141-161 | one such row per payload, in order |
| `AcceptanceDumps.AcceptedIsCommonPrefix` | benchmarks/analyze_spec_alignment_dumps.py:118-131 | with non-negative draft ids that is the longest common prefix |
| `AcceptanceDumps.TokensFromRates` | benchmarks/analyze_spec_alignment_dumps.py:189-252 | the two loops compute one plus the sum of accepted over drafted rounds by position |
| `AcceptanceDumps.HitsCountAccepted` | benchmarks/analyze_spec_alignment_dumps.py:189-214 | accepted tokens counted by position and by round agree |
| `AcceptanceDumps.RatesMeetMeanIff` | benchmarks/analyze_spec_alignment_dumps.py:189-252 | the estimate is at least one plus mean accepted drafts, with equality if and only if every accepted position is drafted in every round |
| `AcceptanceDumps.SameLengthRoundsAgree` | benchmarks/analyze_spec_alignment_dumps.py:241-252 | with equal draft lengths and no other-round, estimate, accepted mean plus one and output mean agree |
| `AcceptanceDumps.MixedLengthsOverstate` | benchmarks/analyze_spec_alignment_dumps.py:241-252 | draft lengths one and two: the estimate exceeds the output mean |
| `AcceptanceDumps.RateMeaning` | benchmarks/analyze_spec_alignment_dumps.py:189-214 | the rate at a position is the rounds that accepted it over the rounds that drafted it |
| `Calibration.BinsCover` | benchmarks/analyze_dsv4_dspark_confidence.py:20-27 | a value lies in some bin if and only if it lies in [0, 1] |
| `Calibration.BinsDisjoint` | benchmarks/analyze_dsv4_dspark_confidence.py:20-27 | no value lies in two bins |
| `Calibration.Ece` | benchmarks/analyze_dsv4_dspark_confidence.py:17-32 | the weighted mean gaps add up to the absolute per-bin excess over the data size; an empty data set has no score |
| `Calibration.BinsPartition` | benchmarks/analyze_dsv4_dspark_confidence.py:20-32 | per-bin excesses sum to the excess of the whole data set |
| `Calibration.EceBounds` | benchmarks/analyze_dsv4_dspark_confidence.py:17-32 | for every data set and number of bins the error lies between the gap of the means and the mean of the gaps |
| `Calibration.AucFollowsOrder` | benchmarks/analyze_dsv4_dspark_confidence.py:56-64 | the pairwise score is invariant under every strictly increasing map |
| `Calibration.AucIgnoresTemperature` | benchmarks/analyze_dsv4_dspark_confidence.py:74-97 | dividing logits by any positive temperature and squashing them never changes the observed score |
| `Calibration.AucMirrors` | benchmarks/analyze_dsv4_dspark_confidence.py:56-64 | exchanging the classes mirrors the score at one half, ties included |
| `Calibration.BinIsShare` | benchmarks/analyze_dsv4_dspark_confidence.py:20-27 | the bins have equal width, and a probability lies in exactly the bin of its share |
| `Calibration.ApartIsMeanGap` | benchmarks/analyze_dsv4_dspark_confidence.py:17-32 | when no two points share a bin the error is the mean of the gaps |
| `Calibration.AucPerfectIff` | benchmarks/analyze_dsv4_dspark_confidence.py:56-64 | the score is at most one, and one if and only if every accepted value is above every rejected one |
| `DraftCoverage.ColdMissOnce` | benchmarks/analyze_sm70_dynamic_draft_vocab.py:125-147 | remark: no token is a cold miss twice in one record |
| `DraftCoverage.RepeatMissWasEvicted` | benchmarks/analyze_sm70_dynamic_draft_vocab.py:125-147 | remark: a repeat miss was used before and at least `capacity` distinct other tokens came since |
| `AcceptanceDumps.OtherMeansIrregular` | benchmarks/analyze_spec_alignment_dumps.py:144-151 | remark: a round finishes as other if and only if it does not emit its accepted drafts plus one token |
| `SplitAttention.ProductionWidth` | benchmarks/benchmark_qwen38_dcp_numerics.py:122 | remark: 2048 positions in groups of four over two ranks need 1026 of 2051 columns |

## Left out

- Floating-point rounding: all real arithmetic is exact, so tolerances and dtype conversions do not appear.
- `exp`, `log` and `sigmoid`: taken as given positive or strictly increasing functions (`Numerics` with `Sound`,
  `squash`).
- Tensors: a batched row is modelled as one row. Alignment records agree in the number of steps, candidates and target
  entries, with at least one target row per step; the loader does not check shapes, and records of mixed shapes are not
  modelled.
- Profiler tables, JSON, command lines, regular expressions, Markdown and HTTP: the model starts from the rows they
  produce. The join of activities and intervals is modelled per rank, by start time.
- Spans that end before they start: the round ledger's clipping, idle and partition results take `start <= stop`, as
  the profiler records them; `UnionNs` takes any spans.
- GPU kernels and the engine: a shard's attention is its normalised average and its log-sum, and localisation is the
  kernel's result, not its parallel schedule.
- Quantiles, percentiles, fingerprints, kernel family names and other reporting.
- Temperature fitting: a grid search; `AucIgnoresTemperature` holds for whatever it returns.
- Which dump of a step is kept among duplicates, and holdout splits.
- RoundWindows.WindowRow: the grouped columns of a row are computed beside it by `WindowColumns.ComputeColumns`; the rank
  envelopes are not modelled.
- AlignmentCoverage.Feed: a step's previous candidates arrive already filtered by their values.
- AlignmentCoverage.CountStep: models the aggregate counters of a step; its per-position counters and acceptance sums
  are not modelled.
- AlignmentCoverage.AlignmentCoverage: models the aggregate counters; per-position lists and the acceptance under
  restriction to active tokens are not modelled.
- Nucleus.CompactProbs: takes `0 < top_p`; at or below zero every entry is dropped and the division is by zero.
- ExtractionQueue.RunKept: the clients are a state machine over values, one action per await point; object identity
  and the cancellation of the remaining clients by the gatherer are not modelled.
- SelectorAlignment.EvaluateMeaning: mean overlaps and proxies only; the ranking of configurations for display is not
  modelled.
- DraftRanking.PrefixIsOptimal: speaks of training occurrences; holdout coverage has no such bound.
- LongContext.FitMessages: the tokeniser is any function from unit count to prompt length; message text is not
  modelled.
- SplitAttention.ShardedAttention: one query row, one head and scalar values; every coordinate is treated alike.
- Everything else in the repository: the serving engine, kernels, build files and the other benchmarks.
