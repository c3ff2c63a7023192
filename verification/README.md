# FinanceAgent evaluation and operations: verified models

A Dafny model of the parts of the FinanceAgent repository whose correctness is not visible from reading a single
function: the scanners and printers through which tools exchange text, the exact statistics behind published
verdicts, the samplers and counters of the evaluation sets, and the scripts that synchronise, deploy and backfill.

| module | what it models |
|---|---|
| `JsonBlocks`, `QuotedDepth` | the quote-aware scanner that finds top-level JSON objects in rendered text, and what its reading of a text means |
| `LauncherState`, `StateReader` | the launcher's hand-written JSON writer and its pattern reader, on its own output and on any text |
| `Watchdog` | the heal gate of the WSL watchdog, tick by tick, through its state file |
| `Kappa`, `McNemar`, `Spearman` | Cohen's kappa, the exact McNemar test and its positive control, rank correlation with ties |
| `QuotaSampling`, `BenchmarkBuild`, `DrawTotals`, `FeasibleQuota` | quota sampling with a shared per-trace quota, the search for a quota, what the shuffle can change, and which quotas can meet a request |
| `PromptProtocol`, `PromptScripts` | prompts in the working tree, the git index, the history and Langfuse production, and the scripts that move them |
| `Performance`, `MirroredReturns`, `Backtest` | wealth and drawdown, a return series and its mirror image, trade and baseline return series, pooling |
| `RebuttalCoverage` | how many arguments of a debate were answered |
| `CitationChain` | verification of claims with one repair and a scoped re-verification |
| `Backfill` | the resumable backfill of delisted stocks |
| `Deploy` | the deployment script against an arbitrary environment |
| `Wrappers`, `RealFacts`, `Finite` | optional values and results, products of reals, sizes of finite sets |

Code that works step by step is a method or a class method proved against a specification function; the promises
are lemmas about that function. Floats are reals. Shuffles are arbitrary permutations; sources, probes, commands and
API calls are parameters that may answer anything. Loops that read a file, call a service or print are modelled by
their data only.

Run `dafny verify dfyconfig.toml` in this directory to check everything.

## Where the code and its description differ

- `scripts/sync_prompts.py:92-94` and `scripts/prompt_history.py:3-5` speak of any committed version; the scan stops
  after 300 (`PromptProtocol.OldRollbackIsCollected`).
- `scripts/deploy.py:154-157` promises to treat non-database files under `data/` as ordinary uncommitted work; the code
  leaves modified ones out of every class (`Deploy.UnclassifiedIff`, `Deploy.LeftToPullIff`).
- The launcher's writer does not escape control characters, so a detail text with one makes the file illegal JSON,
  although it is still read back correctly (`LauncherState.EscapeIsJsonIff`, `LauncherState.StateRoundTrip`).
- Drawdown is described as the greatest fall from a peak to a trough. It exceeds 1 once a return below -1 turns wealth
  negative, and it is then no longer the greatest fall if wealth had moved before (`Performance.DrawdownAtMostOneIff`,
  `Performance.MovedMaximumIff`).
- `scripts/sync_prompts.py:5-7` promises commits that hold the prompt file only and conflicts that are never overwritten.
  The commit takes the whole index, so a staged edit of a later file is swept into it and then overwritten
  (`PromptProtocol.CommitHoldsOneFileIff`, `PromptProtocol.OverwrittenIff`).
- The cooldown of the watchdog lives in its state file; a lost write or a failed read followed by a write forgets it
  (`Watchdog.RecordedIff`, `Watchdog.TerminatesAgainIff`, `Watchdog.FailedReadForgets`).
- The heal gate is described as 15 failed probes in a row (`scripts/FinanceAgentLauncher.cs:12`); a success whose write
  is lost does not interrupt the count (`Watchdog.TerminationNeedsFailures`, `Watchdog.OneFailureTerminates`).
- The total size of a benchmark draw can depend on the shuffle when a trace holds near misses and hedged rows
  (`DrawTotals.TotalIsFixedIff`, `DrawTotals.KindsApartFixTotal`), while the size of each single draw does not
  (`QuotaSampling.TakeSize`).
- The benchmark search discloses its quota as the smallest feasible one and the default as too little. Both can be false
  when the search starts at the default (`FeasibleQuota.DisclosureMisleads`); the exact conditions are
  `FeasibleQuota.SmallestIff` and `FeasibleQuota.DisclosedReasonIff`.
- A buy's daily returns multiply to its exit over entry price, a sell's do not (`Backtest.SellTelescopesIff`).

## Model

| member | source | states |
|---|---|---|
| JsonBlocks.TopLevelJsonBlocks | evals/judge_calibration/material.py:311-338 | The scanning loop returns the text cut at the spans of the step-by-step scanner, each span lying inside the text |
| JsonBlocks.BlocksAreExactlyTheExcursions | evals/judge_calibration/material.py:311-338 | On any text the blocks are in order, disjoint, and exactly the intervals in which the quote-aware depth leaves 0 and returns to it |
| QuotedDepth.InStringIff | evals/judge_calibration/material.py:319-328 | A position is inside a string exactly when some quote outside strings has been followed by no quote with an even number of backslashes before it |
| QuotedDepth.EscapedIff | evals/judge_calibration/material.py:319-324 | A character of a string is escaped exactly when an odd number of backslashes precedes it |
| QuotedDepth.DepthIsGreatestSurplus | evals/judge_calibration/material.py:325-336 | The depth is the greatest surplus of opening over closing braces outside strings over all stretches that end there, so surplus closing braces are forgotten |
| JsonBlocks.ReportsObject | evals/judge_calibration/material.py:311-338 | At depth 0 a printed JSON object, with nested objects, quotes, backslashes and braces inside its strings, is reported as one block |
| JsonBlocks.PassesPrinted | evals/judge_calibration/material.py:311-338 | Inside a block every printed JSON value leaves depth, string and escape state as they were (induction over the value) |
| JsonBlocks.ScannerUndoesPrinter | evals/judge_calibration/material.py:311-338 | For any objects printed with escaped strings (section 7 of RFC 8259) and joined by gap text without quotes or opening braces, the scanner returns exactly the object texts, in order |
| LauncherState.EscapeCons | scripts/FinanceAgentLauncher.cs:282-286 | The two whole-string replacements escape character by character, which holds because backslashes come first |
| LauncherState.UnescapeEscape | scripts/FinanceAgentLauncher.cs:282-286 | Undoing the escapes gives the text back, for every text |
| LauncherState.EscapeIsJsonIff | scripts/FinanceAgentLauncher.cs:282-286 | The escaped text is a legal JSON string of section 7 of RFC 8259 exactly when the text holds no control character |
| LauncherState.ControlCharReachesFile | scripts/FinanceAgentLauncher.cs:275-280 | Such a text gets there: only line breaks are replaced before a message is written, so the colour code of an error message makes the file illegal |
| LauncherState.FindPastEscaped | scripts/FinanceAgentLauncher.cs:261-273 | No text inside an escaped string, not even one imitating a key with its colon and digits, is taken for the key by the pattern search |
| LauncherState.FindPastName | scripts/FinanceAgentLauncher.cs:261-273 | The name of another field, or of this one when its value is no number, is passed over |
| LauncherState.ReadField | scripts/FinanceAgentLauncher.cs:206-223 | The leftmost match in a written object is the value of the field asked for, whatever stands in the other fields |
| LauncherState.StateRoundTrip | scripts/FinanceAgentLauncher.cs:206-223 | For every distro, detail and date text the three numbers read from the rendered file are the ones written (a negative number would be read as 0) |
| LauncherState.ReadLong | scripts/FinanceAgentLauncher.cs:267-273 | A nonzero result is the number spelled by the digits of the leftmost match, all of them ASCII, and fits a 64-bit integer; the pattern also matches the decimal digits of other scripts, which read as 0 |
| StateReader.MatchHereIff | scripts/FinanceAgentLauncher.cs:267-273 | On any text: what matches at its beginning is the quoted key, spaces, a colon, spaces and a whole run of digits, which are captured |
| StateReader.FindIff | scripts/FinanceAgentLauncher.cs:267-273 | On any text: the digits found are those of the leftmost match, and none are found when there is no match |
| StateReader.SpacedNumberReads | scripts/FinanceAgentLauncher.cs:261-273 | A number written behind the key with any spaces around the colon and any leading zeros is read; beyond 64 bits it reads as 0, and the 32-bit reader stops at its greatest integer |
| StateReader.NoMatchReadsZero | scripts/FinanceAgentLauncher.cs:261-273 | Without a match both readers give 0 |
| StateReader.OtherDigitsReadZero | scripts/FinanceAgentLauncher.cs:267-273 | A run of digits that are not all of ASCII matches the pattern and reads as 0, whatever number stands behind it |
| LauncherState.ParseDec | scripts/FinanceAgentLauncher.cs:261-273 | Reading the decimal digits of a number gives the number |
| LauncherState.DecIntIs | scripts/FinanceAgentLauncher.cs:206-223 | A number is written as its sign, if it is negative, and the digits of its size |
| Watchdog.Host.ProbeAndMaybeHeal | scripts/FinanceAgentLauncher.cs:102-226 | One tick: the new probe file, whether the distro was terminated, and the counters read back from the file are those of the step function |
| Watchdog.FileStepsLikeCounters | scripts/FinanceAgentLauncher.cs:150-223 | The file is a faithful memory: rendering and reading back is the step on three numbers |
| Watchdog.FileTellsTheRun | scripts/FinanceAgentLauncher.cs:150-204 | At every point of a run from an absent file in which reads and writes work, the file holds the length of the current run of failed probes, the last termination and the number of terminations, as 32-bit integers |
| Watchdog.FileShows | scripts/FinanceAgentLauncher.cs:206-226 | For any run: a written file shows what its tick has seen, and the time of the termination on record after it, if there is one |
| Watchdog.TerminatesIff | scripts/FinanceAgentLauncher.cs:233-260 | With working reads and writes: when exactly a tick terminates the distro, said of the run and the status snapshot and not of the file |
| Watchdog.TerminatesAtIff | scripts/FinanceAgentLauncher.cs:150-204 | For any run: a tick terminates exactly when probe, snapshot and recorded failures call for it and the termination on record, if there is one, is 1800 seconds old |
| Watchdog.SnapshotStaleIff | scripts/FinanceAgentLauncher.cs:244-260 | A snapshot that holds its collection time as any JSON writer may put it, with white space around the colon or without, is stale exactly when that time lies 900 seconds back or more |
| Watchdog.UnknownTimeIsStale | scripts/FinanceAgentLauncher.cs:244-260 | A snapshot that is absent, unreadable or without a time is stale; without a configured path none is |
| Watchdog.TerminationNeedsFailures | scripts/FinanceAgentLauncher.cs:150-170 | For any run: a termination follows at least 15 failed probes since the last success that was written down; the last 15 probes have all failed exactly when none of them is a success whose write was lost |
| Watchdog.FailedSinceIs | scripts/FinanceAgentLauncher.cs:150-170 | What is counted there: the failed probes after the last success that was written down |
| Watchdog.OneFailureTerminates | scripts/FinanceAgentLauncher.cs:150-226 | Such a run: after fourteen failures and a success that could not be written down, a single failed probe terminates the distro |
| Watchdog.TerminationsAreApart | scripts/FinanceAgentLauncher.cs:233-241 | Whatever the clock does, two terminations are at least 1800 seconds apart if the first was written down and no tick in between rewrote the file without having read it |
| Watchdog.TerminationRate | scripts/FinanceAgentLauncher.cs:233-241 | From a first to a last termination there are at most 1 + L / 1800, where L is the time between the two |
| Watchdog.StretchRate | scripts/FinanceAgentLauncher.cs:233-241 | In a stretch of L seconds in which the clock does not go backwards there are at most 1 + L / 1800 terminations |
| Watchdog.TerminatesAgainIff | scripts/FinanceAgentLauncher.cs:171-226 | Right after a termination, a tick that would terminate again but for the cooldown does so exactly when the termination was not written down |
| Watchdog.FailedReadForgets | scripts/FinanceAgentLauncher.cs:137-204 | Although every write works, one failed read lets two terminations be 900 seconds apart |
| Watchdog.RecordedIff | scripts/FinanceAgentLauncher.cs:137-226 | For any run: a termination is on record exactly when its own write worked and every tick since either wrote nothing, or read the file and terminated nothing |
| Kappa.CohenKappa | evals/stats.py:110-126 | The program computes kappa as defined by agreements and matching pairs; unequal lengths are an error, the empty sequence gives 0 |
| Kappa.FillMatrix | evals/stats.py:116-120 | Filling the confusion matrix in place leaves the number of items with each pair of labels |
| Kappa.MarginalProducts | evals/stats.py:121-123 | The sum over categories of row total times column total is the number of matching pairs |
| Kappa.TraceOf | evals/stats.py:121 | The trace of the filled matrix is the number of agreements |
| Kappa.RowColIsMatches | evals/stats.py:121-123 | The marginal products add up to the matching pairs (i, j) in any order of the categories |
| Kappa.ChanceIsBounded | evals/stats.py:121-126 | n^2 + n * agreements is never below twice the matching pairs: the lower bound of kappa |
| Kappa.KappaInRange | evals/stats.py:110-126 | Kappa lies between -1 and 1 for any two label sequences of equal length |
| Kappa.ChanceOneIff | evals/stats.py:124-125 | The branch for chance agreement 1 is taken exactly when a single label is all that anybody used; agreement is then full |
| Kappa.KappaOneIff | evals/stats.py:110-126 | Kappa is 1 exactly when the raters agree on every item |
| Kappa.KappaSymmetric | evals/stats.py:110-126 | Exchanging the raters does not change kappa |
| McNemar.TailComplement | evals/causal_ablation/pilot_runner.py:2247-2253 | A tail of a binomial row and the opposite tail make up the whole row (Pascal's rule and symmetry) |
| McNemar.PInRange | evals/causal_ablation/pilot_runner.py:2247-2253 | The p-value lies in (0, 1] |
| McNemar.POneIff | evals/causal_ablation/pilot_runner.py:2247-2253 | The p-value is 1 exactly when the two counts differ by at most one |
| McNemar.ClampMattersIff | evals/causal_ablation/pilot_runner.py:2253 | The clamp at 1 changes the value exactly when both counts are equal |
| McNemar.ImbalanceLowersP | evals/causal_ablation/pilot_runner.py:2247-2253 | With the number of pairs fixed, a greater imbalance has a strictly smaller p-value |
| McNemar.ExtraPairLowersP | evals/causal_ablation/pilot_runner.py:2247-2253 | One more pair on the greater side lowers the p-value strictly |
| McNemar.PIsTwoSidedTest | evals/causal_ablation/pilot_runner.py:2247-2253 | The clamped doubled tail is the share of all outcomes of n fair flips at least as lopsided as the observed one |
| McNemar.TableIsCount | evals/causal_ablation/escape.py:30-39 | The table counts the finished pairs that escape only with the check off, and those that escape only with it on |
| McNemar.SixPairsNeeded | evals/causal_ablation/pilot_runner.py:2387-2394 | Sensitivity is never confirmed with fewer than six discordant pairs, whatever their split |
| McNemar.UnopposedConfirmedIff | evals/causal_ablation/pilot_runner.py:2387-2394 | With no pair the other way, it is confirmed exactly from six pairs on |
| McNemar.MoreEvidenceKeepsConfirmed | evals/causal_ablation/pilot_runner.py:2387-2394 | A confirmed control stays confirmed when a unit is added that does not speak against it |
| Spearman.ComputeRanks | evals/judge_calibration/measure.py:95-107 | The sort-and-group loop computes rank = number of smaller values + (number of equal values + 1) / 2 |
| Spearman.ComputeSpearman | evals/judge_calibration/measure.py:89-117 | Covariance and variances of the ranks, with no correlation for fewer than two values or a zero variance |
| Spearman.GroupRank | evals/judge_calibration/measure.py:98-106 | The average rank of a sorted group of equal values is its counting rank |
| Spearman.RanksTotal | evals/judge_calibration/measure.py:95-107 | Ties or not, the ranks add up to n (n + 1) / 2 |
| Spearman.SameOrderSameRanks | evals/judge_calibration/measure.py:95-107 | A strictly increasing map of the values leaves the ranks as they are |
| Spearman.CauchySchwarz | evals/judge_calibration/measure.py:111-117 | The square of the covariance is at most the product of the variances, with equality only for proportional deviations |
| Spearman.RhoInRange | evals/judge_calibration/measure.py:111-117 | A defined correlation has positive variances and a square of at most 1 |
| Spearman.UndefinedIff | evals/judge_calibration/measure.py:89-117 | There is no correlation exactly for fewer than two values or a constant series |
| Spearman.OnlyOrderMatters | evals/judge_calibration/measure.py:89-117 | The result depends on the order of the values only |
| Spearman.RhoIsOneIff | evals/judge_calibration/measure.py:89-117 | The correlation is 1 exactly when both series put their positions in the same order, ties included |
| Spearman.ReversalNegates | evals/judge_calibration/measure.py:89-117 | Reversing the order of one series changes the sign |
| Spearman.SpearmanSymmetric | evals/judge_calibration/measure.py:89-117 | Exchanging the series changes nothing |
| QuotaSampling.TraceQuota.TryTake | evals/claim_benchmark/build_benchmark.py:97-109 | A row is taken exactly while its trace is below the cap, and the quota remembers exactly the rows taken |
| QuotaSampling.PickClaims | evals/claim_benchmark/build_benchmark.py:112-122 | The loop over a shuffled pool draws what the greedy draw of that shuffle draws |
| QuotaSampling.TakeSize | evals/claim_benchmark/build_benchmark.py:112-122 | Whatever the shuffle, a draw has size min(n, sum over traces of min(remaining quota, rows of that trace)) |
| QuotaSampling.ShuffleDoesNotMatter | evals/claim_benchmark/build_benchmark.py:112-122 | Two shuffles of the same rows give draws of the same size |
| QuotaSampling.SampleSubset | evals/claim_benchmark/build_benchmark.py:166-182 | The subset sampler draws a largest set of at most n rows that the quota allows, outside the excluded rows |
| QuotaSampling.TypedStage | evals/claim_benchmark/build_benchmark.py:147-157 | The typed stage draws at most n rows, wastes no capacity, and a type misses its target only when the quota allows nothing more of it |
| QuotaSampling.SampleClean | evals/claim_benchmark/build_benchmark.py:125-163 | Despite its typed stage, the clean sampler draws exactly min(n, capacity) rows, and a type misses its target only when nothing more of it could be drawn |
| QuotaSampling.TakeExhausts | evals/claim_benchmark/build_benchmark.py:112-122 | A draw stops short only when every row it leaves is of a used-up trace |
| QuotaSampling.RoundPercent | evals/claim_benchmark/build_benchmark.py:148 | A target is the nearest whole number, the even one on a tie |
| QuotaSampling.TargetsFit | evals/claim_benchmark/build_benchmark.py:146-149 | The rounded type targets never ask for more than the whole |
| BenchmarkBuild.SampleAll | evals/claim_benchmark/build_benchmark.py:198-214 | The three draws share one quota, later ones leave out what earlier ones took |
| BenchmarkBuild.SubsetsAreDisjoint | evals/claim_benchmark/build_benchmark.py:198-214 | The subsets are pairwise disjoint, each row is of its kind, and no trace exceeds the cap in all three together |
| BenchmarkBuild.CleanSize | evals/claim_benchmark/build_benchmark.py:198-214 | The clean subset fills up whatever capacity the other two leave |
| BenchmarkBuild.TotalSize | evals/claim_benchmark/build_benchmark.py:198-214 | The total is min(adversarial rows + requested clean rows, capacity) |
| DrawTotals.TotalOfDraw | evals/claim_benchmark/build_benchmark.py:198-214 | The size of a draw follows from its near misses: with the hedged rows they leave, and the clean rows up to the capacity |
| DrawTotals.ShuffledIff | evals/claim_benchmark/build_benchmark.py:112-122 | Some shuffle of the pool draws a list of rows exactly when it is a largest draw within the quota |
| DrawTotals.ValidDrawIff | evals/claim_benchmark/build_benchmark.py:198-214 | The near misses and the hedged rows of a complete draw are exactly what two shuffles can give; the clean rows are any largest draw of the rest |
| DrawTotals.GreatestIs | evals/claim_benchmark/build_benchmark.py:198-214 | The most hedged rows that near misses can leave, for every pool, request and quota: the capacity of the hedged rows, or of both kinds together less the near misses drawn, whichever is less |
| DrawTotals.TotalRange | evals/claim_benchmark/build_benchmark.py:198-214 | Sizes run from that of the least hedged count over all near-miss draws to that of the greatest, and both occur |
| DrawTotals.TotalIsFixedIff | evals/claim_benchmark/build_benchmark.py:198-214 | The size is independent of the shuffle exactly when the least count equals the greatest, or the clean rows asked for fill the capacity even after the least |
| DrawTotals.Extremes | evals/claim_benchmark/build_benchmark.py:198-214 | The least count exists for every pool, request and quota, and lies between 0 and the greatest |
| DrawTotals.WideTotalIsFixedIff | evals/claim_benchmark/build_benchmark.py:198-214 | From the size of the largest trace on, the condition in numbers of rows: near misses, hedged rows, rows of both kinds, and the request |
| DrawTotals.KindsApartFixTotal | evals/claim_benchmark/build_benchmark.py:198-214 | When no trace holds both a near miss and a hedged row, the shuffle cannot change the size |
| DrawTotals.CleanFills | evals/claim_benchmark/build_benchmark.py:198-214 | Nor can it when the clean request fills the capacity |
| DrawTotals.SharedRowMatters | evals/claim_benchmark/build_benchmark.py:198-214 | It can when a row is of both kinds, even if the quota refuses nothing |
| DrawTotals.SharedTraceMatters | evals/claim_benchmark/build_benchmark.py:198-214 | And it can without such a row, when a trace holds one of each |
| BenchmarkBuild.Build | evals/claim_benchmark/build_benchmark.py:229-240 | The search widens the cap one by one from the floor and stops at the first draw that meets the request, or at max(floor, largest trace) when none does; an empty pool is an error |
| BenchmarkBuild.Widen | evals/claim_benchmark/build_benchmark.py:236-240 | The loop tries every cap from the floor on, and all but the last draw fall short |
| BenchmarkBuild.WiderQuotaIsUseless | evals/claim_benchmark/build_benchmark.py:234 | From the size of the largest trace on, no wider quota yields more |
| BenchmarkBuild.CapFloor | evals/claim_benchmark/build_benchmark.py:233 | The floor is the larger of the default and the least cap whose total over the sessions covers the request |
| BenchmarkBuild.BelowAverageFallsShort | evals/claim_benchmark/build_benchmark.py:233 | Below the ceiling of needed / sessions every draw falls short, whatever the shuffle |
| FeasibleQuota.FeasibleIff | evals/claim_benchmark/build_benchmark.py:198-214 | Some shuffle meets a request under a quota exactly when four counts allow it: near misses, hedged rows, both kinds together, and all rows |
| FeasibleQuota.FeasibleInCounts | evals/claim_benchmark/build_benchmark.py:198-214 | For counts that are not negative: each of them, and each sum, is at most min(quota, rows of the trace) summed over the traces |
| FeasibleQuota.MeetingDrawStays | evals/claim_benchmark/build_benchmark.py:236-240 | A draw that meets a request is a draw under every wider quota, as it stands |
| FeasibleQuota.SmallestIff | evals/claim_benchmark/build_benchmark.py:241-245 | A quota is the smallest under which some shuffle meets the request exactly when the four counts allow it and do not allow the next smaller one, for every request |
| FeasibleQuota.FirstQuotaIsSmallest | evals/claim_benchmark/build_benchmark.py:229-245 | If the search starts above the default and its first draw meets the request, the quota is the smallest |
| FeasibleQuota.DisclosedReasonIff | evals/claim_benchmark/build_benchmark.py:241-245 | The reason printed for widening, default times sessions is too little, is true exactly when the search starts above the default |
| FeasibleQuota.DisclosureMisleads | evals/claim_benchmark/build_benchmark.py:229-245 | Three rows, one of each kind asked for, and a default of 1: the search ends with a quota of 2 and prints both statements, but 1 is the smallest and the default would not have been too little |
| PromptProtocol.MatchIff | scripts/prompt_history.py:29-53 | A text counts as historical exactly when it is among the newest 300 committed versions |
| PromptProtocol.MatchIsNewest | scripts/prompt_history.py:47-53 | The match found is the newest version with that content |
| PromptScripts.PlanActions | scripts/sync_prompts.py:85-123 | One verdict per file: equal, only local, unreachable, rollback or to be collected |
| PromptProtocol.StatusIs | scripts/sync_prompts.py:85-123 | Each verdict, said of the file, production and the newest 300 commits |
| PromptProtocol.UncommittedIff | scripts/sync_prompts.py:150-153 | A file is uncommitted exactly when file, index and newest commit do not all hold the same text |
| PromptProtocol.StagedIff | scripts/sync_prompts.py:158-166 | What the next commit changes: a file whose index entry is not what the newest commit left |
| PromptScripts.ApplyActions | scripts/sync_prompts.py:126-173 | The loop treats the files in order, each against the index and history as the commits before it left them; it lists conflicts and rollbacks, and changes nothing in a dry run |
| PromptProtocol.SyncIsTreated | scripts/sync_prompts.py:144-165 | The whole sync said of the world before it: which files are collected, and that the first commit takes along everything staged |
| PromptProtocol.OverwrittenIff | scripts/sync_prompts.py:150-165 | An uncommitted edit is overwritten exactly when it is staged as it stands, production holds a text git does not know, and a file before it is collected |
| PromptProtocol.ConflictIff | scripts/sync_prompts.py:150-153 | A file is reported as a conflict exactly when it has an uncommitted edit, is to be collected, and is not overwritten in that way |
| PromptProtocol.SyncKeepsEdits | scripts/sync_prompts.py:144-165 | Every other edit is kept, in file and index; whatever is overwritten is by then a commit of the file |
| PromptProtocol.StagedEditIsOverwritten | scripts/sync_prompts.py:150-166 | Two files edited in the UI, the second with a staged edit: it is overwritten and not reported |
| PromptProtocol.CommitHoldsOneFileIff | scripts/sync_prompts.py:158-166 | The commit of a collected file holds that file only exactly when nothing else is staged |
| PromptProtocol.DryRunForetellsIff | scripts/sync_prompts.py:150-156 | A dry run foretells the conflicts exactly when no staged edit is overwritten |
| PromptProtocol.OldRollbackIsCollected | scripts/sync_prompts.py:114-122 | The description counts any committed version as a rollback; the scan stops after 300: a clean file is overwritten with an older production text exactly when that text is not among the newest 300 |
| PromptScripts.Precheck | scripts/deploy_prompts.py:75-123 | The four lists of the precheck: exactly who is mismatched, unreachable, identical or stale |
| PromptProtocol.BlockedIff | scripts/deploy_prompts.py:126-142 | When exactly a deploy is held up, said of files, production and the newest 300 commits |
| PromptProtocol.StaleIff | scripts/deploy_prompts.py:99-123 | Production will fall back exactly when it holds another text than the file that an older one of the newest 300 commits left |
| PromptProtocol.DeployedAt | scripts/deploy_prompts.py:230-255 | What a deploy leaves in production: the local text of every prompt that is neither excluded nor refused, and nothing else changes |
| PromptScripts.PublishAll | scripts/deploy_prompts.py:230-255 | The publish loop sets every prompt that is not excluded, not identical (unless forced) and not refused to its local text; who gets a new version, and how many are refused |
| PromptScripts.DeployPrompts | scripts/deploy_prompts.py:145-259 | Precheck and publication together; exit code 0 exactly when there are files, nothing blocks and nothing was refused |
| PromptProtocol.ReplacedIsScanned | scripts/deploy_prompts.py:99-123 | Only a UI edit removes content from production that the scanned history does not hold |
| PromptProtocol.NothingIsLost | scripts/deploy_prompts.py:99-123 | Over every interleaving of edits, deletions, staging, commits, UI edits, syncs and unforced deploys: what was once in production is still there, is a committed version, or was replaced by a UI edit |
| PromptProtocol.OneDirectionOnly | scripts/deploy_prompts.py:99-123 | For a reachable prompt that differs, the precheck lets it pass exactly when sync refuses to collect it |
| PromptProtocol.BlockedAfterSyncIff | scripts/deploy_prompts.py:126-128 | After a sync, a deploy is held up exactly by the reported conflicts whose production text was not swept into the history, and by rollbacks that the sweep pushed out of the 300 scanned |
| PromptProtocol.BlockedByConflicts | scripts/deploy_prompts.py:126-128 | With nothing staged, exactly by the conflicts sync reported |
| PromptProtocol.SyncThenDeployConverges | scripts/deploy_prompts.py:145-259 | From a clean tree one sync and one full deploy make every prompt equal on both sides |
| PromptProtocol.ConvergedIsStable | scripts/deploy_prompts.py:145-259 | On converged replicas both scripts change nothing and publish no version |
| PromptProtocol.ForceDestroysIff | scripts/deploy_prompts.py:126-128 | A forced deploy destroys production content exactly when nothing is unreachable, the prompt is neither excluded nor refused, the local text differs and git never had the old one |
| Performance.PerfMetrics | evals/backtest/performance.py:14-37 | The single loop computes cumulative return and one-pass drawdown; the empty series gives 0 for both |
| Performance.DrawdownIsMaximum | evals/backtest/performance.py:22-29 | While wealth never turns negative (so for all returns of at least -1) the one-pass value is the maximum of (W_i - W_j) / W_i over all i <= j with W_i > 0 |
| Performance.MaximumOfAllDrops | evals/backtest/performance.py:22-29 | For any returns the maximum is the greater of the one-pass value and the greatest drop from the lowest positive wealth to a negative one |
| Performance.MaximumIff | evals/backtest/performance.py:22-29 | For any returns the one-pass value is the maximum exactly when no such drop exceeds it |
| Performance.MovedMaximumIff | evals/backtest/performance.py:22-29 | Once wealth has moved without turning negative, the one-pass value is the maximum exactly when wealth never turns negative |
| Performance.UnmovedIsMaximum | evals/backtest/performance.py:22-29 | When wealth is 1 on every day it is positive, the one-pass value is the maximum whatever follows |
| Performance.DrawdownInRange | evals/backtest/performance.py:22-29 | For returns of at least -1 it lies in [0, 1] |
| Performance.DrawdownAtMostOneIff | evals/backtest/performance.py:22-29 | For any returns: it is at most 1 exactly when wealth never turns negative |
| Performance.NoDrawdownIff | evals/backtest/performance.py:22-29 | It is 0 exactly when wealth never falls |
| Performance.WipeoutBreaksMaximum | evals/backtest/performance.py:22-29 | An instance: a gain of 100% and a loss of 250% |
| Performance.WealthConcat | evals/backtest/performance.py:22-26 | Wealth multiplies over consecutive stretches |
| Performance.DrawdownOfParts | evals/backtest/performance.py:22-29 | For returns above -1 the drawdown of a concatenation is at least that of each part |
| Backtest.WealthTelescopes | evals/backtest/run_backtest.py:82-88 | Held long, wealth on any day is that day's price over the entry price |
| Backtest.HeldIff | evals/backtest/run_backtest.py:71-81 | When exactly a trade yields returns: bought or sold at a positive price, settled, with a row after the decision and by the settlement |
| Backtest.TradeReturnsAt | evals/backtest/run_backtest.py:79-88 | Each daily return of a trade: from entry or previous close to this close, or on the last day to the settlement price, with the sign of the action |
| Backtest.BuyReturnsExitOverEntry | evals/backtest/run_backtest.py:63-88 | A buy's daily returns, fed to the metrics, give exit price / entry price - 1 |
| Backtest.SellMirrorsBuy | evals/backtest/run_backtest.py:75-88 | A sell of the same trade has the opposite return on every day, any other action none |
| Backtest.SellTelescopesIff | evals/backtest/run_backtest.py:82-88 | A sell does not telescope: on a path of any length that only rises or only falls, its return is the negated price change exactly when the price moved on at most one day |
| Backtest.SellOfFewMoves | evals/backtest/run_backtest.py:82-88 | On any path it is if the price moved on at most one day, and it is not if on exactly two |
| MirroredReturns.MirrorIff | evals/backtest/run_backtest.py:87-88 | The same of any return series that never reverses and its mirror image |
| MirroredReturns.ThreeMovesMayMirror | evals/backtest/run_backtest.py:87-88 | With three moves and a reversal the two may mirror each other after all |
| Backtest.RsiPositions | evals/backtest/baselines.py:36-47 | The RSI loop keeps, on every day, the position of the hysteresis rule; a missing value changes nothing |
| Backtest.RsiInvestedIff | evals/backtest/baselines.py:36-47 | The rule invests exactly when the last decisive reading was below 30 |
| Backtest.BaselinePositions | evals/backtest/baselines.py:19-48 | The positions of the four strategies; comparing with a missing indicator gives no position |
| Backtest.InvestedIff | evals/backtest/baselines.py:36-59 | For each strategy: invested exactly when the fast line is above the slow one, both known, or when the last decisive RSI reading was a buy signal; the next row earns its price change exactly then |
| Backtest.BaselineWindowReturns | evals/backtest/run_backtest.py:91-109 | Returns of the rows dated in (start, end], computed on the history cut at end |
| Backtest.BuyHoldReturns | evals/backtest/baselines.py:51-59 | What buying and holding returns over a window: the last close over the close of the last day up to the decision, minus one |
| Backtest.NoLookAhead | evals/backtest/baselines.py:36-59 | A row's return depends on no later row, and the position it uses not even on that row |
| Backtest.CutOffCommutes | evals/backtest/run_backtest.py:100-109 | Cutting the history at the settle date and computing gives what computing on the full history and restricting to (start, end] gives |
| Backtest.Alignment | evals/backtest/run_backtest.py:91-109 | A held trade and each baseline have equal length, except one row less when history begins inside the window |
| Backtest.PoolReturns | evals/backtest/run_backtest.py:211-229 | The pooling loop concatenates, over the executable trades with a history, system and baseline returns |
| Backtest.SystemPoolGrows | evals/backtest/run_backtest.py:211-222 | One trade more adds its daily returns to the system's series when it has a history, whatever its action |
| Backtest.BaselinePoolGrows | evals/backtest/run_backtest.py:217-229 | And to each strategy's series that strategy's returns in the holding window, exactly when it is a buy or a sell with a history and a settlement |
| Backtest.PoolingMultiplies | evals/backtest/run_backtest.py:220-230 | Pooling trades multiplies one plus their cumulative returns |
| Backtest.AllBuyPool | evals/backtest/run_backtest.py:220-230 | A pool of buys returns the product of exit over entry prices, minus one |
| Backtest.PoolsAreAligned | evals/backtest/run_backtest.py:220-253 | When every history reaches back to the decision and every entry price is usable, system and baselines have equal length, so the truncation drops nothing |
| RebuttalCoverage.ReadMessages | evals/extract.py:159-172 | Reading the history: entries that are no messages are skipped, a round that is missing, the number 0 or unreadable becomes the count of the role's turns, and the text 0 stays round 0 |
| RebuttalCoverage.Index | evals/extract.py:178-182 | The dictionaries hold, for every key, the arguments of the last message of that role and round and the highest positive round |
| RebuttalCoverage.CountCoverage | evals/extract.py:184-199 | The loop counts the answerable arguments and collects the distinct answered points |
| RebuttalCoverage.CoveredIff | evals/extract.py:184-199 | A point is covered exactly when its round is positive, a message of the other side one round later names its number, and the last message of its side in its round has that many arguments |
| RebuttalCoverage.DenominatorIs | evals/extract.py:184-188 | The denominator is the number of arguments of the side's messages of which the other side has a later round (a round below 0 always counts) |
| RebuttalCoverage.MessagesAre | evals/extract.py:159-172 | The messages are the entries that are messages, in order, with their own fields; an unreadable round is the number of messages of the role so far |
| RebuttalCoverage.Coverage | evals/extract.py:140-205 | Coverage is reported for bull and bear debates only, one line per side with a positive denominator |
| RebuttalCoverage.CoverageIff | evals/extract.py:171-205 | What is reported: nothing unless both sides and only they speak and one has a positive denominator, else one line for each side that has |
| RebuttalCoverage.AnswersAreAvailable | evals/extract.py:184-199 | Every answered point is one of the points the denominator counts, even with missing or repeated round numbers |
| RebuttalCoverage.CoverageIsAShare | evals/extract.py:154-201 | Answered points never outnumber the denominator, and an answered point makes it positive |
| RebuttalCoverage.ReportedLines | evals/extract.py:200-205 | Every reported line is a share, and a side with an answered point is reported with its counts |
| RebuttalCoverage.DenominatorIsExact | evals/extract.py:184-188 | Without repeated rounds the denominator is the number of distinct answerable points |
| CitationChain.RunCitationChain | evals/causal_ablation/pilot_runner.py:960-1069 | The outcome: claims, verdicts, text, flag, failure list and classes, arbiter; an unknown repair name is an error only when a repair would be tried, and analysts' names that do not reach the claims only when a repair changes one |
| CitationChain.TriedIff | evals/causal_ablation/pilot_runner.py:990-996 | A repair is tried exactly when it is switched on and one or two claims fail with a wrong value |
| CitationChain.ProposalIs | evals/causal_ablation/pilot_runner.py:1006-1015 | The claims the repair would change are those whose place among the wrong values has a record with an updated claim, and they get its content |
| CitationChain.AcceptedIff | evals/causal_ablation/pilot_runner.py:990-1028 | When exactly a repair is accepted, said of the verdicts, the records and the analysts' names |
| CitationChain.BucketIsCount | evals/causal_ablation/pilot_runner.py:1031-1034 | The count of a failure class is the number of failing verdicts in it |
| CitationChain.FitsIff | evals/causal_ablation/pilot_runner.py:1072-1081 | Taking the scope runs into no index error exactly when the names reach every repaired claim and none of a repaired claim's analyst stands beyond the claims; what the names give is then the scope of the claims |
| CitationChain.MergedIsFull | evals/causal_ablation/pilot_runner.py:1016-1027 | Incremental is full re-verification: merging the verdicts of the scope gives the verdicts of all updated claims |
| CitationChain.Judge | evals/causal_ablation/pilot_runner.py:1016-1030 | A repair is accepted exactly when it changes a claim and no updated claim in the scope fails; a rejected one leaves the verdicts |
| CitationChain.Merge | evals/causal_ablation/pilot_runner.py:1024-1026 | The loop replaces the verdicts of the scope slot by slot and no other |
| CitationChain.CountFailBuckets | evals/causal_ablation/pilot_runner.py:1032-1035 | The failure classes that occur, each with the number of its failing verdicts |
| CitationChain.ReplacedAt | evals/causal_ablation/pilot_runner.py:1011-1015 | Each failing claim gets the record at its own place; missing records and a shorter list leave it alone |
| CitationChain.FinalClaimAt | evals/causal_ablation/pilot_runner.py:1011-1027 | After an accepted repair each wrong value has the content of its own record, if there is one, and no other claim changes |
| CitationChain.FailuresAfter | evals/causal_ablation/pilot_runner.py:1016-1031 | After an accepted repair the failures, and the wrong values a further run would see, are the old ones minus the scope; claims outside the scope are unchanged |
| CitationChain.AllAcceptsIff | evals/causal_ablation/pilot_runner.py:1072-1081 | Judging on all claims accepts a repair exactly when judging on the analysts does and no other analyst's claim fails |
| CitationChain.AcceptedByAllIsFinal | evals/causal_ablation/pilot_runner.py:1016-1031 | After acceptance on all claims nothing fails, and a further run tries nothing |
| CitationChain.AtMostTwoChange | evals/causal_ablation/pilot_runner.py:992-1015 | At most two claims change, and each was a wrong value |
| Backfill.DelistedWindows | scripts/backfill_delisted.py:93-122 | Every delisted code gets exactly its window or is listed as missing, never both; no code twice |
| Backfill.Anchor | scripts/backfill_delisted.py:152-161 | The earliest trading day on or after the start, or the start itself when the calendar has none |
| Backfill.FetchedIff | scripts/backfill_delisted.py:178-209 | For every table: a code is skipped exactly when its window holds rows, all of them complete and one of them at or before the first trading day; otherwise every day holds the source's last line for it, except where the source has none and on guarded days of the window |
| Backfill.NewCodeIsFetched | scripts/backfill_delisted.py:178-209 | A code without a row in its window is fetched, and its days then hold the source's last lines |
| Backfill.VerdictIs | scripts/backfill_delisted.py:323-380 | The class of a code, and the number of rows written, told from the table and the source's lines |
| Backfill.ReportIs | scripts/backfill_delisted.py:301-380 | The whole report of a run: who is listed where, with which daily-batch days, and every count |
| Backfill.AfterAt | scripts/backfill_delisted.py:323-380 | What one code does to the table: only its own rows, only outside daily-batch days, each set to the source's last row for the day |
| Backfill.LastLineWins | scripts/backfill_market_snapshot.py:232-269 | The row written for a day is the source's last line for it, field by field, with no previous close |
| Backfill.OwnRowsOnly | scripts/backfill_delisted.py:323-380 | What is done for a code depends on that code's rows only |
| Backfill.StepIdempotent | scripts/backfill_delisted.py:323-380 | Handling a code twice is handling it once |
| Backfill.RunByCode | scripts/backfill_delisted.py:323-380 | A run leaves each code as if that code alone had been handled |
| Backfill.CrashThenRerun | scripts/backfill_delisted.py:323-380 | Stopping after any number of codes and running again gives the table of one uninterrupted run |
| Backfill.AnyRunsThenFull | scripts/backfill_delisted.py:323-380 | Any series of interrupted runs before a full run changes nothing about its result |
| Backfill.SecondRunIsNoOp | scripts/backfill_delisted.py:323-380 | A second run changes no row |
| Backfill.LimitThenFull | scripts/backfill_delisted.py:289-290 | A limited run followed by a full one leaves what the full one alone would |
| Backfill.DailyKeptIff | scripts/backfill_delisted.py:212-237 | The guard on daily-batch rows: none is altered exactly when the code is skipped or the source does not answer, outside the window, with a day that holds one |
| Backfill.RunKeepsDaily | scripts/backfill_delisted.py:357-372 | With a source that keeps to its windows, a whole run alters no daily-batch row |
| Backfill.StrayRowOverwritesDaily | scripts/backfill_delisted.py:212-237 | A row outside the window is not protected: the source's answer replaces it |
| Backfill.SkippedNextIff | scripts/backfill_delisted.py:199-209 | After a fetch, the next run skips the code exactly when every row it then holds is complete and one reaches the anchor |
| Backfill.Store.Handle | scripts/backfill_delisted.py:323-380 | One code, branch by branch: the new table and the new report |
| Backfill.Store.Backfill | scripts/backfill_delisted.py:266-396 | The loop: the table of the run, and a report that is the same for a dry run, which writes nothing |
| Backfill.ForetoldNote | scripts/backfill_delisted.py:323-380 | What is reported for a code does not depend on what the run wrote before it |
| Backfill.EachCodeOnce | scripts/backfill_delisted.py:301-380 | Every code lands in exactly one class: written, skipped, without history, or fetched days all of the daily batch |
| Backfill.OverlapOnlyIsListed | scripts/backfill_delisted.py:357-371 | A code of the last class is listed with its daily-batch overlap and changes none of the other counts |
| Deploy.UnclassifiedIff | scripts/deploy.py:141-167 | An incoming path with local state falls in none of the four classes exactly when it is a modified file under data/ that is no database; the comments promise to treat it as uncommitted work |
| Deploy.CohortFileIsForgotten | scripts/deploy.py:425-429 | Such a file: data/cohort/a.json |
| Deploy.OneClassAtMost | scripts/deploy.py:141-167 | No path falls in two classes |
| Deploy.RuntimeDbIff | scripts/deploy.py:163-164 | A file below data/ counts as a runtime database exactly when its own name, not its directory's, holds .db |
| Deploy.PlanReloadServices | scripts/deploy.py:180-193 | Backend exactly when a file under src/ comes in, frontend exactly when one under frontend/ does, backend first |
| Deploy.RunningSessions | scripts/deploy.py:97-119 | The running sessions in order; the gate is open exactly when there is none |
| Deploy.RunningSessionStopsAll | scripts/deploy.py:385-397 | A running session ends the script with code 1 before anything else is asked or done |
| Deploy.FailedFetchStopsAll | scripts/deploy.py:398-403 | A failed fetch ends it with code 1 before it looks at the files |
| Deploy.RefusedIff | scripts/deploy.py:385-472 | When exactly a deployment is refused, in terms of the sessions, the fetch, and the local files in the way |
| Deploy.SucceedsIff | scripts/deploy.py:385-594 | When exactly a run ends with code 0: nothing stands against it, every step that applies succeeds, and the services are healthy at once or after the health restart |
| Deploy.DryRunSucceedsIff | scripts/deploy.py:475-505 | A dry run ends with code 0 exactly when nothing stands against the run |
| Deploy.HealthRestartOnce | scripts/deploy.py:553-594 | Once every step has succeeded the log ends with the planned reload, if code came in, and the probes: an unhealthy pair, one restart of both services whatever it returns, a second pair; there is no other restart |
| Deploy.NoProbeAfterFailure | scripts/deploy.py:385-562 | A run that is refused or in which a step fails probes nothing and restarts nothing but the services whose code came in |
| Deploy.StepsInOrder | scripts/deploy.py:385-594 | On every run: sessions, fetch, state, discards, files moved aside, stash, pull, pop, then restarts and probes |
| Deploy.FailureEndsRun | scripts/deploy.py:385-594 | Nothing is done after a failed step, except that the stash is popped after a failed pull |
| Deploy.RefusalAndDryRunAreHarmless | scripts/deploy.py:385-505 | Over every environment, a refused deployment and a dry run change no file, stash entry or container |
| Deploy.ExecutionIsNotRefused | scripts/deploy.py:507-594 | Once the checks pass, the run ends with code 0 or 2 |
| Deploy.StashComesBack | scripts/deploy.py:524-556 | Over every environment the stash ends as it began, or one entry deeper exactly when the last thing done was a failed pop; the exit code is then 2 |
| Deploy.PullIsProtected | scripts/deploy.py:507-556 | Whenever a pull is attempted, no session was reported running and no untracked file is in its way; every modified incoming runtime database was discarded and every untracked one moved aside before it; if an incoming file outside data/ is modified, stashing was allowed and the work is in the stash |
| Deploy.LeftToPullIff | scripts/deploy.py:425-527 | Which modified incoming files go into a pull neither discarded nor stashed: exactly those under data/ that are no database, when no modified incoming file outside data/ makes the script stash |
| Deploy.OkMeansLoaded | scripts/deploy.py:507-594 | Exit code 0 outside a dry run: the last thing done is a probe pair of 200 and 200, and if the checkout was behind, the pull succeeded and the services whose code came in were restarted with code 0 between the two |
| Deploy.UpToDateOnlyProbes | scripts/deploy.py:385-594 | With nothing to pull the script only probes, with at most the health restart |
| Deploy.Checkout.DiscardAll | scripts/deploy.py:509-514 | The loop discards in order and stops at the first failure |
| Deploy.Checkout.MoveAll | scripts/deploy.py:515-523 | The loop moves aside in order and stops at the first failure |
| Deploy.Checkout.Advance | scripts/deploy.py:525-556 | Stash, pull and pop; a failed pull pops at once |
| Deploy.Checkout.ProbeServices | scripts/deploy.py:574-594 | Probe, restart once when unhealthy (whatever that returns), probe again |
| Deploy.Checkout.Deploy | scripts/deploy.py:365-594 | The script: its log and exit code are those of the phases, for every environment and option |

## Left out

- Float rounding, the annualised return and the Sharpe ratio of `perf_metrics`, and the bootstrap confidence intervals.
- Spearman's square root: the result is kept as covariance and variances, so bounds are on squares.
- `humanize_json_blocks`, which replaces the blocks the scanner finds, and the section extraction around it.
- The launcher's command loop, log and screen output; texts are counted in characters, not UTF-16 units, the clock stands
  after 1970, and the probe, the termination and the file operations are outcomes of a tick.
- Sort stability in `_spearman` and the alphabetical order of the categories in `cohen_kappa`: neither affects a result.
- `round(n * ratio)` is computed on exact percentages, and the shortfall notes of `sample_clean` are not kept.
- Seeds and the random generator: every permutation is covered, so statements hold for each seed.
- Prompts: labels, the version numbers, watch mode, the command line, unreadable files, carriage returns, ignored files and
  failing git commands; precheck and publication are one step, as nothing guards the time between them.
- Indicators are an arbitrary function of the history up to a day; the report, regimes and unfilled counts of `run_backtest`.
- Debates: argument texts are modelled by their count, and rebuttal entries that are no integers are dropped beforehand.
- `verify_claims` is an arbitrary function of a single claim; the count of unverifiable verdicts and the repair records in the
  report are not kept.
- DrawTotals.TotalIsFixedIff: the least hedged count stays an optimum over the near-miss draws, because which traces they
  should fill is a covering problem; on a quota that refuses nothing `DrawTotals.WideTotalIsFixedIff` has it in counts.
- DrawTotals.ValidDrawIff: of the clean rows only the number is tied to the quota here; which rows they can be is said by
  `QuotaSampling.SampleClean`.
- FeasibleQuota.MeetingDrawStays: for counts that are not negative; with a negative count a wider quota may ask for more.
- Backfill: pauses between requests, printed lines, the persisted summary and the final integrity check; dates are numbers in
  calendar order, one code's write is a single transaction, and the window list names every code once.
- Deploy: log lines, the image rebuild hint, waiting times and backup names; git lists changed paths in order and without
  repetition, `git stash create` counts as reading, and a pull may bring more than the fetched diff.
- `evals/ablation.py`, the judges, prompts and rubrics, injection, cohort and health reports, CSV and spreadsheet writers, and
  the frontend: plumbing, or facts readable from one function.
