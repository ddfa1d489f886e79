# nifra tooling, verified

A Dafny model of the algorithms in the gates and the benchmark tooling of the nifra repository, and of its router, with proofs
of what they promise. `dafny verify dfyconfig.toml` checks the whole project.

| file | what it models |
|---|---|
| `Collections.dfy`, `Text.dfy` | options, sorted and distinct sequences, the library sort; white space, digits and `Number` |
| `Clones.dfy`, `CloneFinder.dfy` | the clone detector: what a clone is, and the buckets, diagonals, runs and bitmaps that find it |
| `CountRatchets.dfy` | the lowering-only baselines of the clone and anti-slop gates |
| `CoverageRatchet.dfy`, `Lcov.dfy` | the coverage baseline, and the two readers of an LCOV report |
| `Rounds.dfy`, `Stats.dfy`, `Report.dfy` | fair round orders, paired ratios, the exact median interval, verdicts and the stopping loop |
| `DocConsts.dfy` | the memoised, cycle-guarded evaluator of page constants |
| `ImportGraph.dfy` | the import graph and the breadth-first selection of tests |
| `Declarations.dfy` | the visited-set searches through cyclic re-exports |
| `MutationGate.dfy` | mutant keys, shards, survivors, the baseline and the gate |
| `WorkQueue.dfy`, `FetchPublished.dfy` | pools of workers that pull from one queue, and the retry loop of one of them |
| `CodeSpan.dfy`, `OneLine.dfy`, `Entities.dfy` | Markdown code spans, text edits, character references |
| `Cores.dfy` | the split of a runner's CPUs between servers and load |
| `Router.dfy` | the segment trie of the router, its backtracking walk and its caches |

## How the source is read

- Objects and loops that change state are classes and methods with loops, each proved against a specification; expressions are
  functions. A long loop body is a method of its own, so that each proof stays small.
- A window's two hashes are the window itself, taken as an injective key (`scripts/check-clones.ts:119-127`).
- Measurements are reals; a binomial probability is the exact number that the source reaches through logarithms
  (`bench/ci/stats.ts:19-29`). IEEE rounding and overflow have no counterpart. Where a text is read as a number, what it
  spells may also be an infinity or not a number, and is then kept as such (`Text.Number`).
- A character is one `char`, so a code point outside the basic plane counts once, where JavaScript counts two code units.
- A `Map` or record that the source walks in insertion order is a map walked in any order, wherever the proofs show that the
  order does not matter; where it does, the order is kept as a sequence.
- The module resolver, the syntax tree, test runs, tarballs and the npm registry are data or function parameters. A sort whose
  comparison has no ties is one under a total order.
- Workers are steps of a state machine: a worker takes from the queue, or ends the item in its hand, and any schedule of such
  moves is allowed, as awaits end in any order.

## Where the code and its documentation differ

- The coverage gate is documented as raising only (`scripts/coverage-ratchet.ts:30-37`). A plain update may lower a kept file's
  lines by up to `TOLERANCE`, and k updates can take them from one percentage to another exactly when the second is at most
  k times that lower (`CoverageRatchet.CanTakeIff`). A file that is absent from one update is forgotten
  (`VanishedFileIsForgotten`).
- The tolerance itself holds of a kept metric exactly when it is a number before and in the new report
  (`CoverageRatchet.BoundedIffNumbers`). With `FNF:x` the functions metric is not a number, no comparison fails, the baseline
  gets null, and the next update may write any percentage (`NotANumberForgets`).
- `decodeEntities` decodes the ampersand last to avoid decoding twice (`scripts/llms-convert.ts:10-11`). A number that spells part
  of an ampersand's reference is still decoded twice: `&#38;amp;` becomes `&`. `Entities.DecodesOnceIff` says exactly when
  that happens, and `NamedDecodeOnce` that it needs a number.
- The loop guard `2 * (k + 1) <= n + 1` of `medianInterval` (`bench/ci/stats.ts:48`) never ends the loop before the tail does:
  a rank whose tail is below one half is always below the middle (`Stats.RankStaysBelowMiddle`).
- `verify-published` records paths by package name. With two packages of one name and different paths, and more than one
  worker, the snapshot depends on which ends last; `WorkQueue.OneSnapshotIff` shows that nothing else makes it depend on the
  schedule.
- The retry loop of `verify-published` reads its wait with `Number`. `--wait` without a number makes it NaN, no clock gets past it,
  and a package that is never served is asked for ever; `FetchPublished.AlwaysEndsIff` says for which waits the loop ends.
- A code span cannot hold an empty text, a line ending, or text that is padded with a space at both ends
  (section 6.1 of CommonMark 0.31.2); `CodeSpan.SpanRoundTrip` shows these are the only failures, and `CappedSurvives` that
  a capped signature is none of them.

## Model

| member | source | states |
|---|---|---|
| CloneFinder.FindClones | scripts/check-clones.ts:109-191 | The runs found are the maximal runs of matching windows, each once; each clone reported has its run's length, the package both paths spell, and on either side the path and the first and last line of equal tokens; copies are found exactly when the second segments of their paths agree; a package's count is the number of its tokens that lie in a window with another, non-overlapping copy in the package and at most 24 copies in all files |
| CloneFinder.PackageIsSecondSegment | scripts/check-clones.ts:96 | A file `dir/name` or `dir/name/rest` is of the package `name` |
| CloneFinder.PackageIffSpelled | scripts/check-clones.ts:96 | A path's package is its second segment, or the whole of a path without a slash, and nothing else |
| CloneFinder.ComparedIff | scripts/check-clones.ts:137-148 | Two copies lie in one run found exactly when one package is spelled by both paths |
| CloneFinder.SamePackageIff | scripts/check-clones.ts:141 | For paths spelled `dir/name` or `dir/name/rest` that is when the names are equal |
| CloneFinder.InternAll | scripts/check-clones.ts:52-80 | Numbering token texts over all files keeps exactly which tokens are equal |
| CloneFinder.FillBuckets | scripts/check-clones.ts:116-131 | A bucket holds all windows of its key in file order, or the first 25 of them when there are more |
| CloneFinder.PairUp | scripts/check-clones.ts:133-149 | The pairs put on diagonals are exactly the matching pairs of windows, each once, so no start repeats on a diagonal |
| CloneFinder.Chain | scripts/check-clones.ts:163-182 | Sorting and chaining one diagonal's starts gives distinct maximal runs that hold every start |
| CloneFinder.AllRuns | scripts/check-clones.ts:163-182 | The runs of all diagonals are exactly the clones |
| CloneFinder.MarkAll | scripts/check-clones.ts:151-161 | The bitmaps mark a token exactly when some run covers it on either side |
| CloneFinder.CountAll | scripts/check-clones.ts:184-190 | Summing the bitmaps file by file counts each package's marked tokens and lists no package without one |
| Clones.CloneSidesEqual | scripts/check-clones.ts:88-94 | The two sides of a clone are in one package and equal token for token over their whole length |
| Clones.CloneIsUnique | scripts/check-clones.ts:163-182 | Two clones that share a start on a diagonal are the same clone |
| Clones.PairInOneClone | scripts/check-clones.ts:133-182 | Every matching pair of windows lies in exactly one clone |
| Clones.ClonedIffInClone | scripts/check-clones.ts:103-107 | A token occurs twice in the sense of the windows exactly when some clone covers it |
| Clones.CountIgnoresFileOrder | scripts/check-clones.ts:103-191 | No reordering of the files changes a package's count |
| CountRatchets.CompareCounts | scripts/check-clones.ts:211-225 | The changes are exactly the entries that rose and those that fell, missing entries counting 0 |
| CountRatchets.CloneRatchet.Run | scripts/check-clones.ts:258-329 | One run's exit code and new baseline; an accepted update leaves the current counts, without zero entries |
| CountRatchets.LocksIn | scripts/check-clones.ts:316-320 | Applying the falls, and the accepted rises, to the old baseline gives the current counts |
| CountRatchets.AntiSlopRatchet.Run | scripts/check-anti-slop.ts:187-280 | The same step over counts by rule and file; an update writes the current counts |
| CountRatchets.CountFindings | scripts/check-anti-slop.ts:87-104 | Each entry is the number of findings of its rule and file, and every rule has an entry |
| CountRatchets.Increased | scripts/check-anti-slop.ts:106-127 | The increases are exactly the entries above their baseline |
| CountRatchets.StepNeverRises | scripts/check-clones.ts:258-329 | Without acceptance one run keeps the baseline at or below itself, and a passing scan is at or below it |
| CountRatchets.BaselineNeverRises | scripts/check-clones.ts:258-329 | Over any history of runs without acceptance no entry of the baseline ever rises, and the baseline stays |
| CountRatchets.PassIsBelowEveryBaseline | scripts/check-clones.ts:258-329 | A passing run is at or below every earlier baseline in every entry |
| CoverageRatchet.FindRegressions | scripts/coverage-ratchet.ts:106-124 | The regressions are exactly the metrics of files still present for which `now < was - tolerance` holds, where null counts 0 and what is not a number is below nothing |
| CoverageRatchet.Ratchet.Run | scripts/coverage-ratchet.ts:158-280 | One run on the text of a report: its exit code and new baseline, with null for what is not finite; a run that fails writes nothing |
| CoverageRatchet.BoundedIffNumbers | scripts/coverage-ratchet.ts:106-124 | A report that is accepted keeps a kept file's metric within the tolerance exactly when it was a number and it has a finite one, which for lines it always has; with null read as 0, it falls further only from above the tolerance to what is not finite |
| CoverageRatchet.UpdateBoundedIff | scripts/coverage-ratchet.ts:220-255 | The same of the baseline that an accepted update on the text of a report leaves |
| CoverageRatchet.NotANumberForgets | scripts/coverage-ratchet.ts:61-96 | `FNF:x` takes a kept file's functions from any number to null, and the next update from there to any percentage |
| CoverageRatchet.StepLowersLittle | scripts/coverage-ratchet.ts:220-255 | Without acceptance a run that is no successful update leaves the baseline, and an update lowers a metric that stays a number by at most the tolerance |
| CoverageRatchet.LowersAtMostPerWrite | scripts/coverage-ratchet.ts:220-255 | Over any history k updates lower a metric that stays a number by at most k times the tolerance |
| CoverageRatchet.LinesLowerAtMostPerWrite | scripts/coverage-ratchet.ts:220-255 | For the lines of a file that stays nothing more is needed: once a number, they stay one |
| CoverageRatchet.CanTakeIff | scripts/coverage-ratchet.ts:220-255 | k accepted updates, each on the text of a report, can take a kept file's lines from one percentage to another if and only if the second is at most k times the tolerance lower |
| CoverageRatchet.FunctionsCanTakeIff | scripts/coverage-ratchet.ts:220-255 | One accepted update can take a kept file's functions to a percentage if and only if it is at most the tolerance lower; two or more can take them from any number to any percentage |
| CoverageRatchet.VanishedFileIsForgotten | scripts/coverage-ratchet.ts:220-255 | A file absent from one update may come back with any share of its lines |
| Text.NumberOfDigits | scripts/coverage-ratchet.ts:87-92 | `Number` reads the decimal digits of a count as that count |
| Text.NumberOfDecimal | scripts/coverage-ratchet.ts:87-92 | It reads a decimal with a point as its digits over the power of ten, and a minus in front negates it |
| Lcov.ParseLcov | scripts/coverage-ratchet.ts:61-96 | The line loop with its counters and flush computes the fold over the lines' events; a file is listed exactly when some record of it was closed, by the next file, an end or the end of the text, with the shares of the last such record: hit lines over lines and the last numbers of functions since the close before, 100 where nothing was found |
| Lcov.ParseLcovRecords | scripts/test-coverage.ts:31-78 | There are records exactly when every file has a name, every count is a safe integer and follows some file, some functions and some lines are counted, and no file has more functions hit than found; they are one for each file in order, with its name and the sums of its counts |
| Lcov.SecondIsBetween | scripts/coverage-ratchet.ts:87-92 | The second field is what stands between the first comma and the second or the end, and there is none without a comma |
| Lcov.ReadersAgree | scripts/test-coverage.ts:31-78 | On the rendering of any records with distinct names one reader gives the records back, unless no file has a line, and the other exactly their percentages, 100 where nothing was found |
| Lcov.PercentsByIsLookup | scripts/coverage-ratchet.ts:61-96 | With distinct names each file's percentages are those of its own record |
| Lcov.LinesAreShares | scripts/coverage-ratchet.ts:70-77 | Whatever the text, a file's line percentage is a share of its lines, between 0 and 100 |
| Rounds.RoundIsPermutation | bench/rounds.ts:15-20 | A round holds every row exactly once, at the position the row is said to take |
| Rounds.PairSwapsRows | bench/rounds.ts:10-20 | A row's positions in a pair of rounds sum to n - 1, so any two rows swap order |
| Rounds.EveryRowTakesEveryPositionTwice | bench/rounds.ts:10-20 | Over any 2n rounds from an even one every row takes every position exactly twice |
| Rounds.DriftCancels | bench/rounds.ts:30-97 | Multiplying all rows of each round of each run by its own positive factor leaves every pooled ratio as it was |
| Rounds.RatiosIgnoreLoad | bench/rounds.ts:30-36 | The same for the paired ratios of two rows in one run |
| Rounds.PushRounds | bench/rounds.ts:65-79 | One cell gains the rounds at its end and no other cell changes |
| Rounds.PoolRuns | bench/rounds.ts:115-153 | Pooling conserves rounds: each cell is the in-order concatenation of its rounds over the runs |
| Rounds.MedianIff | bench/rounds.ts:22-28 | The median is the value in the middle of the ascending values, the mean of the two in the middle of an even number, and 0 of none |
| Rounds.MedianBalances | bench/rounds.ts:22-28 | At most half of the values lie below the median and at most half above |
| Rounds.RatioOfRound | bench/rounds.ts:30-36 | Each round both rows measured over a positive baseline gives its own ratio, at its place among such rounds, and there are no others |
| Rounds.MergeRuns | bench/rounds.ts:115-153 | A merged cell exists exactly when some run has a round for it; it holds all its rounds in order, the median of each measure over them and, when a ceiling is named and some round pairs, the median of the ratios to it |
| Stats.BinomialHalfCdf | bench/ci/stats.ts:19-29 | The running product and sum are the exact binomial distribution function at one half |
| Stats.SearchRank | bench/ci/stats.ts:46-49 | The upward search ends at the largest rank whose tail is small enough |
| Stats.RankStaysBelowMiddle | bench/ci/stats.ts:46-49 | A rank with a tail below one half is below the middle, so the two ends never cross |
| Stats.MedianIntervalOf | bench/ci/stats.ts:35-55 | The interval is that of the largest rank; a confidence outside (0, 1) is refused |
| Stats.TailsComplement | bench/ci/stats.ts:19-29 | The lower and the upper tail of the distribution sum to one |
| Stats.ChooseIsProb | bench/ci/stats.ts:19-29 | 2^n times a probability is the binomial coefficient |
| Stats.ExactCount | bench/ci/stats.ts:7-34 | Exactly C(n, i) of the below/above patterns have i values below |
| Stats.MissShare | bench/ci/stats.ts:30-55 | Exactly 2 * (C(n, 0) + ... + C(n, k - 1)) of the 2^n patterns miss, which is twice the distribution function |
| Stats.IntervalMisses | bench/ci/stats.ts:35-55 | A point lies outside the interval exactly when its pattern is one of those, whichever way the values that tie with it are said to fall |
| Stats.CoverageIsExact | bench/ci/stats.ts:30-55 | The returned coverage is the exact share of patterns that do not miss, at least the confidence asked for, and any larger rank covers less than that |
| Stats.TooFewExactly | bench/ci/stats.ts:30-55 | There is no interval exactly when 2^-n exceeds the tail |
| Stats.MedianInside | bench/ci/stats.ts:35-55 | The median lies in the interval |
| Report.SortRows | bench/ci/report.ts:277-284 | The rows in order of ratio and name, none lost, and as many unsettled ones |
| Report.PooledScale | bench/rounds.ts:87-97 | Multiplying one row's req/s multiplies the pooled ratios by one factor: the row's, its inverse, or 1 |
| Report.IntervalScales | bench/ci/stats.ts:35-55 | Scaling the values scales the interval's median and ends |
| Report.WidthIgnoresScale | bench/ci/report.ts:211-213 | The relative width of a scaled interval is too wide exactly when the original is |
| Report.VerdictIgnoresScale | bench/ci/report.ts:249-265 | Multiplying one row's req/s by any positive constant changes no row's verdict |
| Report.UnsettledIgnoresScale | bench/ci/report.ts:220-292 | Nor does it change the number of unsettled rows |
| Report.SummarizedIsRow | bench/ci/report.ts:249-276 | A row has an interval for each comparison with at least six pairs of rounds; it is ok exactly when its ratio to the ceiling, if the section has one, and nifra's ratio to it, if it is neither nifra's row nor the ceiling, each have an interval with a positive median and `(hi - lo) * 100 <= max * median`; it has too few rounds exactly when one of them is missing |
| Report.SixForAnInterval | bench/ci/stats.ts:30-55 | At 95% there is an interval exactly for six values or more |
| Report.SummaryIsSound | bench/ci/report.ts:220-292 | Each section is of a workload some run names, with the first ceiling and roles given for it, and has a row for exactly the names with a cell in some run |
| Report.SummaryIsComplete | bench/ci/report.ts:220-240 | Every workload named, with a ceiling or roles, has its section |
| Report.SettledIffTight | bench/ci/report.ts:290-292 | No row is unsettled exactly when each comparison of each row of each section has six pairs of rounds and an interval that narrow |
| Report.MeasureUntilSettled | bench/ci/run.ts:126-138 | The runs are the first ones measured, between the least and the most; before the most it stops exactly when each comparison of each row has six pairs of rounds and a positive median with `(hi - lo) * 100 <= max * median`, and at no earlier number of runs does that hold |
| Report.StoppingIgnoresLeader | bench/ci/run.ts:126-138 | Whatever constant one row's req/s is multiplied by in every run, the loop stops after the same number of runs |
| DocConsts.EvaluateDocConsts | scripts/doc-code-consts.ts:18-103 | The values are the meaning of the declarations, every other declared name has its first reason, and no name is in both tables; each value has the text its definition spells, piece by piece, and each reason is the first thing in the way of the definition |
| DocConsts.JoinedIff | scripts/doc-code-consts.ts:95 | The joined text is the one text with each item at the place the items and separators before it give, a separator behind each but the last, and the length of them all |
| DocConsts.ValueIff | scripts/doc-code-consts.ts:50-95 | An expression has exactly the text of its shape: for `+` the left value and then the right, for a template the head and each part with its literal, for a join the items with the separator, a comma when none is given, and nothing else |
| DocConsts.FailureIff | scripts/doc-code-consts.ts:50-99 | An expression fails with exactly the first reason from left to right, after parts that all have a text |
| DocConsts.Evaluator.ConstValue | scripts/doc-code-consts.ts:35-48 | Under memo and cycle guard a name's value is its unmemoised meaning, and every visited name ends in a table |
| DocConsts.Evaluator.Evaluate | scripts/doc-code-consts.ts:50-95 | An expression's value, or the first reason it has none, is that of its unmemoised meaning |
| DocConsts.MeaningIsFixed | scripts/doc-code-consts.ts:32-96 | The meaning is a fixed point of evaluating every definition |
| DocConsts.MeaningIsLeast | scripts/doc-code-consts.ts:32-96 | It is the least: every environment closed under the definitions extends it |
| DocConsts.StageInMeaning | scripts/doc-code-consts.ts:32-96 | It holds whatever any number of rounds of evaluation reaches |
| DocConsts.ValueIffAcyclic | scripts/doc-code-consts.ts:32-96 | A name has a value exactly when no chain of its dependencies is cyclic, leaves the page or meets an expression that cannot be shown |
| DocConsts.DeclarationOrderIrrelevant | scripts/doc-code-consts.ts:18-32 | The same declarations in another order are the same constants |
| DocConsts.EvalMonotone | scripts/doc-code-consts.ts:50-95 | A value found with fewer constants known stays when more are known |
| DocConsts.VisitedHasNoValue | scripts/doc-code-consts.ts:35-38 | A name met again while it is being visited has no value at all, so answering none is right |
| ImportGraph.InRepoIff | scripts/mutate.ts:550-572 | A resolved path counts exactly when it goes on from the root and has no `/node_modules/` in it |
| ImportGraph.BuildImportGraph | scripts/mutate.ts:550-572 | The graph is exactly the part of the repository that the entries reach, with all its edges |
| ImportGraph.GraphKeepsChains | scripts/mutate.ts:549-572 | Chains in the graph are the chains in the whole repository, with their lengths |
| ImportGraph.Search | scripts/mutate.ts:580-596 | A file gets depth n exactly when its shortest import chain to the target has n steps |
| ImportGraph.DepthIsLeast | scripts/mutate.ts:588-596 | Once all are visited, no chain is shorter than the recorded depth and no chain is missed |
| ImportGraph.SelectTests | scripts/mutate.ts:574-601 | Exactly the tests with a chain to the target, each once, by depth and name |
| ImportGraph.RelatedTests | scripts/mutate.ts:549-601 | Graph and search together answer for the whole repository, cycles included |
| Declarations.DeclarationSearch.DeclarationOf | scripts/gen-llms.ts:476-500 | What is found is at the end of the first trail that meets no key visited before; when nothing is, the keys newly visited declare nothing and lead nowhere else |
| Declarations.FindDeclaration | scripts/gen-llms.ts:475-500 | A declaration is found exactly when one is reachable by the search's steps, on cyclic re-exports too, and it is the one at the end of the first trail: where another trail to a declaration parts from it, it takes the sooner star export |
| Declarations.OneFirstTrail | scripts/gen-llms.ts:494-499 | There is only one first trail, so only one answer |
| Declarations.ExportSearch.ExportedNamesOf | scripts/gen-llms.ts:460-473 | A call gathers the names of exactly the modules it newly visits, which are closed under star exports |
| Declarations.AllExportedNames | scripts/gen-llms.ts:460-473 | At the root the names are the union of those exported by the modules reachable through star exports |
| MutationGate.GenerateMutants | scripts/mutate.ts:172-190 | Every edit that changes something becomes a mutant, in order, numbered among those with its base |
| MutationGate.KeysAreUnique | scripts/mutate.ts:307-310 | Two mutants of a file with one key are the same mutant |
| MutationGate.ShardsPartition | scripts/mutate.ts:1120-1130 | Each mutant is in the shard of its ordinal and in no other |
| MutationGate.MatchEntries | scripts/mutate.ts:312-328 | The mutants matched are those whose key is listed, the unused entries those whose key no mutant has |
| MutationGate.MergeSurvivors | scripts/mutate.ts:395-421 | The merged baseline lists exactly the keys recorded by some list, in key order |
| MutationGate.GateFailures | scripts/mutate.ts:927-949 | The loops push exactly the failures of each report, in order |
| MutationGate.GatePassesIff | scripts/mutate.ts:927-949 | The gate passes exactly when unmutated tests pass, every mutant ran, the non-equivalent mutants listed are the survivors and no entry is unused |
| MutationGate.RunShard | scripts/mutate.ts:1120-1245 | A shard's reports: its share of each file, graded, matched as whole files, stale entries from the first shard only; it has no failure exactly when the unmutated tests pass, each of its mutants that is not listed as equivalent ran and survived exactly when the baseline lists it and, for the first shard, every entry names a mutant |
| MutationGate.RunGate | scripts/mutate.ts:927-949 | Over any number of shards the gate passes exactly when, for every target, the unmutated tests pass, every mutant not listed as equivalent ran, every entry of the baseline and of the equivalents names a mutant, and a mutant not listed as equivalent survived exactly when the baseline lists it |
| MutationGate.ShardsCoverRun | scripts/mutate.ts:1120-1130 | What the shards answer for between them is the whole run |
| MutationGate.RecordedIff | scripts/mutate.ts:395-421 | After all shards a mutant is in the recorded keys exactly when it survived |
| MutationGate.BaselineRoundTrip | scripts/mutate.ts:927-949 | Gating the same results in any number of shards against the merged survivors of any number of shards fails over no survivor, killed entry or stale baseline entry |
| MutationGate.NothingStale | scripts/mutate.ts:312-328 | Every entry so recorded matches a mutant |
| CodeSpan.CodeSpan | scripts/gen-api-reference.ts:141-147 | The loop finds the longest backtick run and fences with one more |
| CodeSpan.SpanIsWhole | scripts/gen-api-reference.ts:139-147 | Parsed by CommonMark section 6.1, the span of any text but the empty one ends where the text does, whatever backtick runs it holds; the empty text gives no span |
| CodeSpan.SpanRoundTrip | scripts/gen-api-reference.ts:139-147 | The text comes back exactly when it is not empty, has no line ending and is not spaced at both ends |
| CodeSpan.CappedSurvives | scripts/gen-api-reference.ts:104-107 | Every capped non-empty signature fits the cap and comes back from its span |
| OneLine.ApplyEdits | scripts/gen-api-reference.ts:112-137 | Making the edits one after another from right to left is making them all at once on the original text |
| OneLine.OneEdit | scripts/gen-api-reference.ts:134-135 | An edit's offsets still hold after all edits to its right |
| Entities.DecodersUnescape | scripts/llms-convert.ts:8-21 | Both decoders give back every text that was escaped by the five named references |
| Entities.PassUnescapes | scripts/mutate.ts:461-471 | One pass over any table with the five names undoes their escaping |
| Entities.PassesFuse | scripts/llms-convert.ts:12-20 | Two passes are one pass over both tables, when the first puts in nothing a reference of the second could hold |
| Entities.EarlyPassesFuse | scripts/llms-convert.ts:12-19 | All passes before the ampersand's are one pass, on every text |
| Entities.DecodesOnceIff | scripts/llms-convert.ts:8-21 | The passes decode every reference once exactly when no reference to the ampersand is spelled in part by another; each one that is shortens the text by four characters more |
| Entities.NamedDecodeOnce | scripts/llms-convert.ts:10-20 | A text without numeric references is decoded once |
| Entities.NumbersDecodeTwice | scripts/llms-convert.ts:10-20 | `&#38;amp;` is decoded twice by one decoder and once by the other |
| WorkQueue.EveryScheduleConserves | scripts/check-packed.ts:94-111 | Under every schedule each item is queued, in one hand or handled, once |
| WorkQueue.EveryScheduleEnds | scripts/typecheck.ts:307-316 | Every schedule of n items and w workers has at most 2n + w moves, some worker can move until all are through, and then every item was handled once |
| WorkQueue.NpmParity | scripts/check-packed.ts:94-111 | The sorted failures are those of one pass over the list |
| WorkQueue.Typecheck | scripts/typecheck.ts:306-321 | Each project has its own result and the failed ones are listed in list order |
| WorkQueue.VerifyPublished | scripts/verify-published.ts:127-160 | The file count and sorted failures are those of one pass; the snapshot is that of a pass in the order of finishing |
| WorkQueue.OneSnapshotIff | scripts/verify-published.ts:133-148 | Every complete schedule leaves the same snapshot exactly when there is one worker or no two packages of one name differ in their paths |
| WorkQueue.HoldBack | scripts/verify-published.ts:133-135 | With two workers or more, some schedule ends any one item last and the others in list order |
| WorkQueue.OneWorkerInOrder | scripts/verify-published.ts:133-135 | One worker ends the items in list order, whatever the schedule |
| FetchPublished.Fetch | scripts/verify-published.ts:80-109 | When time advances and the wait passes, the loop ends at the first answer that is not a 404 or the first 404 after the deadline, and every pause before it began within the wait |
| FetchPublished.AlwaysEndsIff | scripts/verify-published.ts:78-109 | When time advances, the loop ends for all answers if and only if the wait is finite or minus infinity; else it never ends on 404s alone |
| FetchPublished.GivesUpOnlyLate | scripts/verify-published.ts:80-109 | If the first answer that is not a 404 follows only 404s before the deadline, it is the result |
| Cores.SplitCores | bench/ci/host.ts:41-66 | No split exactly when there are fewer than two cores; else the two lists are the allowed CPUs core by core, each once, the servers' half rounded down and all of its cores before the load's |
| Cores.SplitParts | bench/ci/host.ts:35-66 | When the siblings are an equivalence on the allowed CPUs the lists partition them and no two siblings are parted |
| Cores.CoreIsSiblings | bench/ci/host.ts:48-50 | Two CPUs have the same least allowed sibling exactly when they are siblings |
| Cores.SplitIsUnique | bench/ci/host.ts:60-65 | Only one split has these properties |
| Routing.WalkIsBest | packages/core/src/router/router.ts:165-243 | The walk answers with the terminal and the values of the registered pattern that comes before every other one that matches, static before mixed before parameter before wildcard at the first segment that differs, and with nothing only if no pattern matches |
| Routing.Router.MatchNode | packages/core/src/router/router.ts:176-243 | Pushing and popping values on one shared array leaves exactly the values of the walk's hit, and nothing of a branch that dead-ends |
| Routing.MatchIff | packages/core/src/router/router.ts:165-243 | A pattern matches exactly when its segments can each take the path's segment at their own place, a last wildcard all that remain, and its values are what they took, in order |
| Routing.SegmentsIff | packages/core/src/router/router.ts:165-243 | The segments of a path are the only ones without a slash that give it back |
| Routing.ValuesAlign | packages/core/src/router/router.ts:245-254 | A match captures exactly one value for each parameter name of its pattern |
| Routing.ParamsIff | packages/core/src/router/router.ts:245-254 | The parameters are the only record whose keys are the names and in which each name has the value at its own place, the last one if the name is repeated |
| Routing.ResolvesIff | packages/core/src/router/router.ts:284-305 | The answer of a terminal is: its own handler for the method, GET's for HEAD without one, with the parameters by name; or else the registered methods, each once and in order, and then HEAD exactly when GET is served and HEAD is not |
| Routing.LookupInserted | packages/core/src/router/router.ts:344-425 | Registering a pattern finds it, under its terminal, and changes where no other pattern is found |
| Routing.InsertOrdered | packages/core/src/router/router.ts:379-383 | Registration keeps the mixed branches of every node in strict order, whatever the order of registration |
| Routing.StaticIsFirst | packages/core/src/router/router.ts:315-321 | A static pattern that matches comes before every other pattern that does |
| Routing.StaticAnswers | packages/core/src/router/router.ts:438-444 | The lookup of a static path gives the best pattern's terminal, so it may skip the walk |
| Routing.Keep | packages/core/src/router/router.ts:479-508 | The cache of matches stays within its limits of paths and characters, or holds one path alone, and keeps only what it was given |
| Routing.OneAnswer | packages/core/src/router/router.ts:434-477 | The routes alone allow one answer to each request |
| Routing.Router.Find | packages/core/src/router/router.ts:434-477 | Whatever was asked before and whatever the caches hold, the answer is that of the routes alone: the handler of the best pattern that fits, with what its own segments took as the values of its names, or the methods it serves, or not found exactly when no pattern fits |
| Routing.Router.Add | packages/core/src/router/router.ts:344-431 | A route is added at its pattern's own terminal, which keeps its other handlers, or refused for its method, for other names at the same shape or for a method that is taken, with all routes as they were; the caches stay right |

## Left out

- CloneFinder.FindClones: does not put the reported clones and counts in their printed order (`scripts/check-clones.ts:192-205`), which decides nothing else.
- DocConsts.EvaluateDocConsts: does not return `ranges`, the source positions of the evaluated statements.
- MutationGate.GenerateMutants: takes the edits in order as given, without the visit of the syntax tree that finds them.
- MutationGate.RunShard: takes each mutant's verdict, the failing tests and the exit codes as data fixed for the whole run, and grades whole files: the targets narrowed to changed lines and `--max-minutes` are not modelled.
- MutationGate.BaselineRoundTrip: says nothing of failing unmutated tests, mutants that did not run or stale equivalents, which no baseline repairs.
- Entities.DecodeEntities: takes the character of a number as a function, so that surrogates need no meaning; only the error above 0x10FFFF is modelled.
- OneLine.ApplyEdits: takes the edits as given and independent, as comments and the ends of members in one syntax tree are.
- ImportGraph.BuildImportGraph: takes what each specifier resolves to, or that it does not, as a function; the specifiers of a file and the filter on extensions are data.
- WorkQueue.NpmParity: takes the packages of the snapshot, after the filter, and what each one's file lists give as a function.
- WorkQueue.VerifyPublished: takes what one package's turn pushes and records as a function of the package.
- FetchPublished.Fetch: takes the metadata and the tarball of an attempt as its answer, without the requests themselves.
- Routing.Router.Add: takes the compiled pattern with its names, and whether the method is a token that may be registered.
- Routing.Router.MatchNode: models nodes as values and terminals as indices, takes what a mixed segment captures and which mixed segment comes first as functions of its key, and walks the rest of the path where the source walks offsets.
- Routing.Router.Find: keeps the dynamic cache in a field, where the source keeps it in a weak map by router.
- `targetTests`, `classify`, `parseChangedLines`, `onLines`, `importsOf`, `floorMisses`, `parseCpuList`, `releaseNotes` and the tag stripping of `jsxToMarkdown`: single passes or loops with easier properties.
- The shape checks of JSON input, argument parsing, printed reports, Markdown tables and annotations.
- Processes, git, npm, the file system, sockets and clocks; a baseline file is a field of the object that rewrites it.
- Text.Number: gives a finite literal its exact value, so rounding and overflow are not modelled.
- Floating point, hash collisions and the TypeScript compiler's own behaviour.
