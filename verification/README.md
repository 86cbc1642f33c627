# Verification of prmon

prmon watches a process and all its offspring, samples CPU, memory, network, GPU and NUMA figures
from `/proc` and from vendor tools, and writes a time series plus a summary; a companion script
compresses the series afterwards. This project models the parts of it that carry state, branching or
arithmetic, and proves what they do for every input, every run or every interleaving. What the
programs read (stat files, command output, NVML replies, answers of `waitpid`) is an input of the model.

`dafny verify dfyconfig.toml` checks everything.

| files | component | main results |
|---|---|---|
| `Compressor`, `CompressorBounds`, `CompressorScaling`, `CompressorSharpness`, `CompressorStability`, `CompressedFrame` | `prmon_compress_output.py` | the mutate-and-recheck loop is a one-pass filter; its cumulative error bound, which is sharp; independence of units; when the outcome meets the documented rule and compressing twice changes nothing; the filled table rebuilds every metric within that bound, loses nothing of steady metrics and keeps order |
| `OptionSyntax`, `OptionParser`, `OptionGrammar`, `OptionUnparse` | `popl.hpp` | the two-cursor parser implements a grammar: rendering and parsing are inverse, and every token of every command line is accounted for |
| `MonitoredValue`, `Locality`, `CpuMonitor`, `CpuRange`, `Lscpu` | `parameter.cpp`, `cpumon.cpp` | closed forms of a monitored value; NUMA counters over whole runs; CPU lists from `lscpu` |
| `ProcessTree`, `MonitorSelection`, `ExitCode` | `prmonutils.cpp`, `prmon.cpp` | the walk of the process tree, which monitors run, what the exit code is |
| `GpuMonitor`, `GpuNvml`, `GpuSamples` | `nvidiamon.cpp` | per-line and per-poll accumulation; which samples a run of polls reads, counts and loses |
| `LineReader`, `Averages`, `Wallclock` | `utils.cpp`, `prmon.cpp`, `wallmon.cpp` | lines from a bounded buffer, reported averages, the clock |
| `Strings`, `Wrappers` | | cutting at a separator; `Option` and `Result` |

Code that updates fields or buffers in place is modelled by classes and methods with loops, each proved
to compute a specification function; the properties are lemmas about those functions and about runs
of them.

## Where the code differs from what is said of it

Each is kept as the code has it, with an input that shows the difference and, where the code does
meet the statement for some inputs, the exact condition.

- prmon's user guide (the README.md at the top of its repository, lines 254-255) describes the compressed
  series by a test on any three neighbouring measurements. A kept measurement is judged against its
  successor in the *original* series, which may be dropped later, so the outcome need not satisfy that
  description (`CompressorScaling.SecondPassCanDropMore`). It does exactly if no kept measurement whose
  successor was dropped is consistent with the line between its kept neighbours
  (`CompressorStability.MeetsRuleIff`), for instance for every series that bends one way only
  (`CompressorStability.OneWayMeetsRule`); and exactly then a second pass with the same threshold
  changes nothing (`CompressorStability.SecondPassIdleIff`).
- For the same reason a dropped measurement need not be within the threshold of the compressed series,
  nor within any fixed multiple of it (`CompressorScaling.BoundIsSharp`). All are exactly if those are
  that were dropped together with their successor (`CompressorStability.DroppedWithinIff`), for instance
  if looking further ahead never takes a point out of the threshold
  (`CompressorStability.NoFartherDroppedWithin`).
- If only steady metrics are present, the last measurement need not be in the compressed index
  (`CompressedFrame.LastTimeCanBeMissing`; `CompressedFrame.EndsInIndex` says when it is); if no known
  metric is present, nothing can be concatenated and the script fails.
- A lone `-` on the command line is neither an operand nor unknown; it disappears
  (`OptionUnparse.LoneDashVanishes`), and nothing else does (`OptionUnparse.OnlyLoneDashVanishes`).
- `package/src/parameter.cpp:47-48` says an offset may only be set before any iteration. A cycle with an empty
  process list records an uptime before the offset is known, and the clock can then stick for a long
  time (`Wallclock.EarlyCycleSticks`); `Wallclock.OffsetFirstIffNeverEarly` says when the offset comes first,
  and `Wallclock.ClockShowsElapsed` what the clock shows in any run: the elapsed time exactly if no early
  uptime is larger.
  Only the listing by `pstree` can be empty: the walk over the `children` files always lists the mother.
- With `nvidia-smi` every readable line pushes the running totals, so an average counts lines and not
  polls (`GpuMonitor.AverageCountsLines`). The average of a first poll is its total exactly if every
  readable line already showed that total and their sum fits in 64 bits (`GpuMonitor.AverageIsTotalIff`);
  after several polls it is the sum of all running totals over the number of readable lines exactly while
  that sum fits (`GpuMonitor.AverageOverPolls`).
- I/O and network averages are declared per second (`package/src/iomon.h:21-24`), but the value is
  multiplied by the clock ticks in a second and divided by seconds. They are per second exactly if
  that product leaves the value as it is (`Averages.RateIsPerSecondIff`), and the report can show an average
  above the peak (`Averages.RateCanExceedPeak`; `Averages.RateNotAbovePeakIff` says when it does not).
- All NVML devices share one last seen time, which moves with whatever any device delivers. Samples
  are lost if the memory query of their device fails (`GpuSamples.FailedMemoryQueryLosesSamples`), and
  also if their own device only fails to answer once while another one does
  (`GpuSamples.OtherDeviceLosesSamples`); `GpuSamples.CountedIff` says which samples a poll counts.
- A further child of the monitor that fails in the same call of the reaper can override the exit code
  (`ExitCode.OtherChildCanOverride`); `ExitCode.OwnCodeIff` says exactly when the process's own is returned.

## Model

| member | source | states |
|---|---|---|
| Compressor.DropAndRecheck | package/scripts/prmon_compress_output.py:50-62 | the loop that drops and re-checks ends with exactly the positions the one-pass filter keeps, after n-2 steps |
| Compressor.ReduceChangingMetric | package/scripts/prmon_compress_output.py:44-62 | the outcome is that of the loop for the one threshold that is the largest distance between two values times the precision |
| Compressor.ThresholdIsUnique | package/scripts/prmon_compress_output.py:48-49 | the threshold is the dynamic range, stated from the values alone, times the precision, and there is one |
| Compressor.ThresholdBoundsDistances | package/scripts/prmon_compress_output.py:48-49 | no two values are farther apart, times the precision, than the threshold, and some two are just so far |
| Compressor.LineThroughBoth | package/scripts/prmon_compress_output.py:38-40 | the line passes through both outer points and has one slope |
| Compressor.KeptIsTheRule | package/scripts/prmon_compress_output.py:44-62 | what is kept is the one and only marking with both ends marked and an inner position marked if and only if the test against the last marked one and its original successor fails |
| Compressor.AnchorIsLastKept | package/scripts/prmon_compress_output.py:50-61 | the point a candidate is judged against is kept, and nothing between them is |
| Compressor.RangeBounds | package/scripts/prmon_compress_output.py:48-49 | the dynamic range spans all values and is attained |
| Compressor.ConstantSeriesKeptWhole | package/scripts/prmon_compress_output.py:41-49 | a constant series has threshold 0 and, the test being strict, is kept whole |
| Compressor.KeptWholeIffSettled | package/scripts/prmon_compress_output.py:44-62 | a pass keeps everything if and only if no three neighbours pass the drop test |
| CompressorBounds.Telescope | package/scripts/prmon_compress_output.py:38-41 | slopes that each move the line by less than eps at their own point move it together by less than the weighted sum at the first |
| CompressorBounds.DroppedRun | package/scripts/prmon_compress_output.py:50-61 | all positions between two kept neighbours were dropped against the left one |
| CompressorBounds.ReconstructionBound | package/scripts/prmon_compress_output.py:38-62 | a dropped point j between kept a and c is rebuilt with an error below eps times the sum of (t_j-t_a)/(t_i-t_a) for i from j to c-1, hence below (c-j) eps |
| CompressorScaling.UnitsDoNotMatter | package/scripts/prmon_compress_output.py:38-62 | rescaling and shifting time (positively) or values (by any non-zero factor) keeps the same positions |
| CompressorScaling.BoundIsSharp | package/scripts/prmon_compress_output.py:38-62 | for any number of dropped points and any factor below 1 there is a series and a precision whose error exceeds that factor times (c-j) eps |
| CompressorSharpness.WeightedBoundIsSharp | package/scripts/prmon_compress_output.py:38-62 | for any three or more times and any factor below 1 there are values and a precision for which only the ends are kept and the first dropped point exceeds that factor of the weighted bound |
| CompressorScaling.SecondPassCanDropMore | package/scripts/prmon_compress_output.py:44-62 | an input for which the documented rule fails: a four-point series whose compressed form still has three neighbours that pass the test (`CompressorStability.MeetsRuleIff` has the exact condition) |
| CompressorStability.OutputNeighbours | package/scripts/prmon_compress_output.py:44-62 | next to each other in the output are, in the original, a kept position, the last one kept before it and the first one kept after it |
| CompressorStability.MeetsRuleIff | package/scripts/prmon_compress_output.py:44-62 | the output meets the documented three-neighbour rule if and only if no kept inner position whose original successor was dropped is within the threshold of the line between its kept neighbours |
| CompressorStability.SecondPassIdleIff | package/scripts/prmon_compress_output.py:44-62 | compressing the output again at any threshold, the same one included, changes nothing if and only if no kept inner position of the original is within it of the line between its kept neighbours |
| CompressorStability.RuleMakesIdempotent | package/scripts/prmon_compress_output.py:44-62 | the threshold computed anew from the output is never larger, so a metric's reduced series that meets the rule is left alone by the same precision |
| CompressorStability.NoNearerMeetsRule | package/scripts/prmon_compress_output.py:38-62 | on the input alone: if looking further ahead never brings a point nearer to the line, the output meets the rule |
| CompressorStability.OneWayMeetsRule | package/scripts/prmon_compress_output.py:38-62 | a series without a point above, or without one below, a line between two others is compressed to one that meets the rule |
| CompressorStability.DroppedWithinIff | package/scripts/prmon_compress_output.py:38-62 | every dropped point is rebuilt within the threshold if and only if every one is whose successor was dropped too |
| CompressorStability.NoFartherDroppedWithin | package/scripts/prmon_compress_output.py:38-62 | on the input alone: if looking further ahead never takes a point out of the threshold, every dropped point is rebuilt within it |
| CompressedFrame.ValidNeighbours | package/scripts/prmon_compress_output.py:89-93 | wherever other columns put rows, the nearest values in the table are those of the kept neighbours |
| CompressedFrame.FilledIsRebuilt | package/scripts/prmon_compress_output.py:91-93 | interpolating a changing metric puts every row on the curve through its own kept points |
| CompressedFrame.RoundHalvesToEven | package/scripts/prmon_compress_output.py:97 | halves are rounded to the even neighbour |
| CompressedFrame.EntryBound | package/scripts/prmon_compress_output.py:91-97 | a rounded entry is within the reconstruction bound plus 1/2, or 1/2 if the measurement was kept, and a kept integer comes back unchanged |
| CompressedFrame.RebuiltRises | package/scripts/prmon_compress_output.py:91-97 | a metric that never falls never falls after interpolation and rounding |
| CompressedFrame.SteadyIsLossless | package/scripts/prmon_compress_output.py:65-68 | forward filling the change points over any index that has them gives the original value at every row |
| CompressedFrame.ChangePointsAreMinimal | package/scripts/prmon_compress_output.py:65-68 | every set of positions that fills forward to the original contains the change points |
| CompressedFrame.Union | package/scripts/prmon_compress_output.py:89 | the index rises and has exactly the positions some metric kept |
| CompressedFrame.IndexIff | package/scripts/prmon_compress_output.py:75-89 | a position has a row if and only if some metric keeps it, with the threshold of that metric's own range |
| CompressedFrame.KnownIff | package/scripts/prmon_compress_output.py:16-35 | the columns of the table are the columns of the input with one of the names in either list |
| CompressedFrame.MetricsOnce | package/scripts/prmon_compress_output.py:16-35 | no metric is in both lists or twice in one |
| CompressedFrame.ShortFrameUnchanged | package/scripts/prmon_compress_output.py:75-100 | at most two rows come back as they are, all columns included |
| CompressedFrame.FailsIff | package/scripts/prmon_compress_output.py:75-89 | there is nothing to concatenate if and only if there are more than two rows and no known metric |
| CompressedFrame.EndsInIndex | package/scripts/prmon_compress_output.py:75-89 | the first time is in the index; the last one if and only if a changing metric is present or a steady one changes there |
| CompressedFrame.LastTimeCanBeMissing | package/scripts/prmon_compress_output.py:75-89 | an input for which the last time is missing: three measurements of a constant `nprocs` keep only the first |
| CompressedFrame.FilledTable | package/scripts/prmon_compress_output.py:71-99 | the whole table: one column per known metric, no missing value, changing metrics on their curve, steady ones original, rounded |
| CompressedFrame.SkippedTable | package/scripts/prmon_compress_output.py:89-98 | without filling, a row shows a metric's measurement if and only if the metric keeps that position itself, and every position it keeps has a row |
| CompressedFrame.TableErrorBound | package/scripts/prmon_compress_output.py:71-99 | every entry of a changing metric is within (c-j) eps + 1/2 of the measurement if that was dropped, within 1/2 if it was kept, and exact if it was kept and is an integer |
| CompressedFrame.TableKeepsOrder | package/scripts/prmon_compress_output.py:71-99 | a metric whose measurements never fall never falls in the table |
| OptionParser.Opt.Parse | package/include/popl.hpp:711-717 | an option records what its class says, and only a `Value` option rejects an argument, the empty one |
| OptionParser.Parser.Add | package/include/popl.hpp:858-873 | an option is added if and only if neither of its names is taken |
| OptionParser.Parser.FindLongOption | package/include/popl.hpp:900-906 | finds the first option of that name, and none if it is inactive |
| OptionParser.Parser.ParseLong | package/include/popl.hpp:1008-1041 | the long branch takes at most one following token and does what the token means |
| OptionParser.Parser.ParseBundle | package/include/popl.hpp:1042-1081 | the letter loop, cursor by cursor, does what the bundle means and takes at most one following token |
| OptionParser.Parser.Parse | package/include/popl.hpp:996-1096 | the whole state after parsing, or the error, is the one the token semantics gives |
| OptionSyntax.ParseMeans | package/include/popl.hpp:1088-1095 | if no argument is missing, parsing succeeds if and only if every required option has a value, and otherwise names the first that has none; the state is that of the tokens |
| OptionSyntax.NamesDistinctIff | package/include/popl.hpp:858-915 | `add` accepts exactly the declarations under which every named option is found by its own name |
| OptionSyntax.NotFound | package/include/popl.hpp:900-915 | a name is not found if and only if it is not declared |
| OptionSyntax.OperandIff | package/include/popl.hpp:1001-1085 | a token without a leading `-` is an operand and nothing else, any other adds no operand |
| OptionParser.Parser.Reset | package/include/popl.hpp:1099-1105 | nothing parsed is left, and the declared options stay |
| OptionGrammar.DeclaredAreAddressable | package/include/popl.hpp:858-915 | with distinct names, an option can be set by name if and only if it is active and the name is non-empty without `=`, and by letter if and only if it is active |
| OptionGrammar.ItemStep | package/include/popl.hpp:998-1086 | each well-formed item of the grammar is taken as one step that means what it says |
| OptionGrammar.ItemsParse | package/include/popl.hpp:998-1086 | a rendered list of items parses to its meaning, whatever follows |
| OptionGrammar.MeaningByOption | package/include/popl.hpp:998-1086 | each option gets exactly its own settings, in order, and operands and unknown tokens keep their order |
| OptionGrammar.RoundTrip | package/include/popl.hpp:996-1086 | rendered settings, `--` and any child tokens parse to exactly those settings and those operands, even when an argument or a child token looks like an option |
| OptionGrammar.ParseRoundTrip | package/include/popl.hpp:996-1096 | the round trip through the whole of `parse`, required options included |
| OptionGrammar.SettingsAreClean | package/include/popl.hpp:996-1086 | settings of declared options leave no operand and nothing unknown |
| OptionUnparse.Unparse | package/include/popl.hpp:998-1086 | any token that does not lack an argument, with what follows it, starts with a well-formed item |
| OptionUnparse.StarvedFails | package/include/popl.hpp:711-717 | a `Value` option that finds no argument stops the parse, naming the option |
| OptionUnparse.EveryTokenAccounted | package/include/popl.hpp:998-1086 | every command line is items and an ending, so each token is an operand, unknown, an option, its argument, the terminator or behind it; it parses if and only if no option is starved, and then to what the items account for |
| OptionUnparse.EveryTokenParsed | package/include/popl.hpp:996-1096 | token accounting through the whole of `parse`, required options included |
| OptionUnparse.LoneDashVanishes | package/include/popl.hpp:1042-1081 | a lone `-` is parsed without any effect |
| OptionUnparse.OnlyLoneDashVanishes | package/include/popl.hpp:998-1086 | an item leaves no setting, no operand and no unknown token if and only if it is a lone `-` |
| MonitoredValue.Value.SetValue | package/src/parameter.cpp:9-44 | the whole new state, and 1 exactly for a rejected value |
| MonitoredValue.Value.SetOffset | package/src/parameter.cpp:46-56 | only the offset changes, always |
| MonitoredValue.Value.constructor | package/src/parameter.h:83-95 | starts at zero with the given offset |
| MonitoredValue.AcceptedIff | package/src/parameter.cpp:12-32 | in any run a non-monotonic value takes exactly what is not below the offset, a monotonic one what also is not below any earlier measurement |
| MonitoredValue.AboveAppend | package/src/parameter.cpp:12-20 | the accepted measurements of runs one after the other are those of each, in order |
| MonitoredValue.MonotonicClosedForm | package/src/parameter.cpp:9-44 | after any calls a monotonic value and its peak are the largest input not below the offset, less the offset; sum and count stay 0 |
| MonitoredValue.FreeClosedForm | package/src/parameter.cpp:9-44 | any other value holds the last, the largest, the sum and the count of the inputs not below the offset, sum and count modulo 2^64 |
| MonitoredValue.AverageIsMean | package/src/parameter.cpp:65-70 | while the sum fits, the average is the mean, within any bounds of the inputs and not above the peak |
| MonitoredValue.AverageAtMostPeak | package/src/parameter.cpp:36-41 | the average is never above the peak, whether or not the sum wraps around |
| MonitoredValue.AverageExactIffNoOverflow | package/src/parameter.cpp:36-41 | the average is the mean if and only if the sum fits in 64 bits |
| Locality.TrackingCounts | package/src/cpumon.cpp:66-72 | over any observations the nodes seen are exactly those observed, the last nodes those last observed, and the migrations the changes summed over threads |
| Locality.MovesGrow | package/src/cpumon.cpp:68-71 | an observation adds one move if and only if its own thread was last seen elsewhere |
| Locality.NodesNeedMoves | package/src/cpumon.cpp:67-72 | there are never more nodes than migrations and threads together |
| Locality.ScanFindsMost | package/src/cpumon.cpp:84-92 | the scan ends with the largest page count, at the first node visited that has it, or with none if all are zero |
| Locality.DominantAnyOrder | package/src/cpumon.cpp:84-92 | the dominant node is independent of the map's iteration order if and only if all counts are zero or the largest is unique |
| Locality.DominanceCounts | package/src/cpumon.cpp:93-96 | the last dominant node is the latest, and the counter counts changes away from a node |
| Locality.DeparturesAreChanges | package/src/cpumon.cpp:93-96 | these are all adjacent changes if and only if no node ever follows a cycle that had none |
| CpuMonitor.Monitor.UpdateStats | package/src/cpumon.cpp:29-100 | the whole state after a cycle, metrics included |
| CpuMonitor.Monitor.SumTicks | package/src/cpumon.cpp:31-50 | the tick totals of the processes that could be read, in 64-bit arithmetic |
| CpuMonitor.TicksRise | package/src/cpumon.cpp:44-48 | raising a process's own and its children's user time raises the user ticks by exactly that and not the system ticks, and the other way round |
| CpuMonitor.UnreadableAddsNothing | package/src/cpumon.cpp:43-49 | a process that cannot be read adds nothing |
| CpuMonitor.SecondsFit | package/src/cpumon.cpp:51-52 | a time is as many whole seconds as fit in the ticks |
| CpuMonitor.OnePlaced | package/src/cpumon.cpp:61-66 | a thread is seen on the node of its CPU if that is known and in the table, and otherwise not |
| CpuMonitor.PlacedAllAppend | package/src/cpumon.cpp:58-72 | processes and their threads are seen one after the other |
| CpuMonitor.Monitor.TrackDominant | package/src/cpumon.cpp:83-97 | the memory-node state after the scan, for any visiting order |
| CpuMonitor.NodePagesAreTotals | package/src/cpumon.cpp:167-187 | a node is listed if and only if some token names it, with the sum of its pages modulo 2^64 |
| CpuMonitor.TimesAreRunningMaxima | package/src/cpumon.cpp:51-52 | utime and stime report the largest total of any cycle so far |
| CpuMonitor.NumaMetricsReported | package/src/cpumon.cpp:74-99 | after any run the four NUMA metrics show the totals of the whole history; pushes to the node counts are never rejected, nor those to the migration counts below 2^64 |
| CpuMonitor.TotalsGrow | package/src/cpumon.cpp:54-99 | none of the four totals ever falls |
| CpuMonitor.OrdersDoNotMatter | package/src/cpumon.cpp:79-99 | if in every cycle a single node has the most pages, or none has any, the whole state after a run is the same for all orders of visiting the page maps |
| CpuMonitor.OrderFreeIff | package/src/cpumon.cpp:79-99 | for runs over the same samples no order matters to the state after any cycle if and only if in every cycle a single node has the most pages, or none has any |
| CpuMonitor.ReportedNodesNeedMoves | package/src/cpumon.cpp:58-75 | below 2^64 migrations the reported node count is at most the reported migrations and the threads seen |
| CpuMonitor.MemoryMovesAreChanges | package/src/cpumon.cpp:79-99 | below 2^64 the reported memory migrations are all adjacent changes of the dominant node if and only if none dominates right after a cycle where none did; so they are if every cycle that lists pages has a node with some |
| CpuRange.StoiOfDecimal | package/src/cpumon.cpp:110-113 | reading a printed number gives the number if and only if it fits in `int`, and fails otherwise |
| CpuRange.StoiReads | package/src/cpumon.cpp:110-113 | for any text: blanks, a sign or none, digits and anything else give the value of the digits if it fits in `int`, and nothing without a digit |
| CpuRange.DigitsAppend | package/src/cpumon.cpp:110-113 | digits are read in base ten, most significant first |
| CpuRange.CpuTable.ExpandCpuRange | package/src/cpumon.cpp:104-118 | the table after the tokens cut at commas, or after those before the first that throws or overflows |
| CpuRange.PrintedRangeExpands | package/src/cpumon.cpp:104-118 | a printed list of CPUs and ranges moves exactly the CPUs it denotes to the node and no other; it fails if and only if a number does not fit or a range ends at the largest `int`, and has then moved those before |
| CpuRange.LineOrderDoesNotMatter | package/src/cpumon.cpp:254-285 | for nodes that share no CPU the final table does not depend on the order of their lines |
| Lscpu.ParseLscpuOutput | package/src/cpumon.cpp:233-288 | the table after all lines, or after those before the first that throws |
| Lscpu.KeyValueIs | package/src/cpumon.cpp:258-267 | a line is cut at its first colon, and skipped without one or with nothing on a side of it |
| Lscpu.TrimBoth | package/src/cpumon.cpp:266-267 | trimming takes off exactly the blanks on both sides |
| Lscpu.IsNumberIff | package/src/cpumon.cpp:244-248 | a text is a number if and only if it is not empty and all its characters are digits |
| Lscpu.ReadNodeLine | package/src/cpumon.cpp:259-284 | a printed node line, padded with any blanks, moves exactly its CPUs, and none if its list is empty |
| Lscpu.OutputRead | package/src/cpumon.cpp:254-288 | printed node lines among any other texts can be read if and only if each of those texts can, and then each node line assigns exactly what it denotes |
| Lscpu.OthersIdle | package/src/cpumon.cpp:254-288 | if the other texts move no CPU, the table is that of the node lines alone |
| Lscpu.NodeLineEffect | package/src/cpumon.cpp:259-284 | a printed node line moves exactly the CPUs it denotes, to its node |
| Lscpu.AnyLinesRead | package/src/cpumon.cpp:254-288 | for any lines at all: reading succeeds if and only if each line does, and applies the effects of those up to the first that fails |
| Lscpu.OutputOrderDoesNotMatter | package/src/cpumon.cpp:254-288 | any two outputs that can be read and send the same CPUs to the same nodes, none to two, fill the same table, whatever the order, form and number of their lines |
| ProcessTree.OffspringPids | package/src/prmonutils.cpp:73-98 | if some generation is empty the queue ends, and the list is the generations one after the other |
| ProcessTree.WalkEndsIff | package/src/prmonutils.cpp:84-96 | the queue is empty after some number of turns if and only if some generation is empty |
| ProcessTree.WalkEndsIffPathsBounded | package/src/prmonutils.cpp:84-96 | the queue is empty after some number of turns if and only if the chains of children from the mother are bounded |
| ProcessTree.EndsIffPathsBounded | package/src/prmonutils.cpp:84-96 | a generation is empty if and only if no chain of children from the mother is that long |
| ProcessTree.TreeWalkEnds | package/src/prmonutils.cpp:84-96 | if the mother and the processes below her form a tree, the walk ends although nothing records visits, within as many generations as processes |
| ProcessTree.TreeWalk | package/src/prmonutils.cpp:73-98 | on such a tree, whatever other processes list: the mother first, each reachable process exactly once, depths never decreasing, parents before children |
| ProcessTree.ListedReachable | package/src/prmonutils.cpp:84-96 | a walk that ends lists exactly the processes to which a chain of `children` files leads from the mother |
| ProcessTree.ChildrenInOrder | package/src/prmonutils.cpp:89-95 | the children of a listed process are listed one after the other, in the order of its file |
| ProcessTree.ListedOnceIff | package/src/prmonutils.cpp:73-98 | a walk that ends lists nobody twice if and only if the mother and the processes below her form a tree |
| LineReader.CollectLines | package/src/utils.cpp:66-83 | for any buffer capacity the lines are those of the whole stream if and only if it has no NUL |
| LineReader.CutAtNul | package/src/utils.cpp:72-79 | of a chunk, what stands before its first NUL is used |
| LineReader.ChunkProgress | package/src/utils.cpp:72-79 | each chunk keeps: lines so far, partial line and rest make up the stream |
| LineReader.RejoinIffTerminated | package/src/utils.cpp:66-83 | rejoining the lines restores the stream if and only if it is empty or ends in a newline |
| MonitorSelection.Selection.DisableMonitorsFromEnv | package/src/prmonutils.cpp:153-168 | the scan appends exactly the valid names among the comma-separated pieces, in order |
| MonitorSelection.DisabledNames | package/src/prmonutils.cpp:136-177 | a name is disabled if and only if it is registered, asked for and not the wall clock |
| MonitorSelection.Selection.Select | package/src/prmon.cpp:51-76 | the monitors created are the registered, usable ones that are not disabled |
| MonitorSelection.Selection.Choose | package/src/prmon.cpp:343-354 | for every combination of options and environment the wall clock runs, with exactly the usable monitors nobody asked to disable |
| ExitCode.ReapChildren | package/src/prmonutils.cpp:102-133 | returns the code of the last failing child among those reaped in this call, or 0 |
| ExitCode.CollectedAre | package/src/prmonutils.cpp:106-108 | the children of a call are the answers before the first that reports none |
| ExitCode.InvHolds | package/src/prmon.cpp:143-224 | in every reachable state of monitor and kernel the return code is that of the latest reaping, and the mother is gone only after being reaped in it |
| ExitCode.ExitIsSafe | package/src/prmon.cpp:143-244 | the loop is left only after SIGUSR1 or once the wrapped process was reaped, with the last failure of that call |
| ExitCode.OwnCodeIff | package/src/prmon.cpp:143-244 | in every run the process's own exit code (0 after a signal) is returned if and only if, when it failed, no child reaped after it in that call failed with another code last, and otherwise no child of that call failed |
| ExitCode.SuccessHidesNothing | package/src/prmon.cpp:143-244 | in particular it is returned if every other child of that call succeeded |
| ExitCode.OnlyChildIsReported | package/src/prmon.cpp:223-244 | if that call reaped nobody else, the result is the process's own exit code, or 0 after a signal |
| ExitCode.SingleChildExitCode | package/src/prmon.cpp:143-244 | without further children and without SIGUSR1 this holds in every interleaving |
| ExitCode.OtherChildCanOverride | package/src/prmonutils.cpp:106-131 | an input for which the own code is not returned: a run in which a second child's code is (`ExitCode.OwnCodeIff` has the exact condition) |
| ExitCode.MonitorCanMove | package/src/prmon.cpp:143-224 | the monitor is never stuck before the loop ends |
| ExitCode.EveryStepIsProgress | package/src/prmon.cpp:143-224 | once the process has ended every monitor step brings the end of the loop nearer |
| ExitCode.LoopIsLeft | package/src/prmon.cpp:143-224 | without further children, once the process has ended at most four monitor steps more than there are children remain, and when they are taken the loop is left |
| ExitCode.SignalEndsLoop | package/src/prmon.cpp:143 | after SIGUSR1 the next test leaves the loop, and at most the one sample that was due is still taken |
| GpuMonitor.SmiMonitor.UpdateStats | package/src/nvidiamon.cpp:263-351 | each metric takes its running total after each readable line |
| GpuMonitor.LineTotals | package/src/nvidiamon.cpp:321-325 | a line adds its SM, memory and frame buffer fields, each to its own total, as often as its process is listed |
| GpuMonitor.TotalsAdd | package/src/nvidiamon.cpp:301-325 | totals of lines add up |
| GpuMonitor.FrameBufferExact | package/src/nvidiamon.cpp:325 | the 32-bit change from MB to kB is exact if and only if the amount is below 2^22 MB |
| GpuMonitor.PollShowsTotal | package/src/nvidiamon.cpp:294-336 | after a poll with a readable line the value is the full total and the peak the larger of the old peak and it; without one nothing changes; the count grows by the number of lines and the sum by all running totals |
| GpuMonitor.AverageIsTotalIff | package/src/nvidiamon.cpp:301-336 | the average of a first poll is at most its total, and equal to it if and only if the running total was that after every readable line and the sum of all of them fits in 64 bits |
| GpuMonitor.AverageOverPolls | package/src/nvidiamon.cpp:301-336 | after any polls the average is the sum of all running totals over the number of readable lines if and only if that sum fits in 64 bits |
| GpuMonitor.AverageCountsLines | package/src/nvidiamon.cpp:301-336 | an input with total 30 and average 20 |
| GpuMonitor.ActiveGpusAre | package/src/nvidiamon.cpp:299-329 | a GPU counts, once, if and only if a readable line of a monitored process names it |
| GpuMonitor.CountsOnce | package/src/nvidiamon.cpp:321-322 | with distinct pids each line counts at most once |
| GpuNvml.NvmlMonitor.QueryDeviceSamples | package/src/nvidiamon.cpp:142-190 | the device is asked for samples after the last seen time; it is usable if and only if neither query fails; the mark follows the samples it delivers |
| GpuNvml.NvmlMonitor.AccumulateProcessStats | package/src/nvidiamon.cpp:194-217 | adds the first entry of each process, and reports whether any process matched |
| GpuNvml.NvmlMonitor.PollDevices | package/src/nvidiamon.cpp:229-251 | every device is asked for what is newer than the same time; the totals over the usable ones, and the newest time any delivered |
| GpuNvml.NvmlMonitor.UpdateStats | package/src/nvidiamon.cpp:219-261 | the new last seen time, and one push of each total over the usable devices |
| GpuNvml.FirstMatchesAreAll | package/src/nvidiamon.cpp:199-215 | with nobody twice on either side, first matches lose nothing: the total runs over all samples of monitored processes |
| GpuNvml.MarkIsHighest | package/src/nvidiamon.cpp:164-168 | the mark never goes back, covers every sample got, and is one of their times unless nothing newer came |
| GpuSamples.MarkIsLatestOffered | package/src/nvidiamon.cpp:229-253 | after any run the last seen time is the latest that any answering device ever held, or 0 |
| GpuSamples.ReadIff | package/src/nvidiamon.cpp:145-162 | a poll reads a sample if and only if its device answers and holds it, and it is later than everything any device offered before |
| GpuSamples.NoSampleReadTwice | package/src/nvidiamon.cpp:145-168 | in any run, what a poll reads is later than all that was read before from any device, so no sample is read twice |
| GpuSamples.CountedIff | package/src/nvidiamon.cpp:142-217 | a poll counts a sample if and only if its process is monitored, the memory query succeeds, it is later than everything offered before, and no sample before it on its device that is later too belongs to its process |
| GpuSamples.TotalIsCounted | package/src/nvidiamon.cpp:199-207 | the total of a device is the sum over exactly the counted entries |
| GpuSamples.PollPushesCounted | package/src/nvidiamon.cpp:219-260 | what a poll pushes for a percentage metric, before the cut to 64 bits, is the sum over exactly the counted samples of all devices |
| GpuSamples.PollPushesMemoryAndGpus | package/src/nvidiamon.cpp:219-260 | the memory a poll pushes is the whole kB of the first entry of each monitored process on the devices for which neither query fails, and the GPU count the number of those with a counted sample or memory of a monitored process |
| GpuSamples.LostForGood | package/src/nvidiamon.cpp:229-253 | once any device offered something as late, no later poll reads or counts a sample |
| GpuSamples.FailedMemoryQueryLosesSamples | package/src/nvidiamon.cpp:164-187 | samples of a device whose memory query fails are counted neither in that poll nor in any later one |
| GpuSamples.OtherDeviceLosesSamples | package/src/nvidiamon.cpp:157-168 | samples of a device that fails to answer once are never counted if another device offered something as late meanwhile, although no memory query fails |
| Averages.GreatestReportable | package/src/prmon.cpp:181-196 | the reported average is the greatest reportable value not above the average |
| Averages.CutIsMonotoneAndIdempotent | package/src/prmon.cpp:181-196 | cutting keeps the order of averages, and cutting twice is cutting once |
| Averages.CutLosesLittle | package/src/prmon.cpp:187-195 | less than 1/1000 is lost up to an integer part of 1000, less than 1 above |
| Averages.AverageNotAbovePeak | package/src/prmon.cpp:167-196 | no non-monotonic metric reports an average above its peak, even if its sum wraps around |
| Averages.CutAtMost | package/src/prmon.cpp:181-196 | a cut average is at most an integer if and only if the average is below the next reportable value |
| Averages.RateNotAbovePeakIff | package/src/iomon.cpp:86-95 | over any run a monotonic metric's cut rate is at most its peak if and only if the 64-bit product of value and ticks, over the elapsed time, does not reach the next reportable value; so it is if the value is 0 or as many seconds went by as there are ticks in one |
| Averages.RateIsPerSecondIff | package/src/netmon.cpp:149-158 | the rate is the value per second if and only if the product equals the value, that is, without overflow, for value 0 or one tick a second |
| Averages.RateCanExceedPeak | package/src/iomon.cpp:86-95 | an input with peak 1000 and reported average 10000 |
| Wallclock.Wallmon.UpdateStats | package/src/wallmon.cpp:57-80 | the whole state after a cycle, for every failure to read |
| Wallclock.Wallmon.GetWallclockT | package/src/wallmon.cpp:82-87 | the time shown, but 1 for 0 |
| Wallclock.OffsetIsSetOnce | package/src/wallmon.cpp:59-69 | once set, the offset stays for the whole run |
| Wallclock.OffsetFirstIffNeverEarly | package/src/wallmon.cpp:59-79 | the offset is set before any value if and only if no cycle records an uptime with an empty process list while the start is unknown |
| Wallclock.EarlyCycleSticks | package/src/wallmon.cpp:59-79 | a run in which such a cycle freezes the clock |
| Wallclock.ClockShowsElapsed | package/src/wallmon.cpp:57-80 | in every run whose start time was read, the clock shows the largest uptime recorded since, less that start time in whole seconds, or the largest early uptime if that is larger; it shows the elapsed time if and only if it is not, as in a run without an early cycle |
| Wallclock.KnownIffStarts | package/src/wallmon.cpp:59-69 | a start time is known if and only if some update is the first to have processes and a readable start |
| Wallclock.OffsetIsStart | package/src/wallmon.cpp:59-68 | after the first update with processes and a readable start, and for the rest of the run, the offset is that start time in whole seconds |
| Wallclock.ClockShowsNothing | package/src/wallmon.cpp:57-80 | until a start time is read the clock shows the largest early uptime with offset 0, which is 0 without an early cycle |
| Strings.SplitJoin | package/src/prmonutils.cpp:157-167 | cutting what was joined restores pieces without separators |
| Strings.JoinSplit | package/src/prmonutils.cpp:157-167 | joining the pieces restores the string, and no piece has a separator |

## Left out

- Reading `/proc`, `/sys` and pipes, `fork`, `execvp`, `dlopen`, the NVML library and running `nvidia-smi`: what they deliver is an input.
- JSON building, logging, the registry, units, hardware information, and the help and man page printers: they pass values on.
- The `io`, `mem`, `net` and `count` monitors: how they read and sum their fields is not modelled; the sums go into monitored values. The rates that I/O and network report are in `Averages`.
- Floating point: compression and averages are over the reals, and the uptime in `/proc/uptime` is taken as whole seconds.
- pandas: the union index in time order, interpolation by index, forward fill and rounding halves to even are taken as documented; times rise strictly, since a repeated time would divide by zero. `Int64` conversion is not modelled, nor is the `wtime` column that `main` adds afterwards.
- Compressing a filled table again as a whole: `CompressorStability` is about the reduced series of one metric.
- Numeric `Value<T>` arguments and ini files in popl: arguments are strings. References to assign to and default lookups only copy a value.
- OptionParser.Parser.Add: returns false where the original throws.
- ProcessTree.OffspringPids: takes a snapshot of the `children` files; processes that start or end during the walk are not modelled, and without an empty generation the walk does not end, so the method asks for one. `pstree_pids`, for kernels without the files, is not modelled.
- CpuRange.CpuTable.ExpandCpuRange: a range that ends at 2147483647 makes the original's counter overflow, which has no defined meaning; the model stops there and reports no success.
- Lscpu.ParseLscpuOutput: keeps the table only, not the JSON; a key or value is trimmed as in a line without line breaks.
- The regular expression that finds `N<node>=<pages>` in `numa_maps`, and numbers too large for it: tokens are taken as read. Negative tick counts and the overflow of a signed sum of two are left out too.
- MonitorSelection.Selection.DisableMonitorsFromEnv: positions are unbounded, where the original's cursor is a 32-bit unsigned number.
- ExitCode.SingleChildExitCode: process numbers are not used again while the loop runs, and a stopped child is not reported, as no such report is asked for.
- Sampling intervals, the exception that skips the rest of a cycle, and the output files of the monitoring loop.
- A field of `nvidia-smi` that is neither `-` nor a number: the original throws out of the poll (package/src/utils.cpp:114-117), and lines are taken as read.
- The `valid` flag of the GPU monitor and the size of its sample buffer: a reply that does not fit is a failed one.
- Plotting, burner programs, tests and the build.
