# LiveSplit comparison generator — a Dafny model

`comp.py` reads a LiveSplit splits file and produces a "balanced" comparison.
For every segment it builds a weighted distribution of past segment times,
with recent attempts weighing more. A percentile curve over each
distribution then predicts segment times. The script can look for the
percentile whose predicted total meets a goal time. It can also estimate
the odds of beating the goal by simulating runs.

This project models the computational core of the script and proves
properties of it.

- `duration.dfy` (module `Durations`) is the time-string parser
  `duration`. It is a character loop over a number buffer, a mode (hours,
  then minutes) and a running total. The loop is proved equal to a reference
  definition. That definition splits the string's kept characters at ':'
  and values the fields: the first closed field is hours, later fields are
  minutes, the trailing field is seconds. Python's `Decimal` failing on a
  malformed buffer is the error `MalformedNumber`.
- `distribution.dfy` (module `Distributions`) is the loop that builds one
  distribution per segment:
  - It walks each history newest first, with geometric (`-w`, default 0.75)
    or linear (`--linear`) recency weights.
  - An attempt without a time is a skip. Skips are passed on to the next
    segment only.
  - It then sorts the samples by duration (stably) and divides the weights
    by their sum.
- `percentile.dfy` (module `Percentiles`) is `time_at_percentile` and
  `finish_at_percentile`. Both are pure recursive functions over the
  distribution.
- `goal.dfy` (module `GoalSearch`) is the bisection `find_goal_splits.search`.
  Its recursion depth is an explicit fuel.
- `simulation.dfy` (module `Simulation`) is `simulate_runs`, as a class
  `Simulator`:
  - The class holds the attempt count, the success count, the convergence
    streak and the reference rate.
  - Its cache of computed times is an `array2`, with one row per segment and
    one entry per percentile bucket.
  - Random numbers are parameters. A draw is a bucket 0..100 standing for
    the percentile bucket/100, which is what the script's
    `round(random.random(), 2)` produces.
  - One attempt is proved equal to a pure function of its draws, so the
    cache never changes a result. The stopping rule is a pure function with
    lemmas about it.

Durations are exact `real` seconds throughout. `Option`/`Result` values
model the script's exceptions:
- `None` for an `IndexError` on an empty distribution, for a walk that
  finds no bracket, for a `ZeroDivisionError` when the bracketing step has
  zero width (comp.py:112), and for a time that is `None` being added;
- `Err` for `ZeroDivisionError`, for a malformed number and for running out
  of recursion depth.

A segment with no usable attempt becomes an empty distribution, because
nothing is divided when the weight list is empty (comp.py:98-99). The error
only appears later, when `time_at_percentile` indexes the empty list
(comp.py:102); here that is `None`.

## Model

| member | source | states |
|---|---|---|
| `Durations.DurationSpec` | comp.py:8-26 | Definition: the kept characters split at ':'; the closed fields are valued as hours for the first and minutes for the rest, the trailing field as seconds, and any field that is not a number makes the whole string `MalformedNumber` |
| `Durations.Duration` | comp.py:8-26 | The character loop returns exactly the reference value: the first closed field in hours plus later closed fields in minutes plus the trailing field in seconds, or `MalformedNumber` when a closed field or the trailing buffer is not a number |
| `Durations.NumberValue` | comp.py:16 | A buffer that is a number has a non-negative value |
| `Durations.DigitsNumber` | comp.py:16 | A non-empty buffer of digits is the whole number it spells |
| `Durations.DecimalNumber` | comp.py:16 | Digits, one '.', digits is the whole part plus the fraction (the fraction's digits over 10 to the number of digits), provided one of the two parts is present |
| `Durations.TwoDots` | comp.py:16 | A buffer with two dots is not a number |
| `Durations.WholeExample` | comp.py:16 | "12" is 12 |
| `Durations.TrailingDotExample` | comp.py:16 | "12." is 12 |
| `Durations.FractionExample` | comp.py:16 | ".5" is 0.5 |
| `Durations.DecimalExample` | comp.py:16 | "1.25" is 1.25 |
| `Durations.NotNumbers` | comp.py:16 | The empty buffer, a lone '.' and "1.2.3" are rejected |
| `Durations.PrefixFailure` | comp.py:14-16 | Once a closed field is not a number the whole string fails, whatever follows |
| `Durations.SplitJoin` | comp.py:13-24 | Fields without ':' glued together with ':' split back into exactly those fields |
| `Durations.JoinSplit` | comp.py:13-24 | Gluing the pieces of a split with ':' gives back the string |
| `Durations.FieldsTotalAppend` | comp.py:15-21 | Closing a field adds its value times 3600 if it is the first closed field and times 60 otherwise (mode never returns to hours); the total fails exactly when the new field or an earlier one is not a number |
| `Durations.HoursMinutesSeconds` | comp.py:8-26 | `a:b:c` parses to a·3600 + b·60 + c |
| `Durations.HoursSeconds` | comp.py:8-26 | `a:c` parses to a·3600 + c: the first field is hours even when only two are given |
| `Durations.IgnoredCharacter` | comp.py:13-24 | Inserting any character other than a digit, '.' or ':' anywhere does not change the result |
| `Durations.EmptyFieldSkipped` | comp.py:14-15 | A ':' with an empty buffer is skipped: removing it does not change the result |
| `Durations.SameKept` | comp.py:13-26 | Two strings with the same kept characters parse the same |
| `Durations.JoinedFields` | comp.py:13-24 | Non-empty number fields joined by ':' are read back as exactly those closed fields and that trailing field |
| `Durations.DurationNonNegative` | comp.py:8-26 | A duration that parses is never negative |
| `Distributions.UsableTimes` | comp.py:86-89 | Definition: the times of the entries that have a time and whose id was not skipped in the previous segment, newest first; never more than there are entries |
| `Distributions.SkippedIds` | comp.py:94-95 | Definition: the ids of the entries without a time, newest first |
| `Distributions.RecencyWeight` | comp.py:83-93 | Definition: the k-th sample from the newest weighs the multiplier to the k-th power, or 1 - k/n for linear weights with n the number of history entries |
| `Distributions.Weighed` | comp.py:83-93 | Definition: each usable entry, walked newest first, becomes a sample with the recency weight of its rank among the usable entries before it |
| `Distributions.CollectSamples` | comp.py:83-95 | The newest-first loop over one history returns the reference samples of that history and, as skips, exactly the ids of its entries without a time |
| `Distributions.WeighedAt` | comp.py:83-93 | The k-th sample is the k-th usable time counted from the newest, with the recency weight of k: the multiplier to the k-th power, or 1 - k/n for linear weights |
| `Distributions.BuildCourse` | comp.py:80-99 | The loop over segments returns the reference course: each segment's distribution in order, or the first error |
| `Distributions.CourseSegments` | comp.py:80-99 | A built course has one distribution per segment, and the i-th is segment i's samples under segment i-1's skips, sorted and normalised |
| `Distributions.CourseFails` | comp.py:80-99 | Building fails if and only if the normalisation of some segment divides by zero |
| `Distributions.MostRecentWeighsOne` | comp.py:83 | The newest usable attempt weighs 1 under either weighting |
| `Distributions.GeometricRatio` | comp.py:92-93 | Geometric weights: each further sample weighs the previous weight times the multiplier |
| `Distributions.LinearDecrement` | comp.py:90-91 | Linear weights: each further sample weighs 1/n less, n counting every history entry of the segment |
| `Distributions.GeometricDecreasing` | comp.py:92-93 | With a multiplier strictly between 0 and 1 the weights strictly decrease |
| `Distributions.DefaultWeighting` | comp.py:72-77 | The default multiplier 0.75 is a valid weighting, and under it every weight is positive and each older sample weighs strictly less |
| `Distributions.WeightPositive` | comp.py:83-93 | Every sample has positive weight: geometric with a positive multiplier, or linear with fewer samples than entries |
| `Distributions.NewestFirst` | comp.py:86-89 | The most recently recorded entry contributes the first sample |
| `Distributions.UsableTimesMembers` | comp.py:86-89 | A time is sampled if and only if an entry with that time exists whose id was not skipped in the previous segment |
| `Distributions.SkippedIdsMembers` | comp.py:94-95 | An id is a skip if and only if an entry with that id has no time |
| `Distributions.SkipExcludesNext` | comp.py:88-96 | An attempt with no time in segment i gives no sample in segment i+1; skips are replaced per segment, not accumulated |
| `Distributions.Insert` | comp.py:97 | Definition: a sample goes before the first sample that is not shorter, so equal durations keep their order; the list grows by one |
| `Distributions.SortByDuration` | comp.py:97 | Definition: insertion sort by duration, of the same length as its input |
| `Distributions.InsertSorted` | comp.py:97 | Inserting into a list sorted by duration keeps it sorted |
| `Distributions.InsertPermutation` | comp.py:97 | Inserting gives the list plus the new sample, as a multiset |
| `Distributions.SortSorted` | comp.py:97 | The sorted samples are in non-decreasing order of duration |
| `Distributions.SortPermutation` | comp.py:97 | Sorting is a permutation of the samples |
| `Distributions.Normalise` | comp.py:98-99 | Definition: an empty list stays empty, a non-empty list whose weights sum to zero is `ZeroWeightSum`, otherwise every weight is divided by the sum |
| `Distributions.ScaleSum` | comp.py:98-99 | The divided weights sum to the original sum divided by the total |
| `Distributions.NormaliseSumsToOne` | comp.py:98-99 | A non-empty list with non-zero sum normalises to weights summing to 1, same length, same durations |
| `Distributions.NormaliseWellFormed` | comp.py:97-99 | Normalising a sorted list of positive weights gives a non-empty, sorted distribution of positive weights summing to 1 |
| `Distributions.BuiltShape` | comp.py:80-99 | Under a valid weighting a segment never fails: it has one sample per usable attempt, is empty when none is usable, and is well formed otherwise |
| `Percentiles.Walk` | comp.py:106-114 | Definition: the loop over adjacent pairs; the first pair whose step contains p gives the interpolated duration, a zero step gives `None`, and running off the end gives `None` |
| `Percentiles.TimeAtPercentile` | comp.py:101-114 | Definition: `None` on an empty distribution, the shortest duration up to half the first weight, the longest from one minus half the last weight, otherwise the walk from the first sample |
| `Percentiles.FinishAtPercentile` | comp.py:116-117 | Definition: the sum of every segment's time at p, `None` as soon as one of them is undefined |
| `Percentiles.AtBottom` | comp.py:102-103 | At or below half the first weight the curve is the shortest duration |
| `Percentiles.AtTop` | comp.py:104-105 | At or above one minus half the last weight (and past the first region) the curve is the longest duration |
| `Percentiles.WalkDefined` | comp.py:107-114 | The walk returns whenever p lies between its starting position and the last sample's position |
| `Percentiles.WalkBounds` | comp.py:107-114 | A walk result lies between the sample it starts from and the last sample |
| `Percentiles.WalkBetween` | comp.py:107-114 | A walk result lies between two adjacent durations |
| `Percentiles.WalkMono` | comp.py:107-114 | The walk's result does not decrease when p grows |
| `Percentiles.TimeDefined` | comp.py:101-114 | On a well-formed distribution the curve is defined at every p |
| `Percentiles.BetweenAdjacent` | comp.py:106-114 | Strictly between the two end regions the value lies between two adjacent durations |
| `Percentiles.TimeBounds` | comp.py:101-114 | The value lies between the shortest and the longest duration |
| `Percentiles.TimeMonotone` | comp.py:101-114 | The curve is non-decreasing in p |
| `Percentiles.LerpLower` | comp.py:113 | The interpolation between two ordered durations is at least the first |
| `Percentiles.LerpUpper` | comp.py:113 | The interpolation up to the full step is at most the second duration |
| `Percentiles.LerpMono` | comp.py:113 | The interpolation grows with the offset into the step |
| `Percentiles.FinishBounds` | comp.py:116-117 | The predicted total is defined and lies between the sum of shortest and the sum of longest durations |
| `Percentiles.FinishMonotone` | comp.py:116-117 | The predicted total is non-decreasing in p |
| `Percentiles.EqualThirds` | comp.py:101-117 | Samples 10, 20, 30 s of weight 1/3 give 20 s at p = 0.5, and two such segments give 40 s |
| `GoalSearch.Narrow` | comp.py:125-128 | One step halves the bracket: a finish slower than the goal keeps the bottom and moves the top to the midpoint, any other finish moves the bottom to the midpoint and keeps the top |
| `GoalSearch.Search` | comp.py:120-128 | Definition: probe the midpoint, return it when its finish is within 0.1 s of the goal, fail with `NoPrediction` when the finish is undefined, otherwise narrow and recurse, failing with `Unreachable` once the depth runs out |
| `GoalSearch.FindGoalPercentile` | comp.py:130 | Definition: the search over the bracket [0, 1] with the full recursion depth |
| `GoalSearch.SearchSound` | comp.py:119-128 | A percentile returned by the search lies in the bracket and its predicted total is within 0.1 s of the goal |
| `GoalSearch.GoalPercentileSound` | comp.py:119-130 | `search(0, 1)` returns a percentile in [0,1] whose predicted total is within 0.1 s of the goal |
| `GoalSearch.MedianRoundTrip` | comp.py:119-130 | Searching for the total predicted at the median returns the median itself: the first probe of `search(0, 1)` is 0.5 and meets that goal exactly |
| `GoalSearch.EqualThirdsGoal` | comp.py:119-130 | Two segments of equally weighted 10, 20 and 30 s: the goal 40 s is found at percentile 0.5 |
| `GoalSearch.NarrowKeepsSolutions` | comp.py:123-128 | Because the total grows with the percentile, a step never discards a percentile that meets the goal: too slow moves down, too fast moves up |
| `GoalSearch.OutOfDepth` | comp.py:119-128 | With the recursion depth exhausted the search fails |
| `GoalSearch.GoalTooFast` | comp.py:119-128 | A goal at least 0.1 s faster than the total at percentile 0 is never met |
| `GoalSearch.GoalTooSlow` | comp.py:119-128 | A goal at least 0.1 s slower than the total at percentile 1 is never met |
| `Simulation.ChunkDivision` | comp.py:155-171 | Counted segment j uses the draw numbered j div chunk: j = chunk·(draws before) + phase, with phase < chunk |
| `Simulation.ChunkStep` | comp.py:168-171 | After each counted segment the phase advances; at the end of a chunk it wraps to 0 and the next draw is used |
| `Simulation.FinishedTotal` | comp.py:152-172 | A finished attempt's total is the start time plus the times of all counted segments |
| `Simulation.CountedBounds` | comp.py:157-164 | With every segment counted, the times from a segment on are defined and lie between the sums of those segments' shortest and longest durations |
| `Simulation.FarGoal` | comp.py:152-174 | Without resets and with every segment counted, a goal beyond the start time plus every segment's longest duration is always beaten, and one no later than the start time plus every shortest duration never is |
| `Simulation.FarGoalRate` | comp.py:150-174 | Over any attempts, such a far goal succeeds in every attempt, and such a near goal in none |
| `Simulation.AttemptFrom` | comp.py:157-172 | Definition: from segment idx with running total `sum`, skip the segments before the start split, add each counted time, report a reset at the first threshold passed, finish at the end, and have no outcome at a counted segment without a time |
| `Simulation.Attempt` | comp.py:151-172 | Definition: one attempt from the first segment with the start time as running total |
| `Simulation.RunningTotal` | comp.py:152-163 | Definition: the start time plus the times of the counted segments among the first n, undefined once one of them is |
| `Simulation.RunningTotalEnd` | comp.py:152-164 | The running total after the last segment is the running total after segment n plus the counted times from n on, and is undefined exactly when those are |
| `Simulation.ResetWitness` | comp.py:165-167 | A reset happens at a counted segment that has a threshold, the reported total is the running total after that segment and exceeds the threshold, and every earlier segment was clear: defined and under its threshold |
| `Simulation.FinishedClear` | comp.py:157-173 | A finished attempt's total is the running total after the last segment, and every segment was clear |
| `Simulation.CrashWitness` | comp.py:157-164 | An attempt without an outcome reached a counted segment whose time is undefined, every segment before it being clear |
| `Simulation.AttemptOutcome` | comp.py:151-172 | For a whole attempt, each of the three outcomes (finished, reset, no outcome) is characterised by the running totals and reset thresholds of its segments |
| `Simulation.NeverResets` | comp.py:165-167 | Without reset times an attempt is defined exactly when every counted time is, and then always finishes |
| `Simulation.SkippedSegments` | comp.py:153-172 | Segments before the start split play no part: the attempt is the one starting at the first counted segment |
| `Simulation.ConstantPercentileAttempt` | comp.py:152-164 | With one percentile throughout, no resets and every segment counted, an attempt totals the start time plus the predicted finish at that percentile |
| `Simulation.SuccessCount` | comp.py:173-174 | Successes never outnumber attempts |
| `Simulation.PercentageRange` | comp.py:143-144 | The success rate is between 0 and 100 |
| `Simulation.NoStopBeforeMinimum` | comp.py:175-189 | Before 10000 attempts the loop never stops and nothing changes |
| `Simulation.NegativeReferenceUpdates` | comp.py:145-196 | A negative reference rate such as the initial -1 is never steady: the first check past the minimum that is not off target adopts the current rate and resets the streak |
| `Simulation.Decide` | comp.py:175-196 | Definition: below 10000 attempts go on unchanged; past it, stop when off target; when steady, grow the streak and stop once it reaches 500 (with target) or 1000 (without); otherwise adopt the current rate and reset the streak |
| `Simulation.StopRule` | comp.py:175-196 | Stop if and only if past 10000 attempts and either the rate is at most half or at least 1.5 times the target, or the rate is within 0.1% of the reference for the 500th (with target) or 1000th (without) time in a row |
| `Simulation.StreakBelowThreshold` | comp.py:180-196 | While the loop goes on, the streak stays below the number needed to stop |
| `Simulation.SteadyAfterCheck` | comp.py:180-196 | After a check past the minimum that is not off target, the current rate is within 0.1% of the new reference rate |
| `Simulation.CheckAfter` | comp.py:150-196 | Definition: the streak, reference rate and verdict after the k-th attempt, folding the check over the attempts from streak 0 and reference rate -1 |
| `Simulation.QuietStart` | comp.py:175-177 | Through the first 9999 attempts the check never stops and keeps the initial streak 0 and reference rate -1 |
| `Simulation.Simulator.constructor` | comp.py:139-145 | A new simulator has no attempts, no successes, a zero streak, reference rate -1 and an empty cache |
| `Simulation.Simulator.Lookup` | comp.py:157-163 | The time read for a segment and bucket is the curve's value at that bucket's percentile, whether it was cached or not; a defined time is stored and no cached entry changes |
| `Simulation.Simulator.RunSegments` | comp.py:152-172 | The segment loop of one attempt returns the pure attempt of its draws, whatever the cache holds, and keeps the cache's entries |
| `Simulation.Simulator.Iterate` | comp.py:151-174 | One attempt equals the pure attempt of its draws, whatever the cache holds; the cache stays correct and keeps its entries; the success count grows exactly when the attempt finished under the goal |
| `Simulation.Simulator.CheckStop` | comp.py:175-196 | The check changes the streak and reference rate exactly as the stopping rule says and reports its stop verdict |
| `Simulation.Simulator.Run` | comp.py:150-198 | The success count is the number of successful attempts among those made, and the streak and reference rate are the fold of the check over them. Every attempt before the last had an outcome and its check said go on. A stopped result (the streak converged, or the rate is off target) is reached exactly when the last attempt's check says stop, after at least 10000 attempts, and is the success rate, between 0 and 100. A crash is an attempt without an outcome. Running out of draws means no check said stop |

## Left out

- Command-line handling, `--help`, printing and reading the splits XML
  (comp.py:28-79, 131-136 and 197) are input and output. The histories and
  the weighting are parameters. The cumulative split times printed after
  the goal search are not modelled.
- `find_reset_splits` (comp.py:200-238) is not part of this model.
- `Durations.Duration`: only the ASCII digits 0-9 and '.' go into the
  number buffer, and every other character is ignored. The script keeps
  every character for which `isnumeric` holds, and Python's `Decimal` reads
  any Unicode decimal digit (fullwidth '１', Arabic-Indic or Devanagari
  digits) at its digit value. So the script reads "１２:３０" as
  12·3600 + 30 s, while `Duration` ignores those characters and returns
  `MalformedNumber`. A numeral that is not a decimal digit ('½', '²') makes
  the script's `Decimal` raise, while `Duration` ignores it. The `lower()`
  call has no effect on kept characters.
- Floating point is not modelled. Durations and weights are exact reals,
  while the script uses `Decimal` → float conversion, `timedelta`
  microsecond rounding and float weights.
- `Simulation.Simulator.Iterate`: the cache key is the exact bucket. The
  script computes `int(percentile * 100)` in floating point. For some
  draws (0.29 · 100 is just below 29) this lands in the neighbouring
  bucket, so the script's cache can return the time of the adjacent
  percentile.
- `Simulation.Simulator.Run`: the random numbers are a finite list of draws
  per attempt. The script's endless `while True` becomes a loop that can
  end with the draws exhausted, which the script never does.
- `Simulation.Simulator.Iterate`: a segment time that is undefined makes the
  script fail while adding `None`. Here the attempt returns `None` and
  `Run` reports `Crashed`.
- `GoalSearch.Search`: the recursion limit is the interpreter's default
  depth, taken as 1000. The real limit is slightly lower, because other
  frames are on the stack. Exceeding it is `Unreachable`. That the search
  finds a solution whenever one exists and the depth suffices is not
  proved.
- `Distributions.SortByDuration`: sortedness and permutation are stated by
  `SortSorted` and `SortPermutation`. That equal durations keep their
  order, as in Python's stable sort, holds by construction but is not a
  stated property.
- `Durations.NumberValue`: Python's `Decimal` also reads exponents, signs,
  underscores, "Infinity" and "NaN". None of them can reach the buffer,
  which only collects digits and '.'. A buffer with more than one '.' is
  no number whichever dot the definition splits at; the model splits at
  the last one.
- `Distributions.BuildCourse`: a zero weight sum on a non-empty segment is
  `ZeroWeightSum`, the script's `ZeroDivisionError` (comp.py:99). Linear
  weights and a multiplier of zero never cause it: the newest sample weighs
  1 and no weight is negative. With exact reals it needs a multiplier of
  -1 and an even number of usable times, whose weights 1, -1, … cancel.
  The model proves that segments never fail only for positive multipliers
  and linear weights (`BuiltShape`).
