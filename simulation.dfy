/**
 * `simulate_runs` of comp.py: Monte-Carlo attempts at a goal time, each
 * attempt drawing a percentile (redrawn every `chunk` counted segments) and
 * adding up the segments' times at that percentile, with a per-segment cache
 * of the times already computed and a stopping rule on the success rate.
 *
 * The random draws are parameters: a draw is a bucket 0..100, the percentile
 * it stands for is bucket / 100 (the script rounds its random number to two
 * decimals).
 */
module Simulation {
  import opened Wrappers
  import opened Distributions
  import opened Percentiles

  /** The fixed inputs of one simulation. A `chunkSize` of zero or less never redraws. */
  datatype Config = Config(
    course: seq<seq<Sample>>,
    startSplit: int,
    startTime: real,
    goal: real,
    resetTimes: seq<Option<real>>,
    target: Option<real>,
    chunkSize: int)

  /** How one attempt ends: it runs to the end, or a reset threshold is passed after `segment`. */
  datatype Outcome = Finished(total: real) | ResetAt(segment: nat, total: real)

  /** Number of percentile buckets: 0.00, 0.01, ..., 1.00. */
  const Buckets: nat := 101

  // ---------------------------------------------------------------------------
  // Chunked redraws.
  // ---------------------------------------------------------------------------

  /** Complete chunks of `size` counted segments before counted segment j. */
  function ChunksBefore(j: nat, size: nat): nat
    requires size > 0
    decreases j
  {
    if j < size then 0 else 1 + ChunksBefore(j - size, size)
  }

  /** Position of counted segment j inside its chunk. */
  function ChunkPhase(j: nat, size: nat): nat
    requires size > 0
    decreases j
  {
    if j < size then j else ChunkPhase(j - size, size)
  }

  /** The two together divide j by the chunk size. */
  lemma {:induction false} ChunkDivision(j: nat, size: nat)
    requires size > 0
    ensures j == size * ChunksBefore(j, size) + ChunkPhase(j, size)
    ensures ChunkPhase(j, size) < size
    decreases j
  {
    if j >= size {
      ChunkDivision(j - size, size);
      assert size * (1 + ChunksBefore(j - size, size)) == size + size * ChunksBefore(j - size, size);
    }
  }

  /** One more counted segment: the phase advances, and wraps to a new draw at the chunk's end. */
  lemma {:induction false} ChunkStep(j: nat, size: nat)
    requires size > 0
    ensures ChunkPhase(j + 1, size) ==
      (if ChunkPhase(j, size) == size - 1 then 0 else ChunkPhase(j, size) + 1)
    ensures ChunksBefore(j + 1, size) ==
      (if ChunkPhase(j, size) == size - 1 then ChunksBefore(j, size) + 1 else ChunksBefore(j, size))
    decreases j
  {
    if j >= size {
      ChunkStep(j - size, size);
    }
  }

  lemma {:induction false} ChunksBound(j: nat, size: nat)
    requires size > 0
    ensures ChunksBefore(j, size) <= j
    decreases j
  {
    if j >= size {
      ChunksBound(j - size, size);
    }
  }

  /**
   * The redraw counters before counted segment j: `reroll` counts down the
   * segments left in the current chunk and `drawn` counts the draws taken.
   */
  predicate RedrawState(size: int, j: nat, reroll: int, drawn: nat)
  {
    if size > 0 then reroll == size - ChunkPhase(j, size) && drawn == ChunksBefore(j, size) + 1
    else reroll == size - j && drawn == 1
  }

  /**
   * The counters pick draw `drawn - 1` for counted segment j, and one
   * decrement (with a redraw when it reaches zero) gives the counters for j + 1.
   */
  lemma RedrawStep(size: int, j: nat, reroll: int, drawn: nat)
    requires RedrawState(size, j, reroll, drawn)
    ensures 1 <= drawn <= j + 1
    ensures drawn - 1 == (if size <= 0 then 0 else ChunksBefore(j, size))
    ensures reroll - 1 == 0 ==> RedrawState(size, j + 1, size, drawn + 1)
    ensures reroll - 1 != 0 ==> RedrawState(size, j + 1, reroll - 1, drawn)
  {
    if size > 0 {
      ChunkDivision(j, size);
      ChunkStep(j, size);
      ChunksBound(j, size);
    }
  }

  // ---------------------------------------------------------------------------
  // One attempt, as a function of its draws.
  // ---------------------------------------------------------------------------

  /** The first segment that counts: `skip` starts at the start split and counts down. */
  function FirstCounted(cfg: Config): nat
  {
    if cfg.startSplit < 0 then 0 else cfg.startSplit
  }

  /** How many counted segments come before segment idx. */
  function CountedBefore(cfg: Config, idx: nat): nat
  {
    if idx <= FirstCounted(cfg) then 0 else idx - FirstCounted(cfg)
  }

  /** Segment idx is counted exactly when the start split is not after it. */
  lemma CountedStep(cfg: Config, idx: nat)
    ensures CountedBefore(cfg, idx + 1) ==
      if idx >= cfg.startSplit then CountedBefore(cfg, idx) + 1 else CountedBefore(cfg, idx)
  {
  }

  /** Which draw counted segment j uses. */
  function DrawUsed(cfg: Config, j: nat): nat
  {
    if cfg.chunkSize <= 0 then 0 else ChunksBefore(j, cfg.chunkSize)
  }

  /** Enough draws for one attempt, each a bucket. */
  predicate DrawsFit(cfg: Config, draws: seq<nat>)
  {
    |draws| > |cfg.course| && forall k :: 0 <= k < |draws| ==> draws[k] < Buckets
  }

  function Bucket(cfg: Config, draws: seq<nat>, idx: nat): (b: nat)
    requires DrawsFit(cfg, draws) && idx < |cfg.course|
    ensures b < Buckets
  {
    var j := CountedBefore(cfg, idx);
    assert DrawUsed(cfg, j) <= j by {
      if cfg.chunkSize > 0 {
        ChunksBound(j, cfg.chunkSize);
      }
    }
    draws[DrawUsed(cfg, j)]
  }

  function Percentile(b: nat): real
  {
    b as real / 100.0
  }

  /** The time of segment idx at the percentile drawn for it. */
  function SegmentTime(cfg: Config, draws: seq<nat>, idx: nat): Option<real>
    requires DrawsFit(cfg, draws) && idx < |cfg.course|
  {
    TimeAtPercentile(cfg.course[idx], Percentile(Bucket(cfg, draws, idx)))
  }

  /** A reset threshold exists for segment idx and the running total is past it. */
  predicate PastReset(cfg: Config, idx: nat, sum: real)
  {
    idx < |cfg.resetTimes| && cfg.resetTimes[idx].Some? && sum > cfg.resetTimes[idx].value
  }

  /**
   * The rest of an attempt from segment idx with running total `sum`. None
   * when a counted segment has no time (the script fails adding None).
   */
  function AttemptFrom(cfg: Config, draws: seq<nat>, idx: nat, sum: real): Option<Outcome>
    requires DrawsFit(cfg, draws) && idx <= |cfg.course|
    decreases |cfg.course| - idx
  {
    if idx == |cfg.course| then Some(Finished(sum))
    else if idx < cfg.startSplit then AttemptFrom(cfg, draws, idx + 1, sum)
    else
      var t := SegmentTime(cfg, draws, idx);
      if t.None? then None
      else if PastReset(cfg, idx, sum + t.value) then Some(ResetAt(idx, sum + t.value))
      else AttemptFrom(cfg, draws, idx + 1, sum + t.value)
  }

  /** One whole attempt from the start time. */
  function Attempt(cfg: Config, draws: seq<nat>): Option<Outcome>
    requires DrawsFit(cfg, draws)
  {
    AttemptFrom(cfg, draws, 0, cfg.startTime)
  }

  /** An attempt counts as a success when it did not reset and beat the goal. */
  predicate Succeeded(cfg: Config, o: Option<Outcome>)
  {
    o.Some? && o.value.Finished? && o.value.total < cfg.goal
  }

  /** Sum of the counted segments' times from idx on, ignoring resets. */
  function CountedTotal(cfg: Config, draws: seq<nat>, idx: nat): Option<real>
    requires DrawsFit(cfg, draws) && idx <= |cfg.course|
    decreases |cfg.course| - idx
  {
    if idx == |cfg.course| then Some(0.0)
    else if idx < cfg.startSplit then CountedTotal(cfg, draws, idx + 1)
    else
      var t := SegmentTime(cfg, draws, idx);
      var rest := CountedTotal(cfg, draws, idx + 1);
      if t.Some? && rest.Some? then Some(t.value + rest.value) else None
  }

  /** Successes among a sequence of attempts. */
  function SuccessCount(cfg: Config, rounds: seq<seq<nat>>): (n: nat)
    requires forall k :: 0 <= k < |rounds| ==> DrawsFit(cfg, rounds[k])
    ensures n <= |rounds|
  {
    if rounds == [] then 0
    else
      var last := rounds[|rounds| - 1];
      SuccessCount(cfg, rounds[..|rounds| - 1]) + if Succeeded(cfg, Attempt(cfg, last)) then 1 else 0
  }

  // ---------------------------------------------------------------------------
  // Properties of an attempt.
  // ---------------------------------------------------------------------------

  /** A finished attempt's total is the start time plus every counted segment's time. */
  lemma {:induction false} FinishedTotal(cfg: Config, draws: seq<nat>, idx: nat, sum: real)
    requires DrawsFit(cfg, draws) && idx <= |cfg.course|
    requires AttemptFrom(cfg, draws, idx, sum).Some? && AttemptFrom(cfg, draws, idx, sum).value.Finished?
    ensures CountedTotal(cfg, draws, idx).Some?
    ensures AttemptFrom(cfg, draws, idx, sum).value.total == sum + CountedTotal(cfg, draws, idx).value
    decreases |cfg.course| - idx
  {
    if idx < |cfg.course| {
      if idx < cfg.startSplit {
        FinishedTotal(cfg, draws, idx + 1, sum);
      } else {
        FinishedTotal(cfg, draws, idx + 1, sum + SegmentTime(cfg, draws, idx).value);
      }
    }
  }

  /**
   * The script's running `sum` once segments 0..n-1 are done: the start time
   * plus the times of the counted ones among them. None once a counted time
   * is undefined.
   */
  function RunningTotal(cfg: Config, draws: seq<nat>, n: nat): Option<real>
    requires DrawsFit(cfg, draws) && n <= |cfg.course|
  {
    if n == 0 then Some(cfg.startTime)
    else
      var before := RunningTotal(cfg, draws, n - 1);
      if n - 1 < cfg.startSplit then before
      else
        var t := SegmentTime(cfg, draws, n - 1);
        if before.Some? && t.Some? then Some(before.value + t.value) else None
  }

  /** Once the running total is undefined it stays undefined. */
  lemma {:induction false} RunningTotalStaysUndefined(cfg: Config, draws: seq<nat>, n: nat, m: nat)
    requires DrawsFit(cfg, draws) && n <= m <= |cfg.course| && RunningTotal(cfg, draws, n).None?
    ensures RunningTotal(cfg, draws, m).None?
    decreases m - n
  {
    if n < m {
      RunningTotalStaysUndefined(cfg, draws, n, m - 1);
    }
  }

  /**
   * The two sums of counted times agree: the running total at the end is the
   * running total after n segments plus the counted times from segment n on,
   * and is undefined exactly when the latter is.
   */
  lemma {:induction false} RunningTotalEnd(cfg: Config, draws: seq<nat>, n: nat)
    requires DrawsFit(cfg, draws) && n <= |cfg.course| && RunningTotal(cfg, draws, n).Some?
    ensures CountedTotal(cfg, draws, n).Some? ==>
      RunningTotal(cfg, draws, |cfg.course|) ==
      Some(RunningTotal(cfg, draws, n).value + CountedTotal(cfg, draws, n).value)
    ensures CountedTotal(cfg, draws, n).None? ==> RunningTotal(cfg, draws, |cfg.course|).None?
    decreases |cfg.course| - n
  {
    if n < |cfg.course| {
      var sum := RunningTotal(cfg, draws, n).value;
      if n < cfg.startSplit {
        assert RunningTotal(cfg, draws, n + 1) == Some(sum);
        RunningTotalEnd(cfg, draws, n + 1);
      } else {
        var t := SegmentTime(cfg, draws, n);
        if t.None? {
          assert RunningTotal(cfg, draws, n + 1).None?;
          RunningTotalStaysUndefined(cfg, draws, n + 1, |cfg.course|);
        } else {
          assert RunningTotal(cfg, draws, n + 1) == Some(sum + t.value);
          RunningTotalEnd(cfg, draws, n + 1);
        }
      }
    }
  }

  /**
   * Segment idx lets the attempt go on: it is skipped, or its time is defined
   * and the running total after it passes no reset threshold.
   */
  predicate Clear(cfg: Config, draws: seq<nat>, idx: nat)
    requires DrawsFit(cfg, draws) && idx < |cfg.course|
  {
    idx < cfg.startSplit ||
    (RunningTotal(cfg, draws, idx + 1).Some? && !PastReset(cfg, idx, RunningTotal(cfg, draws, idx + 1).value))
  }

  /**
   * A reset happens at the first segment that is not clear: a counted segment
   * with a threshold that the running total after it passes, and the reported
   * total is that running total.
   */
  lemma {:induction false} ResetWitness(cfg: Config, draws: seq<nat>, idx: nat)
    requires DrawsFit(cfg, draws) && idx <= |cfg.course| && RunningTotal(cfg, draws, idx).Some?
    requires AttemptFrom(cfg, draws, idx, RunningTotal(cfg, draws, idx).value).Some?
    requires AttemptFrom(cfg, draws, idx, RunningTotal(cfg, draws, idx).value).value.ResetAt?
    ensures var o := AttemptFrom(cfg, draws, idx, RunningTotal(cfg, draws, idx).value).value;
      idx <= o.segment < |cfg.course| && cfg.startSplit <= o.segment &&
      RunningTotal(cfg, draws, o.segment + 1) == Some(o.total) && PastReset(cfg, o.segment, o.total) &&
      forall s :: idx <= s < o.segment ==> Clear(cfg, draws, s)
    decreases |cfg.course| - idx
  {
    var sum := RunningTotal(cfg, draws, idx).value;
    if idx < cfg.startSplit {
      assert RunningTotal(cfg, draws, idx + 1) == Some(sum);
      ResetWitness(cfg, draws, idx + 1);
    } else {
      var t := SegmentTime(cfg, draws, idx);
      assert RunningTotal(cfg, draws, idx + 1) == Some(sum + t.value);
      if !PastReset(cfg, idx, sum + t.value) {
        ResetWitness(cfg, draws, idx + 1);
      }
    }
  }

  /** A finished attempt met no undefined time and passed no threshold, and its total is the running total at the end. */
  lemma {:induction false} FinishedClear(cfg: Config, draws: seq<nat>, idx: nat)
    requires DrawsFit(cfg, draws) && idx <= |cfg.course| && RunningTotal(cfg, draws, idx).Some?
    requires AttemptFrom(cfg, draws, idx, RunningTotal(cfg, draws, idx).value).Some?
    requires AttemptFrom(cfg, draws, idx, RunningTotal(cfg, draws, idx).value).value.Finished?
    ensures RunningTotal(cfg, draws, |cfg.course|) ==
      Some(AttemptFrom(cfg, draws, idx, RunningTotal(cfg, draws, idx).value).value.total)
    ensures forall s :: idx <= s < |cfg.course| ==> Clear(cfg, draws, s)
    decreases |cfg.course| - idx
  {
    if idx < |cfg.course| {
      var sum := RunningTotal(cfg, draws, idx).value;
      if idx < cfg.startSplit {
        assert RunningTotal(cfg, draws, idx + 1) == Some(sum);
      } else {
        assert RunningTotal(cfg, draws, idx + 1) == Some(sum + SegmentTime(cfg, draws, idx).value);
      }
      FinishedClear(cfg, draws, idx + 1);
    }
  }

  /** An attempt without an outcome met a counted segment with no time, every segment before it being clear. */
  lemma {:induction false} CrashWitness(cfg: Config, draws: seq<nat>, idx: nat)
    requires DrawsFit(cfg, draws) && idx <= |cfg.course| && RunningTotal(cfg, draws, idx).Some?
    requires AttemptFrom(cfg, draws, idx, RunningTotal(cfg, draws, idx).value).None?
    ensures exists s :: (idx <= s < |cfg.course| && cfg.startSplit <= s && SegmentTime(cfg, draws, s).None? &&
      forall s' :: idx <= s' < s ==> Clear(cfg, draws, s'))
    decreases |cfg.course| - idx
  {
    var sum := RunningTotal(cfg, draws, idx).value;
    if idx < cfg.startSplit {
      assert RunningTotal(cfg, draws, idx + 1) == Some(sum);
      CrashWitness(cfg, draws, idx + 1);
    } else {
      var t := SegmentTime(cfg, draws, idx);
      if t.Some? {
        assert RunningTotal(cfg, draws, idx + 1) == Some(sum + t.value);
        CrashWitness(cfg, draws, idx + 1);
      } else {
        assert idx <= idx < |cfg.course| && cfg.startSplit <= idx && SegmentTime(cfg, draws, idx).None?;
      }
    }
  }

  /**
   * The reset rule for a whole attempt: it finishes with the running total at
   * the end when every segment is clear, it resets at the first segment that
   * passes a threshold, and it has no outcome at the first counted segment
   * without a time.
   */
  lemma AttemptOutcome(cfg: Config, draws: seq<nat>)
    requires DrawsFit(cfg, draws)
    ensures Attempt(cfg, draws).Some? && Attempt(cfg, draws).value.Finished? ==>
      RunningTotal(cfg, draws, |cfg.course|) == Some(Attempt(cfg, draws).value.total) &&
      forall s :: 0 <= s < |cfg.course| ==> Clear(cfg, draws, s)
    ensures Attempt(cfg, draws).Some? && Attempt(cfg, draws).value.ResetAt? ==>
      var o := Attempt(cfg, draws).value;
      FirstCounted(cfg) <= o.segment < |cfg.course| &&
      RunningTotal(cfg, draws, o.segment + 1) == Some(o.total) && PastReset(cfg, o.segment, o.total) &&
      forall s :: 0 <= s < o.segment ==> Clear(cfg, draws, s)
    ensures Attempt(cfg, draws).None? ==>
      exists s :: (FirstCounted(cfg) <= s < |cfg.course| && SegmentTime(cfg, draws, s).None? &&
        forall s' :: 0 <= s' < s ==> Clear(cfg, draws, s'))
  {
    assert RunningTotal(cfg, draws, 0) == Some(cfg.startTime);
    var o := Attempt(cfg, draws);
    if o.None? {
      CrashWitness(cfg, draws, 0);
    } else if o.value.Finished? {
      FinishedClear(cfg, draws, 0);
    } else {
      ResetWitness(cfg, draws, 0);
    }
  }

  predicate NoResetTimes(cfg: Config)
  {
    forall k :: 0 <= k < |cfg.resetTimes| ==> cfg.resetTimes[k].None?
  }

  /** Without reset thresholds an attempt is defined exactly when every counted time is, and then finishes. */
  lemma {:induction false} NeverResets(cfg: Config, draws: seq<nat>, idx: nat, sum: real)
    requires DrawsFit(cfg, draws) && idx <= |cfg.course| && NoResetTimes(cfg)
    ensures AttemptFrom(cfg, draws, idx, sum).Some? <==> CountedTotal(cfg, draws, idx).Some?
    ensures AttemptFrom(cfg, draws, idx, sum).Some? ==> AttemptFrom(cfg, draws, idx, sum).value.Finished?
    decreases |cfg.course| - idx
  {
    if idx < |cfg.course| {
      if idx < cfg.startSplit {
        NeverResets(cfg, draws, idx + 1, sum);
      } else {
        var t := SegmentTime(cfg, draws, idx);
        if t.Some? {
          assert !PastReset(cfg, idx, sum + t.value);
          NeverResets(cfg, draws, idx + 1, sum + t.value);
        }
      }
    }
  }

  /** Segments before the start split play no part: the attempt begins at the first counted one. */
  lemma {:induction false} SkippedSegments(cfg: Config, draws: seq<nat>, idx: nat, sum: real)
    requires DrawsFit(cfg, draws) && FirstCounted(cfg) <= |cfg.course|
    requires idx <= FirstCounted(cfg)
    ensures AttemptFrom(cfg, draws, idx, sum) == AttemptFrom(cfg, draws, FirstCounted(cfg), sum)
    decreases FirstCounted(cfg) - idx
  {
    if idx < FirstCounted(cfg) {
      SkippedSegments(cfg, draws, idx + 1, sum);
    }
  }

  /**
   * With every segment counted, the times from idx on lie between the fastest
   * and the slowest times of those segments: the course's totals less those
   * of its first idx segments.
   */
  lemma {:induction false} CountedBounds(cfg: Config, draws: seq<nat>, idx: nat)
    requires DrawsFit(cfg, draws) && cfg.startSplit <= 0
    requires AllWellFormed(cfg.course) && idx <= |cfg.course|
    ensures CountedTotal(cfg, draws, idx).Some?
    ensures FastestTotal(cfg.course) <= FastestTotal(cfg.course[..idx]) + CountedTotal(cfg, draws, idx).value
    ensures SlowestTotal(cfg.course[..idx]) + CountedTotal(cfg, draws, idx).value <= SlowestTotal(cfg.course)
    decreases |cfg.course| - idx
  {
    if idx == |cfg.course| {
      assert cfg.course[..idx] == cfg.course;
    } else {
      CountedBounds(cfg, draws, idx + 1);
      var prefix := cfg.course[..idx + 1];
      assert prefix[..idx] == cfg.course[..idx] && prefix[idx] == cfg.course[idx];
      TimeBounds(cfg.course[idx], Percentile(Bucket(cfg, draws, idx)));
    }
  }

  /**
   * A goal beyond the start time plus every segment's slowest time is beaten
   * by every attempt; a goal no later than the start time plus every
   * segment's fastest time is beaten by none (without resets, every segment
   * counted).
   */
  lemma FarGoal(cfg: Config, draws: seq<nat>)
    requires DrawsFit(cfg, draws) && cfg.startSplit <= 0
    requires AllWellFormed(cfg.course) && NoResetTimes(cfg)
    ensures cfg.goal > cfg.startTime + SlowestTotal(cfg.course) ==> Succeeded(cfg, Attempt(cfg, draws))
    ensures cfg.goal <= cfg.startTime + FastestTotal(cfg.course) ==> !Succeeded(cfg, Attempt(cfg, draws))
  {
    CountedBounds(cfg, draws, 0);
    assert cfg.course[..0] == [];
    NeverResets(cfg, draws, 0, cfg.startTime);
    FinishedTotal(cfg, draws, 0, cfg.startTime);
  }

  /** Over any attempts, a goal beyond the slowest total succeeds every time and one within the fastest total never does. */
  lemma {:induction false} FarGoalRate(cfg: Config, rounds: seq<seq<nat>>)
    requires forall k :: 0 <= k < |rounds| ==> DrawsFit(cfg, rounds[k])
    requires cfg.startSplit <= 0 && AllWellFormed(cfg.course) && NoResetTimes(cfg)
    ensures cfg.goal > cfg.startTime + SlowestTotal(cfg.course) ==> SuccessCount(cfg, rounds) == |rounds|
    ensures cfg.goal <= cfg.startTime + FastestTotal(cfg.course) ==> SuccessCount(cfg, rounds) == 0
  {
    if rounds != [] {
      FarGoalRate(cfg, rounds[..|rounds| - 1]);
      FarGoal(cfg, rounds[|rounds| - 1]);
    }
  }

  /** Every draw the same bucket b. */
  predicate ConstantDraws(draws: seq<nat>, b: nat)
  {
    forall k :: 0 <= k < |draws| ==> draws[k] == b
  }

  /**
   * With one constant draw and every segment counted, the times from idx on
   * add up to the predicted finish of the whole course less its first idx
   * segments.
   */
  lemma {:induction false} ConstantCountedTotal(cfg: Config, draws: seq<nat>, b: nat, idx: nat)
    requires DrawsFit(cfg, draws) && ConstantDraws(draws, b) && cfg.startSplit <= 0
    requires AllWellFormed(cfg.course) && idx <= |cfg.course|
    ensures CountedTotal(cfg, draws, idx).Some?
    ensures FinishAtPercentile(cfg.course[..idx], Percentile(b)).Some?
    ensures FinishAtPercentile(cfg.course, Percentile(b)).Some?
    ensures FinishAtPercentile(cfg.course[..idx], Percentile(b)).value + CountedTotal(cfg, draws, idx).value
      == FinishAtPercentile(cfg.course, Percentile(b)).value
    decreases |cfg.course| - idx
  {
    var p := Percentile(b);
    if idx == |cfg.course| {
      assert cfg.course[..idx] == cfg.course;
      FinishBounds(cfg.course, p);
    } else {
      ConstantCountedTotal(cfg, draws, b, idx + 1);
      assert cfg.course[..idx + 1][..idx] == cfg.course[..idx];
      TimeDefined(cfg.course[idx], p);
      var j := CountedBefore(cfg, idx);
      if cfg.chunkSize > 0 {
        ChunksBound(j, cfg.chunkSize);
      }
      assert draws[DrawUsed(cfg, j)] == b;
      assert SegmentTime(cfg, draws, idx) == TimeAtPercentile(cfg.course[idx], p);
    }
  }

  /**
   * The simulation agrees with the goal predictor: with no resets, every
   * segment counted and one draw throughout, an attempt finishes at the start
   * time plus the finish predicted at that percentile.
   */
  lemma ConstantPercentileAttempt(cfg: Config, draws: seq<nat>, b: nat)
    requires DrawsFit(cfg, draws) && ConstantDraws(draws, b) && cfg.startSplit <= 0
    requires AllWellFormed(cfg.course) && NoResetTimes(cfg)
    ensures Attempt(cfg, draws).Some? && Attempt(cfg, draws).value.Finished?
    ensures FinishAtPercentile(cfg.course, Percentile(b)).Some?
    ensures Attempt(cfg, draws).value.total ==
      cfg.startTime + FinishAtPercentile(cfg.course, Percentile(b)).value
  {
    ConstantCountedTotal(cfg, draws, b, 0);
    assert cfg.course[..0] == [];
    NeverResets(cfg, draws, 0, cfg.startTime);
    FinishedTotal(cfg, draws, 0, cfg.startTime);
  }

  // ---------------------------------------------------------------------------
  // The stopping rule.
  // ---------------------------------------------------------------------------

  /** Attempts made before the rule looks at the success rate. */
  const MinIterations: nat := 10000

  /** Consecutive steady checks needed to stop: 500 with a target rate, 1000 without. */
  function ConvergedAfter(target: Option<real>): nat
  {
    if target.Some? then 500 else 1000
  }

  /** `percentage()`: the success rate in percent. */
  function Percentage(success: nat, count: nat): real
    requires count > 0
  {
    success as real / count as real * 100.0
  }

  /** The rate is within 0.1% of the reference rate. */
  predicate Steady(pct: real, prev: real)
  {
    pct <= prev * 1.001 && pct >= prev * 0.999
  }

  /** The rate is at most half or at least one and a half times the target. */
  predicate OffTarget(pct: real, target: real)
  {
    pct <= target * 0.5 || pct >= target * 1.5
  }

  datatype Decision = Decision(stop: bool, convergence: nat, prev: real)

  /** The check after each attempt: stop or not, and the new streak and reference rate. */
  function Decide(target: Option<real>, count: nat, success: nat, convergence: nat, prev: real): Decision
    requires count > 0
  {
    if count < MinIterations then Decision(false, convergence, prev)
    else
      var pct := Percentage(success, count);
      if target.Some? && OffTarget(pct, target.value) then Decision(true, convergence, prev)
      else if Steady(pct, prev) then
        Decision(convergence + 1 >= ConvergedAfter(target), convergence + 1, prev)
      else Decision(false, 0, pct)
  }

  /** The rate is a percentage. */
  lemma PercentageRange(success: nat, count: nat)
    requires 0 < count && success <= count
    ensures 0.0 <= Percentage(success, count) <= 100.0
  {
    var q := success as real / count as real;
    assert q <= 1.0 by {
      assert count as real * q == success as real;
    }
  }

  /** Nothing stops and nothing changes before the minimum number of attempts. */
  lemma NoStopBeforeMinimum(target: Option<real>, count: nat, success: nat, convergence: nat, prev: real)
    requires 0 < count < MinIterations
    ensures Decide(target, count, success, convergence, prev) == Decision(false, convergence, prev)
  {
  }

  /**
   * A negative reference rate, like the initial -1, is never steady: the first
   * check that gets past the target test adopts the current rate.
   */
  lemma NegativeReferenceUpdates(target: Option<real>, count: nat, success: nat, convergence: nat, prev: real)
    requires MinIterations <= count && success <= count && prev < 0.0
    requires target.Some? ==> !OffTarget(Percentage(success, count), target.value)
    ensures Decide(target, count, success, convergence, prev) == Decision(false, 0, Percentage(success, count))
  {
    PercentageRange(success, count);
  }

  /** The stopping rule in full: off target, or a long enough streak of steady rates. */
  lemma StopRule(target: Option<real>, count: nat, success: nat, convergence: nat, prev: real)
    requires count > 0
    ensures Decide(target, count, success, convergence, prev).stop <==>
      count >= MinIterations &&
      ((target.Some? && OffTarget(Percentage(success, count), target.value)) ||
       (Steady(Percentage(success, count), prev) && convergence + 1 >= ConvergedAfter(target)))
  {
  }

  /** While the simulation goes on, the streak stays below the number needed to stop. */
  lemma StreakBelowThreshold(target: Option<real>, count: nat, success: nat, convergence: nat, prev: real)
    requires count > 0 && convergence < ConvergedAfter(target)
    ensures !Decide(target, count, success, convergence, prev).stop ==>
      Decide(target, count, success, convergence, prev).convergence < ConvergedAfter(target)
  {
  }

  /**
   * After a check that is past the minimum and not off target, the current
   * rate is steady with respect to the new reference rate.
   */
  lemma SteadyAfterCheck(target: Option<real>, count: nat, success: nat, convergence: nat, prev: real)
    requires MinIterations <= count && success <= count
    requires target.Some? ==> !OffTarget(Percentage(success, count), target.value)
    ensures Steady(Percentage(success, count), Decide(target, count, success, convergence, prev).prev)
  {
    PercentageRange(success, count);
  }

  /** Every attempt's draws fit the course. */
  predicate RoundsFit(cfg: Config, rounds: seq<seq<nat>>)
  {
    forall k :: 0 <= k < |rounds| ==> DrawsFit(cfg, rounds[k])
  }

  /**
   * The check after attempt k when every earlier check said go on: the
   * verdict, the streak and the reference rate. For k = 0, the state before
   * the first attempt (streak 0, reference rate -1).
   */
  function CheckAfter(cfg: Config, rounds: seq<seq<nat>>, k: nat): Decision
    requires RoundsFit(cfg, rounds) && k <= |rounds|
  {
    if k == 0 then Decision(false, 0, -1.0)
    else
      var before := CheckAfter(cfg, rounds, k - 1);
      Decide(cfg.target, k, SuccessCount(cfg, rounds[..k]), before.convergence, before.prev)
  }

  /** The check after attempt k + 1 continues from the state the check after attempt k left. */
  lemma CheckAfterStep(cfg: Config, rounds: seq<seq<nat>>, k: nat, success: nat, streak: nat, reference: real)
    requires RoundsFit(cfg, rounds) && k < |rounds|
    requires success == SuccessCount(cfg, rounds[..k + 1])
    requires streak == CheckAfter(cfg, rounds, k).convergence && reference == CheckAfter(cfg, rounds, k).prev
    ensures CheckAfter(cfg, rounds, k + 1) == Decide(cfg.target, k + 1, success, streak, reference)
  {
  }

  /** Each of the first n attempts had an outcome and the check after it said go on. */
  predicate WentOn(cfg: Config, rounds: seq<seq<nat>>, n: nat)
    requires RoundsFit(cfg, rounds) && n <= |rounds|
  {
    forall j :: 0 <= j < n ==> Attempt(cfg, rounds[j]).Some? && !CheckAfter(cfg, rounds, j + 1).stop
  }

  /** One more attempt that has an outcome and whose check says go on extends the run. */
  lemma WentOnStep(cfg: Config, rounds: seq<seq<nat>>, n: nat)
    requires RoundsFit(cfg, rounds) && n < |rounds| && WentOn(cfg, rounds, n)
    requires Attempt(cfg, rounds[n]).Some? && !CheckAfter(cfg, rounds, n + 1).stop
    ensures WentOn(cfg, rounds, n + 1)
  {
  }

  /** Through the first 9999 attempts the checks say go on and the streak and reference rate keep their initial values. */
  lemma {:induction false} QuietStart(cfg: Config, rounds: seq<seq<nat>>, k: nat)
    requires RoundsFit(cfg, rounds) && k <= |rounds| && k < MinIterations
    ensures CheckAfter(cfg, rounds, k) == Decision(false, 0, -1.0)
  {
    if k > 0 {
      QuietStart(cfg, rounds, k - 1);
    }
  }

  // ---------------------------------------------------------------------------
  // The simulator's state.
  // ---------------------------------------------------------------------------

  /**
   * How the loop ends: the check said stop (a steady streak or an off-target
   * rate), an attempt had no outcome, or the draws ran out.
   */
  datatype SimResult = Stopped(percentage: real) | Crashed | DrawsExhausted

  /** A cached time for segment i at bucket b is that segment's time at the bucket's percentile. */
  predicate CachedTime(course: seq<seq<Sample>>, i: nat, b: nat, v: real)
    requires i < |course|
  {
    var t := TimeAtPercentile(course[i], Percentile(b));
    t.Some? && t.value == v
  }

  class Simulator {
    const cfg: Config
    var count: nat
    var success: nat
    var convergence: nat
    var prevPercentage: real
    /** `stored_times`: one row per segment, one entry per bucket. */
    const stored: array2<Option<real>>

    predicate Valid()
      reads this, stored
    {
      stored.Length0 == |cfg.course| && stored.Length1 == Buckets &&
      success <= count &&
      forall i, b :: 0 <= i < stored.Length0 && 0 <= b < stored.Length1 && stored[i, b].Some? ==>
        CachedTime(cfg.course, i, b, stored[i, b].value)
    }

    /** The state at the start of `simulate_runs`: no attempts and an empty cache. */
    constructor(cfg: Config)
      ensures Valid() && this.cfg == cfg
      ensures count == 0 && success == 0 && convergence == 0 && prevPercentage == -1.0
      ensures fresh(stored)
      ensures forall i, b :: 0 <= i < stored.Length0 && 0 <= b < stored.Length1 ==> stored[i, b].None?
    {
      this.cfg := cfg;
      count := 0;
      success := 0;
      convergence := 0;
      prevPercentage := -1.0;
      stored := new Option<real>[|cfg.course|, Buckets]((i, b) => None);
    }

    /**
     * The time of segment idx at the bucket's percentile, from the cache when
     * it holds one; a computed time is cached, an undefined one is not.
     */
    method Lookup(idx: nat, bucket: nat) returns (time: Option<real>)
      requires Valid() && idx < |cfg.course| && bucket < Buckets
      modifies stored
      ensures Valid()
      ensures time == TimeAtPercentile(cfg.course[idx], Percentile(bucket))
      ensures forall i, b :: 0 <= i < stored.Length0 && 0 <= b < stored.Length1 && old(stored[i, b]).Some? ==>
        stored[i, b] == old(stored[i, b])
      ensures stored[idx, bucket] == time || time.None?
    {
      if stored[idx, bucket].Some? {
        time := stored[idx, bucket];
      } else {
        time := TimeAtPercentile(cfg.course[idx], Percentile(bucket));
        if time.Some? {
          stored[idx, bucket] := time;
        }
      }
    }

    /**
     * One attempt. The cache never changes a result, so the outcome is the
     * attempt's function of its draws; entries already cached stay as they are.
     */
    method Iterate(draws: seq<nat>) returns (outcome: Option<Outcome>)
      requires Valid() && DrawsFit(cfg, draws)
      modifies this, stored
      ensures Valid()
      ensures outcome == Attempt(cfg, draws)
      ensures count == old(count) + 1
      ensures success == old(success) + if Succeeded(cfg, outcome) then 1 else 0
      ensures convergence == old(convergence) && prevPercentage == old(prevPercentage)
      ensures forall i, b :: 0 <= i < stored.Length0 && 0 <= b < stored.Length1 && old(stored[i, b]).Some? ==>
        stored[i, b] == old(stored[i, b])
    {
      count := count + 1;
      outcome := RunSegments(draws);
      if outcome.Some? && outcome.value.Finished? && outcome.value.total < cfg.goal {
        success := success + 1;
      }
    }

    /**
     * The loop over the segments of one attempt: skip the segments before the
     * start split, add each counted segment's time at the drawn percentile,
     * stop at a passed reset threshold, and redraw every `chunkSize` counted
     * segments.
     */
    method RunSegments(draws: seq<nat>) returns (outcome: Option<Outcome>)
      requires Valid() && DrawsFit(cfg, draws)
      modifies stored
      ensures Valid()
      ensures outcome == Attempt(cfg, draws)
      ensures forall i, b :: 0 <= i < stored.Length0 && 0 <= b < stored.Length1 && old(stored[i, b]).Some? ==>
        stored[i, b] == old(stored[i, b])
    {
      var sum := cfg.startTime;
      var skip := cfg.startSplit;
      var reroll := cfg.chunkSize;
      var bucket := draws[0];
      var drawn := 1;
      var idx := 0;
      ghost var counted := 0;
      while idx < |cfg.course|
        invariant 0 <= idx <= |cfg.course|
        invariant Valid()
        invariant forall i, b :: 0 <= i < stored.Length0 && 0 <= b < stored.Length1 && old(stored[i, b]).Some? ==>
          stored[i, b] == old(stored[i, b])
        invariant skip == cfg.startSplit - idx
        invariant AttemptFrom(cfg, draws, idx, sum) == Attempt(cfg, draws)
        invariant counted == CountedBefore(cfg, idx)
        invariant RedrawState(cfg.chunkSize, counted, reroll, drawn)
        invariant 1 <= drawn <= counted + 1 && bucket == draws[drawn - 1]
      {
        CountedStep(cfg, idx);
        if skip <= 0 {
          RedrawStep(cfg.chunkSize, counted, reroll, drawn);
          assert bucket == Bucket(cfg, draws, idx);
          var time := Lookup(idx, bucket);
          if time.None? {
            outcome := None;
            return;
          }
          sum := sum + time.value;
          if PastReset(cfg, idx, sum) {
            outcome := Some(ResetAt(idx, sum));
            return;
          }
          reroll := reroll - 1;
          if reroll == 0 {
            bucket := draws[drawn];
            drawn := drawn + 1;
            reroll := cfg.chunkSize;
          }
          counted := counted + 1;
        }
        skip := skip - 1;
        idx := idx + 1;
      }
      outcome := Some(Finished(sum));
    }

    /** The check after an attempt, against the stopping rule. */
    method CheckStop() returns (stop: bool)
      requires Valid() && count > 0
      modifies this
      ensures Valid()
      ensures count == old(count) && success == old(success)
      ensures Decision(stop, convergence, prevPercentage) ==
        Decide(cfg.target, count, success, old(convergence), old(prevPercentage))
    {
      stop := false;
      if count < MinIterations {
        return;
      }
      var pct := Percentage(success, count);
      if cfg.target.Some? && OffTarget(pct, cfg.target.value) {
        stop := true;
      } else if Steady(pct, prevPercentage) {
        convergence := convergence + 1;
        stop := convergence >= ConvergedAfter(cfg.target);
      } else {
        prevPercentage := pct;
        convergence := 0;
      }
    }

    /**
     * The `while True` loop, attempt k using draws `rounds[k]`. It stops at the
     * first attempt that has no outcome or whose check says stop; the draws can
     * run out, which the script's endless supply of random numbers never does.
     */
    method Run(rounds: seq<seq<nat>>) returns (r: SimResult)
      requires Valid() && RoundsFit(cfg, rounds)
      requires count == 0 && success == 0 && convergence == 0 && prevPercentage == -1.0
      modifies this, stored
      ensures Valid()
      ensures count <= |rounds|
      ensures success == SuccessCount(cfg, rounds[..count])
      ensures r.Stopped? ==>
        0 < count && WentOn(cfg, rounds, count - 1) &&
        Attempt(cfg, rounds[count - 1]).Some? && CheckAfter(cfg, rounds, count).stop &&
        MinIterations <= count && r.percentage == Percentage(success, count) && 0.0 <= r.percentage <= 100.0
      ensures r.Crashed? ==>
        0 < count && WentOn(cfg, rounds, count - 1) && Attempt(cfg, rounds[count - 1]).None? &&
        convergence == CheckAfter(cfg, rounds, count - 1).convergence &&
        prevPercentage == CheckAfter(cfg, rounds, count - 1).prev
      ensures r.DrawsExhausted? ==> count == |rounds| && WentOn(cfg, rounds, count)
      ensures !r.Crashed? ==>
        convergence == CheckAfter(cfg, rounds, count).convergence &&
        prevPercentage == CheckAfter(cfg, rounds, count).prev
    {
      while count < |rounds|
        invariant Valid() && count <= |rounds|
        invariant success == SuccessCount(cfg, rounds[..count])
        invariant convergence == CheckAfter(cfg, rounds, count).convergence
        invariant prevPercentage == CheckAfter(cfg, rounds, count).prev
        invariant WentOn(cfg, rounds, count)
        decreases |rounds| - count
      {
        var k := count;
        var outcome := Iterate(rounds[k]);
        assert rounds[..k + 1][..k] == rounds[..k];
        if outcome.None? {
          return Crashed;
        }
        ghost var streak, reference := convergence, prevPercentage;
        var stop := CheckStop();
        CheckAfterStep(cfg, rounds, k, success, streak, reference);
        if stop {
          PercentageRange(success, count);
          return Stopped(Percentage(success, count));
        }
        WentOnStep(cfg, rounds, k);
      }
      return DrawsExhausted;
    }
  }
}
