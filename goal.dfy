/**
 * `find_goal_splits.search` of comp.py: bisection on the percentile until the
 * predicted finish time is within a tenth of a second of the goal.
 */
module GoalSearch {
  import opened Wrappers
  import opened Distributions
  import opened Percentiles

  datatype GoalError =
    | Unreachable   // the recursion runs out of depth: no percentile in the bracket gets close enough
    | NoPrediction  // the finish time at the probed percentile is undefined

  /** How close (in seconds) the predicted finish must come to the goal. */
  const Tolerance: real := 0.1

  /** The recursion depth at which the interpreter gives up (its default limit). */
  const MaxDepth: nat := 1000

  datatype Bracket = Bracket(lo: real, hi: real)
  {
    function Mid(): real { (lo + hi) / 2.0 }
    function Width(): real { hi - lo }
  }

  function Abs(x: real): real { if x < 0.0 then -x else x }

  /**
   * One bisection step: a finish slower than the goal moves the top of the
   * bracket down to the midpoint, otherwise the bottom moves up to it.
   */
  function Narrow(b: Bracket, finish: real, goal: real): (r: Bracket)
    requires b.lo <= b.hi
    ensures b.lo <= r.lo <= r.hi <= b.hi
    ensures r.Width() == b.Width() / 2.0
    ensures finish > goal ==> r.lo == b.lo && r.hi == b.Mid()
    ensures finish <= goal ==> r.lo == b.Mid() && r.hi == b.hi
  {
    if finish > goal then Bracket(b.lo, b.hi - (b.hi - b.lo) / 2.0)
    else Bracket(b.lo + (b.hi - b.lo) / 2.0, b.hi)
  }

  /** The recursive `search(min, max)`, with its remaining depth as fuel. */
  function Search(course: seq<seq<Sample>>, goal: real, b: Bracket, fuel: nat): Result<real, GoalError>
    requires b.lo <= b.hi
    decreases fuel
  {
    if fuel == 0 then Err(Unreachable)
    else
      var p := b.Mid();
      var result := FinishAtPercentile(course, p);
      if result.None? then Err(NoPrediction)
      else if Abs(result.value - goal) < Tolerance then Ok(p)
      else Search(course, goal, Narrow(b, result.value, goal), fuel - 1)
  }

  /** `search(0, 1)`. */
  function FindGoalPercentile(course: seq<seq<Sample>>, goal: real): Result<real, GoalError>
  {
    Search(course, goal, Bracket(0.0, 1.0), MaxDepth)
  }

  /** The solutions: percentiles of the bracket whose finish is within tolerance of the goal. */
  predicate IsSolution(course: seq<seq<Sample>>, goal: real, p: real)
  {
    FinishAtPercentile(course, p).Some? && Abs(FinishAtPercentile(course, p).value - goal) < Tolerance
  }

  /** A returned percentile lies inside the bracket and meets the goal. */
  lemma {:induction false} SearchSound(course: seq<seq<Sample>>, goal: real, b: Bracket, fuel: nat)
    requires b.lo <= b.hi
    requires Search(course, goal, b, fuel).Ok?
    ensures b.lo <= Search(course, goal, b, fuel).value <= b.hi
    ensures IsSolution(course, goal, Search(course, goal, b, fuel).value)
    decreases fuel
  {
    var p := b.Mid();
    var result := FinishAtPercentile(course, p);
    if Abs(result.value - goal) >= Tolerance {
      SearchSound(course, goal, Narrow(b, result.value, goal), fuel - 1);
    }
  }

  /** The percentile found by `search(0, 1)` is a percentile and meets the goal. */
  lemma GoalPercentileSound(course: seq<seq<Sample>>, goal: real)
    requires FindGoalPercentile(course, goal).Ok?
    ensures 0.0 <= FindGoalPercentile(course, goal).value <= 1.0
    ensures IsSolution(course, goal, FindGoalPercentile(course, goal).value)
  {
    SearchSound(course, goal, Bracket(0.0, 1.0), MaxDepth);
  }

  /** A goal equal to the total predicted at the median is met by the very first probe, at the median. */
  lemma MedianRoundTrip(course: seq<seq<Sample>>)
    requires AllWellFormed(course)
    ensures FinishAtPercentile(course, 0.5).Some?
    ensures FindGoalPercentile(course, FinishAtPercentile(course, 0.5).value) == Ok(0.5)
  {
    FinishBounds(course, 0.5);
  }

  /** Two segments of equally weighted 10, 20 and 30 s: a goal of 40 s is met at the median. */
  lemma EqualThirdsGoal()
    ensures FindGoalPercentile([Thirds(), Thirds()], 40.0) == Ok(0.5)
  {
    EqualThirds();
  }

  /**
   * The step keeps every solution: since the finish time only grows with the
   * percentile, a finish too slow at the midpoint rules out the upper half and
   * one too fast rules out the lower half.
   */
  lemma NarrowKeepsSolutions(course: seq<seq<Sample>>, goal: real, b: Bracket, q: real)
    requires AllWellFormed(course) && b.lo <= b.hi
    requires b.lo <= q <= b.hi && IsSolution(course, goal, q)
    requires FinishAtPercentile(course, b.Mid()).Some? && !IsSolution(course, goal, b.Mid())
    ensures Narrow(b, FinishAtPercentile(course, b.Mid()).value, goal).lo <= q
    ensures q <= Narrow(b, FinishAtPercentile(course, b.Mid()).value, goal).hi
  {
    var m := b.Mid();
    if q < m {
      FinishMonotone(course, q, m);
    } else if q > m {
      FinishMonotone(course, m, q);
    }
  }

  /** With the fuel gone the search fails. */
  lemma OutOfDepth(course: seq<seq<Sample>>, goal: real, b: Bracket)
    requires b.lo <= b.hi
    ensures Search(course, goal, b, 0) == Err(Unreachable)
  {
  }

  /** A goal faster than the finish at percentile 0 (less the tolerance) is never met. */
  lemma {:induction false} GoalTooFast(course: seq<seq<Sample>>, goal: real, b: Bracket, fuel: nat)
    requires AllWellFormed(course) && 0.0 <= b.lo <= b.hi
    requires FinishAtPercentile(course, 0.0).Some?
    requires goal + Tolerance <= FinishAtPercentile(course, 0.0).value
    ensures Search(course, goal, b, fuel).Err?
  {
    if Search(course, goal, b, fuel).Ok? {
      SearchSound(course, goal, b, fuel);
      FinishMonotone(course, 0.0, Search(course, goal, b, fuel).value);
    }
  }

  /** A goal slower than the finish at percentile 1 (plus the tolerance) is never met. */
  lemma {:induction false} GoalTooSlow(course: seq<seq<Sample>>, goal: real, b: Bracket, fuel: nat)
    requires AllWellFormed(course) && b.lo <= b.hi <= 1.0
    requires FinishAtPercentile(course, 1.0).Some?
    requires FinishAtPercentile(course, 1.0).value + Tolerance <= goal
    ensures Search(course, goal, b, fuel).Err?
  {
    if Search(course, goal, b, fuel).Ok? {
      SearchSound(course, goal, b, fuel);
      FinishMonotone(course, Search(course, goal, b, fuel).value, 1.0);
    }
  }
}
