/**
 * The percentile curve of comp.py: `time_at_percentile` for one segment and
 * `finish_at_percentile` for the whole run.
 *
 * Each sample of a distribution owns half its weight on either side of its
 * position on [0,1]. Below the first sample's half-weight the curve is the
 * first duration, above one minus the last sample's half-weight it is the
 * last duration, and in between it interpolates linearly between adjacent
 * durations.
 */
module Percentiles {
  import opened Wrappers
  import opened Distributions

  /** Linear interpolation from a to b at offset t of a step of width s (the script's expression). */
  function Lerp(a: real, b: real, t: real, s: real): real
    requires s != 0.0
  {
    a + (b - a) * t / s
  }

  /**
   * The loop of `time_at_percentile`: `prev` is the sample before the current
   * pair, `acc` the cumulative weight at `prev`. None when the loop falls off
   * the end (the script then returns None) or divides by a zero step.
   */
  function Walk(prev: Sample, rest: seq<Sample>, acc: real, p: real): Option<real>
    decreases |rest|
  {
    if rest == [] then None
    else
      var next := rest[0];
      var step := (prev.weight + next.weight) / 2.0;
      if acc <= p <= acc + step then
        if step == 0.0 then None
        else Some(Lerp(prev.duration, next.duration, p - acc, step))
      else Walk(next, rest[1..], acc + step, p)
  }

  /**
   * `time_at_percentile`: the predicted duration of a segment at percentile
   * p. None for an empty distribution (an IndexError in the script) and
   * when the walk finds no bracket.
   */
  function TimeAtPercentile(d: seq<Sample>, p: real): Option<real>
  {
    if d == [] then None
    else if p <= d[0].weight / 2.0 then Some(d[0].duration)
    else if p >= 1.0 - d[|d| - 1].weight / 2.0 then Some(d[|d| - 1].duration)
    else Walk(d[0], d[1..], d[0].weight / 2.0, p)
  }

  /** `finish_at_percentile`: the sum over all segments of their time at p. */
  function FinishAtPercentile(course: seq<seq<Sample>>, p: real): Option<real>
  {
    if course == [] then Some(0.0)
    else
      var front := FinishAtPercentile(course[..|course| - 1], p);
      var last := TimeAtPercentile(course[|course| - 1], p);
      if front.Some? && last.Some? then Some(front.value + last.value) else None
  }

  // ---------------------------------------------------------------------------
  // Interpolation arithmetic, one fact per lemma.
  // ---------------------------------------------------------------------------

  lemma LerpLower(a: real, b: real, t: real, s: real)
    requires a <= b && 0.0 <= t && s > 0.0
    ensures a <= Lerp(a, b, t, s)
  {
    MulNonNegative(b - a, t);
    assert (b - a) * t / s >= 0.0;
  }

  lemma LerpUpper(a: real, b: real, t: real, s: real)
    requires a <= b && t <= s && s > 0.0
    ensures Lerp(a, b, t, s) <= b
  {
    MulMono(b - a, t, s);
    assert (b - a) * s / s == b - a;
    DivMono((b - a) * t, (b - a) * s, s);
  }

  lemma MulNonNegative(x: real, y: real)
    requires x >= 0.0 && y >= 0.0
    ensures x * y >= 0.0
  {
  }

  lemma MulMono(c: real, u: real, v: real)
    requires c >= 0.0 && u <= v
    ensures c * u <= c * v
  {
    assert c * v - c * u == c * (v - u);
    MulNonNegative(c, v - u);
  }

  lemma DivMono(x: real, y: real, s: real)
    requires x <= y && s > 0.0
    ensures x / s <= y / s
  {
    assert y / s - x / s == (y - x) / s;
  }

  lemma LerpMono(a: real, b: real, t1: real, t2: real, s: real)
    requires a <= b && t1 <= t2 && s > 0.0
    ensures Lerp(a, b, t1, s) <= Lerp(a, b, t2, s)
  {
    MulMono(b - a, t1, t2);
    DivMono((b - a) * t1, (b - a) * t2, s);
  }

  // ---------------------------------------------------------------------------
  // The walk.
  // ---------------------------------------------------------------------------

  lemma SortedTail(prev: Sample, rest: seq<Sample>)
    requires rest != [] && SortedByDuration([prev] + rest)
    ensures SortedByDuration([rest[0]] + rest[1..])
    ensures prev.duration <= rest[0].duration
    ensures prev.duration <= rest[|rest| - 1].duration
  {
    assert [rest[0]] + rest[1..] == rest;
    assert ([prev] + rest)[0] == prev;
    assert ([prev] + rest)[1] == rest[0];
    assert ([prev] + rest)[|rest|] == rest[|rest| - 1];
    forall i, j | 0 <= i < j < |rest|
      ensures rest[i].duration <= rest[j].duration
    {
      assert ([prev] + rest)[i + 1] == rest[i];
      assert ([prev] + rest)[j + 1] == rest[j];
    }
  }

  /** A result of the walk lies between the sample it starts from and the last one. */
  lemma {:induction false} WalkBounds(prev: Sample, rest: seq<Sample>, acc: real, p: real)
    requires SortedByDuration([prev] + rest)
    requires Walk(prev, rest, acc, p).Some?
    ensures prev.duration <= Walk(prev, rest, acc, p).value
    ensures rest != [] && Walk(prev, rest, acc, p).value <= rest[|rest| - 1].duration
    decreases |rest|
  {
    var next := rest[0];
    var step := (prev.weight + next.weight) / 2.0;
    SortedTail(prev, rest);
    if acc <= p <= acc + step {
      LerpLower(prev.duration, next.duration, p - acc, step);
      LerpUpper(prev.duration, next.duration, p - acc, step);
      if |rest| > 1 {
        SortedTail(next, rest[1..]);
      }
    } else {
      WalkBounds(next, rest[1..], acc + step, p);
    }
  }

  /** Some two adjacent durations of s enclose r. */
  predicate Bracketed(s: seq<Sample>, r: real)
  {
    exists j :: 0 <= j < |s| - 1 && s[j].duration <= r <= s[j + 1].duration
  }

  lemma BracketedCons(prev: Sample, rest: seq<Sample>, r: real)
    requires Bracketed(rest, r)
    ensures Bracketed([prev] + rest, r)
  {
    var j :| 0 <= j < |rest| - 1 && rest[j].duration <= r <= rest[j + 1].duration;
    assert ([prev] + rest)[j + 1] == rest[j];
    assert ([prev] + rest)[j + 2] == rest[j + 1];
  }

  /** A result of the walk lies between two adjacent durations. */
  lemma {:induction false} WalkBetween(prev: Sample, rest: seq<Sample>, acc: real, p: real)
    requires SortedByDuration([prev] + rest)
    requires Walk(prev, rest, acc, p).Some?
    ensures Bracketed([prev] + rest, Walk(prev, rest, acc, p).value)
    decreases |rest|
  {
    var next := rest[0];
    var step := (prev.weight + next.weight) / 2.0;
    var r := Walk(prev, rest, acc, p).value;
    SortedTail(prev, rest);
    if acc <= p <= acc + step {
      LerpLower(prev.duration, next.duration, p - acc, step);
      LerpUpper(prev.duration, next.duration, p - acc, step);
      var s := [prev] + rest;
      assert s[0] == prev && s[1] == next;
      assert s[0].duration <= r <= s[1].duration;
    } else {
      WalkBetween(next, rest[1..], acc + step, p);
      assert [next] + rest[1..] == rest;
      BracketedCons(prev, rest, r);
    }
  }

  /** Total weight seen from the front: the first weight plus the rest. */
  lemma {:induction false} WeightSumCons(x: Sample, s: seq<Sample>)
    ensures WeightSum([x] + s) == x.weight + WeightSum(s)
    decreases |s|
  {
    if s != [] {
      var s' := s[..|s| - 1];
      assert ([x] + s)[..|s|] == [x] + s';
      WeightSumCons(x, s');
    }
  }

  /**
   * The walk returns whenever p lies in the range its brackets cover: from
   * `acc` to the last sample's position.
   */
  lemma {:induction false} WalkDefined(prev: Sample, rest: seq<Sample>, acc: real, p: real)
    requires rest != [] && prev.weight > 0.0 && PositiveWeights(rest)
    requires acc <= p <= acc + prev.weight / 2.0 + WeightSum(rest) - rest[|rest| - 1].weight / 2.0
    ensures Walk(prev, rest, acc, p).Some?
    decreases |rest|
  {
    var next := rest[0];
    var step := (prev.weight + next.weight) / 2.0;
    WeightSumCons(next, rest[1..]);
    assert [next] + rest[1..] == rest;
    if p > acc + step {
      assert |rest| > 1;
      WalkDefined(next, rest[1..], acc + step, p);
    }
  }

  /** From a later start, the walk gives a value no smaller. */
  lemma {:induction false} WalkMono(prev: Sample, rest: seq<Sample>, acc: real, p: real, q: real)
    requires SortedByDuration([prev] + rest)
    requires acc <= p <= q
    requires Walk(prev, rest, acc, p).Some? && Walk(prev, rest, acc, q).Some?
    ensures Walk(prev, rest, acc, p).value <= Walk(prev, rest, acc, q).value
    decreases |rest|
  {
    var next := rest[0];
    var step := (prev.weight + next.weight) / 2.0;
    SortedTail(prev, rest);
    if p <= acc + step {
      var rp := Walk(prev, rest, acc, p).value;
      LerpUpper(prev.duration, next.duration, p - acc, step);
      if q <= acc + step {
        LerpMono(prev.duration, next.duration, p - acc, q - acc, step);
      } else {
        WalkBounds(next, rest[1..], acc + step, q);
      }
    } else {
      WalkMono(next, rest[1..], acc + step, p, q);
    }
  }

  // ---------------------------------------------------------------------------
  // Properties of the curve.
  // ---------------------------------------------------------------------------

  /** At or below the first sample's half-weight the curve is the shortest duration. */
  lemma AtBottom(d: seq<Sample>, p: real)
    requires d != [] && p <= d[0].weight / 2.0
    ensures TimeAtPercentile(d, p) == Some(d[0].duration)
  {
  }

  /** At or above one minus the last sample's half-weight (and past the first) it is the longest. */
  lemma AtTop(d: seq<Sample>, p: real)
    requires d != [] && p > d[0].weight / 2.0 && p >= 1.0 - d[|d| - 1].weight / 2.0
    ensures TimeAtPercentile(d, p) == Some(d[|d| - 1].duration)
  {
  }

  /** On a well-formed distribution the curve is defined at every p. */
  lemma TimeDefined(d: seq<Sample>, p: real)
    requires WellFormed(d)
    ensures TimeAtPercentile(d, p).Some?
  {
    if d[0].weight / 2.0 < p < 1.0 - d[|d| - 1].weight / 2.0 {
      var rest := d[1..];
      assert [d[0]] + rest == d;
      WeightSumCons(d[0], rest);
      assert |rest| > 0;
      assert d[|d| - 1] == rest[|rest| - 1];
      WalkDefined(d[0], rest, d[0].weight / 2.0, p);
    }
  }

  /**
   * Strictly between the two end regions the curve interpolates two adjacent
   * durations, so its value lies between them.
   */
  lemma BetweenAdjacent(d: seq<Sample>, p: real)
    requires WellFormed(d)
    requires d[0].weight / 2.0 < p < 1.0 - d[|d| - 1].weight / 2.0
    ensures TimeAtPercentile(d, p).Some? && Bracketed(d, TimeAtPercentile(d, p).value)
  {
    TimeDefined(d, p);
    assert [d[0]] + d[1..] == d;
    WalkBetween(d[0], d[1..], d[0].weight / 2.0, p);
  }

  /** The curve stays between the shortest and the longest duration. */
  lemma TimeBounds(d: seq<Sample>, p: real)
    requires WellFormed(d)
    ensures TimeAtPercentile(d, p).Some?
    ensures d[0].duration <= TimeAtPercentile(d, p).value <= d[|d| - 1].duration
  {
    TimeDefined(d, p);
    if d[0].weight / 2.0 < p < 1.0 - d[|d| - 1].weight / 2.0 {
      assert [d[0]] + d[1..] == d;
      WalkBounds(d[0], d[1..], d[0].weight / 2.0, p);
    }
  }

  /** The curve is non-decreasing in p. */
  lemma TimeMonotone(d: seq<Sample>, p: real, q: real)
    requires WellFormed(d) && p <= q
    ensures TimeAtPercentile(d, p).Some? && TimeAtPercentile(d, q).Some?
    ensures TimeAtPercentile(d, p).value <= TimeAtPercentile(d, q).value
  {
    TimeBounds(d, p);
    TimeBounds(d, q);
    var lo := d[0].weight / 2.0;
    var hi := 1.0 - d[|d| - 1].weight / 2.0;
    if lo < p < hi && lo < q < hi {
      assert [d[0]] + d[1..] == d;
      WalkMono(d[0], d[1..], lo, p, q);
    }
  }

  predicate AllWellFormed(course: seq<seq<Sample>>)
  {
    forall i :: 0 <= i < |course| ==> WellFormed(course[i])
  }

  /** Sum of each segment's shortest duration. */
  function FastestTotal(course: seq<seq<Sample>>): real
    requires AllWellFormed(course)
  {
    if course == [] then 0.0
    else FastestTotal(course[..|course| - 1]) + course[|course| - 1][0].duration
  }

  /** Sum of each segment's longest duration. */
  function SlowestTotal(course: seq<seq<Sample>>): real
    requires AllWellFormed(course)
  {
    if course == [] then 0.0
    else
      var last := course[|course| - 1];
      SlowestTotal(course[..|course| - 1]) + last[|last| - 1].duration
  }

  /** The predicted total is defined and lies between the fastest and slowest totals. */
  lemma {:induction false} FinishBounds(course: seq<seq<Sample>>, p: real)
    requires AllWellFormed(course)
    ensures FinishAtPercentile(course, p).Some?
    ensures FastestTotal(course) <= FinishAtPercentile(course, p).value <= SlowestTotal(course)
  {
    if course != [] {
      FinishBounds(course[..|course| - 1], p);
      TimeBounds(course[|course| - 1], p);
    }
  }

  /** The predicted total is non-decreasing in p. */
  lemma {:induction false} FinishMonotone(course: seq<seq<Sample>>, p: real, q: real)
    requires AllWellFormed(course) && p <= q
    ensures FinishAtPercentile(course, p).Some? && FinishAtPercentile(course, q).Some?
    ensures FinishAtPercentile(course, p).value <= FinishAtPercentile(course, q).value
  {
    if course != [] {
      FinishMonotone(course[..|course| - 1], p, q);
      TimeMonotone(course[|course| - 1], p, q);
    }
  }

  /** Three equally weighted samples 10, 20, 30 s: the median is 20 s, and two such segments give 40 s. */
  lemma EqualThirds()
    ensures TimeAtPercentile(Thirds(), 0.5) == Some(20.0)
    ensures FinishAtPercentile([Thirds(), Thirds()], 0.5) == Some(40.0)
  {
    var d := Thirds();
    assert d[1..] == [Sample(20.0, 1.0 / 3.0), Sample(30.0, 1.0 / 3.0)];
    assert Walk(d[0], d[1..], 1.0 / 6.0, 0.5) == Some(Lerp(10.0, 20.0, 0.5 - 1.0 / 6.0, 1.0 / 3.0));
    assert Lerp(10.0, 20.0, 0.5 - 1.0 / 6.0, 1.0 / 3.0) == 20.0;
    assert [Thirds(), Thirds()][..1] == [Thirds()];
    assert [Thirds()][..0] == [];
  }

  function Thirds(): seq<Sample>
  {
    [Sample(10.0, 1.0 / 3.0), Sample(20.0, 1.0 / 3.0), Sample(30.0, 1.0 / 3.0)]
  }
}
