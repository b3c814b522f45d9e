/**
 * The segment distribution builder of comp.py (the loop over the splits
 * file's segments).
 *
 * For each segment the builder walks the segment's history from the most
 * recent attempt to the oldest. Every attempt with a recorded time whose id
 * was not skipped in the previous segment becomes a sample. The first sample
 * gets weight 1. Each later one gets the previous weight times the
 * multiplier (geometric weighting), or the previous weight minus 1/n, where
 * n counts every history entry of the segment (linear weighting). Attempts
 * without a time are remembered as skips for the next segment only. The
 * samples are then sorted by duration and their weights divided by their
 * sum.
 */
module Distributions {
  import opened Wrappers

  /** One entry of a segment's history: the attempt id and its time, if one was recorded. */
  datatype Entry = Entry(id: string, time: Option<real>)

  /** Recency weighting: `-w <mul>` (geometric, the default) or `--linear`. */
  datatype Weighting = Geometric(mul: real) | Linear

  /** The multiplier used when `-w` is not given. */
  const DefaultMultiplier: real := 0.75

  /** One (duration, weight) pair of a segment's distribution. */
  datatype Sample = Sample(duration: real, weight: real)

  /** Dividing by a weight sum of zero (a ZeroDivisionError in the script). */
  datatype BuildError = ZeroWeightSum

  // ---------------------------------------------------------------------------
  // Which attempts become samples, and which are skips.
  // ---------------------------------------------------------------------------

  /** An entry is sampled when it has a time and its id was not skipped just before. */
  predicate IsUsable(e: Entry, skipsPrev: seq<string>)
  {
    e.time.Some? && e.id !in skipsPrev
  }

  /** The times of the usable entries, most recent first (histories are oldest first). */
  function UsableTimes(history: seq<Entry>, skipsPrev: seq<string>): (ts: seq<real>)
    ensures |ts| <= |history|
  {
    if |history| == 0 then []
    else
      UsableTimes(history[1..], skipsPrev) +
      (if IsUsable(history[0], skipsPrev) then [history[0].time.value] else [])
  }

  /** The ids of the entries without a time, most recent first. */
  function SkippedIds(history: seq<Entry>): seq<string>
  {
    if |history| == 0 then []
    else SkippedIds(history[1..]) + (if history[0].time.None? then [history[0].id] else [])
  }

  /** The skips a segment sees: those of the segment just before it, and no others. */
  function SkipsBefore(histories: seq<seq<Entry>>, i: nat): seq<string>
    requires i < |histories|
  {
    if i == 0 then [] else SkippedIds(histories[i - 1])
  }

  // ---------------------------------------------------------------------------
  // Recency weights.
  // ---------------------------------------------------------------------------

  function Pow(x: real, k: nat): real
  {
    if k == 0 then 1.0 else Pow(x, k - 1) * x
  }

  /**
   * The weight of the k-th sample, counting from the most recent (k = 0), in
   * a segment with n history entries.
   */
  function RecencyWeight(w: Weighting, n: nat, k: nat): real
    requires n > 0
  {
    match w
    case Geometric(m) => Pow(m, k)
    case Linear => 1.0 - k as real / n as real
  }

  /**
   * The samples of a history walked oldest last: each usable entry, newest
   * first, weighted by its rank among the usable entries before it. `n`
   * counts the entries of the whole history.
   */
  function Weighed(history: seq<Entry>, skipsPrev: seq<string>, w: Weighting, n: nat): (r: seq<Sample>)
    requires |history| <= n
  {
    if |history| == 0 then []
    else
      var rest := Weighed(history[1..], skipsPrev, w, n);
      rest + if IsUsable(history[0], skipsPrev) then [Sample(history[0].time.value, RecencyWeight(w, n, |rest|))] else []
  }

  /** The samples of one segment before sorting: usable times with their recency weights. */
  function RawSamples(history: seq<Entry>, skipsPrev: seq<string>, w: Weighting): seq<Sample>
  {
    Weighed(history, skipsPrev, w, |history|)
  }

  /** The k-th sample is the k-th usable time, newest first, with the k-th recency weight. */
  lemma {:induction false} WeighedAt(history: seq<Entry>, skipsPrev: seq<string>, w: Weighting, n: nat)
    requires |history| <= n
    ensures |Weighed(history, skipsPrev, w, n)| == |UsableTimes(history, skipsPrev)|
    ensures forall k :: 0 <= k < |Weighed(history, skipsPrev, w, n)| ==>
      Weighed(history, skipsPrev, w, n)[k] == Sample(UsableTimes(history, skipsPrev)[k], RecencyWeight(w, n, k))
  {
    if history != [] {
      WeighedAt(history[1..], skipsPrev, w, n);
    }
  }

  /**
   * The inner loop of the builder: walk the history newest first, keeping a
   * running weight, appending samples and recording skips.
   */
  method CollectSamples(history: seq<Entry>, skipsPrev: seq<string>, w: Weighting)
    returns (samples: seq<Sample>, skips: seq<string>)
    ensures skips == SkippedIds(history)
    ensures samples == RawSamples(history, skipsPrev, w)
  {
    var n := |history|;
    var weight := 1.0;
    samples, skips := [], [];
    var i := n;
    while i > 0
      invariant 0 <= i <= n
      invariant samples == Weighed(history[i..], skipsPrev, w, n)
      invariant n > 0 ==> weight == RecencyWeight(w, n, |samples|)
      invariant skips == SkippedIds(history[i..])
    {
      i := i - 1;
      var e := history[i];
      assert history[i..][1..] == history[i + 1..];
      if e.time.Some? && e.id !in skipsPrev {
        samples := samples + [Sample(e.time.value, weight)];
        match w
        case Linear =>
          LinearStep(n, |samples| - 1);
          weight := weight - 1.0 / n as real;
        case Geometric(m) =>
          weight := weight * m;
      } else if e.time.None? {
        skips := skips + [e.id];
      }
    }
    assert history[0..] == history;
  }

  lemma LinearStep(n: nat, k: nat)
    requires n > 0
    ensures RecencyWeight(Linear, n, k) - 1.0 / n as real == RecencyWeight(Linear, n, k + 1)
  {
    assert (k + 1) as real / n as real == k as real / n as real + 1.0 / n as real;
  }

  // ---------------------------------------------------------------------------
  // Sorting and normalising.
  // ---------------------------------------------------------------------------

  predicate SortedByDuration(s: seq<Sample>)
  {
    forall i, j :: 0 <= i < j < |s| ==> s[i].duration <= s[j].duration
  }

  /** Places x before the first sample that is not shorter (keeps equal durations in order). */
  function Insert(x: Sample, sorted: seq<Sample>): (r: seq<Sample>)
    ensures |r| == |sorted| + 1
  {
    if |sorted| == 0 || x.duration <= sorted[0].duration then [x] + sorted
    else [sorted[0]] + Insert(x, sorted[1..])
  }

  /** A stable sort by duration (the script's `splits.sort(key=duration)`). */
  function SortByDuration(s: seq<Sample>): (r: seq<Sample>)
    ensures |r| == |s|
  {
    if |s| == 0 then [] else Insert(s[0], SortByDuration(s[1..]))
  }

  /** Inserting adds exactly x. */
  lemma {:induction false} InsertPermutation(x: Sample, s: seq<Sample>)
    ensures multiset(Insert(x, s)) == multiset(s) + multiset{x}
  {
    if |s| > 0 && x.duration > s[0].duration {
      InsertPermutation(x, s[1..]);
      assert s == [s[0]] + s[1..];
    }
  }

  /** A lower bound of x and of every element of s bounds every element of the result. */
  lemma {:induction false} InsertLowerBound(x: Sample, s: seq<Sample>, b: real)
    requires b <= x.duration
    requires forall k :: 0 <= k < |s| ==> b <= s[k].duration
    ensures forall k :: 0 <= k < |Insert(x, s)| ==> b <= Insert(x, s)[k].duration
  {
    if |s| > 0 && x.duration > s[0].duration {
      InsertLowerBound(x, s[1..], b);
    }
  }

  /** Inserting into a sorted list keeps it sorted. */
  lemma {:induction false} InsertSorted(x: Sample, s: seq<Sample>)
    requires SortedByDuration(s)
    ensures SortedByDuration(Insert(x, s))
  {
    if |s| > 0 && x.duration > s[0].duration {
      var rest := Insert(x, s[1..]);
      InsertSorted(x, s[1..]);
      InsertLowerBound(x, s[1..], s[0].duration);
      assert Insert(x, s) == [s[0]] + rest;
    }
  }

  /** The sort orders by duration. */
  lemma {:induction false} SortSorted(s: seq<Sample>)
    ensures SortedByDuration(SortByDuration(s))
  {
    if |s| > 0 {
      SortSorted(s[1..]);
      InsertSorted(s[0], SortByDuration(s[1..]));
    }
  }

  /** The sort only permutes. */
  lemma {:induction false} SortPermutation(s: seq<Sample>)
    ensures multiset(SortByDuration(s)) == multiset(s)
  {
    if |s| > 0 {
      SortPermutation(s[1..]);
      InsertPermutation(s[0], SortByDuration(s[1..]));
      assert s == [s[0]] + s[1..];
    }
  }

  /** Python's `sum` of the weights, left to right. */
  function WeightSum(s: seq<Sample>): real
  {
    if |s| == 0 then 0.0 else WeightSum(s[..|s| - 1]) + s[|s| - 1].weight
  }

  /** Every weight divided by `total`. */
  function Scale(s: seq<Sample>, total: real): (r: seq<Sample>)
    requires total != 0.0
    ensures |r| == |s|
    ensures forall k :: 0 <= k < |r| ==> r[k] == Sample(s[k].duration, s[k].weight / total)
  {
    seq(|s|, k requires 0 <= k < |s| => Sample(s[k].duration, s[k].weight / total))
  }

  /**
   * Divide the weights by their sum. An empty list stays empty (nothing is
   * divided); a non-empty list whose weights sum to zero is an error.
   */
  function Normalise(s: seq<Sample>): (r: Result<seq<Sample>, BuildError>)
  {
    if |s| == 0 then Ok([])
    else if WeightSum(s) == 0.0 then Err(ZeroWeightSum)
    else Ok(Scale(s, WeightSum(s)))
  }

  /** The distribution of segment i of the course. */
  function SegmentDistribution(histories: seq<seq<Entry>>, i: nat, w: Weighting): Result<seq<Sample>, BuildError>
    requires i < |histories|
  {
    Normalise(SortByDuration(RawSamples(histories[i], SkipsBefore(histories, i), w)))
  }

  /**
   * The per-segment results gathered into one course: the list of
   * distributions when every segment has one, else the first error.
   */
  function Collect(ds: seq<Result<seq<Sample>, BuildError>>): Result<seq<seq<Sample>>, BuildError>
  {
    if |ds| == 0 then Ok([])
    else
      var front := Collect(ds[..|ds| - 1]);
      var d := ds[|ds| - 1];
      if front.Err? then front
      else if d.Err? then Err(d.error)
      else Ok(front.value + [d.value])
  }

  /** The distribution of every segment, each on its own. */
  function SegmentResults(histories: seq<seq<Entry>>, w: Weighting): seq<Result<seq<Sample>, BuildError>>
  {
    seq(|histories|, i requires 0 <= i < |histories| => SegmentDistribution(histories, i, w))
  }

  /** The whole course, or the first error met while building it. */
  function Course(histories: seq<seq<Entry>>, w: Weighting): Result<seq<seq<Sample>>, BuildError>
  {
    Collect(SegmentResults(histories, w))
  }

  /** The builder's outer loop over the segments, carrying the previous segment's skips. */
  method BuildCourse(histories: seq<seq<Entry>>, w: Weighting)
    returns (r: Result<seq<seq<Sample>>, BuildError>)
    ensures r == Course(histories, w)
  {
    var segments: seq<seq<Sample>> := [];
    var skipsPrev: seq<string> := [];
    var i := 0;
    while i < |histories|
      invariant 0 <= i <= |histories|
      invariant i < |histories| ==> skipsPrev == SkipsBefore(histories, i)
      invariant Collect(SegmentResults(histories, w)[..i]) == Ok(segments)
    {
      var samples, skips := CollectSamples(histories[i], skipsPrev, w);
      var d := Normalise(SortByDuration(samples));
      assert d == SegmentDistribution(histories, i, w);
      var all := SegmentResults(histories, w);
      var ds := all[..i + 1];
      assert ds[..|ds| - 1] == all[..i];
      if d.Err? {
        CollectKeepsError(all, i + 1);
        return Err(d.error);
      }
      segments := segments + [d.value];
      skipsPrev := skips;
      i := i + 1;
    }
    assert SegmentResults(histories, w)[..i] == SegmentResults(histories, w);
    r := Ok(segments);
  }

  /** A result list is collected to its first error or through to the end. */
  lemma {:induction false} CollectSucceeds(ds: seq<Result<seq<Sample>, BuildError>>)
    requires Collect(ds).Ok?
    ensures |Collect(ds).value| == |ds|
    ensures forall i :: 0 <= i < |ds| ==> ds[i] == Ok(Collect(ds).value[i])
  {
    if ds != [] {
      CollectSucceeds(ds[..|ds| - 1]);
    }
  }

  /** Collecting fails exactly when some result is an error, and then with the first one. */
  lemma {:induction false} CollectFails(ds: seq<Result<seq<Sample>, BuildError>>)
    ensures Collect(ds).Err? <==> exists i :: 0 <= i < |ds| && ds[i].Err?
  {
    if ds != [] {
      var front := ds[..|ds| - 1];
      CollectFails(front);
      if Collect(front).Ok? {
        CollectSucceeds(front);
      } else {
        var i :| 0 <= i < |front| && front[i].Err?;
        assert ds[i] == front[i];
      }
    }
  }

  /** Once a prefix of the results has failed, later results do not change the outcome. */
  lemma {:induction false} CollectKeepsError(ds: seq<Result<seq<Sample>, BuildError>>, n: nat)
    requires n <= |ds| && Collect(ds[..n]).Err?
    ensures Collect(ds) == Collect(ds[..n])
    decreases |ds| - n
  {
    if n < |ds| {
      var front := ds[..n + 1];
      assert front[..n] == ds[..n];
      assert front[..|front| - 1] == ds[..n];
      CollectKeepsError(ds, n + 1);
    } else {
      assert ds[..n] == ds;
    }
  }

  /** A built course has one distribution per segment, each that segment's distribution. */
  lemma CourseSegments(histories: seq<seq<Entry>>, w: Weighting)
    requires Course(histories, w).Ok?
    ensures |Course(histories, w).value| == |histories|
    ensures forall i :: 0 <= i < |histories| ==> SegmentDistribution(histories, i, w) == Ok(Course(histories, w).value[i])
  {
    CollectSucceeds(SegmentResults(histories, w));
  }

  /** Building fails exactly when some segment's distribution fails. */
  lemma CourseFails(histories: seq<seq<Entry>>, w: Weighting)
    ensures Course(histories, w).Err? <==>
      exists i :: 0 <= i < |histories| && SegmentDistribution(histories, i, w).Err?
  {
    var ds := SegmentResults(histories, w);
    CollectFails(ds);
    if Course(histories, w).Err? {
      var i :| 0 <= i < |ds| && ds[i].Err?;
      assert SegmentDistribution(histories, i, w).Err?;
    } else {
      forall i | 0 <= i < |histories|
        ensures SegmentDistribution(histories, i, w).Ok?
      {
        assert ds[i] == SegmentDistribution(histories, i, w);
      }
    }
  }

  // ---------------------------------------------------------------------------
  // Properties.
  // ---------------------------------------------------------------------------

  /** The most recent usable attempt gets weight 1 under either weighting. */
  lemma MostRecentWeighsOne(w: Weighting, n: nat)
    requires n > 0
    ensures RecencyWeight(w, n, 0) == 1.0
  {
  }

  /** Geometric: each further sample weighs the previous weight times the multiplier. */
  lemma GeometricRatio(m: real, n: nat, k: nat)
    requires n > 0
    ensures RecencyWeight(Geometric(m), n, k + 1) == RecencyWeight(Geometric(m), n, k) * m
  {
  }

  /** Linear: each further sample weighs exactly 1/n less. */
  lemma LinearDecrement(n: nat, k: nat)
    requires n > 0
    ensures RecencyWeight(Linear, n, k + 1) == RecencyWeight(Linear, n, k) - 1.0 / n as real
  {
    LinearStep(n, k);
  }

  lemma {:induction false} PowPositive(x: real, k: nat)
    requires x > 0.0
    ensures Pow(x, k) > 0.0
  {
    if k > 0 {
      PowPositive(x, k - 1);
    }
  }

  /** With a multiplier in (0,1) the geometric weights strictly decrease and stay positive. */
  lemma GeometricDecreasing(m: real, n: nat, k: nat)
    requires 0.0 < m < 1.0 && n > 0
    ensures RecencyWeight(Geometric(m), n, k + 1) < RecencyWeight(Geometric(m), n, k)
  {
    PowPositive(m, k);
    ShrinkByFactor(Pow(m, k), m, Pow(m, k + 1));
  }

  lemma ShrinkByFactor(p: real, m: real, q: real)
    requires p > 0.0 && m < 1.0 && q == p * m
    ensures q < p
  {
    assert p - p * m == p * (1.0 - m);
    assert p * (1.0 - m) > 0.0;
  }

  /** Valid weightings: linear, or geometric with a positive multiplier. */
  predicate PositiveWeighting(w: Weighting)
  {
    w.Geometric? ==> w.mul > 0.0
  }

  /** The default weighting (`-w` absent) is valid, and its weights are positive and strictly decrease with age. */
  lemma DefaultWeighting(n: nat, k: nat)
    requires n > 0
    ensures PositiveWeighting(Geometric(DefaultMultiplier))
    ensures 0.0 < RecencyWeight(Geometric(DefaultMultiplier), n, k + 1) < RecencyWeight(Geometric(DefaultMultiplier), n, k)
  {
    PowPositive(DefaultMultiplier, k + 1);
    GeometricDecreasing(DefaultMultiplier, n, k);
  }

  /** Every sample of a valid weighting has positive weight (k < n for linear). */
  lemma WeightPositive(w: Weighting, n: nat, k: nat)
    requires PositiveWeighting(w) && k < n
    ensures RecencyWeight(w, n, k) > 0.0
  {
    match w
    case Geometric(m) => PowPositive(m, k);
    case Linear =>
      assert k as real / n as real < 1.0 by {
        assert k as real < n as real;
      }
  }

  /** The newest history entry contributes the first usable time. */
  lemma {:induction false} NewestFirst(history: seq<Entry>, e: Entry, skipsPrev: seq<string>)
    ensures UsableTimes(history + [e], skipsPrev) ==
      (if IsUsable(e, skipsPrev) then [e.time.value] else []) + UsableTimes(history, skipsPrev)
  {
    if history == [] {
      assert [e][1..] == [];
    } else {
      assert (history + [e])[1..] == history[1..] + [e];
      NewestFirst(history[1..], e, skipsPrev);
    }
  }

  /** A time is sampled exactly when some usable entry carries it. */
  lemma {:induction false} UsableTimesMembers(history: seq<Entry>, skipsPrev: seq<string>, t: real)
    ensures t in UsableTimes(history, skipsPrev) <==>
      exists j :: 0 <= j < |history| && IsUsable(history[j], skipsPrev) && history[j].time.value == t
  {
    if history != [] {
      UsableTimesMembers(history[1..], skipsPrev, t);
      if t in UsableTimes(history[1..], skipsPrev) {
        var j :| 0 <= j < |history[1..]| && IsUsable(history[1..][j], skipsPrev) && history[1..][j].time.value == t;
        assert history[j + 1] == history[1..][j];
      }
      if exists j :: 0 <= j < |history| && IsUsable(history[j], skipsPrev) && history[j].time.value == t {
        var j :| 0 <= j < |history| && IsUsable(history[j], skipsPrev) && history[j].time.value == t;
        if j > 0 {
          assert history[1..][j - 1] == history[j];
        }
      }
    }
  }

  /** An id is a skip exactly when some entry with that id has no time. */
  lemma {:induction false} SkippedIdsMembers(history: seq<Entry>, id: string)
    ensures id in SkippedIds(history) <==>
      exists j :: 0 <= j < |history| && history[j].id == id && history[j].time.None?
  {
    if history != [] {
      SkippedIdsMembers(history[1..], id);
      if exists j :: 0 <= j < |history| && history[j].id == id && history[j].time.None? {
        var j :| 0 <= j < |history| && history[j].id == id && history[j].time.None?;
        if j > 0 {
          assert history[1..][j - 1] == history[j];
        }
      }
    }
  }

  /**
   * Skip propagation: an attempt with no time in segment i contributes no
   * sample to segment i + 1, whatever that segment recorded for it.
   */
  lemma SkipExcludesNext(histories: seq<seq<Entry>>, i: nat, j: nat, k: nat)
    requires i + 1 < |histories|
    requires j < |histories[i]| && histories[i][j].time.None?
    requires k < |histories[i + 1]| && histories[i + 1][k].id == histories[i][j].id
    ensures !IsUsable(histories[i + 1][k], SkipsBefore(histories, i + 1))
  {
    SkippedIdsMembers(histories[i], histories[i][j].id);
  }

  /** The sum of scaled weights is the scaled sum. */
  lemma {:induction false} ScaleSum(s: seq<Sample>, total: real)
    requires total != 0.0
    ensures WeightSum(Scale(s, total)) == WeightSum(s) / total
  {
    if |s| > 0 {
      var s' := s[..|s| - 1];
      var scaled := Scale(s, total);
      ScaleSum(s', total);
      assert scaled[..|s| - 1] == Scale(s', total);
      assert WeightSum(scaled) == WeightSum(s') / total + s[|s| - 1].weight / total;
      DivAdd(WeightSum(s'), s[|s| - 1].weight, total);
    }
  }

  lemma DivAdd(a: real, b: real, t: real)
    requires t != 0.0
    ensures a / t + b / t == (a + b) / t
  {
  }

  /** Normalised weights of a non-empty list sum to 1, and nothing else changes. */
  lemma NormaliseSumsToOne(s: seq<Sample>)
    requires s != [] && WeightSum(s) != 0.0
    ensures Normalise(s).Ok?
    ensures WeightSum(Normalise(s).value) == 1.0
    ensures |Normalise(s).value| == |s|
    ensures forall k :: 0 <= k < |s| ==> Normalise(s).value[k].duration == s[k].duration
  {
    var total := WeightSum(s);
    ScaleSum(s, total);
    assert total / total == 1.0;
  }

  /** Every sample weighs more than nothing. */
  predicate PositiveWeights(s: seq<Sample>)
  {
    forall k :: 0 <= k < |s| ==> s[k].weight > 0.0
  }

  lemma {:induction false} PositiveSum(s: seq<Sample>)
    requires s != [] && PositiveWeights(s)
    ensures WeightSum(s) > 0.0
  {
    if |s| > 1 {
      PositiveSum(s[..|s| - 1]);
    }
  }

  /** A distribution ready for interpolation: non-empty, sorted, positive weights summing to 1. */
  predicate WellFormed(d: seq<Sample>)
  {
    |d| > 0 &&
    SortedByDuration(d) &&
    PositiveWeights(d) &&
    WeightSum(d) == 1.0
  }

  /** Under a valid weighting every raw sample has positive weight. */
  lemma RawWeightsPositive(history: seq<Entry>, skipsPrev: seq<string>, w: Weighting)
    requires PositiveWeighting(w)
    ensures PositiveWeights(RawSamples(history, skipsPrev, w))
  {
    var raw := RawSamples(history, skipsPrev, w);
    WeighedAt(history, skipsPrev, w, |history|);
    forall k | 0 <= k < |raw|
      ensures raw[k].weight > 0.0
    {
      WeightPositive(w, |history|, k);
    }
  }

  /** Sorting keeps every weight positive (it only reorders). */
  lemma SortKeepsPositive(s: seq<Sample>)
    requires PositiveWeights(s)
    ensures PositiveWeights(SortByDuration(s))
  {
    var sorted := SortByDuration(s);
    SortPermutation(s);
    forall k | 0 <= k < |sorted|
      ensures sorted[k].weight > 0.0
    {
      assert sorted[k] in multiset(s);
      var j :| 0 <= j < |s| && s[j] == sorted[k];
    }
  }

  /** Normalising a sorted list of positive weights gives a well-formed distribution. */
  lemma NormaliseWellFormed(s: seq<Sample>)
    requires s != [] && SortedByDuration(s) && PositiveWeights(s)
    ensures Normalise(s).Ok? && WellFormed(Normalise(s).value)
  {
    PositiveSum(s);
    NormaliseSumsToOne(s);
    var total := WeightSum(s);
    var d := Normalise(s).value;
    assert d == Scale(s, total);
    forall k | 0 <= k < |d|
      ensures d[k].weight > 0.0
    {
      assert d[k].weight == s[k].weight / total;
    }
  }

  /**
   * Under a valid weighting a segment builds without error; it is empty
   * exactly when no attempt is usable, and otherwise well formed with one
   * sample per usable attempt.
   */
  lemma BuiltShape(histories: seq<seq<Entry>>, i: nat, w: Weighting)
    requires i < |histories| && PositiveWeighting(w)
    ensures SegmentDistribution(histories, i, w).Ok?
    ensures |SegmentDistribution(histories, i, w).value| ==
            |UsableTimes(histories[i], SkipsBefore(histories, i))|
    ensures UsableTimes(histories[i], SkipsBefore(histories, i)) == [] ==>
            SegmentDistribution(histories, i, w).value == []
    ensures UsableTimes(histories[i], SkipsBefore(histories, i)) != [] ==>
            WellFormed(SegmentDistribution(histories, i, w).value)
  {
    var raw := RawSamples(histories[i], SkipsBefore(histories, i), w);
    var sorted := SortByDuration(raw);
    WeighedAt(histories[i], SkipsBefore(histories, i), w, |histories[i]|);
    RawWeightsPositive(histories[i], SkipsBefore(histories, i), w);
    if raw != [] {
      SortSorted(raw);
      SortKeepsPositive(raw);
      NormaliseWellFormed(sorted);
    }
  }
}
