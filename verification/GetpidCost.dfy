/** Summarising the benchmark's samples into medians and a per-call cost, over exact reals. */
module GetpidCost {
  import opened Base
  import opened LeastSquares

  datatype Sample = Sample(variant: string, warmup: bool, calls: nat, wall: real, ok: bool)

  datatype Point = Point(calls: nat, center: real, mad: real, runs: nat)

  datatype Summary = Summary(measured: nat, failed: nat, failedWarmups: nat, points: seq<Point>, fit: Option<Line>)

  // ----- Medians -----

  function Insert(x: real, sorted: seq<real>): seq<real> {
    if sorted == [] || x <= sorted[0] then [x] + sorted else [sorted[0]] + Insert(x, sorted[1..])
  }

  function Sort(values: seq<real>): seq<real> {
    if values == [] then [] else Insert(values[0], Sort(values[1..]))
  }

  predicate Ascending(s: seq<real>) {
    forall i :: 0 < i < |s| ==> s[i - 1] <= s[i]
  }

  lemma {:induction false} InsertSorts(x: real, sorted: seq<real>)
    requires Ascending(sorted)
    ensures Ascending(Insert(x, sorted)) && multiset(Insert(x, sorted)) == multiset(sorted) + multiset{x}
    ensures |Insert(x, sorted)| == |sorted| + 1
    ensures Insert(x, sorted)[0] == x || (sorted != [] && Insert(x, sorted)[0] == sorted[0])
    decreases |sorted|
  {
    if !(sorted == [] || x <= sorted[0]) {
      assert sorted == [sorted[0]] + sorted[1..];
      InsertSorts(x, sorted[1..]);
    }
  }

  lemma {:induction false} SortSorts(values: seq<real>)
    ensures Ascending(Sort(values)) && multiset(Sort(values)) == multiset(values) && |Sort(values)| == |values|
    decreases |values|
  {
    if values != [] {
      SortSorts(values[1..]);
      InsertSorts(values[0], Sort(values[1..]));
      assert values == [values[0]] + values[1..];
    }
  }

  function Median(sorted: seq<real>): real
    requires sorted != []
  {
    var middle := |sorted| / 2;
    if |sorted| % 2 == 1 then sorted[middle] else (sorted[middle - 1] + sorted[middle]) / 2.0
  }

  function Deviations(values: seq<real>, center: real): seq<real> {
    seq(|values|, i requires 0 <= i < |values| =>
      if values[i] >= center then values[i] - center else center - values[i])
  }

  /** Median and median absolute deviation. */
  function MedianAndMad(values: seq<real>): (real, real)
    requires values != []
  {
    SortSorts(values);
    var sorted := Sort(values);
    var center := Median(sorted);
    SortSorts(Deviations(sorted, center));
    (center, Median(Sort(Deviations(sorted, center))))
  }

  lemma MedianOfEqual(values: seq<real>, v: real)
    requires values != [] && forall i :: 0 <= i < |values| ==> values[i] == v
    ensures MedianAndMad(values).0 == v
  {
    SortSorts(values);
    var sorted := Sort(values);
    forall i | 0 <= i < |sorted| ensures sorted[i] == v {
      assert sorted[i] in multiset(values);
    }
  }

  // ----- Points -----

  predicate Measured(s: Sample, variant: string) { s.variant == variant && !s.warmup }

  /** The wall times of the successful measured runs with `calls` calls. */
  function Walls(samples: seq<Sample>, variant: string, calls: nat): seq<real> {
    if samples == [] then []
    else
      var s := samples[0];
      (if Measured(s, variant) && s.calls == calls && s.ok then [s.wall] else []) + Walls(samples[1..], variant, calls)
  }

  function PointAt(samples: seq<Sample>, variant: string, calls: nat): seq<Point> {
    var walls := Walls(samples, variant, calls);
    if walls == [] then []
    else [Point(calls, MedianAndMad(walls).0, MedianAndMad(walls).1, |walls|)]
  }

  function PointsFor(samples: seq<Sample>, variant: string, counts: seq<nat>): seq<Point> {
    if counts == [] then []
    else PointsFor(samples, variant, counts[..|counts| - 1]) + PointAt(samples, variant, counts[|counts| - 1])
  }

  /** `fitted_points`: a run without calls skips the site's one-time cost, so only positive counts are fitted. */
  function FittedPoints(points: seq<Point>): Points {
    if points == [] then []
    else
      var last := points[|points| - 1];
      FittedPoints(points[..|points| - 1]) + if last.calls > 0 then [(last.calls as real, last.center)] else []
  }

  function Failures(samples: seq<Sample>, variant: string, warmup: bool): nat {
    if samples == [] then 0
    else
      (if samples[0].variant == variant && samples[0].warmup == warmup && !samples[0].ok then 1 else 0)
      + Failures(samples[1..], variant, warmup)
  }

  function CountMeasured(samples: seq<Sample>, variant: string): nat {
    if samples == [] then 0 else (if Measured(samples[0], variant) then 1 else 0) + CountMeasured(samples[1..], variant)
  }

  function FitOf(samples: seq<Sample>, variant: string, counts: seq<nat>, statsAccepted: Option<bool>): Option<Line> {
    if Failures(samples, variant, false) == 0 && Failures(samples, variant, true) == 0 && statsAccepted != Some(false)
    then FitLine(FittedPoints(PointsFor(samples, variant, counts)))
    else None
  }

  /** `summarize`. */
  method Summarize(samples: seq<Sample>, variant: string, counts: seq<nat>, statsAccepted: Option<bool>)
    returns (summary: Summary)
    ensures summary.points == PointsFor(samples, variant, counts)
    ensures summary.fit == FitOf(samples, variant, counts, statsAccepted)
    ensures summary.measured == CountMeasured(samples, variant)
    ensures summary.failed == Failures(samples, variant, false)
            && summary.failedWarmups == Failures(samples, variant, true)
  {
    var failed, failedWarmups := Failures(samples, variant, false), Failures(samples, variant, true);
    var points: seq<Point> := [];
    for i := 0 to |counts|
      invariant points == PointsFor(samples, variant, counts[..i])
    {
      assert counts[..i + 1][..i] == counts[..i];
      var walls := Walls(samples, variant, counts[i]);
      if |walls| > 0 {
        var (center, mad) := MedianAndMad(walls);
        points := points + [Point(counts[i], center, mad, |walls|)];
      }
    }
    assert counts[..|counts|] == counts;
    var fitted := failed == 0 && failedWarmups == 0 && statsAccepted != Some(false);
    var fit := if fitted then FitLine(FittedPoints(points)) else None;
    summary := Summary(CountMeasured(samples, variant), failed, failedWarmups, points, fit);
  }

  // ----- Noiseless runs -----

  /** The count lists the options accept: no duplicates, at least two positive values. */
  predicate AcceptsCounts(counts: seq<nat>) {
    |set c | c in counts| == |counts| && |set c | c in counts && c > 0| >= 2
  }

  /** Time without calls, one-time cost of the first call, and cost of each call. */
  datatype Costs = Costs(start: real, once: real, perCall: real) {
    function Time(calls: nat): real {
      if calls == 0 then start else start + once + perCall * (calls as real)
    }
  }

  /** Every run of the variant succeeded, every count was measured, and every time is exactly the cost. */
  ghost predicate Noiseless(samples: seq<Sample>, variant: string, counts: seq<nat>, costs: Costs) {
    && (forall i :: 0 <= i < |samples| && samples[i].variant == variant ==> samples[i].ok)
    && (forall i :: 0 <= i < |samples| && Measured(samples[i], variant) ==>
           samples[i].wall == costs.Time(samples[i].calls))
    && (forall c :: c in counts ==> Walls(samples, variant, c) != [])
  }

  lemma {:induction false} NoFailures(samples: seq<Sample>, variant: string, warmup: bool)
    requires forall i :: 0 <= i < |samples| && samples[i].variant == variant ==> samples[i].ok
    ensures Failures(samples, variant, warmup) == 0
    decreases |samples|
  {
    if samples != [] {
      NoFailures(samples[1..], variant, warmup);
    }
  }

  lemma {:induction false} WallsAreCosts(samples: seq<Sample>, variant: string, calls: nat, costs: Costs)
    requires forall i :: 0 <= i < |samples| && Measured(samples[i], variant) ==>
               samples[i].wall == costs.Time(samples[i].calls)
    ensures forall i :: 0 <= i < |Walls(samples, variant, calls)| ==>
              Walls(samples, variant, calls)[i] == costs.Time(calls)
    decreases |samples|
  {
    if samples != [] {
      WallsAreCosts(samples[1..], variant, calls, costs);
    }
  }

  /** The positive counts, each at its cost. */
  ghost function PositiveCosts(counts: seq<nat>, costs: Costs): Points {
    if counts == [] then []
    else
      var c := counts[|counts| - 1];
      PositiveCosts(counts[..|counts| - 1], costs) + if c > 0 then [(c as real, costs.Time(c))] else []
  }

  lemma NoiselessPoint(samples: seq<Sample>, variant: string, counts: seq<nat>, calls: nat, costs: Costs)
    requires Noiseless(samples, variant, counts, costs) && calls in counts
    ensures var point := PointAt(samples, variant, calls);
            |point| == 1 && point[0].calls == calls && point[0].center == costs.Time(calls)
  {
    WallsAreCosts(samples, variant, calls, costs);
    MedianOfEqual(Walls(samples, variant, calls), costs.Time(calls));
  }

  lemma FittedNext(points: seq<Point>, last: Point)
    ensures FittedPoints(points + [last])
            == FittedPoints(points) + if last.calls > 0 then [(last.calls as real, last.center)] else []
  {
    assert (points + [last])[..|points|] == points;
  }

  /** What noiseless runs leave to fit: exactly the positive counts. */
  lemma {:induction false} NoiselessPoints(samples: seq<Sample>, variant: string, counts: seq<nat>, done: nat,
                                           costs: Costs)
    requires Noiseless(samples, variant, counts, costs) && done <= |counts|
    ensures FittedPoints(PointsFor(samples, variant, counts[..done])) == PositiveCosts(counts[..done], costs)
  {
    if done > 0 {
      var front, c := counts[..done - 1], counts[done - 1];
      assert counts[..done][..done - 1] == front;
      NoiselessPoints(samples, variant, counts, done - 1, costs);
      NoiselessPoint(samples, variant, counts, c, costs);
      var point := PointAt(samples, variant, c);
      assert point == [point[0]];
      FittedNext(PointsFor(samples, variant, front), point[0]);
    }
  }

  lemma {:induction false} PositiveCostsAre(counts: seq<nat>, costs: Costs)
    ensures forall p :: p in PositiveCosts(counts, costs) ==>
              p.1 == Line(costs.perCall, costs.start + costs.once).At(p.0)
    ensures forall c :: c in counts && c > 0 ==> (c as real, costs.Time(c)) in PositiveCosts(counts, costs)
    decreases |counts|
  {
    if counts != [] {
      PositiveCostsAre(counts[..|counts| - 1], costs);
    }
  }

  /**
   * For every accepted count list, noiseless runs are summarised to the per-call cost and the cost
   * before any call of a run that makes one.
   */
  lemma NoiselessSummary(samples: seq<Sample>, variant: string, counts: seq<nat>, costs: Costs,
                         statsAccepted: Option<bool>)
    requires AcceptsCounts(counts) && Noiseless(samples, variant, counts, costs) && statsAccepted != Some(false)
    ensures FitOf(samples, variant, counts, statsAccepted) == Some(Line(costs.perCall, costs.start + costs.once))
  {
    assert Failures(samples, variant, false) == 0 && Failures(samples, variant, true) == 0 by {
      NoFailures(samples, variant, false);
      NoFailures(samples, variant, true);
    }
    assert FittedPoints(PointsFor(samples, variant, counts)) == PositiveCosts(counts, costs) by {
      NoiselessPoints(samples, variant, counts, |counts|, costs);
      assert counts[..|counts|] == counts;
    }
    PositiveCostsFit(counts, costs);
  }

  lemma PositiveCostsFit(counts: seq<nat>, costs: Costs)
    requires AcceptsCounts(counts)
    ensures FitLine(PositiveCosts(counts, costs)) == Some(Line(costs.perCall, costs.start + costs.once))
  {
    PositiveCostsAre(counts, costs);
    TwoPositive(counts, PositiveCosts(counts, costs), costs);
    FitRecoversLine(PositiveCosts(counts, costs), Line(costs.perCall, costs.start + costs.once));
  }

  lemma TwoPositive(counts: seq<nat>, fitted: Points, costs: Costs)
    requires AcceptsCounts(counts)
    requires forall c :: c in counts && c > 0 ==> (c as real, costs.Time(c)) in fitted
    ensures TwoXs(fitted)
  {
    var positive := set c | c in counts && c > 0;
    var a :| a in positive;
    assert |positive - {a}| >= 1;
    var b :| b in positive - {a};
    var i :| 0 <= i < |fitted| && fitted[i] == (a as real, costs.Time(a));
    var j :| 0 <= j < |fitted| && fitted[j] == (b as real, costs.Time(b));
    assert fitted[i].0 != fitted[j].0;
  }

  /** Why a zero count is left out: fitted with it, the one-time cost would leak into the slope. */
  lemma FittingZeroIsBiased(costs: Costs)
    ensures FitLine([(0.0, costs.Time(0)), (2.0, costs.Time(2))])
            == Some(Line(costs.perCall + costs.once / 2.0, costs.start))
  {
    var p, line := [(0.0, costs.Time(0)), (2.0, costs.Time(2))], Line(costs.perCall + costs.once / 2.0, costs.start);
    assert p[0].0 != p[1].0;
    FitRecoversLine(p, line);
  }
}
