/** The per-call cost fit of the getpid benchmark, over exact reals. */
module LeastSquares {
  import opened Base

  type Point = (real, real)

  type Points = seq<Point>

  datatype Line = Line(slope: real, intercept: real) {
    function At(x: real): real { slope * x + intercept }
  }

  // ----- The fit -----

  function Sum(p: Points, f: Point -> real): real {
    if p == [] then 0.0 else f(p[0]) + Sum(p[1..], f)
  }

  function X(): Point -> real {
    (q: Point) => q.0
  }

  function Y(): Point -> real {
    (q: Point) => q.1
  }

  function Times(a: real, b: real): (r: real)
    ensures (a > 0.0 && b > 0.0) || (a < 0.0 && b < 0.0) ==> r > 0.0
    ensures a == 0.0 || b == 0.0 ==> r == 0.0
  {
    a * b
  }

  function Square(x: real): (r: real)
    ensures r >= 0.0
    ensures r == 0.0 <==> x == 0.0
  {
    Times(x, x)
  }

  /** Product of the deviations from the centre `(mx, my)`. */
  function Deviations(mx: real, my: real): Point -> real {
    (q: Point) => (q.0 - mx) * (q.1 - my)
  }

  function Spread(mx: real): Point -> real {
    (q: Point) => Square(q.0 - mx)
  }

  function Mean(p: Points, f: Point -> real): real
    requires p != []
  {
    Sum(p, f) / (|p| as real)
  }

  function Covariance(p: Points): real
    requires p != []
  {
    Sum(p, Deviations(Mean(p, X()), Mean(p, Y())))
  }

  function Variance(p: Points): real
    requires p != []
  {
    Sum(p, Spread(Mean(p, X())))
  }

  function Slope(p: Points): real
    requires p != [] && Variance(p) != 0.0
  {
    Covariance(p) / Variance(p)
  }

  /** Where a line through `(mx, my)` meets the axis. */
  function Intercept(slope: real, mx: real, my: real): real {
    my - slope * mx
  }

  /** `fit_line`; dividing by a zero variance is what makes the source's result not finite. */
  function FitLine(p: Points): Option<Line> {
    if |p| < 2 || Variance(p) == 0.0 then None
    else Some(Line(Slope(p), Intercept(Slope(p), Mean(p, X()), Mean(p, Y()))))
  }

  // ----- Sums over the points -----

  function Nothing(): Point -> real {
    (q: Point) => 0.0
  }

  function One(): Point -> real {
    (q: Point) => 1.0
  }

  /** `f` is a combination of the others at every point. */
  ghost predicate Combines(p: Points, f: Point -> real, g: Point -> real, k: Point -> real, a: real, h: Point -> real,
                           b: real, r: Point -> real)
  {
    forall i :: 0 <= i < |p| ==> f(p[i]) == g(p[i]) + k(p[i]) + a * h(p[i]) + b * r(p[i])
  }

  lemma Distribute(a: real, b: real, c: real)
    ensures a * (b + c) == a * b + a * c
    ensures a * (b - c) == a * b - a * c
  {
  }

  /** Sums combine as their terms do. */
  lemma {:induction false} SumCombines(p: Points, f: Point -> real, g: Point -> real, k: Point -> real, a: real,
                                       h: Point -> real, b: real, r: Point -> real)
    requires Combines(p, f, g, k, a, h, b, r)
    ensures Sum(p, f) == Sum(p, g) + Sum(p, k) + a * Sum(p, h) + b * Sum(p, r)
    decreases |p|
  {
    if p != [] {
      var rest := p[1..];
      assert forall i :: 0 <= i < |rest| ==> rest[i] == p[i + 1];
      SumCombines(rest, f, g, k, a, h, b, r);
      Distribute(a, h(p[0]), Sum(rest, h));
      Distribute(b, r(p[0]), Sum(rest, r));
    }
  }

  lemma {:induction false} SumConstants(p: Points)
    ensures Sum(p, Nothing()) == 0.0 && Sum(p, One()) == |p| as real
    decreases |p|
  {
    if p != [] {
      SumConstants(p[1..]);
    }
  }

  /** A sum of terms that are not negative is not, and vanishes exactly when they all do. */
  lemma {:induction false} SumNonNegative(p: Points, f: Point -> real)
    requires forall i :: 0 <= i < |p| ==> f(p[i]) >= 0.0
    ensures Sum(p, f) >= 0.0
    ensures Sum(p, f) == 0.0 <==> forall i :: 0 <= i < |p| ==> f(p[i]) == 0.0
    decreases |p|
  {
    if p != [] {
      assert forall i :: 0 < i < |p| ==> p[i] == p[1..][i - 1];
      SumNonNegative(p[1..], f);
    }
  }

  // ----- Errors and residuals of a line -----

  function SquaredErrorAt(line: Line): Point -> real {
    (q: Point) => Square(q.1 - line.At(q.0))
  }

  function ResidualAt(line: Line): Point -> real {
    (q: Point) => q.1 - line.At(q.0)
  }

  function WeightedResidualAt(mx: real, line: Line): Point -> real {
    (q: Point) => (q.0 - mx) * (q.1 - line.At(q.0))
  }

  function GapAt(a: Line, b: Line): Point -> real {
    (q: Point) => Square(a.At(q.0) - b.At(q.0))
  }

  ghost function SquaredError(p: Points, line: Line): real {
    Sum(p, SquaredErrorAt(line))
  }

  /** How far apart two lines are over the points. */
  ghost function Gap(p: Points, a: Line, b: Line): real {
    Sum(p, GapAt(a, b))
  }

  lemma GapNonNegative(p: Points, a: Line, b: Line)
    ensures Gap(p, a, b) >= 0.0
    ensures Gap(p, a, b) == 0.0 ==> forall i :: 0 <= i < |p| ==> a.At(p[i].0) == b.At(p[i].0)
  {
    SumNonNegative(p, GapAt(a, b));
  }

  // ----- The fit's residuals vanish -----

  lemma DivideBack(a: real, b: real)
    requires b != 0.0
    ensures (a / b) * b == a
  {
  }

  lemma ResidualPoints(p: Points, line: Line)
    ensures Combines(p, ResidualAt(line), Y(), Nothing(), -line.slope, X(), -line.intercept, One())
  {
    forall i | 0 <= i < |p|
      ensures ResidualAt(line)(p[i])
              == Y()(p[i]) + Nothing()(p[i]) + (-line.slope) * X()(p[i]) + (-line.intercept) * One()(p[i])
    {
      Negate(line.slope, p[i].0);
    }
  }

  /** The residual sum, by the sums it is made of. */
  lemma ResidualSum(p: Points, line: Line)
    ensures Sum(p, ResidualAt(line)) == Sum(p, Y()) - line.slope * Sum(p, X()) - line.intercept * (|p| as real)
  {
    ResidualPoints(p, line);
    SumCombines(p, ResidualAt(line), Y(), Nothing(), -line.slope, X(), -line.intercept, One());
    SumConstants(p);
    assert (-line.slope) * Sum(p, X()) == -(line.slope * Sum(p, X())) by {
      Negate(line.slope, Sum(p, X()));
    }
    assert (-line.intercept) * (|p| as real) == -(line.intercept * (|p| as real)) by {
      Negate(line.intercept, |p| as real);
    }
  }

  lemma Negate(a: real, b: real)
    ensures (-a) * b == -(a * b)
  {
  }

  lemma MeanResidual(n: real, sx: real, sy: real, mx: real, my: real, slope: real)
    requires mx * n == sx && my * n == sy
    ensures sy - slope * sx - Intercept(slope, mx, my) * n == 0.0
  {
    Distribute(n, my, slope * mx);
    assert slope * (mx * n) == n * (slope * mx);
  }

  lemma ResidualVanishes(p: Points, line: Line)
    requires p != [] && line.intercept == Intercept(line.slope, Mean(p, X()), Mean(p, Y()))
    ensures Sum(p, ResidualAt(line)) == 0.0
  {
    ResidualSum(p, line);
    DivideBack(Sum(p, X()), |p| as real);
    DivideBack(Sum(p, Y()), |p| as real);
    MeanResidual(|p| as real, Sum(p, X()), Sum(p, Y()), Mean(p, X()), Mean(p, Y()), line.slope);
  }

  /** One weighted residual of a line through the centre. */
  lemma CentredTerm(x: real, y: real, mx: real, my: real, line: Line)
    requires line.intercept == Intercept(line.slope, mx, my)
    ensures (x - mx) * (y - line.At(x)) == (x - mx) * (y - my) - line.slope * Square(x - mx)
  {
    var dx, dy, slope := x - mx, y - my, line.slope;
    Distribute(slope, x, mx);
    assert y - line.At(x) == dy - slope * dx;
    Distribute(dx, dy, slope * dx);
    assert dx * (slope * dx) == slope * (dx * dx);
  }

  lemma CentredPoint(q: Point, mx: real, my: real, line: Line)
    requires line.intercept == Intercept(line.slope, mx, my)
    ensures WeightedResidualAt(mx, line)(q)
            == Deviations(mx, my)(q) + Nothing()(q) + (-line.slope) * Spread(mx)(q) + 0.0 * One()(q)
  {
    CentredTerm(q.0, q.1, mx, my, line);
    Negate(line.slope, Square(q.0 - mx));
  }

  lemma CentredPoints(p: Points, mx: real, my: real, line: Line)
    requires line.intercept == Intercept(line.slope, mx, my)
    ensures Combines(p, WeightedResidualAt(mx, line), Deviations(mx, my), Nothing(),
                     -line.slope, Spread(mx), 0.0, One())
  {
    forall i | 0 <= i < |p|
      ensures WeightedResidualAt(mx, line)(p[i])
              == Deviations(mx, my)(p[i]) + Nothing()(p[i]) + (-line.slope) * Spread(mx)(p[i]) + 0.0 * One()(p[i])
    {
      CentredPoint(p[i], mx, my, line);
    }
  }

  lemma WeightedResidualSum(p: Points, mx: real, my: real, line: Line)
    requires line.intercept == Intercept(line.slope, mx, my)
    ensures Sum(p, WeightedResidualAt(mx, line)) == Sum(p, Deviations(mx, my)) - line.slope * Sum(p, Spread(mx))
  {
    CentredPoints(p, mx, my, line);
    SumCombines(p, WeightedResidualAt(mx, line), Deviations(mx, my), Nothing(), -line.slope, Spread(mx), 0.0, One());
    SumConstants(p);
    Negate(line.slope, Sum(p, Spread(mx)));
  }

  /** The normal equations: both residual sums of the fitted line vanish. */
  lemma FitResiduals(p: Points, fit: Line)
    requires FitLine(p) == Some(fit)
    ensures p != [] && Sum(p, ResidualAt(fit)) == 0.0 && Sum(p, WeightedResidualAt(Mean(p, X()), fit)) == 0.0
  {
    ResidualVanishes(p, fit);
    WeightedResidualSum(p, Mean(p, X()), Mean(p, Y()), fit);
    DivideBack(Covariance(p), Variance(p));
  }

  // ----- The fit minimises -----

  lemma SquareOfSum(r: real, u: real, e: real)
    ensures Square(r + (u + e)) == Square(r) + Square(u + e) + 2.0 * (u * r) + 2.0 * (e * r)
  {
    var d := u + e;
    assert (r + d) * (r + d) == r * r + d * d + 2.0 * (d * r);
    Distribute(r, u, e);
  }

  lemma GapTerm(x: real, mx: real, fit: Line, other: Line)
    ensures fit.At(x) - other.At(x) == (fit.slope - other.slope) * (x - mx) + (fit.At(mx) - other.At(mx))
  {
    Distribute(x - mx, fit.slope, other.slope);
    Distribute(fit.slope, x, mx);
    Distribute(other.slope, x, mx);
  }

  /** One squared error of another line, seen from this one. */
  lemma ErrorTerm(q: Point, mx: real, fit: Line, other: Line)
    ensures SquaredErrorAt(other)(q) == SquaredErrorAt(fit)(q) + GapAt(fit, other)(q)
                                        + (2.0 * (fit.slope - other.slope)) * WeightedResidualAt(mx, fit)(q)
                                        + (2.0 * (fit.At(mx) - other.At(mx))) * ResidualAt(fit)(q)
  {
    var ds, e, r, dx := fit.slope - other.slope, fit.At(mx) - other.At(mx), q.1 - fit.At(q.0), q.0 - mx;
    GapTerm(q.0, mx, fit, other);
    assert q.1 - other.At(q.0) == r + (ds * dx + e);
    SquareOfSum(r, ds * dx, e);
    assert 2.0 * ((ds * dx) * r) == (2.0 * ds) * (dx * r);
    assert 2.0 * (e * r) == (2.0 * e) * r;
  }

  lemma ErrorPoints(p: Points, mx: real, fit: Line, other: Line)
    ensures Combines(p, SquaredErrorAt(other), SquaredErrorAt(fit), GapAt(fit, other),
                     2.0 * (fit.slope - other.slope), WeightedResidualAt(mx, fit),
                     2.0 * (fit.At(mx) - other.At(mx)), ResidualAt(fit))
  {
    forall i | 0 <= i < |p|
      ensures SquaredErrorAt(other)(p[i])
           == SquaredErrorAt(fit)(p[i]) + GapAt(fit, other)(p[i])
              + (2.0 * (fit.slope - other.slope)) * WeightedResidualAt(mx, fit)(p[i])
              + (2.0 * (fit.At(mx) - other.At(mx))) * ResidualAt(fit)(p[i])
    {
      ErrorTerm(p[i], mx, fit, other);
    }
  }

  lemma TimesZero(a: real, b: real)
    requires b == 0.0
    ensures a * b == 0.0
  {
  }

  /** The fitted line has the least squared error of all lines; any other line exceeds it by the gap between them. */
  lemma FitMinimises(p: Points, fit: Line, other: Line)
    requires FitLine(p) == Some(fit)
    ensures SquaredError(p, other) == SquaredError(p, fit) + Gap(p, fit, other)
    ensures SquaredError(p, fit) <= SquaredError(p, other)
  {
    FitResiduals(p, fit);
    var mx := Mean(p, X());
    var a, b := 2.0 * (fit.slope - other.slope), 2.0 * (fit.At(mx) - other.At(mx));
    ErrorPoints(p, mx, fit, other);
    SumCombines(p, SquaredErrorAt(other), SquaredErrorAt(fit), GapAt(fit, other),
                a, WeightedResidualAt(mx, fit), b, ResidualAt(fit));
    TimesZero(a, Sum(p, WeightedResidualAt(mx, fit)));
    TimesZero(b, Sum(p, ResidualAt(fit)));
    GapNonNegative(p, fit, other);
  }

  // ----- When the fit exists -----

  ghost predicate TwoXs(p: Points) {
    exists i, j :: 0 <= i < |p| && 0 <= j < |p| && p[i].0 != p[j].0
  }

  /** The variance vanishes exactly when every abscissa is the mean. */
  lemma VarianceFacts(p: Points, mx: real)
    ensures Sum(p, Spread(mx)) == 0.0 <==> forall i :: 0 <= i < |p| ==> p[i].0 == mx
  {
    SumNonNegative(p, Spread(mx));
  }

  lemma MeanOfEqual(p: Points, x: real)
    requires p != [] && forall i :: 0 <= i < |p| ==> p[i].0 == x
    ensures Mean(p, X()) == x
  {
    SumCombines(p, X(), Nothing(), Nothing(), x, One(), 0.0, One());
    SumConstants(p);
    CancelFactor(x, |p| as real);
  }

  lemma CancelFactor(a: real, n: real)
    requires n > 0.0
    ensures (a * n) / n == a
  {
  }

  /** The fit exists exactly for points with two distinct abscissas. */
  lemma FitExists(p: Points)
    ensures FitLine(p).Some? <==> TwoXs(p)
  {
    if |p| >= 2 {
      VarianceFacts(p, Mean(p, X()));
      if !TwoXs(p) {
        MeanOfEqual(p, p[0].0);
      }
    }
  }

  // ----- Points on a line -----

  ghost predicate OnLine(p: Points, line: Line) {
    forall i :: 0 <= i < |p| ==> p[i].1 == line.At(p[i].0)
  }

  lemma ErrorFacts(p: Points, line: Line)
    ensures SquaredError(p, line) >= 0.0
    ensures SquaredError(p, line) == 0.0 <==> OnLine(p, line)
  {
    SumNonNegative(p, SquaredErrorAt(line));
  }

  lemma ZeroFactor(a: real, b: real)
    requires a * b == 0.0 && b != 0.0
    ensures a == 0.0
  {
    assert (a * b) / b == a;
  }

  lemma LinesMeetOnce(a: Line, b: Line, x: real, z: real)
    requires a.At(x) == b.At(x) && a.At(z) == b.At(z) && x != z
    ensures a == b
  {
    GapTerm(x, z, a, b);
    ZeroFactor(a.slope - b.slope, x - z);
  }

  /** Points on a line with two distinct abscissas are fitted by that line. */
  lemma FitRecoversLine(p: Points, line: Line)
    requires OnLine(p, line) && TwoXs(p)
    ensures FitLine(p) == Some(line)
  {
    FitExists(p);
    var fit := FitLine(p).value;
    FitMinimises(p, fit, line);
    ErrorFacts(p, line);
    ErrorFacts(p, fit);
    GapNonNegative(p, fit, line);
    var i, j :| 0 <= i < |p| && 0 <= j < |p| && p[i].0 != p[j].0;
    LinesMeetOnce(fit, line, p[i].0, p[j].0);
  }
}
