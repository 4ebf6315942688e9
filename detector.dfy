/** `PredictionModel` of model.py: a robust straight-line fit of POWER on
    IRRADIATION, and a one-sided test on each residual that flags a row whose
    power is significantly below the line. */
module Detector {
  import opened Common

  /** A fitted straight line: the expected POWER at a given IRRADIATION. */
  datatype Line = Line(intercept: real, slope: real) {
    function Predict(x: real): real {
      intercept + slope * x
    }
  }

  /** The robust regression (scikit-learn's `HuberRegressor.fit`): a foreign
      solver, taken as given; only the line it returns matters here. */
  type Solver = (seq<real>, seq<real>) -> Line

  /** The inverse distribution function of Student's t (`scipy.stats.t.ppf`),
      from a probability and a number of degrees of freedom. */
  type Quantile = (real, int) -> real

  /** No cell of the column is missing (NaN). */
  predicate AllPresent(xs: seq<Option<real>>) {
    forall i :: 0 <= i < |xs| ==> xs[i].Some?
  }

  /** The numbers of a column that has no missing cell. */
  function Values(xs: seq<Option<real>>): (r: seq<real>)
    requires AllPresent(xs)
    ensures |r| == |xs|
  {
    seq(|xs|, i requires 0 <= i < |xs| => xs[i].value)
  }

  /** `Y - model.predict(X)`, row by row. */
  function Residuals(line: Line, xs: seq<real>, ys: seq<real>): (r: seq<real>)
    requires |xs| == |ys|
    ensures |r| == |xs|
  {
    seq(|xs|, i requires 0 <= i < |xs| => ys[i] - line.Predict(xs[i]))
  }

  /** `np.sum(s**2)`. */
  function SumSquares(s: seq<real>): real {
    if s == [] then 0.0 else s[0] * s[0] + SumSquares(s[1..])
  }

  /** A sum of squares is never negative, and it is zero when every term is. */
  lemma {:induction false} SumSquaresSign(s: seq<real>)
    ensures SumSquares(s) >= 0.0
    ensures (forall i :: 0 <= i < |s| ==> s[i] == 0.0) ==> SumSquares(s) == 0.0
  {
    if s != [] {
      var rest := s[1..];
      SumSquaresSign(rest);
      assert forall i :: 0 <= i < |rest| ==> rest[i] == s[i + 1];
    }
  }

  /** The unbiased residual variance `sum(res^2) / (n - 1)`, defined for n >= 2:
      never negative, and zero when the line passes through every training point. */
  function ResidualVariance(line: Line, xs: seq<real>, ys: seq<real>): (v: real)
    requires |xs| == |ys| >= 2
    ensures v >= 0.0
    ensures (forall i :: 0 <= i < |xs| ==> ys[i] == line.Predict(xs[i])) ==> v == 0.0
  {
    var res := Residuals(line, xs, ys);
    SumSquaresSign(res);
    assert forall i :: 0 <= i < |xs| ==> res[i] == ys[i] - line.Predict(xs[i]);
    SumSquares(res) / (|xs| - 1) as real
  }

  /** What `fit` stores. On two or more rows: the line, the residual variance
      and the critical value. On a single row the source divides by `n - 1 = 0`
      (a floating-point infinity or NaN) and asks for the quantile at zero
      degrees of freedom (NaN), so only the line is a number. */
  datatype FitState =
    | Fitted(line: Line, variance: real, threshold: real)
    | SingleRow(line: Line)
  {
    /** `residual / sqrt(variance) < threshold` for this state: never true
        against a NaN threshold. */
    predicate Flags(res: real) {
      Fitted? && Outlier(res, variance, threshold)
    }
  }

  /** The state after a successful `fit` on `n` complete rows: the solver's
      line and, when `n >= 2`, the residual variance with `n - 1` degrees of
      freedom and the t-quantile at the significance level with `n - 1`
      degrees of freedom. */
  function Train(solver: Solver, quantile: Quantile, significance: real,
                 xs: seq<real>, ys: seq<real>): (st: FitState)
    requires |xs| == |ys| >= 1
    ensures st.line == solver(xs, ys)
    ensures st.Fitted? <==> |xs| >= 2
    ensures st.Fitted? ==> st.variance >= 0.0
    ensures st.Fitted? && (forall i :: 0 <= i < |xs| ==> ys[i] == st.line.Predict(xs[i])) ==> st.variance == 0.0
    ensures st.Fitted? ==> st.threshold == quantile(significance, |xs| - 1)
  {
    var line := solver(xs, ys);
    if |xs| == 1 then SingleRow(line)
    else Fitted(line, ResidualVariance(line, xs, ys), quantile(significance, |xs| - 1))
  }

  /** The exception `fit(X, Y)` raises, if any: the length assertion, then
      scikit-learn's rejection of missing values, then of an empty sample.
      A single row is accepted (see `SingleRow`). */
  function FitError(xs: seq<Option<real>>, ys: seq<Option<real>>): (e: Option<Error>)
    ensures e.None? <==> |xs| == |ys| && |xs| >= 1 && AllPresent(xs) && AllPresent(ys)
    ensures |xs| != |ys| ==> e == Some(ShapeMismatch)
  {
    if |xs| != |ys| then Some(ShapeMismatch)
    else if !AllPresent(xs) || !AllPresent(ys) then Some(InvalidInput)
    else if |xs| == 0 then Some(InsufficientData)
    else None
  }

  /** The test `residual / sqrt(variance) < threshold`, written without a
      square root (see `OutlierIsTestStatistic`). A zero variance follows
      floating point: a negative residual divided by zero is minus infinity,
      which is below any threshold, while `0/0` (NaN) and plus infinity are not. */
  predicate Outlier(res: real, variance: real, threshold: real) {
    if variance == 0.0 then res < 0.0
    else if res < 0.0 then threshold >= 0.0 || res * res > threshold * threshold * variance
    else threshold > 0.0 && res * res < threshold * threshold * variance
  }

  lemma ProductPositive(x: real, y: real)
    requires x > 0.0 && y > 0.0
    ensures x * y > 0.0
  {
  }

  lemma SquareMonotone(a: real, b: real)
    requires a >= 0.0 && b >= 0.0
    ensures a < b <==> a * a < b * b
  {
    assert (b - a) * (b + a) == b * b - a * a;
    if a < b {
      ProductPositive(b - a, b + a);
    } else if b < a {
      ProductPositive(a - b, a + b);
    }
  }

  /** Dividing by a positive number keeps the order. */
  lemma DivideBelow(a: real, d: real, t: real)
    requires d > 0.0
    ensures a / d < t <==> a < t * d
  {
    var q := a / d;
    assert q * d == a;
    assert (t - q) * d == t * d - q * d;
    if q < t {
      ProductPositive(t - q, d);
    } else if t < q {
      ProductPositive(q - t, d);
    }
  }

  /** For positive variance, `Outlier` is exactly the source's test
      `res / sigma < threshold` with `sigma` the square root of the variance. */
  lemma OutlierIsTestStatistic(res: real, variance: real, threshold: real, sigma: real)
    requires variance > 0.0 && sigma > 0.0 && sigma * sigma == variance
    ensures Outlier(res, variance, threshold) <==> res / sigma < threshold
  {
    DivideBelow(res, sigma, threshold);
    var ts := threshold * sigma;
    assert ts * ts == threshold * threshold * variance;
    if res < 0.0 && threshold < 0.0 {
      assert ts < 0.0;
      SquareMonotone(-ts, -res);
      assert (-ts) * (-ts) == ts * ts && (-res) * (-res) == res * res;
    } else if res >= 0.0 && threshold > 0.0 {
      assert ts > 0.0;
      SquareMonotone(res, ts);
    } else if res < 0.0 {
      assert ts >= 0.0;
    } else {
      assert ts <= 0.0;
    }
  }

  /** The test is one-sided and monotone: a lower residual (less power for the
      same irradiation) is flagged whenever a higher one is. */
  lemma OutlierMonotone(lower: real, higher: real, variance: real, threshold: real)
    requires variance >= 0.0 && lower <= higher
    requires Outlier(higher, variance, threshold)
    ensures Outlier(lower, variance, threshold)
  {
    if variance > 0.0 && lower >= 0.0 {
      SquareMonotone(lower, higher);
      assert lower * lower <= higher * higher;
    } else if variance > 0.0 && higher < 0.0 {
      SquareMonotone(-higher, -lower);
      assert (-higher) * (-higher) == higher * higher && (-lower) * (-lower) == lower * lower;
    }
  }

  /** With a non-positive threshold (any confidence level of at least 50%), a
      row at or above the fitted line is never flagged: over-performance
      never raises an alert. */
  lemma AtOrAboveLineNeverFlagged(res: real, variance: real, threshold: real)
    requires variance >= 0.0 && threshold <= 0.0 && res >= 0.0
    ensures !Outlier(res, variance, threshold)
  {
  }

  /** `test_statistic < threshold` on every row, aligned by position. A row
      whose POWER is missing compares as NaN and is never flagged. */
  function Label(st: FitState, xs: seq<real>, ys: seq<Option<real>>): (r: seq<bool>)
    requires |xs| == |ys|
    ensures |r| == |xs|
    ensures forall i :: 0 <= i < |xs| ==>
      r[i] == (ys[i].Some? && st.Flags(ys[i].value - st.line.Predict(xs[i])))
  {
    if xs == [] then []
    else
      var head := ys[0].Some? && st.Flags(ys[0].value - st.line.Predict(xs[0]));
      [head] + Label(st, xs[1..], ys[1..])
  }

  /** The outcome of `predict(X, Y)` in a fitted state: the length assertion,
      then scikit-learn's rejection of an empty or NaN-holding feature column,
      then one flag per row. */
  function PredictOutcome(st: FitState, xs: seq<Option<real>>, ys: seq<Option<real>>): (r: Result<seq<bool>>)
    ensures |xs| != |ys| ==> r == Err(ShapeMismatch)
    ensures r.Err? <==> |xs| != |ys| || |xs| == 0 || !AllPresent(xs)
    ensures r.Ok? ==> |r.value| == |xs|
  {
    if |xs| != |ys| then Err(ShapeMismatch)
    else if |xs| == 0 then Err(InsufficientData)
    else if !AllPresent(xs) then Err(InvalidInput)
    else Ok(Label(st, Values(xs), ys))
  }

  /** A column of numbers with no missing cell. */
  function Present(ys: seq<real>): (r: seq<Option<real>>)
    ensures |r| == |ys| && AllPresent(r)
  {
    seq(|ys|, i requires 0 <= i < |ys| => Some(ys[i]))
  }

  /** The noiseless case: if the fitted line passes through every training
      point, predicting on those same points flags nothing. */
  lemma {:induction false} ExactFitFlagsNothing(solver: Solver, quantile: Quantile, significance: real,
                                                xs: seq<real>, ys: seq<real>)
    requires |xs| == |ys| >= 1
    requires forall i :: 0 <= i < |xs| ==> ys[i] == solver(xs, ys).Predict(xs[i])
    ensures forall k :: 0 <= k < |xs| ==> !Label(Train(solver, quantile, significance, xs, ys), xs, Present(ys))[k]
  {
    var st := Train(solver, quantile, significance, xs, ys);
    var col := Present(ys);
    var r := Label(st, xs, col);
    forall k | 0 <= k < |r| ensures !r[k] {
      assert col[k].value - st.line.Predict(xs[k]) == 0.0;
    }
  }

  /** Fitted on a single row, the classifier never flags anything: the
      threshold is NaN and every comparison with it is false. */
  lemma SingleRowFlagsNothing(solver: Solver, quantile: Quantile, significance: real,
                              x: real, y: real, xs: seq<real>, ys: seq<Option<real>>)
    requires |xs| == |ys|
    ensures forall k :: 0 <= k < |xs| ==> !Label(Train(solver, quantile, significance, [x], [y]), xs, ys)[k]
  {
  }

  /** The classifier object: unfit until `Fit` succeeds, after which it holds
      the line, the variance and the threshold (`None` standing for the
      non-finite values a single training row produces). The solver and the
      quantile function stand for the foreign libraries it calls. */
  class PredictionModel {
    const significance: real
    const solver: Solver
    const quantile: Quantile
    var line: Line
    var variance: Option<real>
    var threshold: Option<real>
    /** Whether `fit` has ever succeeded: before that, `threshold` does not exist. */
    ghost var fitted: bool

    ghost predicate Valid()
      reads this
    {
      fitted ==> (variance.Some? <==> threshold.Some?) && (variance.Some? ==> variance.value >= 0.0)
    }

    function State(): FitState
      reads this
    {
      if variance.Some? && threshold.Some? then Fitted(line, variance.value, threshold.value)
      else SingleRow(line)
    }

    /** `PredictionModel(confidence_level=0.99)`: significance `1 - confidence_level`,
        unfit; the solver and the quantile function stand for the libraries `fit` calls. */
    constructor (solver: Solver, quantile: Quantile, confidenceLevel: real := 0.99)
      ensures Valid() && !fitted
      ensures significance == 1.0 - confidenceLevel
      ensures this.solver == solver && this.quantile == quantile
    {
      significance := 1.0 - confidenceLevel;
      this.solver := solver;
      this.quantile := quantile;
      fitted := false;
    }

    /** `fit(X, Y)`: on success the object is fitted and holds `Train` of the
        columns; on any exception nothing changes. */
    method Fit(xs: seq<Option<real>>, ys: seq<Option<real>>) returns (r: Result<()>)
      requires Valid()
      modifies this
      ensures Valid()
      ensures r.Err? <==> FitError(xs, ys).Some?
      ensures r.Err? ==> r.error == FitError(xs, ys).value && unchanged(this)
      ensures r.Ok? ==> fitted && State() == Train(solver, quantile, significance, Values(xs), Values(ys))
    {
      var e := FitError(xs, ys);
      if e.Some? {
        return Err(e.value);
      }
      var x, y := Values(xs), Values(ys);
      line := solver(x, y);
      if |y| >= 2 {
        variance := Some(ResidualVariance(line, x, y));
        threshold := Some(quantile(significance, |y| - 1));
      } else {
        // `sum / 0` and `t.ppf(alpha, 0)`: not finite numbers
        variance := None;
        threshold := None;
      }
      fitted := true;
      r := Ok(());
    }

    /** `predict(X, Y)`: only in the fitted state (before the first `fit` the
        source fails on the missing `threshold`); reads the state, changes nothing. */
    method Predict(xs: seq<Option<real>>, ys: seq<Option<real>>) returns (r: Result<seq<bool>>)
      requires Valid() && fitted
      ensures r == PredictOutcome(State(), xs, ys)
      ensures r.Ok? ==> forall i :: 0 <= i < |xs| ==>
        r.value[i] == (ys[i].Some? && variance.Some? && threshold.Some? &&
                       Outlier(ys[i].value - line.Predict(xs[i].value), variance.value, threshold.value))
    {
      if |xs| != |ys| {
        return Err(ShapeMismatch);
      }
      if |xs| == 0 {
        return Err(InsufficientData);
      }
      if !AllPresent(xs) {
        return Err(InvalidInput);
      }
      r := Ok(Label(State(), Values(xs), ys));
    }
  }
}
