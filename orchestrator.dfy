/** `Controller` of controller.py: for a reference time it builds the training
    table from the trailing history of both streams and the table of current
    readings, refits the classifier and labels every current reading. */
module Orchestrator {
  import opened Common
  import opened Store
  import opened Detector
  import Calendar

  /** The columns of a generation row besides its timestamp. */
  datatype Generation = Generation(
    source: string, dc: Option<real>, ac: Option<real>,
    dailyYield: Option<real>, totalYield: Option<real>)

  /** The columns of a weather row besides its timestamp. */
  datatype Weather = Weather(
    source: string, ambient: Option<real>, moduleTemp: Option<real>, irradiation: Option<real>)

  /** The inclusive interval of minutes the history is taken from. */
  datatype Window = Window(start: int, end: int)

  /** `[current - (lag + 1) days, current - 15 minutes]` on the minute axis of
      `Calendar.ToMinutes`: for a non-negative lag the window lies wholly before
      `current`, so the reading being judged is never part of its own training
      data; the history ends one sampling period before now. */
  function HistoryWindow(current: int, lag: int): (w: Window)
    ensures w.end < current && current - w.end == Calendar.Quarter
    ensures current - w.start == (lag + 1) * Calendar.MinutesPerDay
    ensures lag >= 0 ==> w.start < w.end
  {
    Window(current - (lag + 1) * Calendar.MinutesPerDay, current - Calendar.Quarter)
  }

  /** The window computed on minutes is the one the code computes with
      `datetime` arithmetic, `current - timedelta(days = lag + 1)` and
      `current - timedelta(minutes = 15)`, whenever both dates exist. */
  lemma HistoryWindowOfDates(t: Calendar.DateTime, lag: nat)
    requires Calendar.Shaped(t)
    requires Calendar.DaysBack(t, lag + 1).year >= Calendar.MinYear
    requires Calendar.SubQuarter(t).year >= Calendar.MinYear
    ensures t.year >= Calendar.MinYear
    ensures HistoryWindow(Calendar.ToMinutes(t), lag)
            == Window(Calendar.ToMinutes(Calendar.DaysBack(t, lag + 1)),
                      Calendar.ToMinutes(Calendar.SubQuarter(t)))
  {
    Calendar.DaysBackMinutes(t, lag + 1);
    Calendar.QuarterRoundTrip(t);
  }

  /** One row of the merged history after `dropna`, with its POWER. */
  datatype TrainingRow = TrainingRow(ts: int, gen: Generation, weather: Weather, power: real)

  /** No cell of the merged row is missing (what `dropna` keeps). */
  predicate Complete(g: Generation, w: Weather) {
    && g.dc.Some? && g.ac.Some? && g.dailyYield.Some? && g.totalYield.Some?
    && w.ambient.Some? && w.moduleTemp.Some? && w.irradiation.Some?
  }

  /** The weather columns a left merge on the index attaches to a row stamped
      `t`: the weather row stamped `t`, or nothing (all NaN). */
  function WeatherAt(ws: seq<Entry<Weather>>, t: int): (r: Option<Weather>)
    ensures r.Some? ==> Entry(t, r.value) in ws
    ensures r.None? ==> forall e :: e in ws ==> e.ts != t
  {
    if ws == [] then None
    else if ws[0].ts == t then Some(ws[0].data)
    else WeatherAt(ws[1..], t)
  }

  /** The history table: each generation row merged with the weather row at the
      same timestamp (`how = 'left'`), rows with any missing cell dropped, and
      `POWER = DC_POWER + AC_POWER` added. Stored order is kept. */
  function Join(gs: seq<Entry<Generation>>, ws: seq<Entry<Weather>>): (rows: seq<TrainingRow>)
    ensures |rows| <= |gs|
    ensures forall r :: r in rows ==>
      && Entry(r.ts, r.gen) in gs
      && WeatherAt(ws, r.ts) == Some(r.weather)
      && Complete(r.gen, r.weather)
      && r.power == r.gen.dc.value + r.gen.ac.value
  {
    if gs == [] then []
    else
      var g := gs[0];
      var w := WeatherAt(ws, g.ts);
      var rest := Join(gs[1..], ws);
      if w.Some? && Complete(g.data, w.value) then
        [TrainingRow(g.ts, g.data, w.value, g.data.dc.value + g.data.ac.value)] + rest
      else rest
  }

  /** Nothing is dropped that should stay: every generation row that has a
      weather row at its timestamp and no missing cell is in the history table. */
  lemma {:induction false} JoinKeepsMatched(gs: seq<Entry<Generation>>, ws: seq<Entry<Weather>>, g: Entry<Generation>)
    requires g in gs
    requires WeatherAt(ws, g.ts).Some? && Complete(g.data, WeatherAt(ws, g.ts).value)
    ensures TrainingRow(g.ts, g.data, WeatherAt(ws, g.ts).value, g.data.dc.value + g.data.ac.value) in Join(gs, ws)
  {
    if gs[0] != g {
      JoinKeepsMatched(gs[1..], ws, g);
    }
  }

  /** Every row of the table survived `dropna`. */
  predicate AllComplete(rows: seq<TrainingRow>) {
    forall r :: r in rows ==> Complete(r.gen, r.weather)
  }

  /** The irradiation column of the history table. */
  function Irradiations(rows: seq<TrainingRow>): (xs: seq<real>)
    requires AllComplete(rows)
    ensures |xs| == |rows|
  {
    seq(|rows|, i requires 0 <= i < |rows| => rows[i].weather.irradiation.value)
  }

  /** The POWER column of the history table. */
  function Powers(rows: seq<TrainingRow>): (ys: seq<real>)
    ensures |ys| == |rows|
  {
    seq(|rows|, i requires 0 <= i < |rows| => rows[i].power)
  }

  /** One current reading with the broadcast irradiation and its POWER. */
  datatype CurrentRow = CurrentRow(ts: int, gen: Generation, irradiation: Option<real>, power: Option<real>)

  /** A current reading and its RESULT (true: outlier). */
  datatype LabelledRow = LabelledRow(row: CurrentRow, result: bool)

  /** The RESULT the fitted classifier gives a current row with a present
      irradiation: the outlier rule on its residual; a row without POWER
      compares as NaN and is not flagged. */
  predicate Verdict(st: FitState, row: CurrentRow)
    requires row.irradiation.Some?
  {
    row.power.Some? && st.Flags(row.power.value - st.line.Predict(row.irradiation.value))
  }

  /** `present_data`: a copy of the current generation rows, every one given the
      one irradiation reading at the current time, and `POWER = DC + AC`
      (missing when either part is). */
  function Broadcast(cur: seq<Entry<Generation>>, irradiation: Option<real>): (rows: seq<CurrentRow>)
    ensures |rows| == |cur|
    ensures forall i :: 0 <= i < |cur| ==>
      && rows[i].ts == cur[i].ts && rows[i].gen == cur[i].data
      && rows[i].irradiation == irradiation
      && (rows[i].power.Some? <==> cur[i].data.dc.Some? && cur[i].data.ac.Some?)
      && (rows[i].power.Some? ==> rows[i].power.value == cur[i].data.dc.value + cur[i].data.ac.value)
  {
    seq(|cur|, i requires 0 <= i < |cur| =>
      CurrentRow(cur[i].ts, cur[i].data, irradiation, AddOpt(cur[i].data.dc, cur[i].data.ac)))
  }

  function CurrentIrradiations(rows: seq<CurrentRow>): (xs: seq<Option<real>>)
    ensures |xs| == |rows|
  {
    seq(|rows|, i requires 0 <= i < |rows| => rows[i].irradiation)
  }

  function CurrentPowers(rows: seq<CurrentRow>): (ys: seq<Option<real>>)
    ensures |ys| == |rows|
  {
    seq(|rows|, i requires 0 <= i < |rows| => rows[i].power)
  }

  /** `present_data['RESULT'] = flags`: the column is aligned by position. */
  function Attach(rows: seq<CurrentRow>, flags: seq<bool>): (out: seq<LabelledRow>)
    requires |rows| == |flags|
    ensures |out| == |rows|
  {
    seq(|rows|, i requires 0 <= i < |rows| => LabelledRow(rows[i], flags[i]))
  }

  /** The history table for a reference time. */
  function TrainingSet(generation: DataModel<Generation>, weather: DataModel<Weather>,
                       lag: int, current: int): (rows: seq<TrainingRow>)
    requires generation.Valid() && weather.Valid()
    ensures AllComplete(rows)
  {
    var w := HistoryWindow(current, lag);
    Join(generation.GetSlice(w.start, w.end), weather.GetSlice(w.start, w.end))
  }

  /** The part of `identify_outliers` after both lookups succeeded: fit on the
      history table, then label the current rows, or the first exception. */
  function Judge(training: seq<TrainingRow>, cur: seq<Entry<Generation>>, irradiation: Option<real>,
                 solver: Solver, quantile: Quantile, significance: real): Result<seq<LabelledRow>>
    requires AllComplete(training)
  {
    if |training| == 0 then Err(InsufficientData)
    else
      var st := Train(solver, quantile, significance, Irradiations(training), Powers(training));
      var present := Broadcast(cur, irradiation);
      match PredictOutcome(st, CurrentIrradiations(present), CurrentPowers(present))
      case Err(e) => Err(e)
      case Ok(flags) => Ok(Attach(present, flags))
  }

  /** What `identify_outliers(current)` returns: `KeyError` when either stream
      has no reading at `current`; otherwise the classifier refitted on the
      history table, then its verdict on each current row, or the first
      exception `fit` or `predict` raises. */
  function Classify(generation: DataModel<Generation>, weather: DataModel<Weather>, lag: int,
                    solver: Solver, quantile: Quantile, significance: real,
                    current: int): Result<seq<LabelledRow>>
    requires generation.Valid() && UniqueSorted(weather.rows)
  {
    UniquePoint(weather, current);
    var curGen := generation.GetPoint(current);
    var curWeather := weather.GetPoint(current);
    if curGen.Err? || curWeather.Err? then Err(KeyNotFound)
    else
      Judge(TrainingSet(generation, weather, lag, current), curGen.value,
            curWeather.value[0].data.irradiation, solver, quantile, significance)
  }

  /** The fit-and-label stage fails for an empty history, or for a missing
      current irradiation (scikit-learn rejects the feature column), and for
      nothing else once there is at least one current row. */
  lemma JudgeFailures(training: seq<TrainingRow>, cur: seq<Entry<Generation>>, irradiation: Option<real>,
                      solver: Solver, quantile: Quantile, significance: real)
    requires AllComplete(training)
    requires cur != []
    ensures
      var r := Judge(training, cur, irradiation, solver, quantile, significance);
      && (r == Err(InsufficientData) <==> |training| == 0)
      && (r == Err(InvalidInput) <==> |training| >= 1 && irradiation.None?)
      && (r.Err? <==> r == Err(InsufficientData) || r == Err(InvalidInput))
  {
    if |training| >= 1 {
      var xs := CurrentIrradiations(Broadcast(cur, irradiation));
      assert xs[0] == irradiation;
      if irradiation.Some? {
        assert AllPresent(xs);
      }
    }
  }

  /** A successful fit-and-label gives one labelled row per current row, in
      order: the row keeps its columns, takes the (present) broadcast
      irradiation, has `POWER = DC + AC` (missing when either is), and its
      RESULT is the outlier rule of the classifier trained on the history. */
  lemma JudgeLabels(training: seq<TrainingRow>, cur: seq<Entry<Generation>>, irradiation: Option<real>,
                    solver: Solver, quantile: Quantile, significance: real)
    requires AllComplete(training)
    requires Judge(training, cur, irradiation, solver, quantile, significance).Ok?
    ensures |training| >= 1 && irradiation.Some?
    ensures
      var out := Judge(training, cur, irradiation, solver, quantile, significance).value;
      var st := Train(solver, quantile, significance, Irradiations(training), Powers(training));
      && |out| == |cur|
      && forall i :: 0 <= i < |out| ==>
           && out[i].row == CurrentRow(cur[i].ts, cur[i].data, irradiation, AddOpt(cur[i].data.dc, cur[i].data.ac))
           && out[i].result == Verdict(st, out[i].row)
  {
    var present := Broadcast(cur, irradiation);
    var xs := CurrentIrradiations(present);
    assert xs[0] == irradiation;
    assert forall i :: 0 <= i < |cur| ==>
      present[i] == CurrentRow(cur[i].ts, cur[i].data, irradiation, AddOpt(cur[i].data.dc, cur[i].data.ac));
  }

  /** With one row per timestamp, the weather at a timestamp is unique. */
  lemma WeatherRowUnique(ws: seq<Entry<Weather>>, t: int, a: Weather, b: Weather)
    requires UniqueSorted(ws) && Entry(t, a) in ws && Entry(t, b) in ws
    ensures a == b
  {
    var i :| 0 <= i < |ws| && ws[i] == Entry(t, a);
    var j :| 0 <= j < |ws| && ws[j] == Entry(t, b);
    if i < j {
      assert ws[i].ts < ws[j].ts;
    } else if j < i {
      assert ws[j].ts < ws[i].ts;
    }
  }

  /** Every history row lies in the window, hence strictly before `current`,
      pairs a stored generation row with the stored weather row of the same
      timestamp, has no missing cell, and carries `POWER = DC + AC`. */
  lemma TrainingSetSound(generation: DataModel<Generation>, weather: DataModel<Weather>,
                         lag: int, current: int)
    requires generation.Valid() && weather.Valid()
    ensures forall r :: r in TrainingSet(generation, weather, lag, current) ==>
      && HistoryWindow(current, lag).start <= r.ts <= HistoryWindow(current, lag).end
      && r.ts < current
      && Entry(r.ts, r.gen) in generation.rows
      && Entry(r.ts, r.weather) in weather.rows
      && Complete(r.gen, r.weather)
      && r.power == r.gen.dc.value + r.gen.ac.value
  {
  }

  /** Conversely, the merge loses no usable row: a generation row inside the
      window whose timestamp has a weather row, with no cell missing in either,
      is in the history table. */
  lemma TrainingSetComplete(generation: DataModel<Generation>, weather: DataModel<Weather>,
                            lag: int, current: int, g: Entry<Generation>, w: Weather)
    requires generation.Valid() && UniqueSorted(weather.rows)
    requires g in generation.rows && Entry(g.ts, w) in weather.rows
    requires HistoryWindow(current, lag).start <= g.ts <= HistoryWindow(current, lag).end
    requires Complete(g.data, w)
    ensures TrainingRow(g.ts, g.data, w, g.data.dc.value + g.data.ac.value)
              in TrainingSet(generation, weather, lag, current)
  {
    var win := HistoryWindow(current, lag);
    var gs := generation.GetSlice(win.start, win.end);
    var ws := weather.GetSlice(win.start, win.end);
    var found := WeatherAt(ws, g.ts);
    assert found.Some? by {
      assert Entry(g.ts, w) in ws;
    }
    WeatherRowUnique(weather.rows, g.ts, found.value, w);
    JoinKeepsMatched(gs, ws, g);
  }

  /** When `identify_outliers` fails, and why: `KeyError` exactly when either
      stream lacks a reading at `current`; an empty sample exactly when no
      merged history row survives (one row is enough to fit); a rejected feature column exactly
      when the weather reading at `current` has no irradiation. Nothing else
      can fail: the merged history is complete and the columns are aligned. */
  lemma ClassifyFailures(generation: DataModel<Generation>, weather: DataModel<Weather>, lag: int,
                         solver: Solver, quantile: Quantile, significance: real, current: int)
    requires generation.Valid() && UniqueSorted(weather.rows)
    ensures weather.Valid()
    ensures
      var r := Classify(generation, weather, lag, solver, quantile, significance, current);
      var found := generation.GetPoint(current).Ok? && weather.GetPoint(current).Ok?;
      var enough := |TrainingSet(generation, weather, lag, current)| >= 1;
      && (r == Err(KeyNotFound) <==> !found)
      && (r == Err(InsufficientData) <==> found && !enough)
      && (r == Err(InvalidInput) <==>
            found && enough && exists w :: Entry(current, w) in weather.rows && w.irradiation.None?)
      && (r.Err? <==> r == Err(KeyNotFound) || r == Err(InsufficientData) || r == Err(InvalidInput))
  {
    UniquePoint(weather, current);
    var curGen := generation.GetPoint(current);
    var curWeather := weather.GetPoint(current);
    if curGen.Ok? && curWeather.Ok? {
      var here := curWeather.value[0];
      assert here in curWeather.value;
      assert Entry(current, here.data) == here;
      var training := TrainingSet(generation, weather, lag, current);
      JudgeFailures(training, curGen.value, here.data.irradiation, solver, quantile, significance);
      if here.data.irradiation.Some? {
        forall w | Entry(current, w) in weather.rows ensures w.irradiation.Some? {
          WeatherRowUnique(weather.rows, current, w, here.data);
        }
      }
    }
  }

  /** A successful call labels the generation rows stamped `current` (`cur`,
      never empty, so the first RESULT the view reads always exists), in
      stored order: each keeps its columns, takes the irradiation of the
      weather row `w` stamped `current` (which is present), has
      `POWER = DC + AC` (missing when either is), and its RESULT is the outlier
      rule of the classifier trained on the history table. */
  lemma ClassifyLabels(generation: DataModel<Generation>, weather: DataModel<Weather>, lag: int,
                       solver: Solver, quantile: Quantile, significance: real, current: int,
                       cur: seq<Entry<Generation>>, w: Weather)
    requires generation.Valid() && UniqueSorted(weather.rows)
    requires generation.GetPoint(current) == Ok(cur)
    requires Entry(current, w) in weather.rows
    requires Classify(generation, weather, lag, solver, quantile, significance, current).Ok?
    ensures weather.Valid()
    ensures |TrainingSet(generation, weather, lag, current)| >= 1 && w.irradiation.Some?
    ensures
      var out := Classify(generation, weather, lag, solver, quantile, significance, current).value;
      var training := TrainingSet(generation, weather, lag, current);
      var st := Train(solver, quantile, significance, Irradiations(training), Powers(training));
      && |out| == |cur| && |out| > 0
      && forall i :: 0 <= i < |out| ==>
           && Entry(current, out[i].row.gen) == cur[i]
           && out[i].row.ts == current
           && out[i].row.irradiation == w.irradiation
           && out[i].row.power == AddOpt(out[i].row.gen.dc, out[i].row.gen.ac)
           && out[i].result == Verdict(st, out[i].row)
  {
    UniquePoint(weather, current);
    var here := weather.GetPoint(current).value[0];
    assert here in weather.GetPoint(current).value;
    assert Entry(current, here.data) == here;
    WeatherRowUnique(weather.rows, current, w, here.data);
    var training := TrainingSet(generation, weather, lag, current);
    var out := Classify(generation, weather, lag, solver, quantile, significance, current).value;
    assert out == Judge(training, cur, w.irradiation, solver, quantile, significance).value;
    JudgeLabels(training, cur, w.irradiation, solver, quantile, significance);
    var st := Train(solver, quantile, significance, Irradiations(training), Powers(training));
    forall i | 0 <= i < |out|
      ensures && Entry(current, out[i].row.gen) == cur[i]
              && out[i].row.ts == current
              && out[i].row.irradiation == w.irradiation
              && out[i].row.power == AddOpt(out[i].row.gen.dc, out[i].row.gen.ac)
              && out[i].result == Verdict(st, out[i].row)
    {
      assert cur[i] in cur;
      assert out[i].row == CurrentRow(cur[i].ts, cur[i].data, w.irradiation, AddOpt(cur[i].data.dc, cur[i].data.ac));
    }
  }

  lemma ValuesOfPresent(xs: seq<real>)
    ensures Values(Present(xs)) == xs
  {
  }

  /** The controller: two read-only streams, the configuration, and the one
      classifier it refits on every call. */
  class Controller {
    const generation: DataModel<Generation>
    const weather: DataModel<Weather>
    const confidenceLevel: real
    const lag: int
    const model: PredictionModel

    ghost predicate Valid()
      reads this, model
    {
      && generation.Valid()
      && UniqueSorted(weather.rows)
      && model.Valid()
      && model.significance == 1.0 - confidenceLevel
    }

    /** `Controller(generation_df, weather_df, confidence_level=0.9999, lag=7)`; the
        solver and the quantile function stand for the libraries the classifier calls. */
    constructor (generation: DataModel<Generation>, weather: DataModel<Weather>,
                 solver: Solver, quantile: Quantile,
                 confidenceLevel: real := 0.9999, lag: int := 7)
      requires generation.Valid() && UniqueSorted(weather.rows)
      ensures Valid() && fresh(model) && !model.fitted
      ensures this.generation == generation && this.weather == weather
      ensures this.confidenceLevel == confidenceLevel && this.lag == lag
      ensures model.solver == solver && model.quantile == quantile
    {
      this.confidenceLevel := confidenceLevel;
      this.lag := lag;
      this.generation := generation;
      this.weather := weather;
      model := new PredictionModel(solver, quantile, confidenceLevel);
    }

    /** What a call at `current` returns, for these streams and this configuration. */
    function Outcome(current: int): Result<seq<LabelledRow>>
      requires generation.Valid() && UniqueSorted(weather.rows)
    {
      Classify(generation, weather, lag, model.solver, model.quantile, model.significance, current)
    }

    /** Whether a call at `current` reaches `fit` and `fit` succeeds. */
    predicate Refits(current: int)
      requires generation.Valid() && weather.Valid()
    {
      generation.GetPoint(current).Ok? && weather.GetPoint(current).Ok?
        && |TrainingSet(generation, weather, lag, current)| >= 1
    }

    /** The classifier holds the fit on the history table for `current`. */
    ghost predicate FittedFor(current: int)
      reads model
      requires generation.Valid() && weather.Valid()
    {
      && model.fitted
      && |TrainingSet(generation, weather, lag, current)| >= 1
      && model.State() == Train(model.solver, model.quantile, model.significance,
                                Irradiations(TrainingSet(generation, weather, lag, current)),
                                Powers(TrainingSet(generation, weather, lag, current)))
    }

    /** `identify_outliers(current_date)`: returns `Classify`; it fits before it
        predicts, so `predict` always runs fitted, and afterwards the classifier
        holds the fit on this call's history (or is untouched when the call
        failed before `fit` succeeded). */
    method IdentifyOutliers(current: int) returns (r: Result<seq<LabelledRow>>)
      requires Valid()
      modifies model
      ensures Valid()
      ensures r == Outcome(current)
      ensures Refits(current) ==> FittedFor(current)
      ensures !Refits(current) ==> unchanged(model)
    {
      var w := HistoryWindow(current, lag);
      var pastGeneration := generation.GetSlice(w.start, w.end);
      var pastWeather := weather.GetSlice(w.start, w.end);

      var currentGeneration := generation.GetPoint(current);
      if currentGeneration.Err? {
        return Err(KeyNotFound);
      }
      var currentWeather := weather.GetPoint(current);
      if currentWeather.Err? {
        return Err(KeyNotFound);
      }
      UniquePoint(weather, current);
      var irradiation := currentWeather.value[0].data.irradiation;

      var pastData := Join(pastGeneration, pastWeather);
      assert pastData == TrainingSet(generation, weather, lag, current);
      assert Outcome(current) == Judge(pastData, currentGeneration.value, irradiation,
                                       model.solver, model.quantile, model.significance);
      var present := Broadcast(currentGeneration.value, irradiation);

      var xs, ys := Irradiations(pastData), Powers(pastData);
      ValuesOfPresent(xs);
      ValuesOfPresent(ys);
      var fitted := model.Fit(Present(xs), Present(ys));
      if fitted.Err? {
        assert FitError(Present(xs), Present(ys)) == Some(InsufficientData);
        return Err(fitted.error);
      }
      var flags := model.Predict(CurrentIrradiations(present), CurrentPowers(present));
      if flags.Err? {
        return Err(flags.error);
      }
      r := Ok(Attach(present, flags.value));
    }
  }
}
