# Solar plant outlier dashboard — a verified model

The system watches a solar plant. Two sensor streams feed it, read from CSV
files and indexed by timestamp:

- inverter generation: DC and AC power, daily and total yield;
- plant weather: ambient and module temperature, irradiation.

On every tick of the dashboard timer (view.py:40 sets the period), the callback
runs one cycle, and each cycle advances the simulated clock by 15 minutes:

1. It reads a simulated clock and floors it to the last sampling instant.
2. It asks the controller to label that instant's generation readings.
   - The controller takes the trailing `lag + 1` days of history, which end
     15 minutes before the instant.
   - It joins generation to weather on timestamp and drops rows with missing
     cells.
   - It fits a robust line of POWER (`DC + AC`) against irradiation.
   - It flags each current reading whose standardised residual
     `residual / sqrt(variance)` lies below the one-sided Student-t critical
     value.
3. It turns flagged inverters into alerts, carrying the day's earlier alerts
   over, and advances the clock.

The project has six modules:

- `Common` (`common.dfy`): the option, result and error types. A missing
  value (pandas NaN) is `None`.
- `Calendar` (`calendar.dfy`): proleptic Gregorian date-times at minute
  resolution.
  - `ToMinutes` maps them onto the integer time axis the stores are indexed
    by.
  - `AddQuarter` and `SubQuarter` are `± timedelta(minutes = 15)`. The year
    may step outside Python's 1..9999; the callback reports that as an
    overflow.
- `Store` (`store.dfy`): `DataModel` as an immutable table of rows sorted by
  timestamp.
  - `GetSlice` is the inclusive range lookup.
  - `GetPoint` is the exact-timestamp lookup.
- `Detector` (`detector.dfy`): the classifier.
  - It is a `PredictionModel` class whose `Fit` stores the line, variance
    and threshold, and whose `Predict` may only run once fitted.
  - The specification functions are `Train`, `FitError`, `Label` and
    `PredictOutcome`.
  - The threshold test is stated without a square root as `Outlier` and
    proved equal to `res / sigma < threshold`.
- `Orchestrator` (`orchestrator.dfy`): the `Controller` class.
  - `IdentifyOutliers` is proved to return `Classify`.
  - `Classify` is the pure description of one call: history window, join and
    `dropna`, irradiation broadcast, POWER, fit, then predict.
- `Dashboard` (`dashboard.dfy`): `pull_update`.
  - Clock-string parsing by fixed positions, with a round-trip lemma for the
    stored form.
  - Quarter-hour flooring.
  - Alert building: two loops, proved against `AlertsFor`.
  - The placeholder text, and the advance of the clock.

Foreign code stays abstract:

- The Huber regression solver is a function value of type
  `Solver = (seq<real>, seq<real>) -> Line`.
- scipy's `t.ppf` is a function value of type `Quantile = (real, int) -> real`.
- Both are given to the `Controller` constructor and held by the classifier.
  The constructors keep the code's defaults: confidence 0.99 for the
  classifier, and confidence 0.9999 and lag 7 for the controller.
- Numbers are `real`.
- Where floating point decides an outcome, the model states that outcome
  explicitly:
  - With zero variance, a negative residual over zero is minus infinity, which
    is below any finite threshold.
  - `0/0` is NaN and compares false, and so does plus infinity.
  - A single training row gives a NaN threshold (see `SingleRow`).

Three behaviours of the code shape the model:

- `get_slice(t)` with no row at `t` raises `KeyError` (pandas `.loc[t]`), so
  `identify_outliers` raises `KeyError` when either stream has no reading at
  the current time.
- `fit` accepts a single training row: the variance is `x / 0`, the threshold
  `t.ppf(alpha, 0)` is NaN, and no reading is flagged. An empty history
  raises, from scikit-learn.
- Every call of `identify_outliers` refits the classifier on that call's
  history before predicting.

## Model

| member | source | states |
|---|---|---|
| `Common.AddOpt` | controller.py:73-74 | `DC + AC` is present exactly when both parts are, and is then their sum: NaN propagates into POWER |
| `Calendar.DaysInMonth` | view.py:127 | month lengths of the Gregorian calendar: 28 to 31 days, 29 exactly for February of a leap year |
| `Calendar.AddQuarter` | view.py:195 | adding 15 minutes yields a well-formed date-time exactly 15 minutes later on the absolute time axis |
| `Calendar.SubQuarter` | view.py:179 | subtracting 15 minutes yields a well-formed date-time that adding 15 minutes brings back |
| `Calendar.QuarterRoundTrip` | view.py:195 | `+15` then `-15` minutes, and `-15` then `+15`, are both the identity |
| `Calendar.SubQuarterSameDay` | view.py:179 | stepping back 15 minutes keeps the day of the month exactly when the time of day is 00:15 or later |
| `Calendar.ToMinutes` | model.py:31 | the `DATE_TIME` index key as a minute count from 0001-01-01 00:00: whole days since that date times 1440 plus the time of day; see the three lemmas below for what makes it a faithful key |
| `Calendar.ToMinutesInjective` | model.py:48-49 | distinct date-times have distinct minute keys, so the integer index identifies the `datetime` key |
| `Calendar.ToMinutesOrder` | model.py:50 | one date-time comes before another (year, month, day, hour, minute) exactly when its minute key is smaller, so range slicing on minutes is slicing on `datetime` |
| `Calendar.DaysBackMinutes` | controller.py:55 | `dt - timedelta(days = k)`, while it stays in year 1 or later, is exactly `k * 1440` minutes earlier |
| `Store.BetweenMembers` | model.py:50 | the range filter keeps exactly the rows with `start <= ts <= end`; no row in range gives the empty table |
| `Store.BetweenIsBlock` | model.py:50 | on sorted rows the range is one contiguous block, from the count of rows before `start` to the count up to `end` |
| `Store.BetweenSorted` | model.py:50 | the range result is sorted, in stored order |
| `Store.DataModel.GetSlice` | model.py:48-50 | the range form: sorted, exactly the rows in `[start, end]` inclusive, empty (not an error) when none, a contiguous block of the table |
| `Store.DataModel.GetPoint` | model.py:48-49 | the point form: `KeyError` exactly when no row has timestamp `t`; otherwise the same rows as the range `[t, t]`, non-empty, exactly those stamped `t` |
| `Store.BetweenUnique` | model.py:49 | with strictly increasing timestamps a point range holds at most one row |
| `Store.UniquePoint` | controller.py:61 | a successful point lookup in the weather stream is a single row |
| `Detector.SumSquaresSign` | model.py:83 | a sum of squares is never negative and is zero when every term is zero |
| `Detector.ResidualVariance` | model.py:81-83 | `sum(res^2)/(n-1)` is non-negative and zero when the line passes through every training point |
| `Detector.Train` | model.py:80-84 | the fitted state holds the solver's line; for `n >= 2` the variance with `n - 1` degrees of freedom (non-negative, zero on an exact fit) and `quantile(significance, n - 1)`; for `n = 1` no finite variance or threshold |
| `Detector.FitError` | model.py:78-80 | `fit` raises exactly when the lengths differ (the assertion), a value is missing, or there are no rows; unequal lengths give the assertion error |
| `Detector.Outlier` | model.py:102-104 | the one-sided test `res / sqrt(variance) < threshold`, with floating point at zero variance: a negative residual gives minus infinity, flagged below every finite threshold; `0/0` (NaN) and plus infinity are never flagged. `OutlierIsTestStatistic` proves it is the quotient test for positive variance |
| `Detector.OutlierIsTestStatistic` | model.py:103-104 | for positive variance the square-root-free `Outlier` equals `res / sigma < threshold` with `sigma * sigma == variance` |
| `Detector.OutlierMonotone` | model.py:102-104 | a lower residual is flagged whenever a higher one is: the test is one-sided |
| `Detector.AtOrAboveLineNeverFlagged` | model.py:102-104 | with a threshold `<= 0`, a reading at or above the fitted line is never flagged |
| `Detector.Label` | model.py:102-105 | one flag per row, in order; row `i` is flagged iff its POWER is present and the fitted state flags its residual `y - line(x)` |
| `Detector.PredictOutcome` | model.py:99-105 | `predict` fails exactly on unequal lengths (assertion), an empty batch or a missing feature value; otherwise one flag per row |
| `Detector.ExactFitFlagsNothing` | model.py:80-104 | if the fitted line passes through every training point, predicting on those points flags none |
| `Detector.SingleRowFlagsNothing` | model.py:83-84 | after a fit on one row (NaN threshold) no reading is ever flagged |
| `Detector.PredictionModel.constructor` | model.py:64-67 | a new classifier is unfit, with significance `1 - confidence_level`; the level defaults to 0.99 |
| `Detector.PredictionModel.Fit` | model.py:69-84 | fails exactly as `FitError` says and then changes nothing; on success the object is fitted and holds `Train` of the columns |
| `Detector.PredictionModel.Predict` | model.py:86-105 | callable only when fitted; changes nothing; returns `PredictOutcome` of the stored state, row `i` flagged iff POWER present and `Outlier` of its residual |
| `Orchestrator.HistoryWindow` | controller.py:54-55 | the window ends 15 minutes before `current` and starts `lag + 1` days before it, so for `lag >= 0` start < end < current |
| `Orchestrator.HistoryWindowOfDates` | controller.py:54-55 | the minute window is the one `datetime` arithmetic gives: it starts at `current - timedelta(days = lag + 1)` and ends at `current - timedelta(minutes = 15)`, whenever both dates exist |
| `Orchestrator.WeatherAt` | controller.py:63-68 | the left merge attaches the weather row stored at the same timestamp, or nothing when there is none |
| `Orchestrator.Join` | controller.py:63-73 | every history row is a stored generation row paired with the weather at its timestamp, with no missing cell, and `POWER = DC + AC` |
| `Orchestrator.JoinKeepsMatched` | controller.py:63-69 | every generation row that has weather at its timestamp and no missing cell is kept |
| `Orchestrator.TrainingSet` | controller.py:57-69 | the history table holds only complete rows |
| `Orchestrator.TrainingSetSound` | controller.py:54-73 | every history row lies in the window, strictly before `current`, pairs stored generation and weather rows of one timestamp, is complete, and has `POWER = DC + AC` |
| `Orchestrator.TrainingSetComplete` | controller.py:57-69 | a complete generation row in the window with weather at its timestamp is in the history table |
| `Orchestrator.Broadcast` | controller.py:70-74 | `present_data`: one row per current generation row, in order, keeping its timestamp and columns, all given the one current irradiation reading, with `POWER = DC + AC`, missing exactly when either part is |
| `Orchestrator.Judge` | controller.py:70-79 | the part of a call after both lookups: an empty history raises; otherwise fit on the history, broadcast the irradiation, predict; `JudgeFailures` and `JudgeLabels` state its outcomes |
| `Orchestrator.Classify` | controller.py:54-79 | one whole call: window, both slices, both point lookups (`KeyError`), merge and `dropna`, POWER, fit, predict; `ClassifyFailures` and `ClassifyLabels` state its outcomes and `IdentifyOutliers` is proved to return it |
| `Orchestrator.JudgeFailures` | controller.py:76-77 | after both lookups, a call fails only for an empty history or a missing current irradiation, and for each exactly then |
| `Orchestrator.JudgeLabels` | controller.py:70-79 | a successful fit-and-predict returns one row per current generation row, in order, with the broadcast irradiation, `POWER = DC + AC`, and RESULT the trained classifier's verdict |
| `Orchestrator.ClassifyFailures` | controller.py:57-77 | a call raises `KeyError` iff either stream lacks a reading at `current`, an empty-sample error iff no history row survives, a feature error iff the current irradiation is missing, and nothing else |
| `Orchestrator.ClassifyLabels` | controller.py:60-79 | a successful call returns exactly the generation rows at `current` (never none), in order, each with the irradiation of the weather row at `current`, `POWER = DC + AC` and RESULT of the classifier trained on the history table |
| `Orchestrator.Controller.constructor` | controller.py:31-40 | stores the streams, confidence level (default 0.9999) and lag (default 7) and creates a fresh unfit classifier with significance `1 - confidence_level` |
| `Orchestrator.Controller.IdentifyOutliers` | controller.py:42-79 | returns `Classify` for `current`; fits before it predicts; afterwards the classifier holds the fit on this call's history, or is untouched when the call failed before the fit succeeded |
| `Dashboard.ParseInt` | view.py:121-125 | `int(field)` succeeds exactly on a non-empty run of digits, with a non-negative value |
| `Dashboard.ParseServerTime` | view.py:120-127 | the clock string is read at positions `[0:4]`, `[5:7]`, `[8:10]`, `[11:13]`, `[14:16]`; it succeeds exactly when all five are digit runs forming a valid date-time, which it then is |
| `Dashboard.PadRoundTrip` | view.py:121-125 | a number written with leading zeros in a width it fits reads back as itself |
| `Dashboard.Format` | view.py:195-197 | the stored ISO form of `next_time` (separator `T`), and `str(time)` in alert texts (separator space): always 19 characters; `FormatRoundTrip` shows the clock reads back from it |
| `Dashboard.FormatRoundTrip` | view.py:120-127 | parsing the stored (ISO) form of a valid date-time gives it back |
| `Dashboard.FloorQuarter` | view.py:130-138 | the floored minute is a multiple of 15, at most the original and within 15 of it; year, month, day and hour are unchanged; validity is kept |
| `Dashboard.FloorQuarterIdempotent` | view.py:130-138 | flooring twice is flooring once |
| `Dashboard.FloorQuarterInstant` | view.py:130-141 | on the time axis the floored instant is a multiple of 15 minutes, at or before the clock and less than 15 minutes earlier |
| `Dashboard.CarryOverUnlessMidnight` | view.py:179-186 | at a sampling instant, old alerts are carried over exactly when the instant is not 00:00 |
| `Dashboard.FlaggedSources` | view.py:164 | `df.loc[df['RESULT'], 'SOURCE_KEY']`: the keys of the flagged rows, in row order, never more than there are rows |
| `Dashboard.FlaggedSourcesMembers` | view.py:164 | the keys alerted on are exactly the source keys of rows with RESULT true; none iff no row is flagged |
| `Dashboard.AlertText` | view.py:172 | the text `[<time>] <key> triggered performance alert!` of a new alert and of its log line |
| `Dashboard.AlertTextNamesTimeAndKey` | view.py:172 | the alert's bracketed part reads back as the tick's time and the inverter key follows it verbatim |
| `Dashboard.BuildAlerts` | view.py:163-186 | one new alert per flagged key, in order, with the logged text, followed when carrying over by every previous alert's text, in order, as old alerts |
| `Dashboard.NullAlert` | view.py:188-192 | the placeholder is "There are no alerts." exactly when the list is empty, and empty otherwise |
| `Dashboard.PullUpdate` | view.py:115-197 | errors in the callback's order (bad clock string, controller exception, date overflow of `time - 15 min` or `server_time + 15 min`); on success the table is the controller's result at the floored time, the alerts satisfy `AlertsFor`, the placeholder is `NullAlert`, the stored clock is the ISO form of `server_time + 15 min`, and `n_intervals` grows by one |
| `Dashboard.ClockAdvances` | view.py:194-197 | the stored clock of one tick parses, on the next tick, to exactly 15 minutes after the clock just read |

## Left out

- Loading the CSV files and setting the index (model.py:26-31), the
  configuration file and the application wiring: the streams are given as
  sorted sequences of rows.
- The inside of scikit-learn's `HuberRegressor` and scipy's `t.ppf`: they are
  the function values `Solver` and `Quantile`. The fitted model is the `Line`
  the solver returns, and `predict` of the regressor is `Line.Predict`.
- Floating point: arithmetic is over `real` and rounding is not modelled.
  Two non-finite cases are modelled: zero variance, and the NaN threshold of
  a single training row.
- A confidence level of exactly 1 or 0, or outside `[0, 1]`: `t.ppf` then
  gives minus infinity, plus infinity or NaN for every sample size, and
  `Quantile` returns a finite real instead. The defaults (0.99, 0.9999) lie
  strictly inside. For such a level the model's RESULTs are those of some
  finite threshold, which need not be the code's.
- The Dash layout, the interval timer, the bar chart and its colour order
  (view.py:144-160). The model does show that the table the colours are
  taken from is never empty on success, so `order[0]` exists.
- Writing alerts to the daily log file (view.py:165-176). The alert texts are
  modelled; opening and writing the file are not.
- Old alerts are page components. The model keeps only the text each one
  holds (`text['props']['children']`).
- Columns besides those the model names (plant id, the weather row's source
  key after the merge suffix). They are taken as never missing, so `dropna`
  is decided by the numeric columns.
- A current time with exactly one generation row: pandas' `.loc[t]` then
  returns a `Series`, so `present_data['POWER']` is a single number. After
  the refit, `predict` raises at `len(Y)` in its length check (model.py:99).
  The model treats the current rows as a table in every case, and returns
  one labelled row instead of that exception.
- Several weather rows at one timestamp: the weather stream must have
  strictly increasing timestamps (`UniqueSorted`). The merge would multiply
  rows otherwise.
- `Dashboard.ParseInt`: models `int()` on ASCII digit runs only. Python also
  accepts surrounding whitespace, a sign, underscores between digits and
  other Unicode digits. The fixed-width clock strings the dashboard stores
  hold none of these.
- `Orchestrator.HistoryWindow`: works on integer minutes. It does not model
  the `OverflowError` that `datetime` raises when the window would start
  before year 1.
- `Detector.ResidualVariance`: states only that an exact fit gives zero
  variance, not the converse. The converse needs reasoning about a sum of
  real squares that the solver does not do.
- Determinism of a cycle is immediate in the model, since every
  specification is a function, and is not stated separately.
- Concurrency and timer queuing: one callback runs at a time, and the model
  has no concurrency.
