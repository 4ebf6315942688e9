/** The live-update callback of the dashboard (`pull_update` in view.py): one
    tick of the simulated clock. It reads the session's clock string, floors it
    to the last sampling instant, asks the controller for the labelled
    readings, turns the flagged ones into alerts, and advances the clock. */
module Dashboard {
  import opened Common
  import opened Calendar
  import opened Orchestrator

  predicate IsDigit(c: char) {
    '0' <= c <= '9'
  }

  predicate AllDigits(s: string) {
    forall i :: 0 <= i < |s| ==> IsDigit(s[i])
  }

  function DigitValue(c: char): nat
    requires IsDigit(c)
  {
    c as int - '0' as int
  }

  function DigitChar(d: nat): (c: char)
    requires d < 10
    ensures IsDigit(c) && DigitValue(c) == d
  {
    ('0' as int + d) as char
  }

  /** The number a run of decimal digits denotes (most significant first). */
  function Decimal(s: string): nat
    requires AllDigits(s)
  {
    if s == [] then 0 else Decimal(s[..|s| - 1]) * 10 + DigitValue(s[|s| - 1])
  }

  /** `int(text)` on a field of the clock string: `ValueError` (here
      `BadTimeString`) unless the text is a non-empty run of digits. */
  function ParseInt(s: string): (r: Result<int>)
    ensures r.Ok? <==> s != [] && AllDigits(s)
    ensures r.Err? ==> r.error == BadTimeString
    ensures r.Ok? ==> r.value >= 0
  {
    if s != [] && AllDigits(s) then Ok(Decimal(s)) else Err(BadTimeString)
  }

  /** Python's `text[i:j]` with `0 <= i <= j`: cut off at the end of the text. */
  function Slice(s: string, i: nat, j: nat): (r: string)
    requires i <= j
    ensures |s| >= j ==> r == s[i..j]
    ensures |r| <= j - i
  {
    if |s| <= i then [] else if |s| < j then s[i..] else s[i..j]
  }

  /** The clock string read back into a date-time: the five fields at their
      fixed positions `[0:4]`, `[5:7]`, `[8:10]`, `[11:13]`, `[14:16]` (what sits
      between them is never looked at), then `datetime(...)`, which refuses an
      impossible date or time. Every failure is a `BadTimeString`. */
  function ParseServerTime(s: string): (r: Result<DateTime>)
    ensures r.Ok? ==> Valid(r.value)
    ensures r.Err? ==> r.error == BadTimeString
    ensures r.Ok? <==>
      && ParseInt(Slice(s, 0, 4)).Ok? && ParseInt(Slice(s, 5, 7)).Ok? && ParseInt(Slice(s, 8, 10)).Ok?
      && ParseInt(Slice(s, 11, 13)).Ok? && ParseInt(Slice(s, 14, 16)).Ok?
      && Valid(DateTime(ParseInt(Slice(s, 0, 4)).value, ParseInt(Slice(s, 5, 7)).value,
                        ParseInt(Slice(s, 8, 10)).value, ParseInt(Slice(s, 11, 13)).value,
                        ParseInt(Slice(s, 14, 16)).value))
  {
    var year := ParseInt(Slice(s, 0, 4));
    var month := ParseInt(Slice(s, 5, 7));
    var day := ParseInt(Slice(s, 8, 10));
    var hour := ParseInt(Slice(s, 11, 13));
    var minute := ParseInt(Slice(s, 14, 16));
    if year.Err? || month.Err? || day.Err? || hour.Err? || minute.Err? then Err(BadTimeString)
    else
      var dt := DateTime(year.value, month.value, day.value, hour.value, minute.value);
      if Valid(dt) then Ok(dt) else Err(BadTimeString)
  }

  function Pow10(n: nat): (p: nat)
    ensures p >= 1
  {
    if n == 0 then 1 else 10 * Pow10(n - 1)
  }

  /** `n` in exactly `width` decimal digits with leading zeros (`%0<width>d`). */
  function Pad(n: nat, width: nat): (s: string)
    ensures |s| == width && AllDigits(s)
  {
    if width == 0 then [] else Pad(n / 10, width - 1) + [DigitChar(n % 10)]
  }

  /** Reading a padded number back gives the number, as long as it fits the width. */
  lemma {:induction false} PadRoundTrip(n: nat, width: nat)
    requires n < Pow10(width)
    ensures Decimal(Pad(n, width)) == n
  {
    if width > 0 {
      var p := Pad(n, width);
      assert n / 10 < Pow10(width - 1);
      PadRoundTrip(n / 10, width - 1);
      assert p[..|p| - 1] == Pad(n / 10, width - 1);
    }
  }

  /** `dt.isoformat(sep)` for a date-time with zero seconds:
      `YYYY-MM-DD<sep>HH:MM:00`. With `sep = 'T'` it is the JSON form the clock
      is stored in between ticks; with `sep = ' '` it is `str(dt)`. */
  function Format(dt: DateTime, sep: char): (s: string)
    requires Valid(dt)
    ensures |s| == 19
  {
    Pad(dt.year, 4) + "-" + Pad(dt.month, 2) + "-" + Pad(dt.day, 2) + [sep]
      + Pad(dt.hour, 2) + ":" + Pad(dt.minute, 2) + ":00"
  }

  /** The clock survives being stored as text: parsing the stored form of a
      date-time gives it back, whatever the separator. */
  lemma FormatRoundTrip(dt: DateTime, sep: char)
    requires Valid(dt)
    ensures ParseServerTime(Format(dt, sep)) == Ok(dt)
  {
    var s := Format(dt, sep);
    assert Slice(s, 0, 4) == Pad(dt.year, 4);
    assert Slice(s, 5, 7) == Pad(dt.month, 2);
    assert Slice(s, 8, 10) == Pad(dt.day, 2);
    assert Slice(s, 11, 13) == Pad(dt.hour, 2);
    assert Slice(s, 14, 16) == Pad(dt.minute, 2);
    PadRoundTrip(dt.year, 4);
    PadRoundTrip(dt.month, 2);
    PadRoundTrip(dt.day, 2);
    PadRoundTrip(dt.hour, 2);
    PadRoundTrip(dt.minute, 2);
  }

  /** The last sampling instant at or before `dt`: the minute is cut down to
      the largest multiple of 15 that does not exceed it. */
  function FloorQuarter(dt: DateTime): (r: DateTime)
    ensures r == dt.(minute := r.minute)
    ensures r.minute % Quarter == 0
    ensures 0 <= dt.minute < MinutesPerHour ==> r.minute <= dt.minute < r.minute + Quarter
    ensures Valid(dt) ==> Valid(r)
  {
    if dt.minute >= 45 then dt.(minute := 45)
    else if dt.minute >= 30 then dt.(minute := 30)
    else if dt.minute >= 15 then dt.(minute := 15)
    else dt.(minute := 0)
  }

  /** Flooring an instant that is already a sampling instant changes nothing. */
  lemma FloorQuarterIdempotent(dt: DateTime)
    ensures FloorQuarter(FloorQuarter(dt)) == FloorQuarter(dt)
  {
  }

  /** On the absolute time axis the floor is the sampling instant at or before
      `dt`, less than one period earlier. */
  lemma FloorQuarterInstant(dt: DateTime)
    requires Valid(dt)
    ensures ToMinutes(FloorQuarter(dt)) <= ToMinutes(dt) < ToMinutes(FloorQuarter(dt)) + Quarter
    ensures ToMinutes(FloorQuarter(dt)) % Quarter == 0
  {
    var r := FloorQuarter(dt);
    var d := DayNumber(r);
    assert ToMinutes(r) == Quarter * (96 * d + 4 * r.hour + r.minute / Quarter);
  }

  /** At a sampling instant, the previous instant falls on the same calendar
      day except at midnight: the alerts of the day are carried over on every
      tick but the first of a new day. */
  lemma CarryOverUnlessMidnight(time: DateTime)
    requires Shaped(time) && time.minute % Quarter == 0
    ensures SubQuarter(time).day == time.day <==> !(time.hour == 0 && time.minute == 0)
  {
    SubQuarterSameDay(time);
  }

  /** `df.loc[df['RESULT'], 'SOURCE_KEY']`: the source keys of the flagged
      rows, in row order. */
  function FlaggedSources(rows: seq<LabelledRow>): (keys: seq<string>)
    ensures |keys| <= |rows|
  {
    if rows == [] then []
    else (if rows[0].result then [rows[0].row.gen.source] else []) + FlaggedSources(rows[1..])
  }

  /** A key is reported exactly when some row with that key was flagged. */
  lemma {:induction false} FlaggedSourcesMembers(rows: seq<LabelledRow>)
    ensures forall k :: k in FlaggedSources(rows) <==>
      exists i :: 0 <= i < |rows| && rows[i].result && rows[i].row.gen.source == k
    ensures FlaggedSources(rows) == [] <==> forall i :: 0 <= i < |rows| ==> !rows[i].result
  {
    if rows != [] {
      FlaggedSourcesMembers(rows[1..]);
      forall k ensures k in FlaggedSources(rows) <==>
        exists i :: 0 <= i < |rows| && rows[i].result && rows[i].row.gen.source == k
      {
        if k in FlaggedSources(rows[1..]) {
          var i :| 0 <= i < |rows[1..]| && rows[1..][i].result && rows[1..][i].row.gen.source == k;
          assert rows[i + 1] == rows[1..][i];
        }
        if exists i :: 0 <= i < |rows| && rows[i].result && rows[i].row.gen.source == k {
          var i :| 0 <= i < |rows| && rows[i].result && rows[i].row.gen.source == k;
          if i > 0 {
            assert rows[1..][i - 1] == rows[i];
          }
        }
      }
      if forall i :: 0 <= i < |rows| ==> !rows[i].result {
        forall i | 0 <= i < |rows[1..]| ensures !rows[1..][i].result {
          assert rows[1..][i] == rows[i + 1];
        }
      }
      if FlaggedSources(rows) == [] {
        forall i | 0 <= i < |rows| ensures !rows[i].result {
          if i > 0 {
            assert rows[1..][i - 1] == rows[i];
          }
        }
      }
    }
  }

  /** A bold alert of this tick, or an unbolded one carried over. */
  datatype AlertKind = NewAlert | OldAlert
  datatype Alert = Alert(kind: AlertKind, text: string)

  /** `f"[{time}] {key} triggered performance alert!"`. */
  function AlertText(time: DateTime, key: string): string
    requires Valid(time)
  {
    "[" + Format(time, ' ') + "] " + key + " triggered performance alert!"
  }

  /** An alert names its tick and its inverter recoverably: the bracketed part
      reads back as the time, and the key follows it verbatim. */
  lemma AlertTextNamesTimeAndKey(time: DateTime, key: string)
    requires Valid(time)
    ensures |AlertText(time, key)| == 22 + |key| + 29
    ensures AlertText(time, key)[0] == '[' && AlertText(time, key)[20..22] == "] "
    ensures ParseServerTime(AlertText(time, key)[1..20]) == Ok(time)
    ensures AlertText(time, key)[22..22 + |key|] == key
  {
    var text := AlertText(time, key);
    assert text[1..20] == Format(time, ' ');
    FormatRoundTrip(time, ' ');
  }

  /** The alert list of a tick: one new alert per flagged key, in order, then,
      when `carry` holds, every previous alert's text as an old alert, in order. */
  ghost predicate AlertsFor(alerts: seq<Alert>, time: DateTime, keys: seq<string>,
                            previous: seq<string>, carry: bool)
    requires Valid(time)
  {
    && |alerts| == |keys| + (if carry then |previous| else 0)
    && (forall i :: 0 <= i < |keys| ==> alerts[i] == Alert(NewAlert, AlertText(time, keys[i])))
    && (carry ==> forall j :: |keys| <= j < |alerts| ==> alerts[j] == Alert(OldAlert, previous[j - |keys|]))
  }

  /** The two loops of the callback that build the alert list. */
  method BuildAlerts(time: DateTime, keys: seq<string>, previous: seq<string>, carry: bool)
    returns (alerts: seq<Alert>)
    requires Valid(time)
    ensures |alerts| == |keys| + (if carry then |previous| else 0)
    ensures forall i :: 0 <= i < |keys| ==> alerts[i] == Alert(NewAlert, AlertText(time, keys[i]))
    ensures carry ==> forall j :: |keys| <= j < |alerts| ==> alerts[j] == Alert(OldAlert, previous[j - |keys|])
  {
    alerts := [];
    for k := 0 to |keys|
      invariant |alerts| == k
      invariant forall i :: 0 <= i < k ==> alerts[i] == Alert(NewAlert, AlertText(time, keys[i]))
    {
      alerts := alerts + [Alert(NewAlert, AlertText(time, keys[k]))];
    }
    if carry {
      for k := 0 to |previous|
        invariant |alerts| == |keys| + k
        invariant forall i :: 0 <= i < |keys| ==> alerts[i] == Alert(NewAlert, AlertText(time, keys[i]))
        invariant forall j :: |keys| <= j < |alerts| ==> alerts[j] == Alert(OldAlert, previous[j - |keys|])
      {
        alerts := alerts + [Alert(OldAlert, previous[k])];
      }
    }
  }

  const NoAlertsText := "There are no alerts."

  /** The placeholder shown under the alert list. */
  function NullAlert(alerts: seq<Alert>): (text: string)
    ensures text == NoAlertsText <==> alerts == []
    ensures text == "" <==> alerts != []
  {
    if alerts == [] then NoAlertsText else ""
  }

  /** What the callback hands back to the page: the labelled table the bar
      chart is drawn from, the alerts, the placeholder, the stored clock string
      and the timer count. */
  datatype Update = Update(table: seq<LabelledRow>, alerts: seq<Alert>, nullAlert: string,
                           session: string, nIntervals: int)

  /** `pull_update(n_intervals, server_time, old)`. Errors, in the order the
      callback meets them: an unreadable clock string; the controller's
      exception; the step back (`time - 15 minutes`) leaving Python's date range;
      the step forward (`server_time + 15 minutes`) leaving it. */
  method PullUpdate(controller: Controller, nIntervals: int, serverTime: string, previous: seq<string>)
    returns (r: Result<Update>)
    requires controller.Valid()
    modifies controller.model
    ensures controller.Valid()
    ensures ParseServerTime(serverTime).Err? ==> r == Err(BadTimeString) && unchanged(controller.model)
    ensures ParseServerTime(serverTime).Ok? ==>
      var now := ParseServerTime(serverTime).value;
      var time := FloorQuarter(now);
      var outcome := controller.Outcome(ToMinutes(time));
      && (controller.Refits(ToMinutes(time)) ==> controller.FittedFor(ToMinutes(time)))
      && (!controller.Refits(ToMinutes(time)) ==> unchanged(controller.model))
      && (outcome.Err? ==> r == Err(outcome.error))
      && (outcome.Ok? && !Valid(SubQuarter(time)) ==> r == Err(DateOverflow))
      && (outcome.Ok? && !Valid(AddQuarter(now)) ==> r == Err(DateOverflow))
      && (r.Ok? <==> outcome.Ok? && Valid(SubQuarter(time)) && Valid(AddQuarter(now)))
      && (r.Ok? ==>
            && r.value.table == outcome.value
            && AlertsFor(r.value.alerts, time, FlaggedSources(outcome.value), previous,
                         SubQuarter(time).day == time.day)
            && r.value.nullAlert == NullAlert(r.value.alerts)
            && r.value.session == Format(AddQuarter(now), 'T')
            && r.value.nIntervals == nIntervals + 1)
  {
    var parsed := ParseServerTime(serverTime);
    if parsed.Err? {
      return Err(BadTimeString);
    }
    var now := parsed.value;
    var time := FloorQuarter(now);

    var df := controller.IdentifyOutliers(ToMinutes(time));
    if df.Err? {
      return Err(df.error);
    }

    var keys := FlaggedSources(df.value);
    var earlier := SubQuarter(time);
    if !Valid(earlier) {
      return Err(DateOverflow);
    }
    var alerts := BuildAlerts(time, keys, previous, earlier.day == time.day);
    assert AlertsFor(alerts, time, keys, previous, earlier.day == time.day);

    var nullAlert := NullAlert(alerts);
    var next := AddQuarter(now);
    if !Valid(next) {
      return Err(DateOverflow);
    }
    r := Ok(Update(df.value, alerts, nullAlert, Format(next, 'T'), nIntervals + 1));
  }

  /** Tick after tick the clock moves on by exactly one sampling period: the
      stored clock string of a successful update parses to the instant 15
      minutes after the one just read. */
  lemma ClockAdvances(serverTime: string)
    requires ParseServerTime(serverTime).Ok?
    requires Valid(AddQuarter(ParseServerTime(serverTime).value))
    ensures
      var now := ParseServerTime(serverTime).value;
      var next := ParseServerTime(Format(AddQuarter(now), 'T'));
      next.Ok? && ToMinutes(next.value) == ToMinutes(now) + Quarter
  {
    FormatRoundTrip(AddQuarter(ParseServerTime(serverTime).value), 'T');
  }
}
