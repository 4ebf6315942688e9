/** The proleptic Gregorian date-times the dashboard callback builds with
    `datetime.datetime(**fields)` and shifts with `timedelta(minutes = 15)`,
    at minute resolution (seconds are always zero in the callback). */
module Calendar {

  /** The smallest and largest years a Python `datetime` can hold. */
  const MinYear := 1
  const MaxYear := 9999

  const MinutesPerHour := 60
  const MinutesPerDay := 1440
  /** The dashboard's refresh period, also the sampling period of the plant data. */
  const Quarter := 15

  datatype DateTime = DateTime(year: int, month: int, day: int, hour: int, minute: int)

  predicate IsLeapYear(y: int) {
    y % 4 == 0 && (y % 100 != 0 || y % 400 == 0)
  }

  function DaysInYear(y: int): int {
    if IsLeapYear(y) then 366 else 365
  }

  function DaysInMonth(y: int, m: int): (n: int)
    requires 1 <= m <= 12
    ensures 28 <= n <= 31
    ensures n == 29 <==> m == 2 && IsLeapYear(y)
  {
    if m == 2 then (if IsLeapYear(y) then 29 else 28)
    else if m == 4 || m == 6 || m == 9 || m == 11 then 30
    else 31
  }

  /** Month, day, hour and minute are in range; the year may be any integer,
      so that a step past either end of Python's range can be represented. */
  predicate Shaped(dt: DateTime) {
    && 1 <= dt.month <= 12
    && 1 <= dt.day <= DaysInMonth(dt.year, dt.month)
    && 0 <= dt.hour < 24
    && 0 <= dt.minute < MinutesPerHour
  }

  /** What `datetime.datetime(...)` accepts without raising. */
  predicate Valid(dt: DateTime) {
    Shaped(dt) && MinYear <= dt.year <= MaxYear
  }

  /** Days in the years before `y`, counted from 1 January of year 1. */
  function DaysBeforeYear(y: int): nat
    requires y >= MinYear
    decreases y
  {
    if y == MinYear then 0 else DaysBeforeYear(y - 1) + DaysInYear(y - 1)
  }

  /** Days in the months of year `y` before month `m`. */
  function DaysBeforeMonth(y: int, m: int): nat
    requires 1 <= m <= 12
  {
    [0, 31, 59, 90, 120, 151, 181, 212, 243, 273, 304, 334][m - 1]
      + (if m > 2 && IsLeapYear(y) then 1 else 0)
  }

  /** The number of whole days between 1 January of year 1 and the date of `dt`. */
  function DayNumber(dt: DateTime): nat
    requires Shaped(dt) && dt.year >= MinYear
  {
    DaysBeforeYear(dt.year) + DaysBeforeMonth(dt.year, dt.month) + dt.day - 1
  }

  /** The absolute minute of `dt`: the integer time axis the stores are indexed by. */
  function ToMinutes(dt: DateTime): nat
    requires Shaped(dt) && dt.year >= MinYear
  {
    DayNumber(dt) * MinutesPerDay + dt.hour * MinutesPerHour + dt.minute
  }

  /** The following calendar day (time of day unchanged). */
  function NextDay(dt: DateTime): DateTime
    requires Shaped(dt)
  {
    if dt.day < DaysInMonth(dt.year, dt.month) then dt.(day := dt.day + 1)
    else if dt.month < 12 then dt.(month := dt.month + 1, day := 1)
    else dt.(year := dt.year + 1, month := 1, day := 1)
  }

  /** The preceding calendar day (time of day unchanged). */
  function PrevDay(dt: DateTime): (r: DateTime)
    requires Shaped(dt)
    ensures Shaped(r) && NextDay(r) == dt
  {
    if dt.day > 1 then dt.(day := dt.day - 1)
    else if dt.month > 1 then dt.(month := dt.month - 1, day := DaysInMonth(dt.year, dt.month - 1))
    else dt.(year := dt.year - 1, month := 12, day := 31)
  }

  lemma DaysBeforeNextMonth(y: int, m: int)
    requires 1 <= m < 12
    ensures DaysBeforeMonth(y, m + 1) == DaysBeforeMonth(y, m) + DaysInMonth(y, m)
  {
  }

  lemma DaysBeforeYearEnd(y: int)
    ensures DaysBeforeMonth(y, 12) + DaysInMonth(y, 12) == DaysInYear(y)
  {
  }

  /** The next day is exactly one day later on the minute axis. */
  lemma NextDayNumber(dt: DateTime)
    requires Shaped(dt)
    ensures Shaped(NextDay(dt))
    ensures dt.year >= MinYear ==>
      NextDay(dt).year >= MinYear && DayNumber(NextDay(dt)) == DayNumber(dt) + 1
  {
    if dt.day < DaysInMonth(dt.year, dt.month) {
    } else if dt.month < 12 {
      DaysBeforeNextMonth(dt.year, dt.month);
    } else {
      DaysBeforeYearEnd(dt.year);
    }
  }

  /** `dt + timedelta(minutes = 15)`. */
  function AddQuarter(dt: DateTime): (r: DateTime)
    requires Shaped(dt)
    ensures Shaped(r)
    ensures dt.year >= MinYear ==> r.year >= MinYear && ToMinutes(r) == ToMinutes(dt) + Quarter
  {
    if dt.minute + Quarter < MinutesPerHour then
      dt.(minute := dt.minute + Quarter)
    else if dt.hour + 1 < 24 then
      dt.(hour := dt.hour + 1, minute := dt.minute + Quarter - MinutesPerHour)
    else
      NextDayNumber(dt);
      NextDay(dt).(hour := 0, minute := dt.minute + Quarter - MinutesPerHour)
  }

  /** `dt - timedelta(minutes = 15)`. */
  function SubQuarter(dt: DateTime): (r: DateTime)
    requires Shaped(dt)
    ensures Shaped(r)
    ensures AddQuarter(r) == dt
  {
    if dt.minute >= Quarter then
      dt.(minute := dt.minute - Quarter)
    else if dt.hour >= 1 then
      dt.(hour := dt.hour - 1, minute := dt.minute + MinutesPerHour - Quarter)
    else
      PrevDay(dt).(hour := 23, minute := dt.minute + MinutesPerHour - Quarter)
  }

  /** Subtracting and then adding a quarter hour, in either order, is the identity. */
  lemma {:induction false} QuarterRoundTrip(dt: DateTime)
    requires Shaped(dt)
    ensures SubQuarter(AddQuarter(dt)) == dt
    ensures AddQuarter(SubQuarter(dt)) == dt
  {
    var a := AddQuarter(dt);
    if dt.minute + Quarter < MinutesPerHour {
    } else if dt.hour + 1 < 24 {
    } else if dt.day < DaysInMonth(dt.year, dt.month) {
    } else if dt.month < 12 {
      assert a == DateTime(dt.year, dt.month + 1, 1, 0, dt.minute + Quarter - MinutesPerHour);
    } else {
      assert a == DateTime(dt.year + 1, 1, 1, 0, dt.minute + Quarter - MinutesPerHour);
    }
  }

  /** The date part is the day number and the time part the minute of that day. */
  lemma ToMinutesSplit(dt: DateTime)
    requires Shaped(dt) && dt.year >= MinYear
    ensures ToMinutes(dt) / MinutesPerDay == DayNumber(dt)
    ensures ToMinutes(dt) % MinutesPerDay == dt.hour * MinutesPerHour + dt.minute
  {
    var tod := dt.hour * MinutesPerHour + dt.minute;
    assert 0 <= tod < MinutesPerDay;
  }

  lemma {:induction false} DaysBeforeYearGrows(y1: int, y2: int)
    requires MinYear <= y1 < y2
    ensures DaysBeforeYear(y1) + DaysInYear(y1) <= DaysBeforeYear(y2)
    decreases y2
  {
    if y1 + 1 < y2 {
      DaysBeforeYearGrows(y1, y2 - 1);
    }
  }

  lemma {:induction false} DaysBeforeMonthGrows(y: int, m1: int, m2: int)
    requires 1 <= m1 < m2 <= 12
    ensures DaysBeforeMonth(y, m1) + DaysInMonth(y, m1) <= DaysBeforeMonth(y, m2)
    decreases m2
  {
    if m1 + 1 < m2 {
      DaysBeforeMonthGrows(y, m1, m2 - 1);
      DaysBeforeNextMonth(y, m2 - 1);
    } else {
      DaysBeforeNextMonth(y, m1);
    }
  }

  lemma DayOfYearBound(dt: DateTime)
    requires Shaped(dt)
    ensures DaysBeforeMonth(dt.year, dt.month) + dt.day <= DaysInYear(dt.year)
  {
    if dt.month < 12 {
      DaysBeforeMonthGrows(dt.year, dt.month, 12);
    }
    DaysBeforeYearEnd(dt.year);
  }

  /** Distinct calendar dates have distinct day numbers. */
  lemma DayNumberInjective(a: DateTime, b: DateTime)
    requires Shaped(a) && a.year >= MinYear && Shaped(b) && b.year >= MinYear
    requires DayNumber(a) == DayNumber(b)
    ensures a.year == b.year && a.month == b.month && a.day == b.day
  {
    DayOfYearBound(a);
    DayOfYearBound(b);
    if a.year < b.year {
      DaysBeforeYearGrows(a.year, b.year);
    } else if b.year < a.year {
      DaysBeforeYearGrows(b.year, a.year);
    } else if a.month < b.month {
      DaysBeforeMonthGrows(a.year, a.month, b.month);
    } else if b.month < a.month {
      DaysBeforeMonthGrows(a.year, b.month, a.month);
    }
  }

  /** The minute axis identifies a date-time: `AddQuarter(dt)` is the one
      date-time that lies 15 minutes after `dt`. */
  lemma ToMinutesInjective(a: DateTime, b: DateTime)
    requires Shaped(a) && a.year >= MinYear && Shaped(b) && b.year >= MinYear
    requires ToMinutes(a) == ToMinutes(b)
    ensures a == b
  {
    ToMinutesSplit(a);
    ToMinutesSplit(b);
    DayNumberInjective(a, b);
  }

  /** `a` comes strictly before `b` in calendar order: by year, then month,
      day, hour and minute (the order of `datetime` comparison). */
  predicate Before(a: DateTime, b: DateTime) {
    || a.year < b.year
    || (a.year == b.year && a.month < b.month)
    || (a.year == b.year && a.month == b.month && a.day < b.day)
    || (a.year == b.year && a.month == b.month && a.day == b.day && a.hour < b.hour)
    || (a.year == b.year && a.month == b.month && a.day == b.day && a.hour == b.hour && a.minute < b.minute)
  }

  /** An earlier calendar date has a smaller day number. */
  lemma DayNumberMonotone(a: DateTime, b: DateTime)
    requires Shaped(a) && a.year >= MinYear && Shaped(b) && b.year >= MinYear
    requires a.year < b.year || (a.year == b.year && a.month < b.month)
             || (a.year == b.year && a.month == b.month && a.day < b.day)
    ensures DayNumber(a) < DayNumber(b)
  {
    DayOfYearBound(a);
    if a.year < b.year {
      DaysBeforeYearGrows(a.year, b.year);
    } else if a.month < b.month {
      DaysBeforeMonthGrows(a.year, a.month, b.month);
    }
  }

  /** The minute axis preserves the order of date-times: comparing two
      `datetime` keys is comparing their minutes. */
  lemma ToMinutesOrder(a: DateTime, b: DateTime)
    requires Shaped(a) && a.year >= MinYear && Shaped(b) && b.year >= MinYear
    ensures Before(a, b) <==> ToMinutes(a) < ToMinutes(b)
  {
    if Before(a, b) {
      ToMinutesBefore(a, b);
    } else if Before(b, a) {
      ToMinutesBefore(b, a);
    }
  }

  lemma ToMinutesBefore(a: DateTime, b: DateTime)
    requires Shaped(a) && a.year >= MinYear && Shaped(b) && b.year >= MinYear
    requires Before(a, b)
    ensures ToMinutes(a) < ToMinutes(b)
  {
    if a.year != b.year || a.month != b.month || a.day != b.day {
      DayNumberMonotone(a, b);
    }
  }

  /** `dt - timedelta(days = k)`. */
  function DaysBack(dt: DateTime, k: nat): (r: DateTime)
    requires Shaped(dt)
    ensures Shaped(r) && r.hour == dt.hour && r.minute == dt.minute
  {
    if k == 0 then dt else PrevDay(DaysBack(dt, k - 1))
  }

  /** Going back `k` whole days is subtracting `k * 1440` on the minute axis,
      as long as the result is still a date of Python's range. */
  lemma {:induction false} DaysBackMinutes(dt: DateTime, k: nat)
    requires Shaped(dt) && DaysBack(dt, k).year >= MinYear
    ensures dt.year >= MinYear
    ensures ToMinutes(DaysBack(dt, k)) == ToMinutes(dt) - k * MinutesPerDay
  {
    if k > 0 {
      NextDayNumber(DaysBack(dt, k));
      DaysBackMinutes(dt, k - 1);
    }
  }

  /** Stepping back a quarter hour stays on the same calendar day exactly when
      the time of day is 00:15 or later. */
  lemma SubQuarterSameDay(dt: DateTime)
    requires Shaped(dt)
    ensures SubQuarter(dt).day == dt.day <==> dt.hour > 0 || dt.minute >= Quarter
  {
    if dt.hour == 0 && dt.minute < Quarter && dt.day == 1 {
      if dt.month > 1 {
        assert SubQuarter(dt).day == DaysInMonth(dt.year, dt.month - 1);
      }
    }
  }
}
