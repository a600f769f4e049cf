/** Julian day numbers (solweig_gpu/sun_position.py, `julian_calculation`; section 3.1.1 of
    NREL/TP-560-34302) against counting days on the calendar. */
module JulianDay {

  datatype Date = Date(year: int, month: int, day: int)

  datatype Clock = Clock(hour: real, minute: real, second: real, utc: real)

  // ---------------------------------------------------------------- the formula

  /** floor(n / d) for a positive d; Dafny's quotient rounds down there. */
  function Floor(n: int, d: int): int
    requires d > 0
  {
    n / d
  }

  function GregorianB(y: int): int {
    var a := Floor(y, 100);
    2 - a + Floor(a, 4)
  }

  /** The calendar correction, with the branch order of the source. Dates between 4 and 15 October
      1582 take the third branch. */
  function CalendarB(d: Date, y: int): int {
    if d.year == 1582 then
      if d.month == 10 then
        if d.day <= 4 then 0
        else if d.day >= 15 then GregorianB(y)
        else 0
      else if d.month < 10 then 0
      else GregorianB(y)
    else if d.year < 1582 then 0
    else GregorianB(y)
  }

  /** B + floor(365.25 (Y + 4716)) + floor(30.6001 (M + 1)) + day. */
  function DayCount(d: Date): int {
    var y := if d.month == 1 || d.month == 2 then d.year - 1 else d.year;
    var m := if d.month == 1 || d.month == 2 then d.month + 12 else d.month;
    d.day + CalendarB(d, y) + YearDays(y) + MonthDays(m)
  }

  /** floor(365.25 (Y + 4716)) */
  function YearDays(y: int): int {
    Floor(1461 * (y + 4716), 4)
  }

  /** floor(30.6001 (M + 1)) */
  function MonthDays(m: int): int {
    Floor(306001 * (m + 1), 10000)
  }

  function UtTime(t: Clock): real {
    (t.hour - t.utc) / 24.0 + t.minute / 1440.0 + t.second / 86400.0
  }

  function JulianDay(d: Date, t: Clock): real {
    DayCount(d) as real + UtTime(t) - 1524.5
  }

  // ---------------------------------------------------------------- the calendar

  predicate Leap(year: int) {
    if year > 1582 then year % 4 == 0 && (year % 100 != 0 || year % 400 == 0) else year % 4 == 0
  }

  function MonthLength(year: int, month: int): int {
    if month == 2 then (if Leap(year) then 29 else 28)
    else if month == 4 || month == 6 || month == 9 || month == 11 then 30
    else 31
  }

  /** Dates that exist: the ten days the reform dropped do not. */
  predicate Exists(d: Date) {
    && 1 <= d.month <= 12 && 1 <= d.day <= MonthLength(d.year, d.month)
    && !(d.year == 1582 && d.month == 10 && 4 < d.day < 15)
  }

  predicate Before(x: Date, y: Date) {
    || x.year < y.year
    || (x.year == y.year && (x.month < y.month || (x.month == y.month && x.day < y.day)))
  }

  function Next(d: Date): (n: Date)
    requires Exists(d)
    ensures Exists(n) && Before(d, n)
  {
    if d == Date(1582, 10, 4) then Date(1582, 10, 15)
    else if d.day < MonthLength(d.year, d.month) then Date(d.year, d.month, d.day + 1)
    else if d.month < 12 then Date(d.year, d.month + 1, 1)
    else Date(d.year + 1, 1, 1)
  }

  function Advance(d: Date, n: nat): (r: Date)
    requires Exists(d)
    ensures Exists(r)
  {
    if n == 0 then d else Next(Advance(d, n - 1))
  }

  // ---------------------------------------------------------------- one day at a time

  lemma LeapQuarter(y: int)
    ensures YearDays(y) - YearDays(y - 1) == if y % 4 == 0 then 366 else 365
  {
  }

  lemma CenturyStep(y: int)
    ensures GregorianB(y) - GregorianB(y - 1) == if y % 100 == 0 && y % 400 != 0 then -1 else 0
  {
    var a := (y - 1) / 100;
    if y % 100 == 0 {
      assert y / 100 == a + 1;
      assert y % 400 == 0 <==> (a + 1) % 4 == 0;
    } else {
      assert y / 100 == a;
    }
  }

  lemma MonthOffsets()
    ensures MonthDays(3) == 122 && MonthDays(4) == 153 && MonthDays(5) == 183 && MonthDays(6) == 214
    ensures MonthDays(7) == 244 && MonthDays(8) == 275 && MonthDays(9) == 306 && MonthDays(10) == 336
    ensures MonthDays(11) == 367 && MonthDays(12) == 397 && MonthDays(13) == 428 && MonthDays(14) == 459
  {
  }

  lemma FebruaryEnd(d: Date)
    requires Exists(d) && d.month == 2 && d.day == MonthLength(d.year, d.month)
    ensures DayCount(Next(d)) == DayCount(d) + 1
  {
    MonthOffsets();
    var y := d.year;
    assert DayCount(d) == d.day + CalendarB(d, y - 1) + YearDays(y - 1) + 459;
    assert DayCount(Next(d)) == 1 + CalendarB(Next(d), y) + YearDays(y) + 122;
    LeapQuarter(y);
    CenturyStep(y);
    CenturyIsQuarter(y);
  }

  lemma CenturyIsQuarter(y: int)
    ensures y % 100 == 0 ==> y % 4 == 0
  {
  }

  lemma OtherMonthEnd(d: Date)
    requires Exists(d) && d.month != 2 && d.day == MonthLength(d.year, d.month)
    ensures DayCount(Next(d)) == DayCount(d) + 1
  {
    MonthOffsets();
  }

  /** The first of a month follows the last of the month before, February and New Year included. */
  lemma MonthEnd(d: Date)
    requires Exists(d) && d.day == MonthLength(d.year, d.month)
    ensures DayCount(Next(d)) == DayCount(d) + 1
  {
    if d.month == 2 {
      FebruaryEnd(d);
    } else {
      OtherMonthEnd(d);
    }
  }

  /** For every calendar date the next date's count is exactly one larger, across month ends, leap
      years, centuries and the reform of October 1582. */
  lemma NextDayCountsOne(d: Date)
    requires Exists(d)
    ensures DayCount(Next(d)) == DayCount(d) + 1
  {
    if d.day == MonthLength(d.year, d.month) {
      MonthEnd(d);
    }
  }

  lemma {:induction false} AdvanceCounts(d: Date, n: nat)
    requires Exists(d)
    ensures DayCount(Advance(d, n)) == DayCount(d) + n
  {
    if n > 0 {
      AdvanceCounts(d, n - 1);
      NextDayCountsOne(Advance(d, n - 1));
    }
  }

  // ---------------------------------------------------------------- order

  lemma WithinMonth(x: Date, y: Date)
    requires Exists(x) && Exists(y) && x.year == y.year && x.month == y.month && x.day <= y.day
    ensures DayCount(x) <= DayCount(y)
    ensures x.day < y.day ==> DayCount(x) < DayCount(y)
  {
  }

  lemma {:induction false} WithinYear(x: Date, y: Date)
    requires Exists(x) && Exists(y) && x.year == y.year && Before(x, y)
    ensures DayCount(x) < DayCount(y)
    decreases y.month - x.month
  {
    if x.month == y.month {
      WithinMonth(x, y);
    } else {
      var last := Date(x.year, x.month, MonthLength(x.year, x.month));
      WithinMonth(x, last);
      MonthEnd(last);
      if Next(last) != y {
        WithinYear(Next(last), y);
      }
    }
  }

  lemma YearEnd(d: Date)
    requires Exists(d)
    ensures DayCount(d) <= DayCount(Date(d.year, 12, 31))
    ensures DayCount(d) >= DayCount(Date(d.year, 1, 1))
  {
    if d != Date(d.year, 12, 31) {
      WithinYear(d, Date(d.year, 12, 31));
    }
    if d != Date(d.year, 1, 1) {
      WithinYear(Date(d.year, 1, 1), d);
    }
  }

  lemma {:induction false} YearsApart(year: int, n: nat)
    ensures DayCount(Date(year, 12, 31)) < DayCount(Date(year + 1 + n, 1, 1))
    decreases n
  {
    if n == 0 {
      NextDayCountsOne(Date(year, 12, 31));
    } else {
      YearsApart(year, n - 1);
      YearEnd(Date(year + n, 12, 31));
      NextDayCountsOne(Date(year + n, 12, 31));
    }
  }

  /** Later dates have larger counts, for all years. */
  lemma StrictlyMonotone(x: Date, y: Date)
    requires Exists(x) && Exists(y) && Before(x, y)
    ensures DayCount(x) < DayCount(y)
  {
    if x.year == y.year {
      WithinYear(x, y);
    } else {
      YearEnd(x);
      YearEnd(y);
      YearsApart(x.year, y.year - x.year - 1);
    }
  }

  /** The count is a faithful day count: two dates are n days apart exactly when their counts
      differ by n. In particular no two dates share a count. */
  lemma CountsDays(x: Date, y: Date, n: nat)
    requires Exists(x) && Exists(y)
    ensures Advance(x, n) == y <==> DayCount(y) - DayCount(x) == n
  {
    AdvanceCounts(x, n);
    var z := Advance(x, n);
    if z != y {
      if Before(z, y) {
        StrictlyMonotone(z, y);
      } else {
        StrictlyMonotone(y, z);
      }
    }
  }

  /** Timestamps keep the order of their dates as long as the earlier clock is less than a day of
      universal time ahead; for consecutive dates exactly then. */
  lemma TimestampsOrdered(x: Date, y: Date, s: Clock, t: Clock)
    requires Exists(x) && Exists(y) && Before(x, y)
    ensures UtTime(s) - UtTime(t) < 1.0 ==> JulianDay(x, s) < JulianDay(y, t)
    ensures y == Next(x) ==> (JulianDay(x, s) < JulianDay(y, t) <==> UtTime(s) - UtTime(t) < 1.0)
  {
    StrictlyMonotone(x, y);
    if y == Next(x) {
      NextDayCountsOne(x);
    }
  }

  /** Time of day on the local clock, in days. */
  function LocalTime(t: Clock): real {
    t.hour / 24.0 + t.minute / 1440.0 + t.second / 86400.0
  }

  /** In one zone, whatever its offset, local times of day keep the order of their dates, also when
      the offset carries universal time across midnight. */
  lemma LocalTimestampsOrdered(x: Date, y: Date, s: Clock, t: Clock)
    requires Exists(x) && Exists(y) && Before(x, y)
    requires s.utc == t.utc && 0.0 <= LocalTime(s) < 1.0 && 0.0 <= LocalTime(t) < 1.0
    ensures JulianDay(x, s) < JulianDay(y, t)
  {
    assert UtTime(s) - UtTime(t) == LocalTime(s) - LocalTime(t);
    TimestampsOrdered(x, y, s, t);
  }

  /** The epoch: noon of 1 January 2000 is day 2451545, and the reckoning starts at noon of
      1 January 4713 BC, year -4712. */
  lemma Epochs()
    ensures JulianDay(Date(2000, 1, 1), Clock(12.0, 0.0, 0.0, 0.0)) == 2451545.0
    ensures JulianDay(Date(-4712, 1, 1), Clock(12.0, 0.0, 0.0, 0.0)) == 0.0
  {
  }

  /** The clock adds its local time of day and takes off its zone: an hour of offset is a 24th of a
      day earlier. */
  lemma ClockMoves(d: Date, t: Clock)
    ensures JulianDay(d, t) == JulianDay(d, Clock(0.0, 0.0, 0.0, 0.0)) + LocalTime(t) - t.utc / 24.0
    ensures JulianDay(d, t.(utc := t.utc + 1.0)) == JulianDay(d, t) - 1.0 / 24.0
  {
  }

  /** The dropped dates: the source announces 4 October but has already read the day, so the result
      is that of the existing date ten days later, never that of the 4th. */
  lemma DroppedDatesCollide(day: int, t: Clock)
    requires 4 < day < 15
    ensures !Exists(Date(1582, 10, day)) && Exists(Date(1582, 10, day + 10))
    ensures JulianDay(Date(1582, 10, day), t) == JulianDay(Date(1582, 10, day + 10), t)
    ensures JulianDay(Date(1582, 10, day), t) != JulianDay(Date(1582, 10, 4), t)
  {
  }
}
