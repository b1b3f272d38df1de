/** Local calendar-date arithmetic of the JavaScript `Date` object, on whole days.
    A date is a proleptic Gregorian (year, zero-based month, day-of-month) triple;
    `DayNumber` counts days from 1 January 1970, as the ECMAScript `Day(t)` does. */
module Calendar {

  datatype Date = Date(year: int, month: int, day: int)

  predicate IsLeapYear(y: int) {
    y % 4 == 0 && (y % 100 != 0 || y % 400 == 0)
  }

  function DaysInYear(y: int): int {
    if IsLeapYear(y) then 366 else 365
  }

  /** Number of days of the zero-based month `m` in year `y`. */
  function DaysInMonth(y: int, m: int): int
    requires 0 <= m < 12
  {
    if m == 1 then (if IsLeapYear(y) then 29 else 28)
    else if m == 3 || m == 5 || m == 8 || m == 10 then 30
    else 31
  }

  /** A triple that names a real calendar day. */
  predicate Valid(d: Date) {
    0 <= d.month < 12 && 1 <= d.day <= DaysInMonth(d.year, d.month)
  }

  /** Days in the months of year `y` before the zero-based month `m`. */
  function DaysBeforeMonth(y: int, m: int): int
    requires 0 <= m <= 12
  {
    if m == 0 then 0 else DaysBeforeMonth(y, m - 1) + DaysInMonth(y, m - 1)
  }

  /** ECMAScript DayFromYear: day number of 1 January of year `y`
      (Dafny's `/` by a positive constant is the floor the standard asks for). */
  function DayFromYear(y: int): int {
    365 * (y - 1970) + (y - 1969) / 4 - (y - 1901) / 100 + (y - 1601) / 400
  }

  function DayNumber(d: Date): int
    requires 0 <= d.month < 12
  {
    DayFromYear(d.year) + DaysBeforeMonth(d.year, d.month) + d.day - 1
  }

  /** ECMAScript MakeDay: the day number that `new Date(y, m, d)` denotes before
      it is split back into fields; `m` and `d` may lie outside their ranges. */
  function MakeDay(y: int, m: int, d: int): int {
    var ym := y + m / 12;
    DayNumber(Date(ym, m % 12, d))
  }

  /** Weekday index as `getDay()` returns it: 0 is Sunday, 6 is Saturday;
      1 January 1970 was a Thursday. */
  function WeekDay(d: Date): (w: int)
    requires 0 <= d.month < 12
    ensures 0 <= w < 7
  {
    (DayNumber(d) + 4) % 7
  }

  predicate IsWeekend(w: int) {
    w == 0 || w == 6
  }

  lemma DaysInMonthValues(y: int, m: int)
    requires 0 <= m < 12
    ensures m == 1 && IsLeapYear(y) ==> DaysInMonth(y, m) == 29
    ensures m == 1 && !IsLeapYear(y) ==> DaysInMonth(y, m) == 28
    ensures m in {3, 5, 8, 10} ==> DaysInMonth(y, m) == 30
    ensures m in {0, 2, 4, 6, 7, 9, 11} ==> DaysInMonth(y, m) == 31
    ensures 28 <= DaysInMonth(y, m) <= 31
  {
  }

  /** The month lengths of a year add up to the year's length. */
  lemma YearLength(y: int)
    ensures DaysBeforeMonth(y, 12) == DaysInYear(y)
  {
    var feb := DaysInMonth(y, 1);
    assert DaysBeforeMonth(y, 1) == 31;
    assert DaysBeforeMonth(y, 2) == 31 + feb;
    assert DaysBeforeMonth(y, 3) == 62 + feb;
    assert DaysBeforeMonth(y, 4) == 92 + feb;
    assert DaysBeforeMonth(y, 5) == 123 + feb;
    assert DaysBeforeMonth(y, 6) == 153 + feb;
    assert DaysBeforeMonth(y, 7) == 184 + feb;
    assert DaysBeforeMonth(y, 8) == 215 + feb;
    assert DaysBeforeMonth(y, 9) == 245 + feb;
    assert DaysBeforeMonth(y, 10) == 276 + feb;
    assert DaysBeforeMonth(y, 11) == 306 + feb;
  }

  lemma FloorStep(a: int, k: int)
    requires k == 4 || k == 100 || k == 400
    ensures (a + 1) / k - a / k == if (a + 1) % k == 0 then 1 else 0
  {
  }

  /** Consecutive years are `DaysInYear` apart, so the closed form agrees with the
      Gregorian leap-year rule. */
  lemma {:induction false} DayFromYearStep(y: int)
    ensures DayFromYear(y + 1) == DayFromYear(y) + DaysInYear(y)
  {
    FloorStep(y - 1969, 4);
    FloorStep(y - 1901, 100);
    FloorStep(y - 1601, 400);
    assert (y - 1968) % 4 == 0 <==> y % 4 == 0;
    assert (y - 1900) % 100 == 0 <==> y % 100 == 0;
    assert (y - 1600) % 400 == 0 <==> y % 400 == 0;
  }

  lemma {:induction false} DayFromYearMonotone(a: int, b: int)
    requires a < b
    ensures DayFromYear(a + 1) <= DayFromYear(b)
    decreases b - a
  {
    if a + 1 < b {
      DayFromYearMonotone(a, b - 1);
      DayFromYearStep(b - 1);
    }
  }

  lemma {:induction false} DaysBeforeMonthMonotone(y: int, a: int, b: int)
    requires 0 <= a < b <= 12
    ensures DaysBeforeMonth(y, a + 1) <= DaysBeforeMonth(y, b)
    decreases b - a
  {
    if a + 1 < b {
      DaysBeforeMonthMonotone(y, a, b - 1);
    }
  }

  /** A valid date's day number lies within its own year. */
  lemma DayNumberInYear(d: Date)
    requires Valid(d)
    ensures DayFromYear(d.year) <= DayNumber(d) < DayFromYear(d.year + 1)
  {
    DayFromYearStep(d.year);
    YearLength(d.year);
    assert DaysBeforeMonth(d.year, d.month + 1)
        == DaysBeforeMonth(d.year, d.month) + DaysInMonth(d.year, d.month);
    if d.month + 1 < 12 {
      DaysBeforeMonthMonotone(d.year, d.month, 12);
    }
    assert 0 <= DaysBeforeMonth(d.year, d.month) by {
      if d.month > 0 {
        DaysBeforeMonthMonotone(d.year, 0, d.month);
      }
    }
  }

  /** Distinct valid dates have distinct day numbers. */
  lemma DayNumberInjective(a: Date, b: Date)
    requires Valid(a) && Valid(b)
    requires DayNumber(a) == DayNumber(b)
    ensures a == b
  {
    DayNumberInYear(a);
    DayNumberInYear(b);
    if a.year < b.year {
      DayFromYearMonotone(a.year, b.year);
    } else if b.year < a.year {
      DayFromYearMonotone(b.year, a.year);
    }
    assert a.year == b.year;
    if a.month < b.month {
      DaysBeforeMonthMonotone(a.year, a.month, b.month);
    } else if b.month < a.month {
      DaysBeforeMonthMonotone(a.year, b.month, a.month);
    }
  }

  /** 1 January of year y + 1 follows 31 December of year y. */
  lemma YearBoundary(y: int)
    ensures DayFromYear(y + 1) == DayNumber(Date(y, 11, 31)) + 1
  {
    DayFromYearStep(y);
    YearLength(y);
  }

  /** Rolls a day-of-month outside `1..DaysInMonth` into the neighbouring months,
      one month at a time. */
  function NormalizeDay(y: int, m: int, d: int): (r: Date)
    requires 0 <= m < 12
    ensures Valid(r)
    ensures DayNumber(r) == DayNumber(Date(y, m, d))
    decreases if d < 1 then 1 - d else 0, d
  {
    if d < 1 then
      var py := if m == 0 then y - 1 else y;
      var pm := if m == 0 then 11 else m - 1;
      YearBoundary(y - 1);
      NormalizeDay(py, pm, d + DaysInMonth(py, pm))
    else if d > DaysInMonth(y, m) then
      var ny := if m == 11 then y + 1 else y;
      var nm := if m == 11 then 0 else m + 1;
      YearBoundary(y);
      NormalizeDay(ny, nm, d - DaysInMonth(y, m))
    else
      Date(y, m, d)
  }

  /** The date that the fields (y, m, d) denote after JavaScript rollover:
      the month first carries into the year, then the day into the month. */
  function Normalize(y: int, m: int, d: int): (r: Date)
    ensures Valid(r)
    ensures DayNumber(r) == MakeDay(y, m, d)
  {
    NormalizeDay(y + m / 12, m % 12, d)
  }

  /** The year the `Date` constructor uses: a year from 0 to 99 means 1900 + y. */
  function FullYear(y: int): int {
    if 0 <= y <= 99 then 1900 + y else y
  }

  /** `new Date(y, m, d)`. */
  function NewDate(y: int, m: int, d: int): (r: Date)
    ensures Valid(r)
    ensures DayNumber(r) == MakeDay(FullYear(y), m, d)
  {
    Normalize(FullYear(y), m, d)
  }

  /** A day that exists in the (rolled-over) month comes back as it is. */
  lemma NewDateInMonth(y: int, m: int, d: int)
    requires 1 <= d <= DaysInMonth(FullYear(y) + m / 12, m % 12)
    ensures NewDate(y, m, d) == Date(FullYear(y) + m / 12, m % 12, d)
  {
    assert NormalizeDay(FullYear(y) + m / 12, m % 12, d) == Date(FullYear(y) + m / 12, m % 12, d);
  }

  /** `date.setDate(d)`: keep year and month, then roll over. */
  function SetDate(date: Date, d: int): (r: Date)
    requires Valid(date)
    ensures Valid(r)
    ensures DayNumber(r) == DayNumber(date) + d - date.day
  {
    Normalize(date.year, date.month, d)
  }

  /** Setting a day that exists in the month only changes the day. */
  lemma SetDateInMonth(date: Date, d: int)
    requires Valid(date) && 1 <= d <= DaysInMonth(date.year, date.month)
    ensures SetDate(date, d) == Date(date.year, date.month, d)
  {
    assert date.month / 12 == 0 && date.month % 12 == date.month;
    assert NormalizeDay(date.year, date.month, d) == Date(date.year, date.month, d);
  }

  /** Normalize returns THE valid date with the day number MakeDay gives it. */
  lemma NormalizeUnique(y: int, m: int, d: int, r: Date)
    requires Valid(r) && DayNumber(r) == MakeDay(y, m, d)
    ensures Normalize(y, m, d) == r
  {
    DayNumberInjective(Normalize(y, m, d), r);
  }

  /** Fields already in range are left as they are. */
  lemma NormalizeValid(d: Date)
    requires Valid(d)
    ensures Normalize(d.year, d.month, d.day) == d
  {
    assert d.month / 12 == 0 && d.month % 12 == d.month;
  }

  /** The date `k` days after `start`, as `setDate(getDate() + 1)` repeated `k` times
      reaches it. */
  function Advance(start: Date, k: int): (r: Date)
    requires Valid(start)
    ensures Valid(r)
    ensures DayNumber(r) == DayNumber(start) + k
  {
    Normalize(start.year, start.month, start.day + k)
  }

  /** One `setDate(getDate() + 1)` step moves from Advance(start, k) to Advance(start, k + 1). */
  lemma AdvanceStep(start: Date, k: int)
    requires Valid(start)
    ensures SetDate(Advance(start, k), Advance(start, k).day + 1) == Advance(start, k + 1)
  {
    var c := Advance(start, k);
    DayNumberInjective(SetDate(c, c.day + 1), Advance(start, k + 1));
  }

  /** Inside one month, advancing only moves the day-of-month. */
  lemma AdvanceInMonth(start: Date, k: int)
    requires Valid(start) && 0 <= k && start.day + k <= DaysInMonth(start.year, start.month)
    ensures Advance(start, k) == Date(start.year, start.month, start.day + k)
  {
    assert start.month / 12 == 0 && start.month % 12 == start.month;
    assert NormalizeDay(start.year, start.month, start.day + k)
        == Date(start.year, start.month, start.day + k);
  }

  lemma ModSeven(n: int)
    ensures (n + 5) % 7 == ((n + 4) % 7 + 1) % 7
  {
  }

  /** The next day's weekday follows on cyclically. */
  lemma AdvanceWeekDay(start: Date, k: int)
    requires Valid(start)
    ensures WeekDay(Advance(start, k + 1)) == (WeekDay(Advance(start, k)) + 1) % 7
  {
    var a, b := Advance(start, k), Advance(start, k + 1);
    var n := DayNumber(a);
    assert DayNumber(b) == n + 1;
    ModSeven(n);
  }

  /** The day after the last day of a month is the first of the next month. */
  lemma DayAfterLastOfMonth(y: int, m: int)
    requires 0 <= m < 12
    ensures Normalize(y, m, DaysInMonth(y, m) + 1)
         == if m == 11 then Date(y + 1, 0, 1) else Date(y, m + 1, 1)
  {
    var r := if m == 11 then Date(y + 1, 0, 1) else Date(y, m + 1, 1);
    assert m / 12 == 0 && m % 12 == m;
    if m == 11 {
      YearBoundary(y);
    }
    NormalizeUnique(y, m, DaysInMonth(y, m) + 1, r);
  }

  /** Day 0 of the following month is the last day of this month. */
  lemma DayZeroOfNextMonth(y: int, m: int)
    ensures Normalize(y, m + 1, 0)
         == Date(y + m / 12, m % 12, DaysInMonth(y + m / 12, m % 12))
  {
    var r := Date(y + m / 12, m % 12, DaysInMonth(y + m / 12, m % 12));
    if (m + 1) % 12 == 0 {
      assert m % 12 == 11 && (m + 1) / 12 == m / 12 + 1;
      DayFromYearStep(y + m / 12);
      YearLength(y + m / 12);
    } else {
      assert (m + 1) % 12 == m % 12 + 1 && (m + 1) / 12 == m / 12;
    }
    NormalizeUnique(y, m + 1, 0, r);
  }

  lemma NovemberFirst2024IsFriday()
    ensures NewDate(2024, 10, 1) == Date(2024, 10, 1)
    ensures WeekDay(Date(2024, 10, 1)) == 5 && !IsWeekend(5)
    ensures WeekDay(Date(2024, 10, 2)) == 6 && IsWeekend(6)
  {
    assert DaysBeforeMonth(2024, 10) == 305 by {
      assert DaysBeforeMonth(2024, 2) == 60;
      assert DaysBeforeMonth(2024, 4) == 121;
      assert DaysBeforeMonth(2024, 6) == 182;
      assert DaysBeforeMonth(2024, 8) == 244;
    }
    assert DayFromYear(2024) == 19723;
  }
}
