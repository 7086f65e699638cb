/**
 * The proleptic Gregorian calendar that Python's `datetime` and pandas use,
 * with the day-number ("ordinal") conversion in both directions: day 1 is
 * 0001-01-01, and subtracting a `timedelta` of k days from a date is
 * subtracting k from its ordinal.
 */
module Calendar {

  /** A civil date; `ValidDate` says when it names a real day. */
  datatype Date = Date(year: int, month: int, day: int)

  predicate IsLeapYear(y: int) {
    y % 4 == 0 && (y % 100 != 0 || y % 400 == 0)
  }

  function DaysInYear(y: int): int {
    if IsLeapYear(y) then 366 else 365
  }

  function DaysInMonth(y: int, m: int): int
    requires 1 <= m <= 12
  {
    if m == 2 then (if IsLeapYear(y) then 29 else 28)
    else if m == 4 || m == 6 || m == 9 || m == 11 then 30
    else 31
  }

  predicate ValidDate(d: Date) {
    1 <= d.year && 1 <= d.month <= 12 && 1 <= d.day <= DaysInMonth(d.year, d.month)
  }

  /** Days of year `y` that lie before the first day of month `m` (`m == 13`: the whole year). */
  function DaysBeforeMonth(y: int, m: int): int
    requires 1 <= m <= 13
  {
    [0, 31, 59, 90, 120, 151, 181, 212, 243, 273, 304, 334, 365][m - 1]
      + (if m > 2 && IsLeapYear(y) then 1 else 0)
  }

  /** Days before 1 January of year `y`, counted from 0001-01-01. */
  function DaysBeforeYear(y: int): (n: int)
    requires 1 <= y
    ensures 365 * (y - 1) <= n
  {
    var x := y - 1;
    assert 4 * (x / 4) <= x < 4 * (x / 4) + 4 && 100 * (x / 100) <= x;
    365 * x + x / 4 - x / 100 + x / 400
  }

  /** The day number of a date: 0001-01-01 is day 1. */
  function ToOrdinal(d: Date): (n: int)
    requires ValidDate(d)
    ensures 1 <= n
  {
    DaysBeforeYear(d.year) + DaysBeforeMonth(d.year, d.month) + d.day
  }

  lemma DaysBeforeMonthStep(y: int, m: int)
    requires 1 <= m <= 12
    ensures DaysBeforeMonth(y, m + 1) == DaysBeforeMonth(y, m) + DaysInMonth(y, m)
  {
  }

  lemma DaysBeforeMonthOrder(y: int, m: int, n: int)
    requires 1 <= m < n <= 13
    ensures DaysBeforeMonth(y, m) + DaysInMonth(y, m) <= DaysBeforeMonth(y, n)
  {
  }

  /** Consecutive 1 January are a year's length apart. */
  lemma DaysBeforeYearStep(y: int)
    requires 1 <= y
    ensures DaysBeforeYear(y + 1) == DaysBeforeYear(y) + DaysInYear(y)
  {
    var x := y - 1;
    assert x / 4 == (y / 4 - (if y % 4 == 0 then 1 else 0));
    assert x / 100 == (y / 100 - (if y % 100 == 0 then 1 else 0));
    assert x / 400 == (y / 400 - (if y % 400 == 0 then 1 else 0));
  }

  lemma {:induction false} DaysBeforeYearOrder(a: int, b: int)
    requires 1 <= a < b
    ensures DaysBeforeYear(a) + DaysInYear(a) <= DaysBeforeYear(b)
    decreases b - a
  {
    DaysBeforeYearStep(a);
    if a + 1 < b {
      DaysBeforeYearOrder(a + 1, b);
    }
  }

  /** The closed form stays close to 146097/400 days per year. */
  lemma DaysBeforeYearEstimate(x: int)
    requires 0 <= x
    ensures 146097 * x - 800 < 400 * DaysBeforeYear(x + 1) < 146097 * x + 400
  {
    var q4, q100, q400 := x / 4, x / 100, x / 400;
    assert 4 * q4 <= x < 4 * q4 + 4;
    assert 100 * q100 <= x < 100 * q100 + 100;
    assert 400 * q400 <= x < 400 * q400 + 400;
  }

  /** The year in which day `n` falls. */
  function YearOf(n: int): (y: int)
    requires 1 <= n
    ensures 1 <= y
    ensures DaysBeforeYear(y) < n <= DaysBeforeYear(y) + DaysInYear(y)
  {
    var e := n - 1;
    var x := 400 * e / 146097;
    assert 146097 * x <= 400 * e < 146097 * x + 146097;
    DaysBeforeYearEstimate(x);
    DaysBeforeYearEstimate(x + 1);
    DaysBeforeYearEstimate(x + 2);
    DaysBeforeYearStep(x + 1);
    DaysBeforeYearStep(x + 2);
    if DaysBeforeYear(x + 2) <= e then x + 2 else x + 1
  }

  /** The month, from `m` on, in which day `r` of year `y` falls. */
  function MonthFrom(y: int, r: int, m: int): (k: int)
    requires 1 <= m <= 12
    requires DaysBeforeMonth(y, m) < r <= DaysInYear(y)
    ensures m <= k <= 12
    ensures DaysBeforeMonth(y, k) < r <= DaysBeforeMonth(y, k + 1)
    decreases 12 - m
  {
    if m == 12 || r <= DaysBeforeMonth(y, m + 1) then m else MonthFrom(y, r, m + 1)
  }

  /** The date of day number `n`, the inverse of `ToOrdinal`. */
  function FromOrdinal(n: int): (d: Date)
    requires 1 <= n
    ensures ValidDate(d) && ToOrdinal(d) == n
  {
    var y := YearOf(n);
    var r := n - DaysBeforeYear(y);
    var m := MonthFrom(y, r, 1);
    DaysBeforeMonthStep(y, m);
    Date(y, m, r - DaysBeforeMonth(y, m))
  }

  /** A day's number lies inside its year's and its month's span. */
  lemma OrdinalBounds(d: Date)
    requires ValidDate(d)
    ensures DaysBeforeYear(d.year) < ToOrdinal(d) <= DaysBeforeYear(d.year) + DaysInYear(d.year)
    ensures DaysBeforeMonth(d.year, d.month) < ToOrdinal(d) - DaysBeforeYear(d.year) <= DaysBeforeMonth(d.year, d.month + 1)
  {
    DaysBeforeMonthStep(d.year, d.month);
  }

  /** Calendar order: earlier year, else earlier month, else earlier day. */
  predicate DateLe(a: Date, b: Date) {
    a.year < b.year || (a.year == b.year && (a.month < b.month || (a.month == b.month && a.day <= b.day)))
  }

  /** Day numbers are ordered as the dates are. */
  lemma OrdinalOrder(a: Date, b: Date)
    requires ValidDate(a) && ValidDate(b)
    ensures ToOrdinal(a) <= ToOrdinal(b) <==> DateLe(a, b)
    ensures ToOrdinal(a) == ToOrdinal(b) <==> a == b
  {
    OrdinalBounds(a);
    OrdinalBounds(b);
    if a.year < b.year {
      DaysBeforeYearOrder(a.year, b.year);
    } else if b.year < a.year {
      DaysBeforeYearOrder(b.year, a.year);
    } else if a.month < b.month {
      DaysBeforeMonthOrder(a.year, a.month, b.month);
    } else if b.month < a.month {
      DaysBeforeMonthOrder(a.year, b.month, a.month);
    }
  }

  /** `FromOrdinal` undoes `ToOrdinal`. */
  lemma FromToOrdinal(d: Date)
    requires ValidDate(d)
    ensures FromOrdinal(ToOrdinal(d)) == d
  {
    var e := FromOrdinal(ToOrdinal(d));
    OrdinalOrder(d, e);
  }

  /** The date `k` days before `d` (`d - timedelta(days=k)`); it exists while it stays on or after day 1. */
  function MinusDays(d: Date, k: int): (e: Date)
    requires ValidDate(d) && k < ToOrdinal(d)
    ensures ValidDate(e) && ToOrdinal(e) == ToOrdinal(d) - k
  {
    FromOrdinal(ToOrdinal(d) - k)
  }

  /** The day after `d`, by the civil rules (month end, year end). */
  function NextDay(d: Date): Date
    requires ValidDate(d)
  {
    if d.day < DaysInMonth(d.year, d.month) then Date(d.year, d.month, d.day + 1)
    else if d.month < 12 then Date(d.year, d.month + 1, 1)
    else Date(d.year + 1, 1, 1)
  }

  lemma NextDayOrdinal(d: Date)
    requires ValidDate(d)
    ensures ValidDate(NextDay(d)) && ToOrdinal(NextDay(d)) == ToOrdinal(d) + 1
  {
    DaysBeforeMonthStep(d.year, d.month);
    if d.month == 12 && d.day == DaysInMonth(d.year, d.month) {
      DaysBeforeYearStep(d.year);
    }
  }

  /**
   * 365 days before `d`, worked out on the calendar: the same month and day
   * one year earlier, one day later when a 29 February lies in between, and
   * 1 March when `d` is itself a 29 February.
   */
  function YearEarlier(d: Date): Date
    requires ValidDate(d) && 2 <= d.year
  {
    var same := Date(d.year - 1, d.month, d.day);
    if d.month == 2 && d.day == 29 then Date(d.year - 1, 3, 1)
    else if (d.month > 2 && IsLeapYear(d.year)) || (d.month <= 2 && IsLeapYear(d.year - 1)) then NextDay(same)
    else same
  }

  /** The date whose day number is `k` less than that of `d` is `MinusDays(d, k)`. */
  lemma MinusDaysIs(d: Date, k: int, e: Date)
    requires ValidDate(d) && ValidDate(e) && ToOrdinal(e) == ToOrdinal(d) - k
    ensures k < ToOrdinal(d) && MinusDays(d, k) == e
  {
    OrdinalOrder(MinusDays(d, k), e);
  }

  /** The same month and day in consecutive years are a year apart, plus the 29 February between them. */
  lemma SameDayNextYear(y: int, m: int, day: int)
    requires 1 <= y && ValidDate(Date(y, m, day)) && ValidDate(Date(y + 1, m, day))
    ensures ToOrdinal(Date(y + 1, m, day)) - ToOrdinal(Date(y, m, day))
            == 365 + (if (m > 2 && IsLeapYear(y + 1)) || (m <= 2 && IsLeapYear(y)) then 1 else 0)
  {
    DaysBeforeYearStep(y);
  }

  /** 1 March of the year before a leap year is 365 days before its 29 February. */
  lemma LeapDayYearEarlier(y: int)
    requires 2 <= y && IsLeapYear(y)
    ensures ToOrdinal(Date(y, 2, 29)) - ToOrdinal(Date(y - 1, 3, 1)) == 365
  {
    NoConsecutiveLeapYears(y);
    DaysBeforeYearStep(y - 1);
  }

  lemma YearEarlierOrdinal(d: Date)
    requires ValidDate(d) && 2 <= d.year
    ensures ValidDate(YearEarlier(d)) && ToOrdinal(YearEarlier(d)) == ToOrdinal(d) - 365
  {
    if d.month == 2 && d.day == 29 {
      LeapDayYearEarlier(d.year);
    } else {
      SameDayYearEarlier(d, Date(d.year - 1, d.month, d.day));
    }
  }

  lemma SameDayYearEarlier(d: Date, same: Date)
    requires ValidDate(d) && 2 <= d.year && !(d.month == 2 && d.day == 29)
    requires same == Date(d.year - 1, d.month, d.day)
    ensures ValidDate(YearEarlier(d)) && ToOrdinal(YearEarlier(d)) == ToOrdinal(d) - 365
  {
    assert ValidDate(same);
    SameDayNextYear(d.year - 1, d.month, d.day);
    if (d.month > 2 && IsLeapYear(d.year)) || (d.month <= 2 && IsLeapYear(d.year - 1)) {
      assert YearEarlier(d) == NextDay(same);
      NextDayOrdinal(same);
    } else {
      assert YearEarlier(d) == same;
    }
  }

  /** Subtracting 365 days from the day number is the calendar shift `YearEarlier`. */
  lemma MinusYearOfDays(d: Date)
    requires ValidDate(d) && 2 <= d.year
    ensures 365 < ToOrdinal(d)
    ensures MinusDays(d, 365) == YearEarlier(d)
  {
    YearEarlierOrdinal(d);
    MinusDaysIs(d, 365, YearEarlier(d));
  }

  /** No two consecutive years are both leap years. */
  lemma NoConsecutiveLeapYears(y: int)
    ensures !(IsLeapYear(y) && IsLeapYear(y - 1))
  {
  }

  predicate IsLeapDay(f: Date) {
    ValidDate(f) && f.month == 2 && f.day == 29
  }

  /** When the shift moves off the same month and day, a 29 February lies in the window. */
  lemma ShiftedWindowHasLeapDay(d: Date)
    requires ValidDate(d) && 2 <= d.year
    requires YearEarlier(d) != Date(d.year - 1, d.month, d.day)
    ensures exists f :: IsLeapDay(f) && ToOrdinal(d) - 365 <= ToOrdinal(f) <= ToOrdinal(d)
  {
    var y := d.year;
    YearEarlierOrdinal(d);
    var start := YearEarlier(d);
    if d.month == 2 && d.day == 29 {
      assert IsLeapDay(d);
    } else if d.month > 2 {
      var f := Date(y, 2, 29);
      assert IsLeapDay(f);
      OrdinalOrder(f, d);
      OrdinalOrder(start, f);
    } else {
      var f := Date(y - 1, 2, 29);
      assert IsLeapDay(f);
      OrdinalOrder(f, d);
      OrdinalOrder(start, f);
    }
  }

  /** When the shift keeps the month and day, no 29 February lies in the window. */
  lemma UnshiftedWindowHasNoLeapDay(d: Date, f: Date)
    requires ValidDate(d) && 2 <= d.year
    requires YearEarlier(d) == Date(d.year - 1, d.month, d.day)
    requires IsLeapDay(f) && ToOrdinal(d) - 365 <= ToOrdinal(f)
    ensures ToOrdinal(d) < ToOrdinal(f)
  {
    var y := d.year;
    var same := Date(y - 1, d.month, d.day);
    YearEarlierOrdinal(d);
    OrdinalOrder(same, f);
    OrdinalOrder(f, d);
    NoConsecutiveLeapYears(y);
  }

  /**
   * The 365-day window start is the same month and day of the previous year
   * exactly when no 29 February lies in the window from it to `d`.
   */
  lemma WindowMatchesCalendarYear(d: Date)
    requires ValidDate(d) && 2 <= d.year
    ensures 365 < ToOrdinal(d)
    ensures MinusDays(d, 365) == Date(d.year - 1, d.month, d.day)
            <==> !exists f :: IsLeapDay(f) && ToOrdinal(d) - 365 <= ToOrdinal(f) <= ToOrdinal(d)
  {
    MinusYearOfDays(d);
    if YearEarlier(d) != Date(d.year - 1, d.month, d.day) {
      ShiftedWindowHasLeapDay(d);
    } else {
      forall f | IsLeapDay(f) && ToOrdinal(d) - 365 <= ToOrdinal(f)
        ensures ToOrdinal(d) < ToOrdinal(f)
      {
        UnshiftedWindowHasNoLeapDay(d, f);
      }
    }
  }
}
