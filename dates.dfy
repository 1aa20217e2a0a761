/** Calendar arithmetic behind JavaScript's `new Date(year, month, day)`,
    `getDay()` and `getDate()`: the proleptic Gregorian calendar, months
    numbered 0..11, days counted from 1970-01-01 (a Thursday). The local time
    zone is the same for every date the calendar builds, so it cancels out. */
module Dates {
  import opened Prelude

  predicate IsLeapYear(y: int) {
    y % 4 == 0 && (y % 100 != 0 || y % 400 == 0)
  }

  /** Length of month `m` (0 = January) of year `y`. */
  function DaysInMonth(y: int, m: int): (n: int)
    requires 0 <= m < 12
    ensures 28 <= n <= 31
    ensures m == 1 ==> (n == 29 <==> IsLeapYear(y))
  {
    if m == 1 then (if IsLeapYear(y) then 29 else 28)
    else if m == 3 || m == 5 || m == 8 || m == 10 then 30
    else 31
  }

  /** Number of leap years in [0, y) (negated count of those in [y, 0) when y < 0). */
  function LeapYearsBefore(y: int): int {
    (y + 3) / 4 - (y + 99) / 100 + (y + 399) / 400
  }

  /** Days from 1970-01-01 to January 1st of year `y`. */
  function DaysBeforeYear(y: int): int {
    365 * (y - 1970) + LeapYearsBefore(y) - LeapYearsBefore(1970)
  }

  /** Days from January 1st to the first day of month `m` of year `y`. */
  function DaysBeforeMonth(y: int, m: int): int
    requires 0 <= m <= 12
  {
    if m == 0 then 0 else DaysBeforeMonth(y, m - 1) + DaysInMonth(y, m - 1)
  }

  /** The month offsets of a common year, shifted by one after February in a leap year. */
  lemma DaysBeforeMonthTable(y: int, m: int)
    requires 0 <= m <= 12
    ensures DaysBeforeMonth(y, m) ==
              [0, 31, 59, 90, 120, 151, 181, 212, 243, 273, 304, 334, 365][m]
              + (if m >= 2 && IsLeapYear(y) then 1 else 0)
  {
    if m > 0 {
      DaysBeforeMonthTable(y, m - 1);
    }
  }

  /** Euclidean division is unique: a decomposition `y == k * q + r` with
      `0 <= r < k` is the quotient and the remainder. */
  lemma DivUnique(y: int, k: int, q: int, r: int)
    requires k > 0 && 0 <= r < k && y == k * q + r
    ensures y / k == q && y % k == r
  {
    var q', r' := y / k, y % k;
    if q' > q {
      MulMonotonic(q + 1, q', k);
    }
    if q' < q {
      MulMonotonic(q' + 1, q, k);
    }
  }

  lemma DivStep(y: int, k: int)
    requires k > 0
    ensures (y + k) / k - (y + k - 1) / k == if y % k == 0 then 1 else 0
  {
    var q, r := y / k, y % k;
    DivUnique(y + k, k, q + 1, r);
    if r == 0 {
      DivUnique(y + k - 1, k, q, k - 1);
    } else {
      DivUnique(y + k - 1, k, q + 1, r - 1);
    }
  }

  lemma DivisorChain(y: int)
    ensures y % 400 == 0 ==> y % 100 == 0
    ensures y % 100 == 0 ==> y % 4 == 0
  {
    if y % 400 == 0 {
      var q := y / 400;
      assert y == 400 * q;
      DivUnique(y, 100, 4 * q, 0);
    }
    if y % 100 == 0 {
      var q := y / 100;
      assert y == 100 * q;
      DivUnique(y, 4, 25 * q, 0);
    }
  }

  /** Year `y` has one day more than 365 exactly when it is a leap year, and
      its twelve months add up to it. */
  lemma YearLength(y: int)
    ensures DaysBeforeYear(y + 1) - DaysBeforeYear(y) == if IsLeapYear(y) then 366 else 365
    ensures DaysBeforeMonth(y, 12) == DaysBeforeYear(y + 1) - DaysBeforeYear(y)
  {
    DaysBeforeMonthTable(y, 12);
    DivStep(y, 4);
    DivStep(y, 100);
    DivStep(y, 400);
    DivisorChain(y);
  }

  /** The year `new Date(year, ...)` means: 0..99 stand for 1900..1999. */
  function ConstructorYear(year: int): int {
    if 0 <= year <= 99 then 1900 + year else year
  }

  /** Days since 1970-01-01 of `new Date(year, month, day)`. As in JavaScript,
      months outside 0..11 roll into neighbouring years and days outside the
      month roll into neighbouring months. */
  function DayNumber(year: int, month: int, day: int): int {
    var y := ConstructorYear(year) + month / 12;
    var m := month % 12;
    DaysBeforeYear(y) + DaysBeforeMonth(y, m) + day - 1
  }

  /** `getDay()` of a day number: 0 = Sunday; 1970-01-01 was a Thursday. */
  function Weekday(dayNumber: int): (w: int)
    ensures 0 <= w < 7
    ensures dayNumber == 0 ==> w == 4
  {
    (dayNumber + 4) % 7
  }

  /** `new Date(year, month, 1).getDay()`. */
  function FirstWeekday(year: int, month: int): (w: int)
    ensures 0 <= w < 7
  {
    Weekday(DayNumber(year, month, 1))
  }

  /** `new Date(year, month + 1, 0).getDate()`: the number of days of `month`. */
  function LastDate(year: int, month: int): (n: int)
    ensures 28 <= n <= 31
  {
    DaysInMonth(ConstructorYear(year) + month / 12, month % 12)
  }

  /** Day 0 of the next month is the last day of this month, which is why
      `new Date(year, month + 1, 0)` gives the month's length. */
  lemma {:induction false} DayZeroOfNextMonth(year: int, month: int)
    ensures DayNumber(year, month + 1, 0) == DayNumber(year, month, LastDate(year, month))
  {
    var y := ConstructorYear(year) + month / 12;
    var m := month % 12;
    if m == 11 {
      assert (month + 1) / 12 == month / 12 + 1 && (month + 1) % 12 == 0;
      YearLength(y);
    } else {
      assert (month + 1) / 12 == month / 12 && (month + 1) % 12 == m + 1;
    }
  }

  /** Consecutive days of a month fall on consecutive weekdays. */
  lemma WeekdayOfDay(year: int, month: int, day: int)
    ensures Weekday(DayNumber(year, month, day)) == (FirstWeekday(year, month) + day - 1) % 7
  {
  }

  /** February has 29 days in 2024 and 28 in 2025. */
  lemma FebruaryLengths()
    ensures LastDate(2024, 1) == 29 && LastDate(2025, 1) == 28
  {
  }
}
