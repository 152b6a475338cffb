/** The proleptic Gregorian calendar, counted in days from 1 January 1970. */
module Calendar {

  const EpochYear := 1970

  const SecondsPerDay := 86400

  predicate IsLeapYear(y: int) {
    y % 4 == 0 && (y % 100 != 0 || y % 400 == 0)
  }

  function DaysInYear(y: int): int {
    if IsLeapYear(y) then 366 else 365
  }

  function DaysInMonth(y: int, m: int): int
    requires 1 <= m <= 12
  {
    if m == 2 then (if IsLeapYear(y) then 29 else 28)
    else if m == 4 || m == 6 || m == 9 || m == 11 then 30
    else 31
  }

  predicate ValidDate(y: int, m: int, d: int) {
    1 <= m <= 12 && 1 <= d <= DaysInMonth(y, m)
  }

  // ---------------------------------------------------------------------
  // Reference definitions: whole years and whole months counted one by one.

  /** Days from 1 January 1970 to 1 January of year `y`, one year at a time. */
  function YearStart(y: int): int
    decreases if y >= EpochYear then y - EpochYear else EpochYear - y
  {
    if y == EpochYear then 0
    else if y > EpochYear then YearStart(y - 1) + DaysInYear(y - 1)
    else YearStart(y + 1) - DaysInYear(y)
  }

  /** Days from 1 January to the first of month `m`, one month at a time. */
  function MonthStart(y: int, m: int): int
    requires 1 <= m <= 12
  {
    if m == 1 then 0 else MonthStart(y, m - 1) + DaysInMonth(y, m - 1)
  }

  // ---------------------------------------------------------------------
  // Closed forms, as a date library computes them.

  /** Leap years among 1..n, extended to every integer by floor division. */
  function LeapsThrough(n: int): int {
    n / 4 - n / 100 + n / 400
  }

  function DaysBeforeYear(y: int): int {
    365 * (y - EpochYear) + LeapsThrough(y - 1) - LeapsThrough(EpochYear - 1)
  }

  function DaysBeforeMonth(y: int, m: int): int
    requires 1 <= m <= 12
  {
    var table := [0, 31, 59, 90, 120, 151, 181, 212, 243, 273, 304, 334];
    table[m - 1] + (if m > 2 && IsLeapYear(y) then 1 else 0)
  }

  /** Days since 1970-01-01 of the civil date `y`-`m`-`d`. */
  function DaysFromCivil(y: int, m: int, d: int): int
    requires 1 <= m <= 12
  {
    DaysBeforeYear(y) + DaysBeforeMonth(y, m) + d - 1
  }

  // ---------------------------------------------------------------------
  // The closed forms agree with the reference counts.

  /** Floor division by 4, 100 and 400 steps up by one exactly at the multiples. */
  lemma Step4(n: int)
    ensures n / 4 - (n - 1) / 4 == (if n % 4 == 0 then 1 else 0)
  {
    var q := n / 4;
    assert n == 4 * q + n % 4;
  }

  lemma Step100(n: int)
    ensures n / 100 - (n - 1) / 100 == (if n % 100 == 0 then 1 else 0)
  {
    var q := n / 100;
    assert n == 100 * q + n % 100;
  }

  lemma Step400(n: int)
    ensures n / 400 - (n - 1) / 400 == (if n % 400 == 0 then 1 else 0)
  {
    var q := n / 400;
    assert n == 400 * q + n % 400;
  }

  lemma LeapsThroughStep(y: int)
    ensures LeapsThrough(y) - LeapsThrough(y - 1) == (if IsLeapYear(y) then 1 else 0)
  {
    Step4(y);
    Step100(y);
    Step400(y);
    if y % 100 == 0 {
      CenturyDivisibleBy4(y);
    }
    if y % 400 == 0 {
      QuadCenturyIsCentury(y);
    }
  }

  lemma CenturyDivisibleBy4(y: int)
    requires y % 100 == 0
    ensures y % 4 == 0
  {
    var k := y / 100;
    assert y == 4 * (25 * k);
  }

  lemma QuadCenturyIsCentury(y: int)
    requires y % 400 == 0
    ensures y % 100 == 0
  {
    var k := y / 400;
    assert y == 100 * (4 * k);
  }

  lemma {:induction false} DaysBeforeYearCounts(y: int)
    ensures DaysBeforeYear(y) == YearStart(y)
    decreases if y >= EpochYear then y - EpochYear else EpochYear - y
  {
    if y > EpochYear {
      DaysBeforeYearCounts(y - 1);
      LeapsThroughStep(y - 1);
    } else if y < EpochYear {
      DaysBeforeYearCounts(y + 1);
      LeapsThroughStep(y);
    }
  }

  lemma {:induction false} DaysBeforeMonthCounts(y: int, m: int)
    requires 1 <= m <= 12
    ensures DaysBeforeMonth(y, m) == MonthStart(y, m)
  {
    if m > 1 {
      DaysBeforeMonthCounts(y, m - 1);
    }
  }

  // ---------------------------------------------------------------------
  // Order: the day count is strictly increasing in the civil date.

  lemma {:induction false} YearStartStep(y: int)
    ensures YearStart(y + 1) == YearStart(y) + DaysInYear(y)
  {
    DaysBeforeYearCounts(y);
    DaysBeforeYearCounts(y + 1);
    LeapsThroughStep(y);
  }

  lemma {:induction false} YearStartIncreasing(y: int, y': int)
    requires y < y'
    ensures YearStart(y) + DaysInYear(y) <= YearStart(y')
    decreases y' - y
  {
    YearStartStep(y);
    if y + 1 < y' {
      YearStartIncreasing(y + 1, y');
    }
  }

  lemma {:induction false} MonthStartIncreasing(y: int, m: int, m': int)
    requires 1 <= m < m' <= 12
    ensures MonthStart(y, m) + DaysInMonth(y, m) <= MonthStart(y, m')
    decreases m' - m
  {
    if m + 1 < m' {
      MonthStartIncreasing(y, m + 1, m');
    }
  }

  /** The last day of any month still falls inside its year. */
  lemma MonthsFitInYear(y: int, m: int)
    requires 1 <= m <= 12
    ensures DaysBeforeMonth(y, m) + DaysInMonth(y, m) <= DaysInYear(y)
  {
  }

  predicate DateBefore(y: int, m: int, d: int, y': int, m': int, d': int) {
    y < y' || (y == y' && (m < m' || (m == m' && d < d')))
  }

  /** A strictly later calendar date has a strictly larger day count, so
      `DaysFromCivil` is injective on valid dates. */
  lemma DaysFromCivilIncreasing(y: int, m: int, d: int, y': int, m': int, d': int)
    requires ValidDate(y, m, d) && ValidDate(y', m', d')
    requires DateBefore(y, m, d, y', m', d')
    ensures DaysFromCivil(y, m, d) < DaysFromCivil(y', m', d')
  {
    DaysBeforeYearCounts(y);
    DaysBeforeYearCounts(y');
    if y < y' {
      MonthsFitInYear(y, m);
      YearStartIncreasing(y, y');
    } else if m < m' {
      DaysBeforeMonthCounts(y, m);
      DaysBeforeMonthCounts(y, m');
      MonthStartIncreasing(y, m, m');
    }
  }

  /** The day count advances by one from each valid date to the next:
      across a month end and across a year end. */
  lemma NextDay(y: int, m: int)
    requires 1 <= m <= 12
    ensures m < 12 ==> DaysFromCivil(y, m, DaysInMonth(y, m)) + 1 == DaysFromCivil(y, m + 1, 1)
    ensures m == 12 ==> DaysFromCivil(y, 12, 31) + 1 == DaysFromCivil(y + 1, 1, 1)
  {
    if m < 12 {
      DaysBeforeMonthCounts(y, m);
      DaysBeforeMonthCounts(y, m + 1);
    } else {
      YearStartStep(y);
      DaysBeforeYearCounts(y);
      DaysBeforeYearCounts(y + 1);
    }
  }

  lemma EpochIsDayZero()
    ensures DaysFromCivil(1970, 1, 1) == 0
    ensures DaysFromCivil(2000, 3, 1) == 11017
    ensures DaysFromCivil(1969, 12, 31) == -1
  {
  }
}
