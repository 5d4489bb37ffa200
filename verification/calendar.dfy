/** The proleptic Gregorian calendar Python's `datetime` uses: dates from
    0001-01-01 to 9999-12-31, numbered by their ordinal (0 for 0001-01-01). */
module Calendar {

  const MinYear := 1
  const MaxYear := 9999

  datatype Date = Date(year: int, month: int, day: int)

  predicate IsLeapYear(y: int)
  {
    y % 4 == 0 && (y % 100 != 0 || y % 400 == 0)
  }

  function DaysInYear(y: int): int
  {
    if IsLeapYear(y) then 366 else 365
  }

  function DaysInMonth(y: int, m: int): (n: int)
    requires 1 <= m <= 12
    ensures 28 <= n <= 31
  {
    if m == 2 then (if IsLeapYear(y) then 29 else 28)
    else if m == 4 || m == 6 || m == 9 || m == 11 then 30
    else 31
  }

  predicate ValidDate(d: Date)
  {
    && MinYear <= d.year <= MaxYear
    && 1 <= d.month <= 12
    && 1 <= d.day <= DaysInMonth(d.year, d.month)
  }

  /** Days from 0001-01-01 to January 1st of year `y`. */
  function DaysBeforeYear(y: int): int
    requires y >= 1
  {
    var k := y - 1;
    365 * k + k / 4 - k / 100 + k / 400
  }

  /** Days from January 1st of year `y` to the first day of month `m`
      (`m == 13` gives the length of the year). */
  function DaysBeforeMonth(y: int, m: int): int
    requires 1 <= m <= 13
  {
    [0, 31, 59, 90, 120, 151, 181, 212, 243, 273, 304, 334, 365][m - 1]
      + (if m > 2 && IsLeapYear(y) then 1 else 0)
  }

  /** The ordinal of a date: days elapsed since 0001-01-01. */
  function Ordinal(d: Date): int
    requires ValidDate(d)
  {
    DaysBeforeYear(d.year) + DaysBeforeMonth(d.year, d.month) + d.day - 1
  }

  /** One past the ordinal of 9999-12-31. */
  const OrdinalLimit := 3652059

  // ----- facts about the day counts -----

  lemma DaysBeforeMonthStep(y: int, m: int)
    requires 1 <= m <= 12
    ensures DaysBeforeMonth(y, m + 1) == DaysBeforeMonth(y, m) + DaysInMonth(y, m)
  {
  }

  lemma DaysBeforeMonthInYear(y: int)
    ensures DaysBeforeMonth(y, 1) == 0
    ensures DaysBeforeMonth(y, 13) == DaysInYear(y)
  {
  }

  /** A month's first day precedes every later month's first day. */
  lemma {:induction false} DaysBeforeMonthMonotonic(y: int, m: int, m': int)
    requires 1 <= m <= m' <= 13
    ensures DaysBeforeMonth(y, m) <= DaysBeforeMonth(y, m')
    decreases m' - m
  {
    if m < m' {
      DaysBeforeMonthStep(y, m);
      DaysBeforeMonthMonotonic(y, m + 1, m');
    }
  }

  /** Each year adds its own length to the count. */
  lemma DaysBeforeYearStep(y: int)
    requires y >= 1
    ensures DaysBeforeYear(y + 1) == DaysBeforeYear(y) + DaysInYear(y)
  {
    var k := y - 1;
    assert (k + 1) / 4 == k / 4 + (if y % 4 == 0 then 1 else 0);
    assert (k + 1) / 100 == k / 100 + (if y % 100 == 0 then 1 else 0);
    assert (k + 1) / 400 == k / 400 + (if y % 400 == 0 then 1 else 0);
  }

  /** The count of days before year `y` stays within a few days of the mean
      Gregorian year length, 146097 / 400 days, times `y - 1`. */
  lemma DaysBeforeYearNearMean(y: int)
    requires y >= 1
    ensures 146097 * (y - 1) - 600 <= 400 * DaysBeforeYear(y) <= 146097 * (y - 1) + 300
  {
    var k := y - 1;
    var a, b, c, e := k / 400, (k % 400) / 100, (k % 100) / 4, k % 4;
    Decompose(k);
    assert 400 * DaysBeforeYear(y) == 146097 * k - 100 * b + 12 * c - 97 * e;
  }

  /** `k` in base 400 / 100 / 4, and its quotients by 4 and 100 in terms of
      those digits. */
  lemma Decompose(k: int)
    requires k >= 0
    ensures var a, b, c, e := k / 400, (k % 400) / 100, (k % 100) / 4, k % 4;
      && k == 400 * a + 100 * b + 4 * c + e
      && 0 <= b < 4 && 0 <= c < 25 && 0 <= e < 4
      && k / 4 == 100 * a + 25 * b + c
      && k / 100 == 4 * a + b
  {
    var a, b, c, e := k / 400, (k % 400) / 100, (k % 100) / 4, k % 4;
    assert k == 400 * a + k % 400;
    assert k % 400 == 100 * b + (k % 400) % 100;
    assert (k % 400) % 100 == k % 100 by {
      assert k == 400 * a + 100 * b + (k % 400) % 100;
      assert k == 100 * (4 * a + b) + (k % 400) % 100;
    }
    assert k % 100 == 4 * c + (k % 100) % 4;
    assert (k % 100) % 4 == e by {
      assert k == 100 * (k / 100) + 4 * c + (k % 100) % 4;
      assert k == 4 * (25 * (k / 100) + c) + (k % 100) % 4;
    }
  }

  /** Later years start later. */
  lemma DaysBeforeYearMonotonic(y: int, y': int)
    requires 1 <= y <= y'
    ensures DaysBeforeYear(y) <= DaysBeforeYear(y')
    ensures y < y' ==> DaysBeforeYear(y) < DaysBeforeYear(y')
  {
    DaysBeforeYearNearMean(y);
    DaysBeforeYearNearMean(y');
  }

  // ----- from an ordinal back to a date -----

  /** The year containing the day with ordinal `n`. */
  function YearOf(n: int): (y: int)
    requires n >= 0
    ensures y >= 1
    ensures DaysBeforeYear(y) <= n < DaysBeforeYear(y + 1)
  {
    var k := (400 * n) / 146097;
    DaysBeforeYearNearMean(k + 1);
    DaysBeforeYearNearMean(k + 2);
    DaysBeforeYearNearMean(k + 3);
    if DaysBeforeYear(k + 2) <= n then k + 2 else k + 1
  }

  /** The month of year `y` containing day `doy` (0-based) of that year. */
  function MonthOf(y: int, doy: int, m: int): (r: int)
    requires 1 <= m <= 12
    requires 0 <= doy < DaysBeforeMonth(y, m + 1)
    ensures 1 <= r <= m
    ensures DaysBeforeMonth(y, r) <= doy < DaysBeforeMonth(y, r + 1)
  {
    if DaysBeforeMonth(y, m) <= doy || m == 1 then m else MonthOf(y, doy, m - 1)
  }

  /** The date whose ordinal is `n`. */
  function FromOrdinal(n: int): (d: Date)
    requires 0 <= n < OrdinalLimit
    ensures ValidDate(d)
    ensures Ordinal(d) == n
  {
    var y := YearOf(n);
    DaysBeforeYearMonotonic(y, 10000);
    DaysBeforeYearStep(y);
    DaysBeforeMonthInYear(y);
    var doy := n - DaysBeforeYear(y);
    var m := MonthOf(y, doy, 12);
    DaysBeforeMonthStep(y, m);
    Date(y, m, doy - DaysBeforeMonth(y, m) + 1)
  }

  /** Ordinals number the valid dates without gaps or repeats. */
  lemma FromOrdinalOfOrdinal(d: Date)
    requires ValidDate(d)
    ensures 0 <= Ordinal(d) < OrdinalLimit
    ensures FromOrdinal(Ordinal(d)) == d
  {
    var n := Ordinal(d);
    DaysBeforeMonthStep(d.year, d.month);
    DaysBeforeMonthMonotonic(d.year, d.month + 1, 13);
    DaysBeforeMonthMonotonic(d.year, 1, d.month);
    DaysBeforeMonthInYear(d.year);
    DaysBeforeYearStep(d.year);
    DaysBeforeYearMonotonic(1, d.year);
    DaysBeforeYearMonotonic(d.year + 1, 10000);
    var e := FromOrdinal(n);
    YearOfUnique(n, d.year, e.year);
    MonthOfUnique(d.year, n - DaysBeforeYear(d.year), d.month, e.month);
  }

  lemma YearOfUnique(n: int, y: int, y': int)
    requires 1 <= y && 1 <= y'
    requires DaysBeforeYear(y) <= n < DaysBeforeYear(y + 1)
    requires DaysBeforeYear(y') <= n < DaysBeforeYear(y' + 1)
    ensures y == y'
  {
    if y < y' {
      DaysBeforeYearMonotonic(y + 1, y');
    } else if y' < y {
      DaysBeforeYearMonotonic(y' + 1, y);
    }
  }

  lemma MonthOfUnique(y: int, doy: int, m: int, m': int)
    requires 1 <= m <= 12 && 1 <= m' <= 12
    requires DaysBeforeMonth(y, m) <= doy < DaysBeforeMonth(y, m + 1)
    requires DaysBeforeMonth(y, m') <= doy < DaysBeforeMonth(y, m' + 1)
    ensures m == m'
  {
    if m < m' {
      DaysBeforeMonthMonotonic(y, m + 1, m');
    } else if m' < m {
      DaysBeforeMonthMonotonic(y, m' + 1, m);
    }
  }
}
