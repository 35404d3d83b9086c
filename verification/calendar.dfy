/** Calendar days of the proleptic Gregorian calendar, as the source's DateTime
    values are used once their time of day is stripped: a date is its day
    number, the number of days since 0001-01-01, and DateTime's range
    0001-01-01 .. 9999-12-31 bounds it. */
module Calendar {

  /** 9999-12-31, the last day DateTime can represent. */
  const MaxDay: int := 3652058

  type Day = n: int | 0 <= n <= MaxDay

  /** What DateTime throws: `ArgumentException` for an inverted range,
      `ArgumentOutOfRangeException` when AddDays leaves the representable range. */
  datatype DateError = InvalidRange | OutOfRange

  const Sunday: int := 0
  const Monday: int := 1
  const Friday: int := 5
  const Saturday: int := 6

  /** DayOfWeek with Sunday = 0 .. Saturday = 6; day 0 (0001-01-01) is a Monday. */
  function DayOfWeek(n: Day): (w: int)
    ensures 0 <= w < 7
  {
    (n + 1) % 7
  }

  predicate IsLeapYear(y: int) {
    y % 4 == 0 && (y % 100 != 0 || y % 400 == 0)
  }

  function DaysInYear(y: int): int {
    if IsLeapYear(y) then 366 else 365
  }

  function DaysInMonth(y: int, m: int): (r: int)
    requires 1 <= m <= 12
    ensures 28 <= r <= 31
  {
    if m == 2 then (if IsLeapYear(y) then 29 else 28)
    else if m == 4 || m == 6 || m == 9 || m == 11 then 30
    else 31
  }

  /** Days in the months of year `y` before month `m` (DateTime's cumulative month table). */
  function DaysBeforeMonth(y: int, m: int): int
    requires 1 <= m <= 13
  {
    var common := [0, 31, 59, 90, 120, 151, 181, 212, 243, 273, 304, 334, 365];
    common[m - 1] + (if IsLeapYear(y) && m > 2 then 1 else 0)
  }

  /** Days in the years before year `y`. */
  function DaysBeforeYear(y: int): int
    requires y >= 1
  {
    var k := y - 1;
    365 * k + k / 4 - k / 100 + k / 400
  }

  predicate ValidCivil(y: int, m: int, d: int) {
    1 <= y <= 9999 && 1 <= m <= 12 && 1 <= d <= DaysInMonth(y, m)
  }

  lemma DaysBeforeMonthEnd(y: int)
    ensures DaysBeforeMonth(y, 13) == DaysInYear(y)
  {
  }

  lemma MonthStep(y: int, m: int)
    requires 1 <= m <= 12
    ensures DaysBeforeMonth(y, m + 1) == DaysBeforeMonth(y, m) + DaysInMonth(y, m)
  {
  }

  lemma {:induction false} DaysBeforeMonthMonotone(y: int, m: int, m': int)
    requires 1 <= m <= m' <= 13
    ensures DaysBeforeMonth(y, m) + 28 * (m' - m) <= DaysBeforeMonth(y, m')
    decreases m' - m
  {
    if m < m' {
      DaysBeforeMonthMonotone(y, m, m' - 1);
      MonthStep(y, m' - 1);
    }
  }

  /** Consecutive years differ by the length of the earlier one. */
  lemma YearStep(y: int)
    requires y >= 1
    ensures DaysBeforeYear(y + 1) == DaysBeforeYear(y) + DaysInYear(y)
  {
    var k := y - 1;
    assert y / 4 == k / 4 + (if y % 4 == 0 then 1 else 0);
    assert y / 100 == k / 100 + (if y % 100 == 0 then 1 else 0);
    assert y / 400 == k / 400 + (if y % 400 == 0 then 1 else 0);
  }

  lemma {:induction false} DaysBeforeYearMonotone(y: int, y': int)
    requires 1 <= y <= y'
    ensures DaysBeforeYear(y) + 365 * (y' - y) <= DaysBeforeYear(y')
    decreases y' - y
  {
    if y < y' {
      DaysBeforeYearMonotone(y, y' - 1);
      YearStep(y' - 1);
    }
  }

  /** The day number of a valid (year, month, day), as DateTime's constructor computes it. */
  function FromCivil(y: int, m: int, d: int): (n: Day)
    requires ValidCivil(y, m, d)
    ensures DaysBeforeYear(y) <= n < DaysBeforeYear(y + 1)
  {
    DaysBeforeMonthMonotone(y, m + 1, 13);
    DaysBeforeMonthEnd(y);
    YearStep(y);
    DaysBeforeYearMonotone(y + 1, 10000);
    DaysBeforeYear(y) + DaysBeforeMonth(y, m) + d - 1
  }

  function YearSearch(n: Day, y: int): (r: int)
    requires 1 <= y && DaysBeforeYear(y) <= n
    ensures y <= r <= 9999 && DaysBeforeYear(r) <= n < DaysBeforeYear(r + 1)
    decreases n - DaysBeforeYear(y)
  {
    YearStep(y);
    if n < DaysBeforeYear(y + 1) then
      DaysBeforeYearMonotone(y + 1, 10000);
      y
    else
      YearSearch(n, y + 1)
  }

  /** The year a day falls in (DateTime.Year). */
  function YearOf(n: Day): (y: int)
    ensures 1 <= y <= 9999
    ensures DaysBeforeYear(y) <= n < DaysBeforeYear(y + 1)
  {
    var k := n / 366;
    assert DaysBeforeYear(k + 1) <= 366 * k;
    YearSearch(n, k + 1)
  }

  /** A year interval holds only one year: this is what pins YearOf down. */
  lemma YearUnique(n: int, y: int, y': int)
    requires 1 <= y && 1 <= y'
    requires DaysBeforeYear(y) <= n < DaysBeforeYear(y + 1)
    requires DaysBeforeYear(y') <= n < DaysBeforeYear(y' + 1)
    ensures y == y'
  {
    if y < y' {
      DaysBeforeYearMonotone(y + 1, y');
    } else if y' < y {
      DaysBeforeYearMonotone(y' + 1, y);
    }
  }

  lemma YearOfFromCivil(y: int, m: int, d: int)
    requires ValidCivil(y, m, d)
    ensures YearOf(FromCivil(y, m, d)) == y
  {
    var n := FromCivil(y, m, d);
    YearUnique(n, y, YearOf(n));
  }

  function MonthSearch(y: int, doy: int, m: int): (r: int)
    requires 1 <= m <= 12
    requires DaysBeforeMonth(y, m) <= doy < DaysInYear(y)
    ensures m <= r <= 12 && DaysBeforeMonth(y, r) <= doy < DaysBeforeMonth(y, r + 1)
    decreases 12 - m
  {
    DaysBeforeMonthEnd(y);
    if doy < DaysBeforeMonth(y, m + 1) || m == 12 then m else MonthSearch(y, doy, m + 1)
  }

  datatype Civil = Civil(year: int, month: int, day: int)

  /** The (year, month, day) of a day number: DateTime.Year, .Month and .Day. */
  function CivilOf(n: Day): (c: Civil)
    ensures ValidCivil(c.year, c.month, c.day)
    ensures FromCivil(c.year, c.month, c.day) == n
  {
    var y := YearOf(n);
    YearStep(y);
    var doy := n - DaysBeforeYear(y);
    DaysBeforeMonthEnd(y);
    var m := MonthSearch(y, doy, 1);
    MonthStep(y, m);
    Civil(y, m, doy - DaysBeforeMonth(y, m) + 1)
  }

  lemma {:induction false} MonthUnique(y: int, doy: int, m: int, m': int)
    requires 1 <= m <= 12 && 1 <= m' <= 12
    requires DaysBeforeMonth(y, m) <= doy < DaysBeforeMonth(y, m + 1)
    requires DaysBeforeMonth(y, m') <= doy < DaysBeforeMonth(y, m' + 1)
    ensures m == m'
  {
    if m < m' {
      DaysBeforeMonthMonotone(y, m + 1, m');
    } else if m' < m {
      DaysBeforeMonthMonotone(y, m' + 1, m);
    }
  }

  /** Building a day number from a valid date and reading the date back gives the same date. */
  lemma CivilRoundTrip(y: int, m: int, d: int)
    requires ValidCivil(y, m, d)
    ensures CivilOf(FromCivil(y, m, d)) == Civil(y, m, d)
  {
    var n := FromCivil(y, m, d);
    var c := CivilOf(n);
    YearOfFromCivil(y, m, d);
    assert c.year == y;
    MonthUnique(y, n - DaysBeforeYear(y), m, c.month);
  }

  /** Different valid dates have different day numbers. */
  lemma FromCivilInjective(y: int, m: int, d: int, y': int, m': int, d': int)
    requires ValidCivil(y, m, d) && ValidCivil(y', m', d')
    requires FromCivil(y, m, d) == FromCivil(y', m', d')
    ensures y == y' && m == m' && d == d'
  {
    CivilRoundTrip(y, m, d);
    CivilRoundTrip(y', m', d');
  }

  /** The first and last day of a year. */
  function FirstDayOf(y: int): Day
    requires 1 <= y <= 9999
  {
    FromCivil(y, 1, 1)
  }

  function LastDayOf(y: int): (n: Day)
    requires 1 <= y <= 9999
    ensures n + 1 == DaysBeforeYear(y + 1)
  {
    YearStep(y);
    FromCivil(y, 12, 31)
  }

  lemma YearOfWithin(n: Day, y: int)
    requires 1 <= y <= 9999
    requires DaysBeforeYear(y) <= n < DaysBeforeYear(y + 1)
    ensures YearOf(n) == y
  {
    YearUnique(n, y, YearOf(n));
  }

  lemma YearOrder(n: int, n': int, y: int, y': int)
    requires n <= n' && 1 <= y && 1 <= y'
    requires DaysBeforeYear(y) <= n < DaysBeforeYear(y + 1)
    requires DaysBeforeYear(y') <= n' < DaysBeforeYear(y' + 1)
    ensures y <= y'
  {
    if y' < y {
      DaysBeforeYearMonotone(y' + 1, y);
    }
  }

  /** Years never go backwards as days advance. */
  lemma YearOfMonotone(n: Day, n': Day)
    requires n <= n'
    ensures YearOf(n) <= YearOf(n')
  {
    YearOrder(n, n', YearOf(n), YearOf(n'));
  }

  lemma LastDayIsMax()
    ensures LastDayOf(9999) == MaxDay
  {
  }
}
