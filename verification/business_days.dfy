/** `BusinessDayService`: a business day is a weekday that is not a South African
    public holiday of its own year; the service's searches, counts and range
    adjustment are the loops of `DaySearch` run with that test. */
module BusinessDays {
  import opened Wrappers
  import opened Calendar
  import opened Holidays
  import opened DaySearch

  predicate IsWeekend(n: Day) {
    DayOfWeek(n) == Saturday || DayOfWeek(n) == Sunday
  }

  /** `IsSouthAfricanPublicHoliday`: the day appears in its own year's holiday list. */
  predicate IsPublicHoliday(n: Day) {
    var hs := PublicHolidays(YearOf(n));
    exists i :: 0 <= i < |hs| && hs[i].date == n
  }

  /** `IsBusinessDayAsync`. */
  predicate IsBusinessDay(n: Day) {
    !IsWeekend(n) && !IsPublicHoliday(n)
  }

  /** A day is a public holiday exactly when one of the twelve base holidays of its
      year falls on it, or one that falls on a Sunday falls on the day before. */
  lemma PublicHolidayIff(n: Day)
    ensures IsPublicHoliday(n) <==>
      exists i :: 0 <= i < 12 &&
        (BaseHolidays(YearOf(n))[i].date == n
         || (IsSunday(BaseHolidays(YearOf(n))[i].date) && BaseHolidays(YearOf(n))[i].date + 1 == n))
  {
    PublicHolidaysUnfold(YearOf(n));
    AdjustedListDates(BaseHolidays(YearOf(n)), n);
  }

  /** `GetNextBusinessDayAsync`: the first business day strictly after `n`, or the
      exception `AddDays` throws when the search runs past 9999-12-31. */
  function NextBusinessDay(n: Day): (r: Result<Day, DateError>)
    ensures r.Success? ==> n < r.value && IsBusinessDay(r.value)
    ensures r.Success? ==> forall d: Day :: n < d < r.value ==> !IsBusinessDay(d)
    ensures r.Failure? ==> r.error == OutOfRange && forall d: Day :: n < d ==> !IsBusinessDay(d)
  {
    NextAfter(n, IsBusinessDay)
  }

  /** `GetPreviousBusinessDayAsync`: the last business day strictly before `n`, or
      the exception `AddDays` throws when the search runs past 0001-01-01. */
  function PreviousBusinessDay(n: Day): (r: Result<Day, DateError>)
    ensures r.Success? ==> r.value < n && IsBusinessDay(r.value)
    ensures r.Success? ==> forall d: Day :: r.value < d < n ==> !IsBusinessDay(d)
    ensures r.Failure? ==> r.error == OutOfRange && forall d: Day :: d < n ==> !IsBusinessDay(d)
  {
    PreviousBefore(n, IsBusinessDay)
  }

  /** Stepping forward from a business day and then back returns to it. */
  lemma NextThenPrevious(n: Day)
    requires IsBusinessDay(n) && NextBusinessDay(n).Success?
    ensures PreviousBusinessDay(NextBusinessDay(n).value) == Success(n)
  {
    PreviousBeforeIff(NextBusinessDay(n).value, n, IsBusinessDay);
  }

  /** Stepping back from a business day and then forward returns to it. */
  lemma PreviousThenNext(n: Day)
    requires IsBusinessDay(n) && PreviousBusinessDay(n).Success?
    ensures NextBusinessDay(PreviousBusinessDay(n).value) == Success(n)
  {
    NextAfterIff(PreviousBusinessDay(n).value, n, IsBusinessDay);
  }

  /** `GetBusinessDaysCountAsync`. */
  method BusinessDaysCount(s: Day, e: Day) returns (r: Result<nat, DateError>)
    ensures s > e ==> r == Failure(InvalidRange)
    ensures s <= e && e == MaxDay ==> r == Failure(OutOfRange)
    ensures s <= e < MaxDay ==> r.Success? && r.value == |PassingSet(s, e, IsBusinessDay)|
  {
    r := Count(s, e, IsBusinessDay);
    if s <= e < MaxDay {
      CountInIsCardinality(s, e, IsBusinessDay);
    }
  }

  /** `GetNonBusinessDaysInRangeAsync`: the non-business days of the range in date
      order, nothing for an inverted range. */
  method NonBusinessDaysInRange(s: Day, e: Day) returns (r: Result<seq<Day>, DateError>)
    ensures s > e ==> r == Success([])
    ensures s <= e && e == MaxDay ==> r == Failure(OutOfRange)
    ensures s <= e < MaxDay ==> r.Success?
    ensures r.Success? ==> forall i, j :: 0 <= i < j < |r.value| ==> r.value[i] < r.value[j]
    ensures r.Success? ==> forall d: Day :: d in r.value <==> s <= d <= e && !IsBusinessDay(d)
  {
    r := ListFailing(s, e, IsBusinessDay);
    if s <= e < MaxDay {
      FailingInMembers(s, e, IsBusinessDay);
    }
  }

  /** `IsDateRangeValidForLeaveAsync`: both ends are business days and the range
      holds at least one. The count throws for an inverted range or one ending on
      9999-12-31, and so does this. */
  method IsDateRangeValidForLeave(s: Day, e: Day) returns (r: Result<bool, DateError>)
    ensures r == Success(true) <==> IsBusinessDay(s) && IsBusinessDay(e) && s <= e < MaxDay
    ensures r.Failure? <==> IsBusinessDay(s) && IsBusinessDay(e) && (s > e || e == MaxDay)
  {
    if !IsBusinessDay(s) || !IsBusinessDay(e) {
      return Success(false);
    }
    var count := Count(s, e, IsBusinessDay);
    if count.Failure? {
      return Failure(count.error);
    }
    StartCounted(s, e, IsBusinessDay);
    return Success(count.value > 0);
  }

  /** `AdjustDatesToBusinessDaysAsync`: a start that is not a business day moves
      forward to the next one, an end that is not moves back to the previous one. */
  function AdjustToBusinessDays(s: Day, e: Day): (r: Result<(Day, Day), DateError>)
    ensures r.Success? ==> IsBusinessDay(r.value.0) && IsBusinessDay(r.value.1)
    ensures r.Success? ==> s <= r.value.0 && r.value.1 <= e
    ensures r.Success? ==> forall d: Day :: s <= d < r.value.0 ==> !IsBusinessDay(d)
    ensures r.Success? ==> forall d: Day :: r.value.1 < d <= e ==> !IsBusinessDay(d)
    ensures r.Failure? <==> NoneFrom(s, IsBusinessDay) || NoneUpTo(e, IsBusinessDay)
    ensures r.Failure? ==> r.error == OutOfRange
  {
    Adjust(s, e, IsBusinessDay)
  }

  /** No holiday list has an entry in July: the fixed holidays either side of it
      are 16 June and 9 August, and the Easter holidays end by 26 April. */
  lemma NoHolidayInJuly(y: int, n: Day)
    requires ValidYear(y) && FromCivil(y, 7, 1) <= n <= FromCivil(y, 7, 31)
    ensures !IsPublicHoliday(n)
  {
    YearOfWithin(n, y);
    var base := BaseHolidays(y);
    BaseHolidaysFacts(y);
    PublicHolidayIff(n);
    forall i | 0 <= i < 12
      ensures base[i].date != n && base[i].date + 1 != n
    {
      if i < 10 {
        FixedHolidaysValid();
        FixedMonthsNotJuly(i);
        FixedOutsideJuly(y, FixedHolidays[i], n);
      }
    }
  }

  lemma FixedMonthsNotJuly(i: int)
    requires 0 <= i < 10
    ensures FixedHolidays[i].month != 7
  {
  }

  /** A fixed holiday outside July, and the day after it, are not in July. */
  lemma FixedOutsideJuly(y: int, f: FixedHoliday, n: Day)
    requires ValidYear(y) && ValidFixed(f) && f.month != 7
    requires FromCivil(y, 7, 1) <= n <= FromCivil(y, 7, 31)
    ensures FromCivil(y, f.month, f.day) != n && FromCivil(y, f.month, f.day) + 1 != n
  {
    if f.month < 7 {
      DaysBeforeMonthMonotone(y, f.month + 1, 7);
      MonthStep(y, f.month);
    } else {
      DaysBeforeMonthMonotone(y, 8, f.month);
      MonthStep(y, 7);
    }
  }

  lemma JulyWeekday(y: int, n: Day)
    requires ValidYear(y) && FromCivil(y, 7, 1) <= n <= FromCivil(y, 7, 31)
    requires !IsWeekend(n)
    ensures IsBusinessDay(n)
  {
    NoHolidayInJuly(y, n);
  }

  lemma JulyWeekend(n: Day)
    requires IsWeekend(n)
    ensures !IsBusinessDay(n)
  {
  }

  /** The days after a Monday run through the week in order. */
  lemma WeekdayAfterMonday(monday: Day, k: nat)
    requires DayOfWeek(monday) == Monday && monday + k <= MaxDay
    ensures DayOfWeek(monday + k) == (k + 1) % 7
  {
  }

  /** Inside July, the five days from a Monday and the Monday after are business
      days, and the Saturday and Sunday between are not. */
  lemma JulyWorkingWeek(y: int, monday: Day)
    requires ValidYear(y) && DayOfWeek(monday) == Monday
    requires FromCivil(y, 7, 1) <= monday && monday + 7 <= FromCivil(y, 7, 31)
    ensures IsWorkingWeek(monday, IsBusinessDay)
  {
    forall k: nat | k <= 7
      ensures WeekPattern(IsBusinessDay, monday, k)
    {
      JulyDay(y, monday, k);
    }
    WorkingWeekByOffsets(monday, IsBusinessDay);
  }

  lemma JulyDay(y: int, monday: Day, k: nat)
    requires ValidYear(y) && DayOfWeek(monday) == Monday
    requires FromCivil(y, 7, 1) <= monday && monday + 7 <= FromCivil(y, 7, 31)
    requires k <= 7
    ensures IsBusinessDay(monday + k) <==> k != 5 && k != 6
  {
    var n := monday + k;
    WeekendAfterMonday(monday, k);
    if IsWeekend(n) {
      JulyWeekend(n);
    } else {
      JulyWeekday(y, n);
    }
  }

  /** Of the eight days from a Monday, the sixth and seventh are the weekend. */
  lemma WeekendAfterMonday(monday: Day, k: nat)
    requires DayOfWeek(monday) == Monday && k <= 7 && monday + k <= MaxDay
    ensures IsWeekend(monday + k) <==> k == 5 || k == 6
  {
    WeekdayAfterMonday(monday, k);
  }

  /** A Monday-to-Monday stretch inside July is five business days, a weekend and
      a business day: the week counts five, lists its Saturday and Sunday, and the
      Friday's next business day is the following Monday. */
  lemma JulyWeek(y: int, monday: Day)
    requires ValidYear(y) && DayOfWeek(monday) == Monday
    requires FromCivil(y, 7, 1) <= monday && monday + 7 <= FromCivil(y, 7, 31)
    ensures CountIn(monday, monday + 6, IsBusinessDay) == 5
    ensures FailingIn(monday, monday + 6, IsBusinessDay) == [monday + 5, monday + 6]
    ensures NextBusinessDay(monday + 4) == Success(monday + 7)
    ensures PreviousBusinessDay(monday + 7) == Success(monday + 4)
  {
    JulyWorkingWeek(y, monday);
    WorkingWeek(monday, IsBusinessDay);
  }

  /** 14 July 2025 is such a Monday: 14 to 20 July count five business days, and the
      business day after Friday 18 July is Monday 21 July. A worked instance only:
      the general facts are `JulyWeek` and, behind it, `DaySearch.WorkingWeek`,
      `DaySearch.NextAfterIff` and `DaySearch.CountInIsCardinality`. */
  lemma July2025(monday: Day)
    requires monday == FromCivil(2025, 7, 14)
    ensures CountIn(monday, monday + 6, IsBusinessDay) == 5
    ensures FailingIn(monday, monday + 6, IsBusinessDay) == [monday + 5, monday + 6]
    ensures NextBusinessDay(monday + 4) == Success(monday + 7)
    ensures PreviousBusinessDay(monday + 7) == Success(monday + 4)
  {
    assert monday == 739445;
    assert DayOfWeek(monday) == Monday;
    JulyWeek(2025, monday);
  }

  /** Wednesday 24 December 2025 is not a holiday of 2025: no base holiday falls on
      it, and none falls on the Tuesday before it. */
  lemma ChristmasEve2025(d24: Day)
    requires d24 == FromCivil(2025, 12, 24)
    ensures IsBusinessDay(d24)
  {
    assert d24 == 739608;
    ChristmasEve2025Weekday(d24);
    ChristmasEve2025NotHoliday(d24);
  }

  lemma ChristmasEve2025Weekday(d24: Day)
    requires d24 == 739608
    ensures !IsWeekend(d24)
  {
    assert DayOfWeek(d24) == 3;
  }

  lemma ChristmasEve2025NotHoliday(d24: Day)
    requires d24 == 739608
    ensures !IsPublicHoliday(d24)
  {
    assert DaysBeforeYear(2025) <= d24 < DaysBeforeYear(2026);
    YearOfWithin(d24, 2025);
    NoBaseOnChristmasEve2025();
    PublicHolidayIff(d24);
  }

  lemma NoBaseOnChristmasEve2025()
    ensures |BaseHolidays(2025)| == 12
    ensures forall i :: 0 <= i < 12 ==> BaseHolidays(2025)[i].date != 739607 && BaseHolidays(2025)[i].date != 739608
  {
    BaseHolidaysFacts(2025);
    forall i | 0 <= i < 12
      ensures BaseHolidays(2025)[i].date != 739607 && BaseHolidays(2025)[i].date != 739608
    {
      if i < 10 {
        FixedNotOnChristmasEve2025(i);
      } else {
        EasterHolidays2025();
      }
    }
  }

  /** Good Friday 2025 is 18 April and Family Day is 21 April. */
  lemma EasterHolidays2025()
    ensures |BaseHolidays(2025)| == 12
    ensures BaseHolidays(2025)[10].date == FromCivil(2025, 4, 18)
    ensures BaseHolidays(2025)[11].date == FromCivil(2025, 4, 21)
  {
    BaseHolidaysFacts(2025);
    EasterExamples();
  }

  lemma FixedNotOnChristmasEve2025(i: int)
    requires 0 <= i < 10
    ensures |BaseHolidays(2025)| == 12
    ensures BaseHolidays(2025)[i].date != 739607 && BaseHolidays(2025)[i].date != 739608
  {
    BaseHolidaysFacts(2025);
    FixedHolidaysValid();
    FixedDaysAvoidChristmasEve(i);
    FixedNotOnDecember23Or24(FixedHolidays[i]);
  }

  lemma FixedDaysAvoidChristmasEve(i: int)
    requires 0 <= i < 10
    ensures FixedHolidays[i].month < 12 || FixedHolidays[i].day >= 25 || FixedHolidays[i].day <= 16
  {
  }

  /** In 2025, 23 and 24 December are days 739607 and 739608. */
  lemma FixedNotOnDecember23Or24(f: FixedHoliday)
    requires ValidFixed(f) && (f.month < 12 || f.day >= 25 || f.day <= 16)
    ensures FromCivil(2025, f.month, f.day) != 739607 && FromCivil(2025, f.month, f.day) != 739608
  {
    assert DaysBeforeYear(2025) == 739251;
    if f.month < 12 {
      DaysBeforeMonthMonotone(2025, f.month, 12);
    }
  }

  /** A holiday of the base list is not a business day. */
  lemma BaseHolidayNotBusinessDay(year: int, i: int)
    requires ValidYear(year) && 0 <= i < 12
    ensures |BaseHolidays(year)| == 12
    ensures !IsBusinessDay(BaseHolidays(year)[i].date)
  {
    BaseHolidaysFacts(year);
    var h := BaseHolidays(year)[i];
    PublicHolidaysContainBase(year);
    PublicHolidaysInYear(year, h);
    var hs := PublicHolidays(year);
    var j :| 0 <= j < |hs| && hs[j] == h;
  }

  /** 24 to 26 December 2025 holds one business day: Christmas Day and the Day of
      Goodwill fall on the Thursday and Friday. */
  lemma December2025(d24: Day)
    requires d24 == FromCivil(2025, 12, 24)
    ensures CountIn(d24, d24 + 2, IsBusinessDay) == 1
    ensures FailingIn(d24, d24 + 2, IsBusinessDay) == [d24 + 1, d24 + 2]
  {
    ChristmasEve2025(d24);
    BaseHolidaysFacts(2025);
    assert BaseHolidays(2025)[8] == FixedOn(2025, 8);
    assert BaseHolidays(2025)[9] == FixedOn(2025, 9);
    assert BaseHolidays(2025)[8].date == d24 + 1 && BaseHolidays(2025)[9].date == d24 + 2;
    BaseHolidayNotBusinessDay(2025, 8);
    BaseHolidayNotBusinessDay(2025, 9);
    PassThenTwoFail(d24, IsBusinessDay);
  }
}
