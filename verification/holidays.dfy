/** The South African public-holiday calendar of `BusinessDayService`:
    ten fixed-date holidays, Good Friday and Family Day from the Easter date,
    and an extra "observed" entry on the day after every holiday that falls
    on a Sunday, the whole list ordered by date. */
module Holidays {
  import opened Calendar
  import opened Sorting
  import opened Text

  /** `PublicHolidayInfo`. */
  datatype Holiday = Holiday(date: Day, name: string)

  datatype FixedHoliday = FixedHoliday(month: int, day: int, name: string)

  /** The ten holidays whose month and day never change, in the order they are listed. */
  const FixedHolidays: seq<FixedHoliday> := [
    FixedHoliday(1, 1, "New Year's Day"),
    FixedHoliday(3, 21, "Human Rights Day"),
    FixedHoliday(4, 27, "Freedom Day"),
    FixedHoliday(5, 1, "Workers' Day"),
    FixedHoliday(6, 16, "Youth Day"),
    FixedHoliday(8, 9, "National Women's Day"),
    FixedHoliday(9, 24, "Heritage Day"),
    FixedHoliday(12, 16, "Day of Reconciliation"),
    FixedHoliday(12, 25, "Christmas Day"),
    FixedHoliday(12, 26, "Day of Goodwill")
  ]

  const GoodFridayName: string := "Good Friday"
  const FamilyDayName: string := "Family Day"

  predicate ValidYear(y: int) {
    1 <= y <= 9999
  }

  /** The day lies in year `y` and is not its last day, so the day after it does too. */
  predicate BeforeYearEnd(n: int, y: int)
    requires y >= 1
  {
    DaysBeforeYear(y) <= n && n + 1 < DaysBeforeYear(y + 1)
  }

  datatype MonthDay = MonthDay(month: int, day: int)

  /** `CalculateEaster`: the anonymous Gregorian (Meeus/Jones/Butcher) computation
      of Easter Sunday. Every operand is non-negative for a year of at least 1, so
      C#'s truncating `/` and `%` agree with Dafny's. */
  function EasterMonthDay(year: int): (r: MonthDay)
    requires year >= 1
    ensures (r.month == 3 && 22 <= r.day <= 31) || (r.month == 4 && 1 <= r.day <= 25)
  {
    var a := year % 19;
    var b := year / 100;
    var c := year % 100;
    var d := b / 4;
    var e := b % 4;
    var f := (b + 8) / 25;
    assert b - f + 1 >= 1;
    var g := (b - f + 1) / 3;
    assert 19 * a + b - d - g + 15 >= 0;
    var h := (19 * a + b - d - g + 15) % 30;
    var i := c / 4;
    var k := c % 4;
    assert 32 + 2 * e + 2 * i - h - k >= 0;
    var l := (32 + 2 * e + 2 * i - h - k) % 7;
    var m := (a + 11 * h + 22 * l) / 451;
    var month := (h + l - 7 * m + 114) / 31;
    var day := ((h + l - 7 * m + 114) % 31) + 1;
    MonthDay(month, day)
  }

  function Easter(year: int): (e: Day)
    requires ValidYear(year)
    ensures FromCivil(year, 3, 22) <= e <= FromCivil(year, 4, 25)
  {
    var md := EasterMonthDay(year);
    FromCivil(year, md.month, md.day)
  }

  /** A month from January to December and a day that every such month has. */
  predicate ValidFixed(f: FixedHoliday) {
    1 <= f.month <= 12 && 1 <= f.day <= 28
  }

  lemma FixedHolidaysValid()
    ensures |FixedHolidays| == 10
    ensures forall i :: 0 <= i < 10 ==> ValidFixed(FixedHolidays[i])
  {
  }

  /** A fixed month and day falls in the year and before its last day. */
  lemma FixedDateInYear(year: int, f: FixedHoliday)
    requires ValidYear(year) && ValidFixed(f)
    ensures BeforeYearEnd(FromCivil(year, f.month, f.day), year)
  {
    YearStep(year);
    DaysBeforeMonthMonotone(year, f.month, 13);
    DaysBeforeMonthEnd(year);
  }

  /** The `i`-th fixed holiday in `year`. */
  function FixedOn(year: int, i: int): (h: Holiday)
    requires ValidYear(year) && 0 <= i < 10
    ensures BeforeYearEnd(h.date, year)
  {
    FixedHolidaysValid();
    var f := FixedHolidays[i];
    FixedDateInYear(year, f);
    Holiday(FromCivil(year, f.month, f.day), f.name)
  }

  function FixedHolidaysOf(year: int): (r: seq<Holiday>)
    requires ValidYear(year)
    ensures |r| == 10
    ensures forall i :: 0 <= i < 10 ==> r[i] == FixedOn(year, i)
  {
    seq(10, i requires 0 <= i < 10 => FixedOn(year, i))
  }

  lemma EasterInYear(year: int)
    requires ValidYear(year)
    ensures BeforeYearEnd(Easter(year) - 2, year)
    ensures BeforeYearEnd(Easter(year) + 1, year)
  {
    YearStep(year);
  }

  /** The twelve holidays of a year before observed days are added, in the
      order the source adds them: the fixed ten, Good Friday, Family Day. */
  function BaseHolidays(year: int): seq<Holiday>
    requires ValidYear(year)
  {
    EasterInYear(year);
    var easter := Easter(year);
    FixedHolidaysOf(year) + [Holiday(easter - 2, GoodFridayName), Holiday(easter + 1, FamilyDayName)]
  }

  /** A day before the last day of a year from 1 to 9999 is below the largest day. */
  lemma InYearBelowMax(n: int, year: int)
    requires ValidYear(year) && BeforeYearEnd(n, year)
    ensures n < MaxDay
  {
    LastDayIsMax();
    DaysBeforeYearMonotone(year + 1, 10000);
  }

  /** The base list: the fixed ten on their own dates in the order listed, then Good
      Friday two days before Easter Sunday and Family Day the day after it, and every
      one of them before the last day of the year. */
  lemma BaseHolidaysFacts(year: int)
    requires ValidYear(year)
    ensures |BaseHolidays(year)| == 12
    ensures forall i :: 0 <= i < 10 ==> BaseHolidays(year)[i] == FixedOn(year, i)
    ensures BaseHolidays(year)[10] == Holiday(Easter(year) - 2, GoodFridayName)
    ensures BaseHolidays(year)[11] == Holiday(Easter(year) + 1, FamilyDayName)
    ensures forall i :: 0 <= i < 12 ==> BeforeYearEnd(BaseHolidays(year)[i].date, year)
    ensures DatesBelowMax(BaseHolidays(year))
  {
    EasterInYear(year);
    var hs := BaseHolidays(year);
    forall i | 0 <= i < 12
      ensures BeforeYearEnd(hs[i].date, year) && hs[i].date < MaxDay
    {
      InYearBelowMax(hs[i].date, year);
    }
  }

  predicate IsSunday(n: Day) {
    DayOfWeek(n) == Sunday
  }

  /** The entry added for a holiday that falls on a Sunday. */
  function Observed(h: Holiday): (o: Holiday)
    requires h.date < MaxDay
    ensures o.date == h.date + 1
  {
    Holiday(h.date + 1, "Public holiday " + h.name + " observed")
  }

  predicate DatesBelowMax(hs: seq<Holiday>) {
    forall i :: 0 <= i < |hs| ==> hs[i].date < MaxDay
  }

  /** The adjusting loop: every holiday, followed by its observed entry when it is a Sunday. */
  function WithObserved(hs: seq<Holiday>): seq<Holiday>
    requires DatesBelowMax(hs)
  {
    if |hs| == 0 then []
    else
      [hs[0]] + (if IsSunday(hs[0].date) then [Observed(hs[0])] else []) + WithObserved(hs[1..])
  }

  function SundayCount(hs: seq<Holiday>): nat {
    if |hs| == 0 then 0 else (if IsSunday(hs[0].date) then 1 else 0) + SundayCount(hs[1..])
  }

  /** The observed entries the loop adds, in input order. */
  function ObservedOf(hs: seq<Holiday>): seq<Holiday>
    requires DatesBelowMax(hs)
  {
    if |hs| == 0 then []
    else (if IsSunday(hs[0].date) then [Observed(hs[0])] else []) + ObservedOf(hs[1..])
  }

  /** The loop keeps every holiday and adds exactly one entry per Sunday holiday. */
  lemma {:induction false} WithObservedContents(hs: seq<Holiday>)
    requires DatesBelowMax(hs)
    ensures multiset(WithObserved(hs)) == multiset(hs) + multiset(ObservedOf(hs))
    ensures |WithObserved(hs)| == |hs| + SundayCount(hs)
    ensures |ObservedOf(hs)| == SundayCount(hs)
  {
    if |hs| > 0 {
      WithObservedContents(hs[1..]);
      assert hs == [hs[0]] + hs[1..];
    }
  }

  /** An entry is an observed entry exactly when it is the observed copy of a Sunday holiday. */
  lemma {:induction false} ObservedOfMembers(hs: seq<Holiday>, o: Holiday)
    requires DatesBelowMax(hs)
    ensures o in ObservedOf(hs) <==> exists i :: 0 <= i < |hs| && IsSunday(hs[i].date) && o == Observed(hs[i])
  {
    if |hs| > 0 {
      ObservedOfMembers(hs[1..], o);
      if o in ObservedOf(hs[1..]) {
        var i :| 0 <= i < |hs[1..]| && IsSunday(hs[1..][i].date) && o == Observed(hs[1..][i]);
        assert hs[i + 1] == hs[1..][i];
      }
      if exists i :: 0 <= i < |hs| && IsSunday(hs[i].date) && o == Observed(hs[i]) {
        var i :| 0 <= i < |hs| && IsSunday(hs[i].date) && o == Observed(hs[i]);
        if i > 0 {
          assert hs[1..][i - 1] == hs[i];
        }
      }
    }
  }

  function ByDate(h: Holiday): int {
    h.date
  }

  /** `GetSouthAfricanPublicHolidays(year)`. */
  function PublicHolidays(year: int): seq<Holiday>
    requires ValidYear(year)
  {
    BaseHolidaysFacts(year);
    SortBy(WithObserved(BaseHolidays(year)), ByDate)
  }

  /** An entry of a holiday list: one of the base holidays, or the observed copy of a Sunday one. */
  predicate IsEntryOf(base: seq<Holiday>, h: Holiday)
    requires DatesBelowMax(base)
  {
    (exists i :: 0 <= i < |base| && base[i] == h)
    || (exists i :: 0 <= i < |base| && IsSunday(base[i].date) && h == Observed(base[i]))
  }

  /** Adding observed entries and sorting, for any base list. */
  lemma AdjustedListShape(base: seq<Holiday>)
    requires DatesBelowMax(base)
    ensures SortedBy(SortBy(WithObserved(base), ByDate), ByDate)
    ensures |SortBy(WithObserved(base), ByDate)| == |base| + SundayCount(base)
    ensures multiset(SortBy(WithObserved(base), ByDate)) == multiset(base) + multiset(ObservedOf(base))
    ensures forall h :: h in SortBy(WithObserved(base), ByDate) <==> IsEntryOf(base, h)
  {
    var l := SortBy(WithObserved(base), ByDate);
    WithObservedContents(base);
    SortByFacts(WithObserved(base), ByDate);
    forall h
      ensures h in l <==> IsEntryOf(base, h)
    {
      ObservedOfMembers(base, h);
      assert h in l <==> h in multiset(l);
      assert h in base <==> exists i :: 0 <= i < |base| && base[i] == h;
    }
  }

  /** Some entry of an adjusted list falls on day `n` exactly when some base holiday
      does, or some Sunday base holiday falls on the day before. */
  lemma AdjustedListDates(base: seq<Holiday>, n: int)
    requires DatesBelowMax(base)
    ensures (exists j :: 0 <= j < |SortBy(WithObserved(base), ByDate)| && SortBy(WithObserved(base), ByDate)[j].date == n)
        <==> exists i :: 0 <= i < |base| && (base[i].date == n || (IsSunday(base[i].date) && base[i].date + 1 == n))
  {
    var l := SortBy(WithObserved(base), ByDate);
    AdjustedListShape(base);
    if exists j :: 0 <= j < |l| && l[j].date == n {
      var j :| 0 <= j < |l| && l[j].date == n;
      assert l[j] in l;
      assert IsEntryOf(base, l[j]);
    }
    if exists i :: 0 <= i < |base| && (base[i].date == n || (IsSunday(base[i].date) && base[i].date + 1 == n)) {
      var i :| 0 <= i < |base| && (base[i].date == n || (IsSunday(base[i].date) && base[i].date + 1 == n));
      var h := if base[i].date == n then base[i] else Observed(base[i]);
      assert IsEntryOf(base, h);
      assert h in l;
      var j :| 0 <= j < |l| && l[j] == h;
    }
  }

  lemma PublicHolidaysUnfold(year: int)
    requires ValidYear(year)
    ensures DatesBelowMax(BaseHolidays(year))
    ensures PublicHolidays(year) == SortBy(WithObserved(BaseHolidays(year)), ByDate)
  {
    BaseHolidaysFacts(year);
  }

  /** The year's list: ordered by date, a rearrangement of the twelve base holidays
      plus one observed entry per Sunday holiday, and nothing else. */
  lemma PublicHolidaysShape(year: int)
    requires ValidYear(year)
    ensures DatesBelowMax(BaseHolidays(year))
    ensures SortedBy(PublicHolidays(year), ByDate)
    ensures |PublicHolidays(year)| == 12 + SundayCount(BaseHolidays(year))
    ensures multiset(PublicHolidays(year))
         == multiset(BaseHolidays(year)) + multiset(ObservedOf(BaseHolidays(year)))
    ensures forall h :: h in PublicHolidays(year) <==> IsEntryOf(BaseHolidays(year), h)
  {
    PublicHolidaysUnfold(year);
    AdjustedListShape(BaseHolidays(year));
  }

  /** Every day in the list lies in the list's own year. */
  lemma PublicHolidaysInYear(year: int, h: Holiday)
    requires ValidYear(year)
    requires h in PublicHolidays(year)
    ensures DaysBeforeYear(year) <= h.date < DaysBeforeYear(year + 1)
    ensures YearOf(h.date) == year
  {
    PublicHolidaysShape(year);
    BaseHolidaysFacts(year);
    var base := BaseHolidays(year);
    assert IsEntryOf(base, h);
    if exists i :: 0 <= i < |base| && base[i] == h {
      var i :| 0 <= i < |base| && base[i] == h;
      assert BeforeYearEnd(base[i].date, year);
    } else {
      var i :| 0 <= i < |base| && IsSunday(base[i].date) && h == Observed(base[i]);
      assert BeforeYearEnd(base[i].date, year);
    }
    YearOfWithin(h.date, year);
  }

  /** Every one of the twelve base holidays is in the year's list under its own name. */
  lemma PublicHolidaysContainBase(year: int)
    requires ValidYear(year)
    ensures forall i :: 0 <= i < 12 ==> BaseHolidays(year)[i] in PublicHolidays(year)
  {
    var base := BaseHolidays(year);
    BaseHolidaysFacts(year);
    PublicHolidaysUnfold(year);
    WithObservedContents(base);
    SortByFacts(WithObserved(base), ByDate);
    forall i | 0 <= i < 12
      ensures base[i] in PublicHolidays(year)
    {
      assert base[i] in multiset(base);
      assert base[i] in multiset(PublicHolidays(year));
    }
  }

  /** Good Friday falls two days before Easter Sunday and Family Day the day after it,
      and both are in the list. */
  lemma EasterHolidaysListed(year: int)
    requires ValidYear(year)
    ensures Holiday(Easter(year) - 2, GoodFridayName) in PublicHolidays(year)
    ensures Holiday(Easter(year) + 1, FamilyDayName) in PublicHolidays(year)
  {
    PublicHolidaysContainBase(year);
    assert BaseHolidays(year)[10] in PublicHolidays(year);
    assert BaseHolidays(year)[11] in PublicHolidays(year);
  }

  /** A holiday on a Sunday gets its observed entry on the very next day,
      whether or not that Monday is already a holiday. */
  lemma SundayHolidayObserved(year: int, h: Holiday)
    requires ValidYear(year)
    requires h in BaseHolidays(year) && IsSunday(h.date)
    ensures h.date < MaxDay
    ensures Holiday(h.date + 1, "Public holiday " + h.name + " observed") in PublicHolidays(year)
  {
    PublicHolidaysShape(year);
    var base := BaseHolidays(year);
    var i :| 0 <= i < |base| && base[i] == h;
    assert IsEntryOf(base, Observed(base[i]));
  }

  /** No character of `s` is `c`. */
  predicate LacksChar(s: string, c: char) {
    forall k :: 0 <= k < |s| ==> s[k] != c
  }

  /** No fixed holiday's name has a 'v' in it (the first five, then the last five). */
  lemma EarlyFixedNamesLackV()
    ensures forall i :: 0 <= i < 5 ==> LacksChar(FixedHolidays[i].name, 'v')
  {
  }

  lemma LateFixedNamesLackV()
    ensures forall i :: 5 <= i < 10 ==> LacksChar(FixedHolidays[i].name, 'v')
  {
  }

  /** "observed" has a 'v', and none of the twelve base names does. */
  lemma BaseNamesNotObserved(year: int)
    requires ValidYear(year)
    ensures forall i :: 0 <= i < 12 ==> !Contains(BaseHolidays(year)[i].name, "observed")
  {
    var base := BaseHolidays(year);
    BaseHolidaysFacts(year);
    assert 'v' in "observed";
    EarlyFixedNamesLackV();
    LateFixedNamesLackV();
    forall i | 0 <= i < 12
      ensures !Contains(base[i].name, "observed")
    {
      assert LacksChar(base[i].name, 'v');
      MissingCharNotContained(base[i].name, "observed", 'v');
    }
  }

  lemma ObservedNameContains(b: Holiday)
    requires b.date < MaxDay
    ensures Contains(Observed(b).name, "observed")
  {
    assert Observed(b).name == ("Public holiday " + b.name + " ") + "observed";
    SuffixContained("Public holiday " + b.name + " ", "observed");
  }

  /** In an adjusted list whose base names never mention "observed", a name contains
      "observed" exactly for the entries the Sunday rule added. */
  lemma ObservedNameIffOf(base: seq<Holiday>, h: Holiday)
    requires DatesBelowMax(base)
    requires forall i :: 0 <= i < |base| ==> !Contains(base[i].name, "observed")
    requires h in SortBy(WithObserved(base), ByDate)
    ensures Contains(h.name, "observed")
        <==> exists i :: 0 <= i < |base| && IsSunday(base[i].date) && h == Observed(base[i])
  {
    AdjustedListShape(base);
    if exists i :: 0 <= i < |base| && IsSunday(base[i].date) && h == Observed(base[i]) {
      var i :| 0 <= i < |base| && IsSunday(base[i].date) && h == Observed(base[i]);
      ObservedNameContains(base[i]);
    } else {
      var i :| 0 <= i < |base| && base[i] == h;
    }
  }

  /** Within a year's list, a name contains "observed" exactly for the entries the
      Sunday rule added. */
  lemma ObservedNameIff(year: int, h: Holiday)
    requires ValidYear(year)
    requires h in PublicHolidays(year)
    ensures |BaseHolidays(year)| == 12 && DatesBelowMax(BaseHolidays(year))
    ensures Contains(h.name, "observed")
        <==> exists i :: 0 <= i < 12 && IsSunday(BaseHolidays(year)[i].date)
                         && h == Observed(BaseHolidays(year)[i])
  {
    BaseNamesNotObserved(year);
    BaseHolidaysFacts(year);
    PublicHolidaysUnfold(year);
    ObservedNameIffOf(BaseHolidays(year), h);
  }

  /** Easter Sunday 2025 is 20 April and Easter Sunday 2026 is 5 April. */
  lemma EasterExamples()
    ensures EasterMonthDay(2025) == MonthDay(4, 20)
    ensures EasterMonthDay(2026) == MonthDay(4, 5)
  {
    EasterSteps(2025, 11, 20, 25, 5, 0, 1, 6, 23, 6, 1, 6, 0);
    EasterSteps(2026, 12, 20, 26, 5, 0, 1, 6, 12, 6, 2, 2, 0);
  }

  /** One evaluation of `CalculateEaster`, with every intermediate value named. */
  lemma EasterSteps(year: int, a: int, b: int, c: int, d: int, e: int, f: int, g: int,
                    h: int, i: int, k: int, l: int, m: int)
    requires year >= 1
    requires a == year % 19 && b == year / 100 && c == year % 100 && d == b / 4 && e == b % 4
    requires f == (b + 8) / 25 && g == (b - f + 1) / 3 && h == (19 * a + b - d - g + 15) % 30
    requires i == c / 4 && k == c % 4 && l == (32 + 2 * e + 2 * i - h - k) % 7
    requires m == (a + 11 * h + 22 * l) / 451
    ensures EasterMonthDay(year) == MonthDay((h + l - 7 * m + 114) / 31, (h + l - 7 * m + 114) % 31 + 1)
  {
  }

  /** Christmas 2022 fell on a Sunday: its observed entry is dated 26 December,
      the same day as the Day of Goodwill, and both entries are listed. */
  lemma Christmas2022(year: int, christmas: Day)
    requires year == 2022 && christmas == FromCivil(2022, 12, 25)
    ensures Holiday(christmas + 1, "Public holiday " + "Christmas Day" + " observed") in PublicHolidays(year)
    ensures Holiday(christmas + 1, "Day of Goodwill") in PublicHolidays(year)
  {
    assert christmas == 738513;
    BaseHolidaysFacts(year);
    var base := BaseHolidays(year);
    assert base[8] == FixedOn(year, 8);
    assert base[8] == Holiday(christmas, "Christmas Day");
    assert base[9] == FixedOn(year, 9);
    MonthStep(year, 12);
    assert base[9].date == christmas + 1;
    assert IsSunday(christmas);
    SundayHolidayObserved(year, base[8]);
    PublicHolidaysContainBase(year);
    assert base[9] in PublicHolidays(year);
  }
}
