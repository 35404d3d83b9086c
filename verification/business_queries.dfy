/** The business-day query handlers that do more than forward one service call:
    the public-holiday listing, and the date-range validation that combines the
    service's checks, counts and holiday lists into one result. */
module BusinessQueries {
  import opened Wrappers
  import opened Calendar
  import opened Text
  import opened Sorting
  import opened Collections
  import opened Holidays
  import opened DaySearch
  import opened BusinessDays

  /** A successful `Response<T>`: the data and an optional message. */
  datatype Response<T> = Response(data: T, message: Option<string>)

  datatype PublicHolidayDto = PublicHolidayDto(date: Day, name: string, isObserved: bool)

  const ObservedWord: string := "observed"
  const HolidaysRetrieved: string := "Public holidays retrieved successfully"

  /** The projection both handlers apply to a holiday: the flag is read off the name. */
  function ToDto(h: Holiday): (d: PublicHolidayDto)
    ensures d.date == h.date && d.name == h.name
    ensures d.isObserved <==> Contains(h.name, ObservedWord)
  {
    PublicHolidayDto(h.date, h.name, Contains(h.name, ObservedWord))
  }

  function ToDtos(hs: seq<Holiday>): (r: seq<PublicHolidayDto>)
    ensures |r| == |hs|
    ensures forall i :: 0 <= i < |hs| ==> r[i] == ToDto(hs[i])
  {
    seq(|hs|, i requires 0 <= i < |hs| => ToDto(hs[i]))
  }

  // ---------------------------------------------------------------------------
  // GetPublicHolidaysQueryHandler

  /** The year's holidays as DTOs. A year outside 1..9999 makes the `DateTime`
      constructor throw. */
  function GetPublicHolidays(year: int): (r: Result<Response<seq<PublicHolidayDto>>, DateError>)
    ensures r.Failure? <==> !ValidYear(year)
    ensures r.Failure? ==> r.error == OutOfRange
    ensures r.Success? ==> r.value.message == Some(HolidaysRetrieved)
    ensures r.Success? ==> |r.value.data| == |PublicHolidays(year)|
    ensures r.Success? ==> forall i :: 0 <= i < |r.value.data| ==>
      r.value.data[i].date == PublicHolidays(year)[i].date && r.value.data[i].name == PublicHolidays(year)[i].name
  {
    if !ValidYear(year) then Failure(OutOfRange)
    else Success(Response(ToDtos(PublicHolidays(year)), Some(HolidaysRetrieved)))
  }

  /** The listing is in date order, and an entry is flagged as observed exactly when
      it is the Monday entry the Sunday rule added for one of the base holidays. */
  lemma PublicHolidayFlags(year: int)
    requires ValidYear(year)
    ensures GetPublicHolidays(year).Success? && |BaseHolidays(year)| == 12 && DatesBelowMax(BaseHolidays(year))
    ensures |GetPublicHolidays(year).value.data| == |PublicHolidays(year)|
    ensures forall i, j :: 0 <= i < j < |GetPublicHolidays(year).value.data| ==>
      GetPublicHolidays(year).value.data[i].date <= GetPublicHolidays(year).value.data[j].date
    ensures forall i :: 0 <= i < |GetPublicHolidays(year).value.data| ==>
      (GetPublicHolidays(year).value.data[i].isObserved <==>
        exists k :: 0 <= k < 12 && IsSunday(BaseHolidays(year)[k].date)
                    && PublicHolidays(year)[i] == Observed(BaseHolidays(year)[k]))
  {
    var hs := PublicHolidays(year);
    PublicHolidaysShape(year);
    BaseHolidaysFacts(year);
    assert SortedBy(hs, ByDate);
    forall i | 0 <= i < |hs|
      ensures ToDto(hs[i]).isObserved <==>
        exists k :: 0 <= k < 12 && IsSunday(BaseHolidays(year)[k].date) && hs[i] == Observed(BaseHolidays(year)[k])
    {
      ObservedNameIff(year, hs[i]);
    }
  }

  // ---------------------------------------------------------------------------
  // ValidateDateRangeQueryHandler

  datatype BusinessDayValidationResult = BusinessDayValidationResult(
    isValid: bool,
    errors: seq<string>,
    nonBusinessDays: seq<Day>,
    businessDaysCount: nat,
    publicHolidaysInRange: seq<PublicHolidayDto>)

  const StartAfterEnd: string := "Start date must be before or equal to end date"
  const StartNotBusinessDay: string := "Start date must be a business day (Monday-Friday, excluding public holidays)"
  const EndNotBusinessDay: string := "End date must be a business day (Monday-Friday, excluding public holidays)"
  const NoBusinessDay: string := "Date range must contain at least one business day"

  /** The `Where` test: the holiday falls in `s..e`. */
  function InRange(s: Day, e: Day): Holiday -> bool {
    (h: Holiday) => s <= h.date <= e
  }

  /** One year's holidays that fall in `s..e`, as DTOs, in the year's order. */
  function HolidaysIn(year: int, s: Day, e: Day): seq<PublicHolidayDto>
    requires ValidYear(year)
  {
    ToDtos(Filter(PublicHolidays(year), InRange(s, e)))
  }

  /** `HolidaysIn` as a function of the year, nothing outside 1..9999. */
  function YearHolidays(s: Day, e: Day): int -> seq<PublicHolidayDto> {
    y => if ValidYear(y) then HolidaysIn(y, s, e) else []
  }

  /** `dto` is the projection of a holiday of year `y` that falls in `s..e`. */
  predicate HolidayOf(dto: PublicHolidayDto, y: int, s: Day, e: Day) {
    ValidYear(y) && exists h :: h in PublicHolidays(y) && s <= h.date <= e && dto == ToDto(h)
  }

  predicate FromYears(dto: PublicHolidayDto, s: Day, e: Day, y0: int, y1: int) {
    exists y :: y0 <= y <= y1 && HolidayOf(dto, y, s, e)
  }

  lemma HolidaysInMembers(year: int, s: Day, e: Day, dto: PublicHolidayDto)
    requires ValidYear(year)
    ensures dto in HolidaysIn(year, s, e) <==> HolidayOf(dto, year, s, e)
  {
    if dto in HolidaysIn(year, s, e) {
      ListedIsHolidayOf(year, s, e, dto);
    }
    if HolidayOf(dto, year, s, e) {
      HolidayOfIsListed(year, s, e, dto);
    }
  }

  lemma ListedIsHolidayOf(year: int, s: Day, e: Day, dto: PublicHolidayDto)
    requires ValidYear(year) && dto in HolidaysIn(year, s, e)
    ensures HolidayOf(dto, year, s, e)
  {
    var f := Filter(PublicHolidays(year), InRange(s, e));
    var i :| 0 <= i < |f| && ToDtos(f)[i] == dto;
    var h := f[i];
    assert h in PublicHolidays(year) && InRange(s, e)(h);
    assert s <= h.date <= e && dto == ToDto(h);
  }

  lemma HolidayOfIsListed(year: int, s: Day, e: Day, dto: PublicHolidayDto)
    requires ValidYear(year) && HolidayOf(dto, year, s, e)
    ensures dto in HolidaysIn(year, s, e)
  {
    var hs := PublicHolidays(year);
    var f := Filter(hs, InRange(s, e));
    var h :| h in hs && s <= h.date <= e && dto == ToDto(h);
    var j :| 0 <= j < |hs| && hs[j] == h;
    assert InRange(s, e)(hs[j]);
    assert h in f;
    var i :| 0 <= i < |f| && f[i] == h;
    assert ToDtos(f)[i] == dto;
  }

  /** The rows gathered over the years `y0..y1` are the holidays of those years
      that fall in `s..e`. */
  lemma HolidayRowsMembers(s: Day, e: Day, y0: int, y1: int, dto: PublicHolidayDto)
    ensures dto in Concat(YearHolidays(s, e), y0, y1) <==> FromYears(dto, s, e, y0, y1)
  {
    ConcatMembers(YearHolidays(s, e), y0, y1, dto);
    if dto in Concat(YearHolidays(s, e), y0, y1) {
      var y :| y0 <= y <= y1 && dto in YearHolidays(s, e)(y);
      HolidaysInMembers(y, s, e, dto);
    }
    if FromYears(dto, s, e, y0, y1) {
      var y :| y0 <= y <= y1 && HolidayOf(dto, y, s, e);
      HolidaysInMembers(y, s, e, dto);
      assert dto in YearHolidays(s, e)(y);
    }
  }

  function DtoDate(d: PublicHolidayDto): int {
    d.date
  }

  /** The rows of the range: each year's in-range holidays, year by year from
      the start's year to the end's, each year in its list order. */
  function RangeRows(s: Day, e: Day): seq<PublicHolidayDto> {
    Concat(YearHolidays(s, e), YearOf(s), YearOf(e))
  }

  /** The loop over the years of the range. */
  method GatherYears(s: Day, e: Day) returns (rows: seq<PublicHolidayDto>)
    requires s <= e
    ensures rows == RangeRows(s, e)
    ensures forall dto :: dto in rows <==> FromYears(dto, s, e, YearOf(s), YearOf(e))
  {
    var startYear := YearOf(s);
    var endYear := YearOf(e);
    rows := Gather(YearHolidays(s, e), startYear, endYear);
    forall dto
      ensures dto in rows <==> FromYears(dto, s, e, startYear, endYear)
    {
      HolidayRowsMembers(s, e, startYear, endYear, dto);
    }
  }

  /** The gathered holidays, then `OrderBy(h => h.Date)`. */
  method HolidaysInRange(s: Day, e: Day) returns (r: seq<PublicHolidayDto>)
    requires s <= e
    ensures SortedBy(r, DtoDate)
    ensures multiset(r) == multiset(RangeRows(s, e))
    ensures forall dto :: dto in r <==> FromYears(dto, s, e, YearOf(s), YearOf(e))
  {
    var rows := GatherYears(s, e);
    r := SortBy(rows, DtoDate);
    SortByFacts(rows, DtoDate);
    forall dto
      ensures dto in r <==> dto in rows
    {
      assert dto in r <==> dto in multiset(r);
      assert dto in rows <==> dto in multiset(rows);
    }
  }

  /** Where a message stands in the handler's order of checks: start, end, then
      the empty range; any other text comes after them. */
  function ErrorPosition(msg: string): nat {
    if msg == StartNotBusinessDay then 0
    else if msg == EndNotBusinessDay then 1
    else if msg == NoBusinessDay then 2
    else 3
  }

  /** What the error list of an ordered range says: each of the three messages
      appears exactly when its check failed, once, and in the order start, end,
      empty range; the ordering message never appears. */
  predicate ReportsChecks(errs: seq<string>, startOk: bool, endOk: bool, count: nat) {
    && (StartNotBusinessDay in errs <==> !startOk)
    && (EndNotBusinessDay in errs <==> !endOk)
    && (NoBusinessDay in errs <==> count == 0)
    && StartAfterEnd !in errs
    && |errs| == (if startOk then 0 else 1) + (if endOk then 0 else 1) + (if count > 0 then 0 else 1)
    && (forall i, j :: 0 <= i < j < |errs| ==> ErrorPosition(errs[i]) < ErrorPosition(errs[j]))
  }

  /** The error list the handler builds for an ordered range: the start check, the
      end check, then the empty-range check, each adding its message when it fails. */
  function RangeErrors(startOk: bool, endOk: bool, count: nat): (errs: seq<string>)
    ensures ReportsChecks(errs, startOk, endOk, count)
    ensures errs == [] <==> startOk && endOk && count > 0
  {
    (if startOk then [] else [StartNotBusinessDay])
    + (if endOk then [] else [EndNotBusinessDay])
    + (if count > 0 then [] else [NoBusinessDay])
  }

  /** A range that starts on a business day holds at least one. */
  lemma BusinessStartCounted(s: Day, e: Day)
    requires s <= e < MaxDay && IsBusinessDay(s)
    ensures |PassingSet(s, e, IsBusinessDay)| > 0
  {
    CountInIsCardinality(s, e, IsBusinessDay);
    StartCounted(s, e, IsBusinessDay);
  }

  /** The handler. Every question it asks the service is answered by the model of
      that service; the only failure is the `AddDays` overflow of the range loops
      when the range ends on 9999-12-31. */
  method ValidateDateRange(s: Day, e: Day) returns (r: Result<Response<BusinessDayValidationResult>, DateError>)
    ensures s > e ==> r == Success(Response(BusinessDayValidationResult(false, [StartAfterEnd], [], 0, []), None))
    ensures s <= e && e == MaxDay ==> r == Failure(OutOfRange)
    ensures s <= e < MaxDay ==> r.Success? && r.value.message.None?
    ensures r.Success? ==> (r.value.data.isValid <==> r.value.data.errors == [])
    ensures s <= e < MaxDay && r.Success? ==> (
      var v := r.value.data;
      && ReportsChecks(v.errors, IsBusinessDay(s), IsBusinessDay(e), v.businessDaysCount)
      && (v.isValid <==> IsBusinessDay(s) && IsBusinessDay(e))
      && v.businessDaysCount == |PassingSet(s, e, IsBusinessDay)|
      && (forall d: Day :: d in v.nonBusinessDays <==> s <= d <= e && !IsBusinessDay(d))
      && (forall i, j :: 0 <= i < j < |v.nonBusinessDays| ==> v.nonBusinessDays[i] < v.nonBusinessDays[j])
      && SortedBy(v.publicHolidaysInRange, DtoDate)
      && multiset(v.publicHolidaysInRange) == multiset(RangeRows(s, e))
      && (forall dto :: dto in v.publicHolidaysInRange <==> FromYears(dto, s, e, YearOf(s), YearOf(e))))
  {
    if s > e {
      return Success(Response(BusinessDayValidationResult(false, [StartAfterEnd], [], 0, []), None));
    }
    var startOk := IsBusinessDay(s);
    var endOk := IsBusinessDay(e);
    var nonBusiness := NonBusinessDaysInRange(s, e);
    if nonBusiness.Failure? {
      return Failure(nonBusiness.error);
    }
    var count := BusinessDaysCount(s, e);
    if count.Failure? {
      // The listing loop just covered the same range without overflowing.
      assert false;
      return Failure(OutOfRange);
    }
    if startOk {
      BusinessStartCounted(s, e);
    }
    var inRange := HolidaysInRange(s, e);
    var errors := RangeErrors(startOk, endOk, count.value);
    var result := BusinessDayValidationResult(errors == [], errors, nonBusiness.value, count.value, inRange);
    return Success(Response(result, None));
  }

  /** A holiday of any year that falls in the range is listed, and every listed
      holiday is a non-business day of the range. */
  lemma HolidaysInRangeComplete(s: Day, e: Day, y: int, h: Holiday)
    requires s <= e && ValidYear(y)
    requires h in PublicHolidays(y) && s <= h.date <= e
    ensures FromYears(ToDto(h), s, e, YearOf(s), YearOf(e))
    ensures !IsBusinessDay(h.date)
  {
    PublicHolidaysInYear(y, h);
    YearOfMonotone(s, h.date);
    YearOfMonotone(h.date, e);
    assert HolidayOf(ToDto(h), y, s, e);
    var hs := PublicHolidays(y);
    var i :| 0 <= i < |hs| && hs[i] == h;
    assert IsPublicHoliday(h.date);
  }

  /** The listed holidays are all non-business days of the range. */
  lemma ListedHolidaysAreNonBusiness(s: Day, e: Day, dto: PublicHolidayDto)
    requires s <= e
    requires FromYears(dto, s, e, YearOf(s), YearOf(e))
    ensures s <= dto.date <= e && !IsBusinessDay(dto.date)
  {
    var y :| YearOf(s) <= y <= YearOf(e) && HolidayOf(dto, y, s, e);
    var h :| h in PublicHolidays(y) && s <= h.date <= e && dto == ToDto(h);
    HolidaysInRangeComplete(s, e, y, h);
  }
}
