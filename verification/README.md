# LeaveManagement core, modelled in Dafny

A model of the logic at the heart of the LeaveManagement service:

- **Business-day calendar** (`BusinessDayService`):
  - the South African public holidays of a year: ten fixed dates, Good Friday and Family Day from the anonymous Gregorian Easter computation, and an extra "observed" entry on the day after each holiday that falls on a Sunday, all sorted by date;
  - the business-day test built on that list;
  - the next and previous business day, the business-day count and the list of non-business days in a range, the leave-range check and the adjustment of a range's ends to business days;
  - two query handlers built on the calendar: the public-holiday listing and the date-range validation.
- **Approval authorisation** (`AuthorizationService`): a CEO may approve anyone, a direct manager may approve their reports, and a Manager-typed grand-manager may approve two steps down.
- **Leave-request commands**: create, approve, reject and cancel. Each is a transition function over the leave-request table, `map<int, LeaveRequest>`. It either fails with the handler's message and leaves the table unchanged, or returns the new table and the response.
- **Repository queries** of `LeaveRequestRepositoryAsync`: filters and stable sorts over the table's rows, the two-level subordinate set, and the overlap tests.
- **Validation**:
  - the leave-request, employee and cancel-command rule sets, with "today" as a parameter;
  - the grouping of validation failures by property name that `ValidationException` performs.
- **Paging**: the paging arithmetic of `PagedResponse`.

## Modelling decisions

- **Dates.** A date is a day number counted from 0001-01-01, which is day 0. `Calendar.MaxDay` is 9999-12-31, the last day `DateTime` can hold. The calendar is the proleptic Gregorian one, and the weekday is `(n + 1) % 7` with Sunday as 0. `Calendar` converts between day numbers and (year, month, day) and proves the round trip.
- **Date overflow.** `DateTime.AddDays` past either end of the range throws. The model returns `Failure(OutOfRange)` in that case, which bounds the next/previous searches without fuel. The only inputs that reach the failure are a search that runs off either end of the calendar and the counting and listing loops over a range that ends on 9999-12-31.
- **Exceptions.** An inverted range in the count throws `ArgumentException` in the source; here it is `Failure(InvalidRange)`.
- **Sorting.** `OrderBy(key)` is a stable insertion sort on an integer key (`Sorting`). `OrderByDescending(key)` sorts on the negated key. The database's row order, which decides ties, is fixed as ascending primary key (`Collections.Rows`).
- **Lookups.** `GetByIdAsync` becomes a map lookup that returns `Option`, as the null branches of the handlers and the authorisation service expect.
- **Stubbed collaborators.**
  - The leave-type enum is opaque: only its printed name is used, and `IsInEnum` is membership in a set passed in as a parameter.
  - FluentValidation's e-mail check is a predicate passed in as a parameter.
  - An employee type outside the enum is `None`.
- **Strings.** A string is a sequence of Unicode characters. .NET's `string.Length`, which the length rules test, counts UTF-16 code units, so `Text.Utf16Length` counts a character outside the Basic Multilingual Plane as two.
- **Validators.** A rule set is a list of checks run in declaration order. Every failing check reports its rule, as FluentValidation does with its default cascade mode. `Validators.Rank` numbers the rules in declaration order, and the failures come out in that order, each rule at most once.
- **Three behaviours of the source worth stating:**
  - An observed entry can share its date with another holiday: in 2022, Christmas Day's observed entry and the Day of Goodwill both fall on 26 December (`Holidays.Christmas2022`).
  - The next/previous searches end at the edge of the calendar, where `AddDays` throws (see Date overflow above).
  - The leave-range check does not always return a boolean: the count throws for an inverted range whose ends are both business days, and so does `BusinessDays.IsDateRangeValidForLeave`.

## Model

| member | source | states |
|---|---|---|
| Calendar.CivilRoundTrip | LeaveManagement.Application/Services/BusinessDayService.cs:112-121 | building a date from (year, month, day) and reading its year, month and day back gives the same triple |
| Calendar.FromCivilInjective | LeaveManagement.Application/Services/BusinessDayService.cs:112-121 | two different valid dates never share a day number |
| Calendar.YearOf | LeaveManagement.Application/Services/BusinessDayService.cs:150 | `date.Year` is between 1 and 9999 and the day lies inside that year |
| Calendar.YearOfMonotone | LeaveManagement.Application/Features/BusinessDays/Queries/ValidateDateRangeQueryHandler.cs:47-51 | a later day never has an earlier year, so the year loop from start year to end year covers every day of the range |
| Holidays.EasterMonthDay | LeaveManagement.Application/Services/BusinessDayService.cs:154-172 | the Easter computation always lands between 22 March and 25 April |
| Holidays.Easter | LeaveManagement.Application/Services/BusinessDayService.cs:154-171 | Easter Sunday of a year from 1 to 9999 lies between 22 March and 25 April of that year |
| Holidays.EasterExamples | LeaveManagement.Application/Services/BusinessDayService.cs:154-172 | Easter Sunday is 20 April in 2025 and 5 April in 2026 |
| Holidays.BaseHolidaysFacts | LeaveManagement.Application/Services/BusinessDayService.cs:112-128 | twelve entries: the ten fixed holidays on their own dates with their names in listed order, then Good Friday two days before Easter and Family Day the day after; all fall inside the year, before its last day |
| Holidays.WithObservedContents | LeaveManagement.Application/Services/BusinessDayService.cs:130-143 | the adjusting loop keeps every holiday and adds exactly one entry per Sunday holiday, so the list grows by the number of Sunday holidays |
| Holidays.ObservedOfMembers | LeaveManagement.Application/Services/BusinessDayService.cs:135-142 | an added entry is exactly the next-day "Public holiday {name} observed" copy of some holiday that falls on a Sunday |
| Holidays.AdjustedListShape | LeaveManagement.Application/Services/BusinessDayService.cs:130-145 | for any base list, the adjusted and sorted list is ordered by date, has the base length plus the Sunday count, and is a rearrangement of the base holidays plus their observed copies |
| Holidays.PublicHolidaysShape | LeaveManagement.Application/Services/BusinessDayService.cs:108-146 | a year's list is sorted by date, has 12 + (number of Sunday holidays) entries, and holds exactly the base holidays and the observed copies of the Sunday ones |
| Holidays.PublicHolidaysInYear | LeaveManagement.Application/Services/BusinessDayService.cs:112-142 | every entry of a year's list lies in that year, even an observed entry that was moved forward |
| Holidays.PublicHolidaysContainBase | LeaveManagement.Application/Services/BusinessDayService.cs:112-128 | each of the twelve base holidays appears in the year's list under its own name |
| Holidays.EasterHolidaysListed | LeaveManagement.Application/Services/BusinessDayService.cs:123-128 | "Good Friday" (Easter − 2) and "Family Day" (Easter + 1) are in the year's list |
| Holidays.SundayHolidayObserved | LeaveManagement.Application/Services/BusinessDayService.cs:135-142 | a base holiday on a Sunday gets an entry dated the next day, named "Public holiday {name} observed" |
| Holidays.Christmas2022 | LeaveManagement.Application/Services/BusinessDayService.cs:135-142 | Christmas 2022 fell on a Sunday: its observed entry is dated 26 December, the same date as the Day of Goodwill, and both are listed |
| Holidays.BaseNamesNotObserved | LeaveManagement.Application/Services/BusinessDayService.cs:112-128 | none of the twelve base names contains "observed" |
| Holidays.ObservedNameIff | LeaveManagement.Application/Services/BusinessDayService.cs:137-140 | within a year's list, a name contains "observed" exactly when the entry is the observed copy of a Sunday base holiday |
| BusinessDays.PublicHolidayIff | LeaveManagement.Application/Services/BusinessDayService.cs:148-152 | a day is a public holiday exactly when a base holiday of its year falls on it, or one falls on a Sunday the day before |
| BusinessDays.NextBusinessDay | LeaveManagement.Application/Services/BusinessDayService.cs:17-27 | the result is a business day strictly after the input with no business day in between; the search fails only when no business day follows |
| BusinessDays.PreviousBusinessDay | LeaveManagement.Application/Services/BusinessDayService.cs:29-39 | the result is a business day strictly before the input with no business day in between; it fails only when none precedes |
| BusinessDays.NextThenPrevious | LeaveManagement.Application/Services/BusinessDayService.cs:17-39 | from a business day, the next business day's previous business day is the day itself |
| BusinessDays.PreviousThenNext | LeaveManagement.Application/Services/BusinessDayService.cs:17-39 | from a business day, the previous business day's next business day is the day itself |
| BusinessDays.BusinessDaysCount | LeaveManagement.Application/Services/BusinessDayService.cs:41-61 | an inverted range is an error; otherwise the count is the number of business days in the inclusive range |
| BusinessDays.NonBusinessDaysInRange | LeaveManagement.Application/Services/BusinessDayService.cs:63-78 | an inverted range gives an empty list; otherwise the list is strictly increasing and holds exactly the range's non-business days |
| BusinessDays.IsDateRangeValidForLeave | LeaveManagement.Application/Services/BusinessDayService.cs:80-88 | true exactly when both ends are business days of an ordered range; the count's error surfaces when both ends are business days but the range is inverted |
| BusinessDays.AdjustToBusinessDays | LeaveManagement.Application/Services/BusinessDayService.cs:90-106 | both adjusted ends are business days, the start only moves forward past non-business days, and the end only moves back past non-business days; it fails, with an out-of-range error, exactly when no business day lies at or after the start or none at or before the end before the calendar edge |
| BusinessDays.NoHolidayInJuly | LeaveManagement.Application/Services/BusinessDayService.cs:112-128 | no day of July is a public holiday in any year |
| BusinessDays.JulyWeek | LeaveManagement.Application/Services/BusinessDayService.cs:17-78 | a Monday-to-Sunday week in July counts five business days and lists its weekend, and Friday's next business day is the following Monday |
| BusinessDays.July2025 | LeaveManagement.Application/Services/BusinessDayService.cs:41-61 | 14–20 July 2025 holds five business days, and Friday 18 July and Monday 21 July are each other's next and previous business days |
| BusinessDays.ChristmasEve2025 | LeaveManagement.Application/Services/BusinessDayService.cs:7-15 | Wednesday 24 December 2025 is a business day |
| BusinessDays.December2025 | LeaveManagement.Application/Services/BusinessDayService.cs:41-78 | 24–26 December 2025 holds one business day, and the 25th and 26th are its non-business days |
| BusinessDays.BaseHolidayNotBusinessDay | LeaveManagement.Application/Services/BusinessDayService.cs:148-152 | no base holiday of any year is a business day |
| DaySearch.NextAfterIff | LeaveManagement.Application/Services/BusinessDayService.cs:17-27 | the forward search returns `b` exactly when `b` is the first passing day after the input |
| DaySearch.PreviousBeforeIff | LeaveManagement.Application/Services/BusinessDayService.cs:29-39 | the backward search returns `b` exactly when `b` is the last passing day before the input |
| DaySearch.Count | LeaveManagement.Application/Services/BusinessDayService.cs:41-61 | the counting loop throws for an inverted range and for one ending on 9999-12-31, and otherwise counts the passing days |
| DaySearch.CountInIsCardinality | LeaveManagement.Application/Services/BusinessDayService.cs:48-58 | the loop's count is the size of the set of passing days in the range |
| DaySearch.ListFailing | LeaveManagement.Application/Services/BusinessDayService.cs:63-78 | the listing loop lists nothing for an inverted range and otherwise lists the failing days |
| DaySearch.FailingInMembers | LeaveManagement.Application/Services/BusinessDayService.cs:65-77 | the listed days are strictly increasing and are exactly the failing days of the range |
| DaySearch.CountPlusFailing | LeaveManagement.Application/Services/BusinessDayService.cs:41-78 | every day of a range is either counted or listed, never both |
| DaySearch.StartCounted | LeaveManagement.Application/Services/BusinessDayService.cs:80-88 | a range that starts on a passing day counts at least one |
| DaySearch.Adjust | LeaveManagement.Application/Services/BusinessDayService.cs:90-106 | each end is adjusted on its own to the nearest passing day inward; it fails exactly when one of the searches runs off the calendar |
| DaySearch.AdjustIdempotent | LeaveManagement.Application/Services/BusinessDayService.cs:90-106 | adjusting an adjusted range changes nothing |
| DaySearch.AdjustedOrderIff | LeaveManagement.Application/Services/BusinessDayService.cs:90-106 | the adjusted start is at or before the adjusted end exactly when the range holds a passing day; otherwise the ends cross and are left crossed |
| DaySearch.WorkingWeek | LeaveManagement.Application/Services/BusinessDayService.cs:17-78 | five passing days, a two-day gap and a passing day give a count of five, the gap as the failing list, and a next/previous pair that jumps the gap |
| Authorization.CanApprove | LeaveManagement.Persistence/Services/AuthorizationService.cs:9-28 | both parties exist, and the approver is a CEO, the employee's direct manager, or a Manager-typed manager of the employee's manager |
| Authorization.CeoApprovesAnyone | LeaveManagement.Persistence/Services/AuthorizationService.cs:17 | a CEO may approve exactly the employees that exist, themselves included |
| Authorization.DirectManagerApproves | LeaveManagement.Persistence/Services/AuthorizationService.cs:19 | the direct manager may approve, whatever their type |
| Authorization.OnlyManagersReachTwoUp | LeaveManagement.Persistence/Services/AuthorizationService.cs:21-27 | a TeamLead or Employee who is not the direct manager is refused, even two levels up |
| Authorization.NoThirdHop | LeaveManagement.Persistence/Services/AuthorizationService.cs:19-27 | a non-CEO who is neither one nor two steps up the chain is refused |
| Authorization.IsManagerOf | LeaveManagement.Persistence/Services/AuthorizationService.cs:30-34 | true exactly when the employee exists and records that manager; a missing employee is nobody's report |
| Authorization.ChainExample | LeaveManagement.Persistence/Services/AuthorizationService.cs:9-28 | in a three-level chain, a Manager at the top may approve the bottom, a TeamLead at the top may not, the direct manager may, and missing ids are refused |
| Repository.QueryFacts | LeaveManagement.Persistence/Repositories/LeaveRequestRepositoryAsync.cs:89-97 | a filtered and sorted query is in key order and holds each passing row as often as the table does, and nothing else |
| Repository.Subordinates | LeaveManagement.Persistence/Repositories/LeaveRequestRepositoryAsync.cs:49-71 | every listed id is some employee's `EmployeeId`; on a table keyed by `EmployeeId` the subordinates are exactly the employees one or two manager steps below, nothing deeper |
| Repository.ManagerApprovesSubordinates | LeaveManagement.Persistence/Repositories/LeaveRequestRepositoryAsync.cs:49-71 | on a table keyed by `EmployeeId`, a Manager may approve every subordinate the manager queries show them |
| Repository.TeamLeadSeesMoreThanTheyMayApprove | LeaveManagement.Persistence/Repositories/LeaveRequestRepositoryAsync.cs:21-31 | on a table keyed by `EmployeeId`, a team lead is shown their reports' reports but may not approve them |
| Repository.ByEmployee | LeaveManagement.Persistence/Repositories/LeaveRequestRepositoryAsync.cs:11-19 | exactly that employee's requests, each as often as stored, latest start first |
| Repository.PendingForManager | LeaveManagement.Persistence/Repositories/LeaveRequestRepositoryAsync.cs:21-31 | exactly the pending requests of the two levels of subordinates, each as often as stored, earliest start first |
| Repository.PendingApprovals | LeaveManagement.Persistence/Repositories/LeaveRequestRepositoryAsync.cs:45-48 | the same pending requests of subordinates, each as often as stored, earliest start first |
| Repository.ForApproval | LeaveManagement.Persistence/Repositories/LeaveRequestRepositoryAsync.cs:33-43 | the subordinates' requests in every status, each as often as stored, latest start first |
| Repository.PendingCountForManager | LeaveManagement.Persistence/Repositories/LeaveRequestRepositoryAsync.cs:109-115 | the count is the length of the pending-for-manager list |
| Repository.ByDateRange | LeaveManagement.Persistence/Repositories/LeaveRequestRepositoryAsync.cs:89-97 | exactly the requests lying wholly inside the range, each as often as stored, earliest start first |
| Repository.ByStatus | LeaveManagement.Persistence/Repositories/LeaveRequestRepositoryAsync.cs:99-107 | exactly the requests in that status, each as often as stored, latest start first |
| Repository.OverlapSharesADay | LeaveManagement.Persistence/Repositories/LeaveRequestRepositoryAsync.cs:117-123 | for non-empty ranges the overlap test holds exactly when the two ranges share a day |
| Repository.HasPendingIsUnexcludedOverlap | LeaveManagement.Persistence/Repositories/LeaveRequestRepositoryAsync.cs:81-87 | the pending test is the overlap test with no id excluded |
| Repository.Overlapping | LeaveManagement.Persistence/Repositories/LeaveRequestRepositoryAsync.cs:133-150 | exactly the overlapping pending requests, each as often as stored, earliest start first, and non-empty exactly when the overlap test holds |
| Repository.ExcludeRemovesOnlyThatId | LeaveManagement.Persistence/Repositories/LeaveRequestRepositoryAsync.cs:142-145 | excluding an id removes exactly the requests with that id |
| Repository.FirstWithId | LeaveManagement.Persistence/Repositories/LeaveRequestRepositoryAsync.cs:73-79 | a found row has the id and is the first row with it; nothing is found exactly when no row has it |
| Repository.FirstWithIdIsLookup | LeaveManagement.Persistence/Repositories/LeaveRequestRepositoryAsync.cs:73-79 | on a well-keyed table the first row with an id is the record under that key |
| DateText.ParseFormat | LeaveManagement.Application/Features/LeaveRequest/Commands/CancelLeaveRequestCommandHandler.cs:48-49 | reading the `yyyy-MM-dd` text of a date back gives the same day |
| DateText.FormatInjective | LeaveManagement.Application/Features/LeaveRequest/Commands/CreateLeaveRequestCommandHandler.cs:32-33 | different days print differently |
| Commands.Cancel | LeaveManagement.Application/Features/LeaveRequest/Commands/CancelLeaveRequestCommandHandler.cs:26-49 | not found, then not the owner, then not pending, each with its message; success exactly for the owner's pending request, which becomes Cancelled with "Cancelled by employee" and nothing else changes |
| Commands.CancelMessageNamesStatus | LeaveManagement.Application/Features/LeaveRequest/Commands/CancelLeaveRequestCommandHandler.cs:38-41 | the not-pending refusal reports the status it found: two statuses give the same message exactly when they are the same status |
| Commands.CancelTwice | LeaveManagement.Application/Features/LeaveRequest/Commands/CancelLeaveRequestCommandHandler.cs:38-41 | a second cancel fails and its message names the status Cancelled |
| Commands.Reject | LeaveManagement.Application/Features/LeaveRequest/Commands/RejectLeaveRequestCommandHandler.cs:27-62 | not found, then not pending, then not authorised, then blank comments, each with its message; on success only status, rejector and comments change, from Pending to Rejected |
| Commands.Approve | LeaveManagement.Application/Features/LeaveRequest/Commands/ApproveLeaveRequestCommandHandler.cs:17-39 | not found, then not authorised; on success the requested status, approver and comments are written whatever the current status, and nothing else changes |
| Commands.ApproveOverwritesFinalStatus | LeaveManagement.Application/Features/LeaveRequest/Commands/ApproveLeaveRequestCommandHandler.cs:31 | an authorised approver moves a Cancelled request to Approved, a transition the status machine forbids |
| Commands.ApprovePendingOnly | LeaveManagement.Application/Features/LeaveRequest/Commands/ApproveLeaveRequestCommandHandler.cs:17-39 | the corrected approval succeeds exactly when `Approve` does and the transition leaves Pending, and then agrees with it |
| Commands.Create | LeaveManagement.Application/Features/LeaveRequest/Commands/CreateLeaveRequestCommandHandler.cs:25-46 | refused exactly when a pending request of the employee overlaps, with the refusal message built from the overlap query's list (in its earliest-start-first order), which starts with the fixed prefix and names every overlap; otherwise exactly one Pending record is added and nothing else changes |
| Commands.OverlapMessage | LeaveManagement.Application/Features/LeaveRequest/Commands/CreateLeaveRequestCommandHandler.cs:32-35 | the refusal text starts with "Cannot create leave request."; after the fixed introduction the "start to end (type)" text of each overlap sits at its own offset, in list order, each followed by ", " except the last, and the text ends with the last detail |
| Commands.CreateTwiceRefused | LeaveManagement.Application/Features/LeaveRequest/Commands/CreateLeaveRequestCommandHandler.cs:25-38 | submitting the same non-empty range again is refused |
| Commands.CommandsKeepKeys | LeaveManagement.Application/Features/LeaveRequest/Commands/CancelLeaveRequestCommandHandler.cs:43-46 | every command keeps each record under its own id |
| BusinessQueries.ToDto | LeaveManagement.Application/Features/BusinessDays/Queries/GetPublicHolidaysQueryHandler.cs:14-19 | date and name are copied, and the flag is set exactly when the name contains "observed" |
| BusinessQueries.GetPublicHolidays | LeaveManagement.Application/Features/BusinessDays/Queries/GetPublicHolidaysQueryHandler.cs:10-21 | one DTO per holiday in the same order with date and name copied and the fixed success message; only a year the date constructor rejects fails |
| BusinessQueries.PublicHolidayFlags | LeaveManagement.Application/Features/BusinessDays/Queries/GetPublicHolidaysQueryHandler.cs:14-19 | the DTOs are in date order and flagged exactly for the entries added by the Sunday rule |
| BusinessQueries.HolidaysInMembers | LeaveManagement.Application/Features/BusinessDays/Queries/ValidateDateRangeQueryHandler.cs:53-60 | one year's rows are exactly the projections of that year's holidays that fall in the range |
| BusinessQueries.HolidayRowsMembers | LeaveManagement.Application/Features/BusinessDays/Queries/ValidateDateRangeQueryHandler.cs:51-63 | the rows gathered over the years are the in-range holidays of those years |
| BusinessQueries.GatherYears | LeaveManagement.Application/Features/BusinessDays/Queries/ValidateDateRangeQueryHandler.cs:47-63 | the loop over start year to end year yields each year's in-range holidays in list order, year after year, and so exactly the in-range holidays of those years |
| BusinessQueries.HolidaysInRange | LeaveManagement.Application/Features/BusinessDays/Queries/ValidateDateRangeQueryHandler.cs:47-65 | the gathered holidays sorted by date: a permutation of the year-by-year rows, each holiday as often as gathered, none lost or added |
| BusinessQueries.RangeErrors | LeaveManagement.Application/Features/BusinessDays/Queries/ValidateDateRangeQueryHandler.cs:28-71 | each message is present exactly when its check fails, at most once, in the order start, end, empty range, with nothing else in the list; the list is empty exactly when all pass |
| BusinessQueries.ValidateDateRange | LeaveManagement.Application/Features/BusinessDays/Queries/ValidateDateRangeQueryHandler.cs:12-73 | an inverted range gives the single ordering error; otherwise each error is present exactly when its check fails, at most once and in the order start, end, empty range, with no other message (`ReportsChecks`); valid exactly when there are no errors, and the count, non-business days and holidays are the calendar's own answers; the holiday list is sorted by date and is a permutation of the year-by-year rows |
| BusinessQueries.HolidaysInRangeComplete | LeaveManagement.Application/Features/BusinessDays/Queries/ValidateDateRangeQueryHandler.cs:47-65 | every holiday of any year that falls in the range is listed, and it is a non-business day |
| BusinessQueries.ListedHolidaysAreNonBusiness | LeaveManagement.Application/Features/BusinessDays/Queries/ValidateDateRangeQueryHandler.cs:47-65 | every listed holiday lies in the range and is a non-business day |
| Validators.RunMembers | LeaveManagement.Application/Features/LeaveRequest/Validators/LeaveRequestRequestValidator.cs:10-25 | a rule is reported exactly when some check of that rule failed |
| Validators.RunEmpty | LeaveManagement.Application/Features/LeaveRequest/Validators/LeaveRequestRequestValidator.cs:10-25 | nothing is reported exactly when every check passed |
| Validators.RunKeepsOrder | LeaveManagement.Application/Features/LeaveRequest/Validators/LeaveRequestRequestValidator.cs:10-25 | on checks in declaration order, the failures come out in declaration order, so no rule twice |
| Validators.RunRanksWithin | LeaveManagement.Application/Features/LeaveRequest/Validators/LeaveRequestRequestValidator.cs:10-25 | on checks in declaration order, every reported rule lies between the first and the last check's rule, so no other rule set's rule is reported |
| Validators.RunReports | LeaveManagement.Application/Features/LeaveRequest/Validators/LeaveRequestRequestValidator.cs:10-25 | on checks in declaration order, a rule is reported exactly when its own check failed |
| Validators.ValidateLeaveRequest | LeaveManagement.Application/Features/LeaveRequest/Validators/LeaveRequestRequestValidator.cs:10-25 | each of the seven messages is reported exactly when its condition fails (the comments limit on their UTF-16 length), only leave-request rules are reported, the failures come in declaration order with no rule twice, and the request is valid exactly when all hold |
| Validators.SameDayLeaveValid | LeaveManagement.Application/Features/LeaveRequest/Validators/LeaveRequestRequestValidator.cs:17-19 | a one-day leave starting today with no comments passes |
| Validators.ValidateEmployee | LeaveManagement.Application/Features/Employee/Validators/EmployeeRequestValidator.cs:10-23 | each of the seven messages is reported exactly when its condition fails (the number and name limits on UTF-16 lengths), only employee rules are reported, the failures come in declaration order with no rule twice, and the request is valid exactly when all hold |
| Validators.EmployeeNumberChecks | LeaveManagement.Application/Features/Employee/Validators/EmployeeRequestValidator.cs:10-12 | an empty number fails both number checks; four spaces fail only the first |
| Validators.WideCharactersCountTwice | LeaveManagement.Application/Features/Employee/Validators/EmployeeRequestValidator.cs:10-16 | a name of 51 characters outside the Basic Multilingual Plane is too long, and an employee number of six such characters is outside 4..10, because lengths count UTF-16 code units |
| Validators.ValidateCancel | LeaveManagement.Application/Features/LeaveRequest/Validators/CancelLeaveRequestCommandValidator.cs:10-14 | each id check reports exactly when its id is not positive; when both fail, the list is the leave-request id's failure then the employee id's; the command is valid exactly when both ids are positive |
| ValidationErrors.FromFailures | LeaveManagement.Application/Exceptions/ValidationException.cs:15-27 | the keys are exactly the reported properties, each key holds that property's messages in order, and the message total equals the number of failures |
| ValidationErrors.GroupFacts | LeaveManagement.Application/Exceptions/ValidationException.cs:18-26 | the loop's table has distinct keys, exactly the reported properties, each property's messages in order, and one message per failure |
| ValidationErrors.AddFacts | LeaveManagement.Application/Exceptions/ValidationException.cs:21-25 | one turn creates the key only when it is missing and appends the message under it, leaving the other keys alone |
| ValidationErrors.GroupKeyOrder | LeaveManagement.Application/Exceptions/ValidationException.cs:18-26 | keys come in the order their properties were first reported |
| ValidationErrors.SamePropertyGrouped | LeaveManagement.Application/Exceptions/ValidationException.cs:21-25 | two failures of one property share one entry, in their order |
| Paging.Page | LeaveManagement.Application/Wrappers/PagedResponse.cs:12-20 | the three-argument constructor: no pages, neither flag, succeeded, no message or errors |
| Paging.CeilDiv | LeaveManagement.Application/Wrappers/PagedResponse.cs:31 | the rounded-up quotient: the smallest multiple of the divisor not below the dividend, for either sign of the divisor |
| Paging.PageOf | LeaveManagement.Application/Wrappers/PagedResponse.cs:22-33 | the page count is the rounded-up quotient, there is a next page exactly when the page number is below it, and a previous one exactly when it is above 1 |
| Paging.PageFlags | LeaveManagement.Application/Wrappers/PagedResponse.cs:31-33 | no pages exactly when there are no records, and a next page exactly when records remain after this page |
| Paging.PageExample | LeaveManagement.Application/Wrappers/PagedResponse.cs:31-33 | 25 records in pages of 10 give three pages; page 3 has no next page, page 2 has both |
| Sorting.SortByFacts | LeaveManagement.Persistence/Repositories/LeaveRequestRepositoryAsync.cs:29 | `OrderBy` output is in key order and is a rearrangement of its input |
| Sorting.SortByStable | LeaveManagement.Persistence/Repositories/LeaveRequestRepositoryAsync.cs:29 | `OrderBy` is stable: for every key value, the elements with that key come out in their input order |
| Collections.FilterMultiset | LeaveManagement.Persistence/Repositories/LeaveRequestRepositoryAsync.cs:28 | `Where` keeps every copy of a passing row and drops the rest |
| Text.ContainsIff | LeaveManagement.Application/Features/BusinessDays/Queries/ValidateDateRangeQueryHandler.cs:59 | the left-to-right search for a substring succeeds exactly when it occurs at some index |
| Text.Utf16Length | LeaveManagement.Application/Features/Employee/Validators/EmployeeRequestValidator.cs:12-16 | a string's UTF-16 length is between its character count and twice it |
| Text.Utf16LengthBmp | LeaveManagement.Application/Features/Employee/Validators/EmployeeRequestValidator.cs:12-16 | the UTF-16 length equals the character count exactly when every character lies in the Basic Multilingual Plane |
| Text.Utf16LengthWide | LeaveManagement.Application/Features/Employee/Validators/EmployeeRequestValidator.cs:12-16 | the UTF-16 length is twice the character count exactly when every character needs a surrogate pair |
| Text.JoinPlacesParts | LeaveManagement.Application/Features/LeaveRequest/Commands/CreateLeaveRequestCommandHandler.cs:35 | part i of `string.Join` sits at the sum of the earlier parts' lengths plus one separator each, and the separator follows every part but the last |
| Text.JoinOffsetsIncrease | LeaveManagement.Application/Features/LeaveRequest/Commands/CreateLeaveRequestCommandHandler.cs:35 | a part and the separator after it end before any later part starts, so the parts appear in list order |
| Text.JoinLength | LeaveManagement.Application/Features/LeaveRequest/Commands/CreateLeaveRequestCommandHandler.cs:35 | the joined text ends where the last part ends: its length plus one separator is the offset past the last part |
| Text.JoinContainsParts | LeaveManagement.Application/Features/LeaveRequest/Commands/CreateLeaveRequestCommandHandler.cs:35 | each part appears in the joined text |

## Left out

- Time of day and the clock: dates carry no time, and the `ApprovedDate = DateTime.Now` stamp of the approve and reject handlers is not recorded.
- The asynchronous calls, Entity Framework, navigation-property loading and `UpdateAsync`/`AddAsync` are replaced by pure functions over maps and sequences.
- The catch-all `catch (Exception)` wrappers of the handlers: the modelled bodies throw nothing else.
- `GetByIdAsync` throws `KeyNotFoundException` for a missing id rather than returning null. The null branches of the approve handler and the authorisation service are modelled as written, so they only describe a repository that returns null.
- `Response<T>` and the AutoMapper mappings: only the data and message a response carries are kept. Response.cs is not part of this model.
- The pass-through query handlers, the controllers, identity and `ValidationBehavior`, which only forward calls.
- `PublicHolidayInfo` is kept as the `Holiday` datatype with its date and name only.
- Paging.PageOf: requires a non-zero page size, because the source's double division by zero gives an infinity whose cast to `int` is unspecified; the 32-bit range of the integer fields is not modelled.
- Commands.Create: takes the id the database assigns as a parameter and requires it to be new.
- Commands.Approve: the requested status is one of the four defined `LeaveStatus` values. The DTO field at ApproveLeaveRequest.cs:8 is an int-backed enum, and the JSON options at Program.cs:51-55 register no string-enum converter, so a client may send any integer, which line 31 of the approve handler stores unchecked. A stored status outside the enum is not representable in this model.
- Commands.Reject: the employee's name in the success message comes from the employee table; a missing employee prints as empty text.
- Repository.Subordinates: a set stands for the source's list, which can repeat ids; the list is only asked for membership. The characterisation by manager steps is stated for a table keyed by `EmployeeId` (`Domain.EmployeesWellKeyed`), which the primary key guarantees; on an arbitrary map only "every listed id is some employee's id" is promised.
- Validators.ValidateEmployee: the e-mail format test is a parameter, not FluentValidation's own check.
- Validators.ValidateLeaveRequest: "today" and the set of defined leave types are parameters.
- DateText.FormatDate: prints the date in the proleptic Gregorian calendar. The source's `{date:yyyy-MM-dd}` uses the current culture's calendar, which is assumed to be Gregorian.
- DateText.ParseDate: only exists to show the printed date names the day; its own contract states only the text's length.
- Database tie order: rows with equal sort keys are assumed to come out of the table in ascending id order.

## Findings

| source | as written | input that shows it | evidently intended | confidence | as-written member | corrected member |
|---|---|---|---|---|---|---|
| LeaveManagement.Application/Features/LeaveRequest/Commands/ApproveLeaveRequestCommandHandler.cs:31 | the approve handler writes the requested status without looking at the current one | a Cancelled request and an authorised approver asking for Approved: the request becomes Approved | only a Pending request may be approved or rejected, and never back to Pending, as the reject and cancel handlers enforce | medium, not executed | Commands.ApproveOverwritesFinalStatus | Commands.ApprovePendingOnly |
