/** The FluentValidation rule sets for a leave request, an employee and a cancel
    command. Rules run in declaration order and a failing check does not stop
    the next check of the same property, so every failing check contributes its
    failure. "Today", the set of defined leave types and the e-mail format test
    are parameters. */
module Validators {
  import opened Wrappers
  import opened Calendar
  import opened Text
  import opened Domain

  datatype ValidationFailure = ValidationFailure(propertyName: string, errorMessage: string)

  /** Each check of the three rule sets; `FailureOf` gives the property name and
      message it reports. */
  datatype Rule =
    | EmployeeIdPositive | StartRequired | StartInPast | EndRequired | EndBeforeStart
    | InvalidLeaveType | CommentsTooLong
    | NumberRequired | NumberLength | NameRequired | NameTooLong | EmailRequired | EmailFormat
    | InvalidEmployeeType
    | LeaveRequestIdPositive

  function FailureOf(rule: Rule): ValidationFailure {
    match rule
    case EmployeeIdPositive => ValidationFailure("EmployeeId", "Employee ID must be greater than 0")
    case StartRequired => ValidationFailure("StartDate", "Start date is required")
    case StartInPast => ValidationFailure("StartDate", "Start date cannot be in the past")
    case EndRequired => ValidationFailure("EndDate", "End date is required")
    case EndBeforeStart => ValidationFailure("EndDate", "End date must be after start date")
    case InvalidLeaveType => ValidationFailure("LeaveType", "Invalid leave type")
    case CommentsTooLong => ValidationFailure("Comments", "Comments cannot exceed 500 characters")
    case NumberRequired => ValidationFailure("EmployeeNumber", "Employee number is required")
    case NumberLength => ValidationFailure("EmployeeNumber", "Employee number must be between 4 and 10 characters")
    case NameRequired => ValidationFailure("FullName", "Full name is required")
    case NameTooLong => ValidationFailure("FullName", "Full name cannot exceed 100 characters")
    case EmailRequired => ValidationFailure("Email", "Email is required")
    case EmailFormat => ValidationFailure("Email", "Invalid email format")
    case InvalidEmployeeType => ValidationFailure("EmployeeType", "Invalid employee type")
    case LeaveRequestIdPositive => ValidationFailure("LeaveRequestId", "Leave request ID must be greater than 0")
  }

  /** The failures a run reports, in the order the checks ran. */
  function Failures(rules: seq<Rule>): (r: seq<ValidationFailure>)
    ensures |r| == |rules|
    ensures forall i :: 0 <= i < |rules| ==> r[i] == FailureOf(rules[i])
  {
    seq(|rules|, i requires 0 <= i < |rules| => FailureOf(rules[i]))
  }

  /** A check: whether it passed, and the rule it reports when it did not. */
  datatype Check = Check(ok: bool, rule: Rule)

  /** The rules of the failing checks, in the order the checks ran. */
  function Run(checks: seq<Check>): (r: seq<Rule>)
    ensures |r| <= |checks|
  {
    if |checks| == 0 then []
    else
      var rest := Run(checks[1..]);
      if checks[0].ok then rest else [checks[0].rule] + rest
  }

  /** A rule is reported exactly when some check of that rule failed. */
  lemma {:induction false} RunMembers(checks: seq<Check>, rule: Rule)
    ensures rule in Run(checks) <==> exists i :: 0 <= i < |checks| && !checks[i].ok && checks[i].rule == rule
  {
    if |checks| > 0 {
      RunMembers(checks[1..], rule);
      assert forall i :: 1 <= i < |checks| ==> checks[i] == checks[1..][i - 1];
    }
  }

  /** Nothing is reported exactly when every check passed. */
  lemma {:induction false} RunEmpty(checks: seq<Check>)
    ensures Run(checks) == [] <==> forall i :: 0 <= i < |checks| ==> checks[i].ok
  {
    if |checks| > 0 {
      RunEmpty(checks[1..]);
      assert forall i :: 1 <= i < |checks| ==> checks[i] == checks[1..][i - 1];
    }
  }

  /** A rule's position in its rule set's declaration order: the leave-request
      rules first, then the employee rules. */
  function Rank(rule: Rule): nat {
    match rule
    case EmployeeIdPositive => 0
    case StartRequired => 1
    case StartInPast => 2
    case EndRequired => 3
    case EndBeforeStart => 4
    case InvalidLeaveType => 5
    case CommentsTooLong => 6
    case NumberRequired => 7
    case NumberLength => 8
    case NameRequired => 9
    case NameTooLong => 10
    case EmailRequired => 11
    case EmailFormat => 12
    case InvalidEmployeeType => 13
    case LeaveRequestIdPositive => 14
  }

  /** The checks are listed in declaration order. */
  predicate RanksIncrease(checks: seq<Check>) {
    forall i, j :: 0 <= i < j < |checks| ==> Rank(checks[i].rule) < Rank(checks[j].rule)
  }

  /** Each check comes before the next in declaration order; enough to put
      the whole list in order. */
  predicate NextRankHigher(checks: seq<Check>) {
    forall i :: 0 <= i < |checks| - 1 ==> Rank(checks[i].rule) < Rank(checks[i + 1].rule)
  }

  /** The seven-check form of `NextRankHigher`, stated pair by pair. */
  lemma SevenInOrder(checks: seq<Check>)
    requires |checks| == 7
    requires Rank(checks[0].rule) < Rank(checks[1].rule) < Rank(checks[2].rule) < Rank(checks[3].rule)
    requires Rank(checks[3].rule) < Rank(checks[4].rule) < Rank(checks[5].rule) < Rank(checks[6].rule)
    ensures NextRankHigher(checks)
  {
  }

  lemma {:induction false} NextRankHigherOrders(checks: seq<Check>)
    requires NextRankHigher(checks)
    ensures RanksIncrease(checks) && DistinctRules(checks)
  {
    forall i, j | 0 <= i < j < |checks|
      ensures Rank(checks[i].rule) < Rank(checks[j].rule)
    {
      var k := i;
      while k < j
        invariant i <= k <= j
        invariant Rank(checks[i].rule) <= Rank(checks[k].rule)
        invariant k > i ==> Rank(checks[i].rule) < Rank(checks[k].rule)
      {
        k := k + 1;
      }
    }
  }

  /** Run keeps the order of the checks: on a list in declaration order the
      failures come in declaration order, and so each rule at most once. */
  lemma {:induction false} RunKeepsOrder(checks: seq<Check>)
    requires NextRankHigher(checks)
    ensures forall i, j :: 0 <= i < j < |Run(checks)| ==> Rank(Run(checks)[i]) < Rank(Run(checks)[j])
  {
    if |checks| > 0 {
      NextRankHigherOrders(checks);
      var rest := checks[1..];
      assert NextRankHigher(rest) by {
        assert forall i :: 0 <= i < |rest| ==> rest[i] == checks[i + 1];
      }
      RunKeepsOrder(rest);
      if !checks[0].ok {
        var r := Run(checks);
        assert r == [checks[0].rule] + Run(rest);
        forall j | 1 <= j < |r|
          ensures Rank(r[0]) < Rank(r[j])
        {
          assert r[j] in Run(rest);
          RunMembers(rest, r[j]);
          var k :| 0 <= k < |rest| && !rest[k].ok && rest[k].rule == r[j];
          assert rest[k] == checks[k + 1];
        }
      }
    }
  }

  /** On checks in declaration order, every reported rule ranks between the first
      check's rule and the last one's, so no rule of another rule set is reported. */
  lemma RunRanksWithin(checks: seq<Check>)
    requires NextRankHigher(checks) && |checks| > 0
    ensures forall x :: x in Run(checks) ==>
      Rank(checks[0].rule) <= Rank(x) <= Rank(checks[|checks| - 1].rule)
  {
    NextRankHigherOrders(checks);
    forall x | x in Run(checks)
      ensures Rank(checks[0].rule) <= Rank(x) <= Rank(checks[|checks| - 1].rule)
    {
      RunMembers(checks, x);
      var i :| 0 <= i < |checks| && !checks[i].ok && checks[i].rule == x;
      assert i == 0 || Rank(checks[0].rule) < Rank(checks[i].rule);
      assert i == |checks| - 1 || Rank(checks[i].rule) < Rank(checks[|checks| - 1].rule);
    }
  }

  /** No rule appears in two checks of the list. */
  predicate DistinctRules(checks: seq<Check>) {
    forall i, j :: 0 <= i < j < |checks| ==> checks[i].rule != checks[j].rule
  }

  /** With the checks in declaration order, and so with distinct rules, a rule
      is reported exactly when its own check failed. */
  lemma RunReports(checks: seq<Check>, i: nat)
    requires NextRankHigher(checks) && i < |checks|
    ensures checks[i].rule in Run(checks) <==> !checks[i].ok
  {
    NextRankHigherOrders(checks);
    RunMembers(checks, checks[i].rule);
    if !checks[i].ok {
      assert exists k :: 0 <= k < |checks| && !checks[k].ok && checks[k].rule == checks[i].rule;
    }
  }

  /** `NotEmpty` on a string: not null, not empty, not only white space. */
  predicate NotEmptyText(s: string) {
    !IsNullOrWhiteSpace(Some(s))
  }

  /** `NotEmpty` on a `DateTime`: not `default(DateTime)`, 0001-01-01. */
  predicate NotEmptyDate(d: Day) {
    d != 0
  }

  // ------------------------------------------------- LeaveRequestRequestValidator

  datatype LeaveRequestRequest = LeaveRequestRequest(
    employeeId: int, startDate: Day, endDate: Day, leaveType: LeaveType, comments: Option<string>)

  /** `Length(lo, hi)` on the UTF-16 length. */
  predicate LengthWithin(s: string, lo: nat, hi: nat) {
    lo <= Utf16Length(s) <= hi
  }

  /** `MaximumLength(n)` on the UTF-16 length; a null value passes. */
  predicate AtMost(s: Option<string>, n: nat) {
    s.None? || LengthWithin(s.value, 0, n)
  }

  /** The checks of `LeaveRequestRequestValidator`, in declaration order. */
  function LeaveRequestChecks(req: LeaveRequestRequest, today: Day, leaveTypes: set<LeaveType>)
    : (checks: seq<Check>)
    ensures |checks| == 7 && NextRankHigher(checks)
    ensures checks[0] == Check(req.employeeId > 0, EmployeeIdPositive)
    ensures checks[1] == Check(NotEmptyDate(req.startDate), StartRequired)
    ensures checks[2] == Check(req.startDate >= today, StartInPast)
    ensures checks[3] == Check(NotEmptyDate(req.endDate), EndRequired)
    ensures checks[4] == Check(req.endDate >= req.startDate, EndBeforeStart)
    ensures checks[5] == Check(req.leaveType in leaveTypes, InvalidLeaveType)
    ensures checks[6] == Check(AtMost(req.comments, 500), CommentsTooLong)
  {
    var checks := [Check(req.employeeId > 0, EmployeeIdPositive),
      Check(NotEmptyDate(req.startDate), StartRequired),
      Check(req.startDate >= today, StartInPast),
      Check(NotEmptyDate(req.endDate), EndRequired),
      Check(req.endDate >= req.startDate, EndBeforeStart),
      Check(req.leaveType in leaveTypes, InvalidLeaveType),
      Check(AtMost(req.comments, 500), CommentsTooLong)];
    SevenInOrder(checks);
    checks
  }

  function ValidateLeaveRequest(req: LeaveRequestRequest, today: Day, leaveTypes: set<LeaveType>)
    : (r: seq<Rule>)
    ensures EmployeeIdPositive in r <==> req.employeeId <= 0
    ensures StartRequired in r <==> !NotEmptyDate(req.startDate)
    ensures StartInPast in r <==> req.startDate < today
    ensures EndRequired in r <==> !NotEmptyDate(req.endDate)
    ensures EndBeforeStart in r <==> req.endDate < req.startDate
    ensures InvalidLeaveType in r <==> req.leaveType !in leaveTypes
    ensures CommentsTooLong in r <==> !AtMost(req.comments, 500)
    ensures forall x :: x in r ==> Rank(x) <= Rank(CommentsTooLong)
    ensures forall i, j :: 0 <= i < j < |r| ==> Rank(r[i]) < Rank(r[j])
    ensures r == [] <==> (req.employeeId > 0 && NotEmptyDate(req.startDate) && req.startDate >= today
      && NotEmptyDate(req.endDate) && req.endDate >= req.startDate
      && req.leaveType in leaveTypes && AtMost(req.comments, 500))
  {
    var checks := LeaveRequestChecks(req, today, leaveTypes);
    RunKeepsOrder(checks);
    RunRanksWithin(checks);
    RunEmpty(checks);
    RunReports(checks, 0); RunReports(checks, 1); RunReports(checks, 2); RunReports(checks, 3);
    RunReports(checks, 4); RunReports(checks, 5); RunReports(checks, 6);
    Run(checks)
  }

  /** A single-day leave, starting today, with no comments, passes. */
  lemma SameDayLeaveValid(req: LeaveRequestRequest, today: Day, leaveTypes: set<LeaveType>)
    requires req.employeeId > 0 && req.startDate == today == req.endDate && today != 0
    requires req.leaveType in leaveTypes && req.comments.None?
    ensures ValidateLeaveRequest(req, today, leaveTypes) == []
  {
  }

  // ------------------------------------------------- EmployeeRequestValidator

  /** `employeeType` is `None` for a number outside the enum. */
  datatype EmployeeRequest = EmployeeRequest(
    employeeNumber: string, fullName: string, email: string, cellphoneNumber: Option<string>,
    employeeType: Option<EmployeeType>, managerId: Option<int>)

  /** The checks of `EmployeeRequestValidator`, in declaration order. */
  function EmployeeChecks(req: EmployeeRequest, isEmail: string -> bool): (checks: seq<Check>)
    ensures |checks| == 7 && NextRankHigher(checks)
    ensures checks[0] == Check(NotEmptyText(req.employeeNumber), NumberRequired)
    ensures checks[1] == Check(LengthWithin(req.employeeNumber, 4, 10), NumberLength)
    ensures checks[2] == Check(NotEmptyText(req.fullName), NameRequired)
    ensures checks[3] == Check(AtMost(Some(req.fullName), 100), NameTooLong)
    ensures checks[4] == Check(NotEmptyText(req.email), EmailRequired)
    ensures checks[5] == Check(isEmail(req.email), EmailFormat)
    ensures checks[6] == Check(req.employeeType.Some?, InvalidEmployeeType)
  {
    var checks := [Check(NotEmptyText(req.employeeNumber), NumberRequired),
      Check(LengthWithin(req.employeeNumber, 4, 10), NumberLength),
      Check(NotEmptyText(req.fullName), NameRequired),
      Check(AtMost(Some(req.fullName), 100), NameTooLong),
      Check(NotEmptyText(req.email), EmailRequired),
      Check(isEmail(req.email), EmailFormat),
      Check(req.employeeType.Some?, InvalidEmployeeType)];
    SevenInOrder(checks);
    checks
  }

  function ValidateEmployee(req: EmployeeRequest, isEmail: string -> bool): (r: seq<Rule>)
    ensures NumberRequired in r <==> !NotEmptyText(req.employeeNumber)
    ensures NumberLength in r <==> !LengthWithin(req.employeeNumber, 4, 10)
    ensures NameRequired in r <==> !NotEmptyText(req.fullName)
    ensures NameTooLong in r <==> !AtMost(Some(req.fullName), 100)
    ensures EmailRequired in r <==> !NotEmptyText(req.email)
    ensures EmailFormat in r <==> !isEmail(req.email)
    ensures InvalidEmployeeType in r <==> req.employeeType.None?
    ensures forall x :: x in r ==> Rank(NumberRequired) <= Rank(x) <= Rank(InvalidEmployeeType)
    ensures forall i, j :: 0 <= i < j < |r| ==> Rank(r[i]) < Rank(r[j])
    ensures r == [] <==> (NotEmptyText(req.employeeNumber) && LengthWithin(req.employeeNumber, 4, 10)
      && NotEmptyText(req.fullName) && AtMost(Some(req.fullName), 100)
      && NotEmptyText(req.email) && isEmail(req.email) && req.employeeType.Some?)
  {
    var checks := EmployeeChecks(req, isEmail);
    RunKeepsOrder(checks);
    RunRanksWithin(checks);
    RunEmpty(checks);
    RunReports(checks, 0); RunReports(checks, 1); RunReports(checks, 2); RunReports(checks, 3);
    RunReports(checks, 4); RunReports(checks, 5); RunReports(checks, 6);
    Run(checks)
  }

  /** An empty employee number fails both of its checks; four spaces fail only
      the first. */
  lemma EmployeeNumberChecks(req: EmployeeRequest, isEmail: string -> bool)
    ensures req.employeeNumber == "" ==>
      NumberRequired in ValidateEmployee(req, isEmail) && NumberLength in ValidateEmployee(req, isEmail)
    ensures req.employeeNumber == "    " ==>
      NumberRequired in ValidateEmployee(req, isEmail) && NumberLength !in ValidateEmployee(req, isEmail)
  {
    if req.employeeNumber == "    " {
      FourSpacesBlank(req.employeeNumber);
    }
  }

  lemma FourSpacesBlank(s: string)
    requires s == "    "
    ensures !NotEmptyText(s) && Utf16Length(s) == 4
  {
    assert forall i :: 0 <= i < |s| ==> s[i] == ' ';
    Utf16LengthBmp(s);
  }

  /** Lengths are UTF-16 lengths: a name of 51 characters outside the Basic
      Multilingual Plane is too long although it has fewer than 100 characters,
      and an employee number of six such characters is outside 4..10. */
  lemma WideCharactersCountTwice(req: EmployeeRequest, isEmail: string -> bool)
    ensures |req.fullName| == 51 && (forall i :: 0 <= i < |req.fullName| ==> req.fullName[i] >= '\U{10000}')
      ==> NameTooLong in ValidateEmployee(req, isEmail)
    ensures |req.employeeNumber| == 6
      && (forall i :: 0 <= i < |req.employeeNumber| ==> req.employeeNumber[i] >= '\U{10000}')
      ==> NumberLength in ValidateEmployee(req, isEmail)
  {
    Utf16LengthWide(req.fullName);
    Utf16LengthWide(req.employeeNumber);
  }

  // ------------------------------------------------- CancelLeaveRequestCommandValidator

  function ValidateCancel(leaveRequestId: int, employeeId: int): (r: seq<Rule>)
    ensures LeaveRequestIdPositive in r <==> leaveRequestId <= 0
    ensures EmployeeIdPositive in r <==> employeeId <= 0
    ensures |r| == (if leaveRequestId <= 0 then 1 else 0) + (if employeeId <= 0 then 1 else 0)
    ensures r == [] <==> leaveRequestId > 0 && employeeId > 0
    ensures leaveRequestId <= 0 && employeeId <= 0 ==> r == [LeaveRequestIdPositive, EmployeeIdPositive]
  {
    var checks := [Check(leaveRequestId > 0, LeaveRequestIdPositive), Check(employeeId > 0, EmployeeIdPositive)];
    assert checks[1..] == [checks[1]];
    assert checks[1..][1..] == [];
    assert Run(checks[1..]) == if employeeId > 0 then [] else [EmployeeIdPositive];
    Run(checks)
  }
}
