/** `LeaveRequestRepositoryAsync`: the repository's queries as filters and stable
    sorts over the table's rows. `rows` is the leave-request table in the order
    the database yields it; `Collections.Rows` gives that order for a keyed
    store. */
module Repository {
  import opened Wrappers
  import opened Calendar
  import opened Sorting
  import opened Collections
  import opened Domain
  import opened Authorization

  function ByStart(r: LeaveRequest): int {
    r.startDate
  }

  /** `OrderByDescending(StartDate)` is the stable sort by the negated date. */
  function ByStartDescending(r: LeaveRequest): int {
    0 - r.startDate as int
  }

  predicate SortedDescending(rs: seq<LeaveRequest>) {
    forall i, j :: 0 <= i < j < |rs| ==> rs[i].startDate >= rs[j].startDate
  }

  /** `Where(f).OrderBy(key)`. */
  function Query(rows: seq<LeaveRequest>, f: LeaveRequest -> bool, key: LeaveRequest -> int): seq<LeaveRequest> {
    SortBy(Filter(rows, f), key)
  }

  /** A query lists, in key order, every row that passes its filter, each as
      often as the table holds it, and nothing else. */
  lemma QueryFacts(rows: seq<LeaveRequest>, f: LeaveRequest -> bool, key: LeaveRequest -> int)
    ensures SortedBy(Query(rows, f, key), key)
    ensures forall x :: multiset(Query(rows, f, key))[x] == if f(x) then multiset(rows)[x] else 0
    ensures forall x :: x in Query(rows, f, key) <==> x in rows && f(x)
  {
    SortByFacts(Filter(rows, f), key);
    forall x
      ensures multiset(Query(rows, f, key))[x] == if f(x) then multiset(rows)[x] else 0
    {
      FilterMultiset(rows, f, x);
    }
  }

  /** The `EmployeeId` of every employee whose recorded manager is `m`. */
  function DirectReports(employees: Employees, m: int): set<int> {
    set e | e in employees && employees[e].managerId == Some(m) :: employees[e].employeeId
  }

  /** `GetAllSubordinateIdsAsync`: the direct reports of `m` and their direct
      reports. The source builds a list that may repeat ids; it is only ever
      asked for membership, so a set stands for it. On a table keyed by
      `EmployeeId` these are exactly the employees one or two manager steps
      below `m`. */
  function Subordinates(employees: Employees, m: int): (r: set<int>)
    ensures forall x :: x in r ==> exists k :: k in employees && employees[k].employeeId == x
    ensures EmployeesWellKeyed(employees) ==> forall x :: x in r <==>
      ManagerAt(employees, x, 1) == Some(m) || ManagerAt(employees, x, 2) == Some(m)
  {
    assert EmployeesWellKeyed(employees) ==> forall x :: x in TwoLevels(employees, m) <==>
      ManagerAt(employees, x, 1) == Some(m) || ManagerAt(employees, x, 2) == Some(m) by {
      if EmployeesWellKeyed(employees) {
        SecondLevelReached(employees, m);
      }
    }
    TwoLevels(employees, m)
  }

  function TwoLevels(employees: Employees, m: int): set<int> {
    var direct := DirectReports(employees, m);
    direct + set d, e | d in direct && e in DirectReports(employees, d) :: e
  }

  lemma SecondLevelReached(employees: Employees, m: int)
    requires EmployeesWellKeyed(employees)
    ensures forall x :: x in TwoLevels(employees, m) <==>
      ManagerAt(employees, x, 1) == Some(m) || ManagerAt(employees, x, 2) == Some(m)
  {
    var direct := DirectReports(employees, m);
    assert forall x :: ManagerAt(employees, x, 0) == Some(x);
    forall x | ManagerAt(employees, x, 2) == Some(m)
      ensures x in TwoLevels(employees, m)
    {
      assert ManagerAt(employees, x, 1) == if x in employees then employees[x].managerId else None;
      var d := employees[x].managerId.value;
      assert d in direct && x in DirectReports(employees, d);
    }
  }

  /** A Manager may approve every subordinate the queries show them. */
  lemma ManagerApprovesSubordinates(employees: Employees, m: int, x: int)
    requires EmployeesWellKeyed(employees)
    requires m in employees && employees[m].employeeType == Manager
    requires x in Subordinates(employees, m)
    ensures CanApprove(employees, m, x)
  {
    assert ManagerAt(employees, x, 0) == Some(x);
  }

  /** A team lead is shown the pending requests of their reports' reports, but
      is not allowed to approve them. */
  lemma TeamLeadSeesMoreThanTheyMayApprove(employees: Employees, lead: int, x: int)
    requires EmployeesWellKeyed(employees)
    requires lead in employees && employees[lead].employeeType == TeamLead
    requires x in employees && employees[x].managerId.Some?
    requires employees[x].managerId.value in employees
    requires employees[x].managerId.value != lead
    requires employees[employees[x].managerId.value].managerId == Some(lead)
    ensures x in Subordinates(employees, lead)
    ensures !CanApprove(employees, lead, x)
  {
    assert ManagerAt(employees, x, 0) == Some(x);
  }

  /** `GetByEmployeeIdAsync`: that employee's requests, latest start first. */
  function ByEmployee(rows: seq<LeaveRequest>, employeeId: int): (r: seq<LeaveRequest>)
    ensures SortedDescending(r)
    ensures forall x :: x in r <==> x in rows && x.employeeId == employeeId
    ensures forall x :: multiset(r)[x] == if x.employeeId == employeeId then multiset(rows)[x] else 0
  {
    var f := (x: LeaveRequest) => x.employeeId == employeeId;
    QueryFacts(rows, f, ByStartDescending);
    Query(rows, f, ByStartDescending)
  }

  /** `GetPendingRequestsForManagerAsync`: the pending requests of the manager's
      two levels of subordinates, earliest start first. */
  function PendingForManager(rows: seq<LeaveRequest>, employees: Employees, managerId: int): (r: seq<LeaveRequest>)
    ensures SortedBy(r, ByStart)
    ensures forall x :: x in r <==>
      x in rows && x.status == Pending && x.employeeId in Subordinates(employees, managerId)
    ensures var subordinates := Subordinates(employees, managerId);
      forall x :: multiset(r)[x] == if x.status == Pending && x.employeeId in subordinates then multiset(rows)[x] else 0
  {
    var subordinates := Subordinates(employees, managerId);
    var f := (x: LeaveRequest) => x.employeeId in subordinates && x.status == Pending;
    QueryFacts(rows, f, ByStart);
    Query(rows, f, ByStart)
  }

  /** `GetPendingApprovalsAsync` delegates to the manager query. */
  function PendingApprovals(rows: seq<LeaveRequest>, employees: Employees, approverId: int): (r: seq<LeaveRequest>)
    ensures SortedBy(r, ByStart)
    ensures forall x :: x in r <==>
      x in rows && x.status == Pending && x.employeeId in Subordinates(employees, approverId)
    ensures var subordinates := Subordinates(employees, approverId);
      forall x :: multiset(r)[x] == if x.status == Pending && x.employeeId in subordinates then multiset(rows)[x] else 0
  {
    PendingForManager(rows, employees, approverId)
  }

  /** `GetLeaveRequestsForApprovalAsync`: the subordinates' requests in every
      status, latest start first. */
  function ForApproval(rows: seq<LeaveRequest>, employees: Employees, approverId: int): (r: seq<LeaveRequest>)
    ensures SortedDescending(r)
    ensures forall x :: x in r <==> x in rows && x.employeeId in Subordinates(employees, approverId)
    ensures var subordinates := Subordinates(employees, approverId);
      forall x :: multiset(r)[x] == if x.employeeId in subordinates then multiset(rows)[x] else 0
  {
    var subordinates := Subordinates(employees, approverId);
    var f := (x: LeaveRequest) => x.employeeId in subordinates;
    QueryFacts(rows, f, ByStartDescending);
    Query(rows, f, ByStartDescending)
  }

  /** `GetPendingRequestCountForManagerAsync` counts what the manager query lists. */
  function PendingCountForManager(rows: seq<LeaveRequest>, employees: Employees, managerId: int): (n: nat)
    ensures n == |PendingForManager(rows, employees, managerId)|
    ensures n <= |rows|
  {
    var subordinates := Subordinates(employees, managerId);
    var f := (x: LeaveRequest) => x.employeeId in subordinates && x.status == Pending;
    SortByFacts(Filter(rows, f), ByStart);
    |Filter(rows, f)|
  }

  /** `GetLeaveRequestsByDateRangeAsync`: requests lying wholly inside the range. */
  function ByDateRange(rows: seq<LeaveRequest>, s: Day, e: Day): (r: seq<LeaveRequest>)
    ensures SortedBy(r, ByStart)
    ensures forall x :: x in r <==> x in rows && s <= x.startDate && x.endDate <= e
    ensures forall x :: multiset(r)[x] == if s <= x.startDate && x.endDate <= e then multiset(rows)[x] else 0
  {
    var f := (x: LeaveRequest) => x.startDate >= s && x.endDate <= e;
    QueryFacts(rows, f, ByStart);
    Query(rows, f, ByStart)
  }

  /** `GetLeaveRequestsByStatusAsync`, latest start first. */
  function ByStatus(rows: seq<LeaveRequest>, status: LeaveStatus): (r: seq<LeaveRequest>)
    ensures SortedDescending(r)
    ensures forall x :: x in r <==> x in rows && x.status == status
    ensures forall x :: multiset(r)[x] == if x.status == status then multiset(rows)[x] else 0
  {
    var f := (x: LeaveRequest) => x.status == status;
    QueryFacts(rows, f, ByStartDescending);
    Query(rows, f, ByStartDescending)
  }

  /** The overlap test shared by the overlap queries: a pending request of the
      same employee whose dates meet the range. */
  predicate Overlaps(x: LeaveRequest, employeeId: int, s: Day, e: Day, exclude: Option<int>) {
    x.employeeId == employeeId && x.status == Pending && x.startDate <= e && x.endDate >= s
    && (exclude.Some? ==> x.leaveRequestId != exclude.value)
  }

  /** For two non-empty ranges the date test is "they share a day". */
  predicate Covers(x: LeaveRequest, d: int) {
    x.startDate <= d <= x.endDate
  }

  lemma OverlapSharesADay(x: LeaveRequest, s: Day, e: Day)
    requires x.startDate <= x.endDate && s <= e
    ensures (x.startDate <= e && x.endDate >= s) <==> exists d :: Covers(x, d) && s <= d <= e
  {
    if x.startDate <= e && x.endDate >= s {
      var d := if x.startDate < s then s else x.startDate;
      assert Covers(x, d) && s <= d <= e;
    }
  }

  /** `HasOverlappingPendingLeaveRequestsAsync`. */
  predicate HasOverlapping(rows: seq<LeaveRequest>, employeeId: int, s: Day, e: Day, exclude: Option<int>) {
    exists i :: 0 <= i < |rows| && Overlaps(rows[i], employeeId, s, e, exclude)
  }

  /** `HasPendingLeaveRequestsAsync` is the same test with nothing excluded. */
  predicate HasPending(rows: seq<LeaveRequest>, employeeId: int, s: Day, e: Day) {
    exists i :: 0 <= i < |rows|
      && rows[i].employeeId == employeeId && rows[i].status == Pending
      && rows[i].startDate <= e && rows[i].endDate >= s
  }

  lemma HasPendingIsUnexcludedOverlap(rows: seq<LeaveRequest>, employeeId: int, s: Day, e: Day)
    ensures HasPending(rows, employeeId, s, e) <==> HasOverlapping(rows, employeeId, s, e, None)
  {
  }

  /** `GetOverlappingLeaveRequestsAsync`: the overlapping requests, earliest start
      first; it is non-empty exactly when `HasOverlapping` holds. */
  function Overlapping(rows: seq<LeaveRequest>, employeeId: int, s: Day, e: Day, exclude: Option<int>): (r: seq<LeaveRequest>)
    ensures SortedBy(r, ByStart)
    ensures forall x :: x in r <==> x in rows && Overlaps(x, employeeId, s, e, exclude)
    ensures forall x :: multiset(r)[x] == if Overlaps(x, employeeId, s, e, exclude) then multiset(rows)[x] else 0
    ensures |r| > 0 <==> HasOverlapping(rows, employeeId, s, e, exclude)
  {
    var f := (x: LeaveRequest) => Overlaps(x, employeeId, s, e, exclude);
    QueryFacts(rows, f, ByStart);
    OverlapListed(rows, f, employeeId, s, e, exclude);
    Query(rows, f, ByStart)
  }

  lemma OverlapListed(rows: seq<LeaveRequest>, f: LeaveRequest -> bool, employeeId: int, s: Day, e: Day, exclude: Option<int>)
    requires forall x :: f(x) == Overlaps(x, employeeId, s, e, exclude)
    requires forall x :: x in Query(rows, f, ByStart) <==> x in rows && f(x)
    ensures |Query(rows, f, ByStart)| > 0 <==> HasOverlapping(rows, employeeId, s, e, exclude)
  {
    var r := Query(rows, f, ByStart);
    if HasOverlapping(rows, employeeId, s, e, exclude) {
      var i :| 0 <= i < |rows| && Overlaps(rows[i], employeeId, s, e, exclude);
      assert rows[i] in r;
    }
    if |r| > 0 {
      assert r[0] in rows;
    }
  }

  /** Excluding an id removes exactly the requests with that id. */
  lemma ExcludeRemovesOnlyThatId(rows: seq<LeaveRequest>, employeeId: int, s: Day, e: Day, id: int, x: LeaveRequest)
    ensures x in Overlapping(rows, employeeId, s, e, Some(id)) <==>
      x in Overlapping(rows, employeeId, s, e, None) && x.leaveRequestId != id
  {
  }

  /** `GetLeaveRequestWithDetailsAsync`: the first row with that id. */
  function FirstWithId(rows: seq<LeaveRequest>, id: int): (r: Option<LeaveRequest>)
    ensures r.Some? ==> r.value in rows && r.value.leaveRequestId == id
    ensures r.Some? ==>
      exists i :: 0 <= i < |rows| && rows[i] == r.value && forall j :: 0 <= j < i ==> rows[j].leaveRequestId != id
    ensures r.None? <==> forall i :: 0 <= i < |rows| ==> rows[i].leaveRequestId != id
  {
    if |rows| == 0 then None
    else if rows[0].leaveRequestId == id then Some(rows[0])
    else
      var rest := FirstWithId(rows[1..], id);
      assert forall i :: 1 <= i < |rows| ==> rows[i] == rows[1..][i - 1];
      rest
  }

  /** On a well-keyed store the first row with an id is the record under that key. */
  lemma FirstWithIdIsLookup(store: LeaveRequests, id: int)
    requires WellKeyed(store)
    ensures FirstWithId(Rows(store), id) == if id in store then Some(store[id]) else None
  {
    var rows := Rows(store);
    var r := FirstWithId(rows, id);
    if id in store {
      var ks := SortedKeys(store.Keys);
      var i :| 0 <= i < |ks| && ks[i] == id;
      assert rows[i].leaveRequestId == id;
      RowsMembers(store, r.value);
    } else if r.Some? {
      RowsMembers(store, r.value);
    }
  }
}
