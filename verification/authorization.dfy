/** `AuthorizationService`: who may approve or reject whose leave. The check
    looks at most two steps up the management chain. */
module Authorization {
  import opened Wrappers
  import opened Domain

  /** `GetByIdAsync` over a keyed table (employees here, leave requests in the
      command handlers). */
  function Lookup<T>(table: map<int, T>, id: int): (r: Option<T>)
    ensures r.Some? <==> id in table
    ensures r.Some? ==> r.value == table[id]
  {
    if id in table then Some(table[id]) else None
  }

  /** The id recorded `k` steps up the management chain from `id`: `id` itself
      for `k == 0`, then each step reads the `ManagerId` of an employee that
      exists. The final id need not belong to an existing employee. */
  function ManagerAt(store: Employees, id: int, k: nat): Option<int> {
    if k == 0 then Some(id)
    else match ManagerAt(store, id, k - 1)
      case None => None
      case Some(x) => if x in store then store[x].managerId else None
  }

  /** `CanUserApproveLeaveRequestAsync`, in the source's order of checks. In terms
      of the management chain: both parties exist, and the approver is a CEO, the
      direct manager, or a Manager-typed grand-manager. */
  function CanApprove(store: Employees, approverId: int, employeeId: int): (r: bool)
    ensures r <==>
      employeeId in store && approverId in store &&
      (store[approverId].employeeType == CEO
       || ManagerAt(store, employeeId, 1) == Some(approverId)
       || (store[approverId].employeeType == Manager && ManagerAt(store, employeeId, 2) == Some(approverId)))
  {
    assert ManagerAt(store, employeeId, 0) == Some(employeeId);
    match Lookup(store, employeeId)
    case None => false
    case Some(employee) =>
      match Lookup(store, approverId)
      case None => false
      case Some(approver) =>
        if approver.employeeType == CEO then true
        else if employee.managerId == Some(approverId) then true
        else if approver.employeeType == Manager && employee.managerId.Some? then
          match Lookup(store, employee.managerId.value)
          case None => false
          case Some(employeeManager) => employeeManager.managerId == Some(approverId)
        else false
  }

  /** A CEO may approve anyone who exists, themselves included. */
  lemma CeoApprovesAnyone(store: Employees, approverId: int, employeeId: int)
    requires approverId in store && store[approverId].employeeType == CEO
    ensures CanApprove(store, approverId, employeeId) <==> employeeId in store
  {
  }

  /** The direct manager may approve, whatever their type. */
  lemma DirectManagerApproves(store: Employees, approverId: int, employeeId: int)
    requires approverId in store && IsManagerOf(store, approverId, employeeId)
    ensures CanApprove(store, approverId, employeeId)
  {
  }

  /** A team lead or plain employee who is not the direct manager is refused,
      even when they are the manager's manager. */
  lemma OnlyManagersReachTwoUp(store: Employees, approverId: int, employeeId: int)
    requires approverId in store
    requires store[approverId].employeeType == TeamLead || store[approverId].employeeType == Employee
    requires ManagerAt(store, employeeId, 1) != Some(approverId)
    ensures !CanApprove(store, approverId, employeeId)
  {
  }

  /** Nobody who is neither a CEO, nor one step up, nor two steps up the chain is
      ever allowed: an ancestor three or more steps up is refused. */
  lemma NoThirdHop(store: Employees, approverId: int, employeeId: int)
    requires approverId in store && store[approverId].employeeType != CEO
    requires ManagerAt(store, employeeId, 1) != Some(approverId)
    requires ManagerAt(store, employeeId, 2) != Some(approverId)
    ensures !CanApprove(store, approverId, employeeId)
  {
  }

  /** `IsUserManagerOfEmployeeAsync`: a missing employee is nobody's report. */
  function IsManagerOf(store: Employees, managerId: int, employeeId: int): (r: bool)
    ensures r <==> ManagerAt(store, employeeId, 1) == Some(managerId)
  {
    match Lookup(store, employeeId)
    case None => false
    case Some(employee) => employee.managerId == Some(managerId)
  }

  /** The three-level chain of the test fixture: employee 3 reports to team lead
      2, who reports to 1. A Manager at the top may approve, a TeamLead may not. */
  lemma ChainExample(store: Employees, top: EmployeeRecord, lead: EmployeeRecord, staff: EmployeeRecord)
    requires store == map[1 := top, 2 := lead, 3 := staff]
    requires lead.managerId == Some(1) && staff.managerId == Some(2)
    ensures top.employeeType == Manager ==> CanApprove(store, 1, 3)
    ensures top.employeeType == TeamLead ==> !CanApprove(store, 1, 3)
    ensures CanApprove(store, 2, 3)
    ensures !CanApprove(store, 4, 3) && !CanApprove(store, 1, 4)
  {
  }
}
