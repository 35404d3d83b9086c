/** The entities of the leave-management domain. Stores are keyed tables: the
    employees by `EmployeeId`, the leave requests by `LeaveRequestId`. Audit
    stamps, navigation properties and `ApprovedDate` (a clock reading) are not
    part of the records. */
module Domain {
  import opened Wrappers
  import opened Calendar

  datatype EmployeeType = CEO | Manager | TeamLead | Employee

  datatype EmployeeRecord = EmployeeRecord(
    employeeId: int,
    employeeNumber: string,
    fullName: string,
    email: string,
    cellphoneNumber: Option<string>,
    employeeType: EmployeeType,
    managerId: Option<int>)

  type Employees = map<int, EmployeeRecord>

  /** `EmployeeId` is the employees table's primary key: every record sits
      under its own id. */
  predicate EmployeesWellKeyed(employees: Employees) {
    forall k :: k in employees ==> employees[k].employeeId == k
  }

  /** `LeaveStatus`; its numeric values are not used by the handlers. */
  datatype LeaveStatus = Pending | Approved | Rejected | Cancelled

  /** The enum's `ToString`. */
  function StatusName(s: LeaveStatus): string {
    match s
    case Pending => "Pending"
    case Approved => "Approved"
    case Rejected => "Rejected"
    case Cancelled => "Cancelled"
  }

  /** The leave type is opaque: only its printed name is used. */
  datatype LeaveType = LeaveType(name: string)

  datatype LeaveRequest = LeaveRequest(
    leaveRequestId: int,
    employeeId: int,
    startDate: Day,
    endDate: Day,
    leaveType: LeaveType,
    comments: Option<string>,
    status: LeaveStatus,
    approvedById: Option<int>,
    approvalComments: Option<string>)

  type LeaveRequests = map<int, LeaveRequest>

  /** Every record sits under its own key. */
  predicate WellKeyed(store: LeaveRequests) {
    forall k :: k in store ==> store[k].leaveRequestId == k
  }
}
