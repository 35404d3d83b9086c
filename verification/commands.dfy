/** The four leave-request command handlers as transition functions over the
    leave-request store. A handler either fails with the message the source puts
    in its failure response, leaving the store as it was, or commits a new store
    together with the response's data and message. A request is looked up by
    key: on a well-keyed store that is what `GetLeaveRequestWithDetailsAsync`
    returns too (`Repository.FirstWithIdIsLookup`). */
module Commands {
  import opened Wrappers
  import opened Calendar
  import opened Text
  import opened DateText
  import opened Collections
  import opened Domain
  import opened Authorization
  import opened Repository

  /** A committed command: the store after the update, the response data and
      the response message. */
  datatype Done<T> = Done(store: LeaveRequests, data: T, message: string)

  /** The only moves the status machine allows: out of Pending, to a
      different status. */
  predicate AllowedTransition(from: LeaveStatus, to: LeaveStatus) {
    from == Pending && to != Pending
  }

  /** The store after replacing the record under `id`, everything else kept. */
  predicate UpdatedOnly(store: LeaveRequests, store': LeaveRequests, id: int) {
    id in store && store'.Keys == store.Keys
    && forall k :: k in store && k != id ==> store'[k] == store[k]
  }

  // ---------------------------------------------------------------- Cancel

  datatype CancelCommand = CancelCommand(leaveRequestId: int, employeeId: int)

  const NotFound: string := "Leave request not found"
  const NotOwner: string := "You can only cancel your own leave requests"
  const OnlyPendingCancelled: string := "Only pending requests can be cancelled"
  const CancelledByEmployee: string := "Cancelled by employee"

  function CancelNotPending(status: LeaveStatus): string {
    "Cannot cancel leave request. " + OnlyPendingCancelled + ". Current status: " + StatusName(status)
  }

  /** `CancelLeaveRequestCommandHandler.Handle`: only the owner may cancel, and
      only a pending request; ownership is checked first. */
  function Cancel(store: LeaveRequests, cmd: CancelCommand): (r: Result<Done<string>, string>)
    ensures cmd.leaveRequestId !in store ==> r == Failure(NotFound)
    ensures cmd.leaveRequestId in store && store[cmd.leaveRequestId].employeeId != cmd.employeeId
      ==> r == Failure(NotOwner)
    ensures cmd.leaveRequestId in store && store[cmd.leaveRequestId].employeeId == cmd.employeeId
      && store[cmd.leaveRequestId].status != Pending
      ==> (r.Failure? && Contains(r.error, OnlyPendingCancelled)
           && Contains(r.error, StatusName(store[cmd.leaveRequestId].status)))
    ensures r.Success? <==> (cmd.leaveRequestId in store
      && store[cmd.leaveRequestId].employeeId == cmd.employeeId && store[cmd.leaveRequestId].status == Pending)
    ensures r.Success? ==> UpdatedOnly(store, r.value.store, cmd.leaveRequestId)
    ensures r.Success? ==>
      var old_ := store[cmd.leaveRequestId];
      var new_ := r.value.store[cmd.leaveRequestId];
      new_.status == Cancelled && new_.approvalComments == Some(CancelledByEmployee)
      && new_.(status := old_.status, approvalComments := old_.approvalComments) == old_
      && AllowedTransition(old_.status, new_.status)
  {
    match Lookup(store, cmd.leaveRequestId)
    case None => Failure(NotFound)
    case Some(lr) =>
      if lr.employeeId != cmd.employeeId then Failure(NotOwner)
      else if lr.status != Pending then
        var head := "Cannot cancel leave request. ";
        var tail := ". Current status: " + StatusName(lr.status);
        InfixContained(head, OnlyPendingCancelled, tail);
        assert CancelNotPending(lr.status) == head + OnlyPendingCancelled + tail;
        SuffixContained(head + OnlyPendingCancelled + ". Current status: ", StatusName(lr.status));
        Failure(CancelNotPending(lr.status))
      else
        var updated := lr.(status := Cancelled, approvalComments := Some(CancelledByEmployee));
        Success(Done(store[cmd.leaveRequestId := updated], "Leave request cancelled successfully",
          "Your leave request from " + FormatDate(lr.startDate) + " to " + FormatDate(lr.endDate) + " has been cancelled"))
  }

  /** The refusal message identifies the status it found: two statuses give
      the same message only if they are the same status. */
  lemma {:induction false} CancelMessageNamesStatus(s: LeaveStatus, t: LeaveStatus)
    ensures CancelNotPending(s) == CancelNotPending(t) <==> s == t
  {
    var head := "Cannot cancel leave request. " + OnlyPendingCancelled + ". Current status: ";
    if CancelNotPending(s) == CancelNotPending(t) {
      assert CancelNotPending(s)[|head|..] == StatusName(s);
      assert CancelNotPending(t)[|head|..] == StatusName(t);
    }
  }

  /** A cancelled request cannot be cancelled again, and the second attempt
      reports the status it found. */
  lemma CancelTwice(store: LeaveRequests, cmd: CancelCommand)
    requires Cancel(store, cmd).Success?
    ensures var again := Cancel(Cancel(store, cmd).value.store, cmd);
      again.Failure? && Contains(again.error, OnlyPendingCancelled) && Contains(again.error, "Cancelled")
  {
  }

  // ---------------------------------------------------------------- Reject

  datatype RejectCommand = RejectCommand(leaveRequestId: int, rejectedById: int, rejectionComments: Option<string>)

  const OnlyPendingRejected: string := "Only pending leave requests can be rejected"
  const NoRejectAuthority: string := "You don't have authority to reject this leave request"
  const CommentsRequired: string := "Rejection comments are required"

  /** The employee's `FullName` through the request's navigation property; a
      missing employee interpolates as the empty string. */
  function EmployeeName(employees: Employees, employeeId: int): string {
    match Lookup(employees, employeeId)
    case None => ""
    case Some(e) => e.fullName
  }

  /** `RejectLeaveRequestCommandHandler.Handle`: found, then pending, then
      authorised, then non-blank comments, in that order. */
  function Reject(store: LeaveRequests, employees: Employees, cmd: RejectCommand): (r: Result<Done<string>, string>)
    ensures cmd.leaveRequestId !in store ==> r == Failure(NotFound)
    ensures cmd.leaveRequestId in store && store[cmd.leaveRequestId].status != Pending
      ==> r == Failure(OnlyPendingRejected)
    ensures cmd.leaveRequestId in store && store[cmd.leaveRequestId].status == Pending
      && !CanApprove(employees, cmd.rejectedById, store[cmd.leaveRequestId].employeeId)
      ==> r == Failure(NoRejectAuthority)
    ensures cmd.leaveRequestId in store && store[cmd.leaveRequestId].status == Pending
      && CanApprove(employees, cmd.rejectedById, store[cmd.leaveRequestId].employeeId)
      && IsNullOrWhiteSpace(cmd.rejectionComments)
      ==> r == Failure(CommentsRequired)
    ensures r.Success? <==> (cmd.leaveRequestId in store && store[cmd.leaveRequestId].status == Pending
      && CanApprove(employees, cmd.rejectedById, store[cmd.leaveRequestId].employeeId)
      && !IsNullOrWhiteSpace(cmd.rejectionComments))
    ensures r.Success? ==> UpdatedOnly(store, r.value.store, cmd.leaveRequestId)
    ensures r.Success? ==>
      var old_ := store[cmd.leaveRequestId];
      var new_ := r.value.store[cmd.leaveRequestId];
      new_.status == Rejected && new_.approvedById == Some(cmd.rejectedById)
      && new_.approvalComments == cmd.rejectionComments
      && new_.(status := old_.status, approvedById := old_.approvedById, approvalComments := old_.approvalComments) == old_
      && AllowedTransition(old_.status, new_.status)
  {
    match Lookup(store, cmd.leaveRequestId)
    case None => Failure(NotFound)
    case Some(lr) =>
      if lr.status != Pending then Failure(OnlyPendingRejected)
      else if !CanApprove(employees, cmd.rejectedById, lr.employeeId) then Failure(NoRejectAuthority)
      else if IsNullOrWhiteSpace(cmd.rejectionComments) then Failure(CommentsRequired)
      else
        var updated := lr.(status := Rejected, approvedById := Some(cmd.rejectedById),
                           approvalComments := cmd.rejectionComments);
        Success(Done(store[cmd.leaveRequestId := updated], "Leave request rejected successfully",
          "Leave request for " + EmployeeName(employees, lr.employeeId) + " from " + FormatDate(lr.startDate)
          + " to " + FormatDate(lr.endDate) + " has been rejected"))
  }

  // ---------------------------------------------------------------- Approve

  datatype ApproveRequest = ApproveRequest(leaveRequestId: int, status: LeaveStatus, approvalComments: Option<string>)

  const NotAuthorizedToApprove: string := "You are not authorized to approve this leave request"

  /** `ApproveLeaveRequestCommandHandler.Handle`: an authorised approver sets the
      requested status, whatever the current one is. */
  function Approve(store: LeaveRequests, employees: Employees, approverId: int, req: ApproveRequest)
    : (r: Result<Done<LeaveRequest>, string>)
    ensures req.leaveRequestId !in store ==> r == Failure(NotFound)
    ensures r.Success? <==> (req.leaveRequestId in store
      && CanApprove(employees, approverId, store[req.leaveRequestId].employeeId))
    ensures req.leaveRequestId in store && !r.Success? ==> r == Failure(NotAuthorizedToApprove)
    ensures r.Success? ==> UpdatedOnly(store, r.value.store, req.leaveRequestId)
    ensures r.Success? ==>
      var old_ := store[req.leaveRequestId];
      var new_ := r.value.store[req.leaveRequestId];
      new_.status == req.status && new_.approvedById == Some(approverId)
      && new_.approvalComments == req.approvalComments
      && new_.(status := old_.status, approvedById := old_.approvedById, approvalComments := old_.approvalComments) == old_
      && r.value.data == new_
  {
    match Lookup(store, req.leaveRequestId)
    case None => Failure(NotFound)
    case Some(lr) =>
      if !CanApprove(employees, approverId, lr.employeeId) then Failure(NotAuthorizedToApprove)
      else
        var updated := lr.(status := req.status, approvedById := Some(approverId),
                           approvalComments := req.approvalComments);
        Success(Done(store[req.leaveRequestId := updated], updated, "Leave request processed successfully"))
  }

  /** As written, an authorised approver can move a cancelled request to
      Approved, or any request back to Pending: the status machine is not
      enforced. */
  lemma ApproveOverwritesFinalStatus(store: LeaveRequests, employees: Employees, approverId: int, req: ApproveRequest)
    requires req.leaveRequestId in store && store[req.leaveRequestId].status == Cancelled
    requires CanApprove(employees, approverId, store[req.leaveRequestId].employeeId)
    requires req.status == Approved
    ensures Approve(store, employees, approverId, req).Success?
    ensures Approve(store, employees, approverId, req).value.store[req.leaveRequestId].status == Approved
    ensures !AllowedTransition(store[req.leaveRequestId].status, Approved)
  {
  }

  const OnlyPendingProcessed: string := "Only pending leave requests can be processed"

  /** The approval the status machine calls for: like `Approve`, but a request
      that is no longer pending, or a target status of Pending, is refused. */
  function ApprovePendingOnly(store: LeaveRequests, employees: Employees, approverId: int, req: ApproveRequest)
    : (r: Result<Done<LeaveRequest>, string>)
    ensures r.Success? ==> r == Approve(store, employees, approverId, req)
    ensures r.Success? <==> (Approve(store, employees, approverId, req).Success?
      && AllowedTransition(store[req.leaveRequestId].status, req.status))
    ensures r.Success? ==> AllowedTransition(store[req.leaveRequestId].status, r.value.store[req.leaveRequestId].status)
  {
    match Lookup(store, req.leaveRequestId)
    case None => Failure(NotFound)
    case Some(lr) =>
      if !AllowedTransition(lr.status, req.status) then Failure(OnlyPendingProcessed)
      else Approve(store, employees, approverId, req)
  }

  // ---------------------------------------------------------------- Create

  datatype LeaveRequestInput = LeaveRequestInput(
    employeeId: int, startDate: Day, endDate: Day, leaveType: LeaveType, comments: Option<string>)

  const OverlapPrefix: string := "Cannot create leave request."
  const OverlapIntro: string := OverlapPrefix + " You have the following overlapping pending requests: "

  /** One overlapping request as the message lists it: "start to end (type)". */
  function OverlapDetail(lr: LeaveRequest): string {
    FormatDate(lr.startDate) + " to " + FormatDate(lr.endDate) + " (" + lr.leaveType.name + ")"
  }

  function OverlapDetails(rs: seq<LeaveRequest>): (r: seq<string>)
    ensures |r| == |rs|
    ensures forall i :: 0 <= i < |rs| ==> r[i] == OverlapDetail(rs[i])
  {
    seq(|rs|, i requires 0 <= i < |rs| => OverlapDetail(rs[i]))
  }

  /** The record the mapper builds from the input, always Pending. */
  function NewRequest(req: LeaveRequestInput, id: int): LeaveRequest {
    LeaveRequest(id, req.employeeId, req.startDate, req.endDate, req.leaveType, req.comments, Pending, None, None)
  }

  /** `CreateLeaveRequestCommandHandler.Handle`: refuse while the employee has a
      pending request that overlaps the new range, listing those requests in
      the repository's order; otherwise add the request as Pending under the id
      the database assigns, `newId`. */
  function Create(store: LeaveRequests, req: LeaveRequestInput, newId: int): (r: Result<Done<LeaveRequest>, string>)
    requires newId !in store
    ensures r.Failure? <==> HasOverlapping(Rows(store), req.employeeId, req.startDate, req.endDate, None)
    ensures r.Failure? ==> r.error == OverlapMessage(Overlapping(Rows(store), req.employeeId, req.startDate, req.endDate, None))
    ensures r.Failure? ==> |r.error| >= |OverlapPrefix| && r.error[..|OverlapPrefix|] == OverlapPrefix
    ensures r.Failure? ==> forall x :: (x in Rows(store) && Overlaps(x, req.employeeId, req.startDate, req.endDate, None)
      ==> Contains(r.error, OverlapDetail(x)))
    ensures r.Success? ==> (r.value.store.Keys == store.Keys + {newId}
      && (forall k :: k in store ==> r.value.store[k] == store[k])
      && r.value.store[newId].status == Pending
      && r.value.store[newId] == NewRequest(req, newId)
      && r.value.data == r.value.store[newId]
      && r.value.message == "Leave request created successfully")
  {
    var overlapping := Overlapping(Rows(store), req.employeeId, req.startDate, req.endDate, None);
    if |overlapping| > 0 then
      Failure(OverlapMessage(overlapping))
    else
      var lr := NewRequest(req, newId);
      AddedUnder(store, newId, lr);
      Success(Done(store[newId := lr], lr, "Leave request created successfully"))
  }

  /** Adding a record under a fresh key adds that key and keeps every other record. */
  lemma AddedUnder(store: LeaveRequests, id: int, lr: LeaveRequest)
    requires id !in store
    ensures store[id := lr].Keys == store.Keys + {id}
    ensures forall k :: k in store ==> store[id := lr][k] == store[k]
    ensures store[id := lr][id] == lr
  {
  }

  /** Where the detail of `overlapping[i]` starts in the refusal message. */
  function DetailOffset(overlapping: seq<LeaveRequest>, i: nat): nat
    requires i <= |overlapping|
  {
    |OverlapIntro| + JoinOffset(", ", OverlapDetails(overlapping), i)
  }

  /** The refusal message: the fixed introduction, then the overlapping requests
      in list order, each detail followed by ", " except the last, and nothing
      after it. */
  function OverlapMessage(overlapping: seq<LeaveRequest>): (msg: string)
    ensures |msg| >= |OverlapPrefix| && msg[..|OverlapPrefix|] == OverlapPrefix
    ensures forall x :: x in overlapping ==> Contains(msg, OverlapDetail(x))
    ensures forall i :: 0 <= i < |overlapping| ==>
      OccursAt(msg, OverlapDetail(overlapping[i]), DetailOffset(overlapping, i))
    ensures forall i :: 0 <= i < |overlapping| - 1 ==>
      OccursAt(msg, ", ", DetailOffset(overlapping, i) + |OverlapDetail(overlapping[i])|)
    ensures forall i, j :: 0 <= i < j <= |overlapping| ==>
      DetailOffset(overlapping, i) + |OverlapDetail(overlapping[i])| + 2 <= DetailOffset(overlapping, j)
    ensures |overlapping| > 0 ==> |msg| + 2 == DetailOffset(overlapping, |overlapping|)
  {
    var msg := OverlapIntro + Join(", ", OverlapDetails(overlapping));
    OverlapMessageLists(overlapping, msg);
    OverlapDetailsPlaced(overlapping, msg);
    OverlapDetailsInOrder(overlapping, msg);
    msg
  }

  /** Each detail sits at its offset, followed by ", " unless it is the last. */
  lemma OverlapDetailsPlaced(overlapping: seq<LeaveRequest>, msg: string)
    requires msg == OverlapIntro + Join(", ", OverlapDetails(overlapping))
    ensures forall i :: 0 <= i < |overlapping| ==>
      OccursAt(msg, OverlapDetail(overlapping[i]), DetailOffset(overlapping, i))
    ensures forall i :: 0 <= i < |overlapping| - 1 ==>
      OccursAt(msg, ", ", DetailOffset(overlapping, i) + |OverlapDetail(overlapping[i])|)
  {
    forall i | 0 <= i < |overlapping|
      ensures OccursAt(msg, OverlapDetail(overlapping[i]), DetailOffset(overlapping, i))
      ensures i < |overlapping| - 1 ==>
        OccursAt(msg, ", ", DetailOffset(overlapping, i) + |OverlapDetail(overlapping[i])|)
    {
      OverlapDetailPlaced(overlapping, msg, i);
    }
  }

  lemma OverlapDetailPlaced(overlapping: seq<LeaveRequest>, msg: string, i: nat)
    requires msg == OverlapIntro + Join(", ", OverlapDetails(overlapping))
    requires i < |overlapping|
    ensures OccursAt(msg, OverlapDetail(overlapping[i]), DetailOffset(overlapping, i))
    ensures i < |overlapping| - 1 ==>
      OccursAt(msg, ", ", DetailOffset(overlapping, i) + |OverlapDetail(overlapping[i])|)
  {
    var details := OverlapDetails(overlapping);
    var joined := Join(", ", details);
    var k := JoinOffset(", ", details, i);
    assert details[i] == OverlapDetail(overlapping[i]);
    assert DetailOffset(overlapping, i) == |OverlapIntro| + k;
    JoinPlacesParts(", ", details, i);
    OccursAtShift(OverlapIntro, joined, details[i], k);
    if i < |overlapping| - 1 {
      OccursAtShift(OverlapIntro, joined, ", ", k + |details[i]|);
    }
  }

  /** The details come in list order, and the message ends with the last one. */
  lemma OverlapDetailsInOrder(overlapping: seq<LeaveRequest>, msg: string)
    requires msg == OverlapIntro + Join(", ", OverlapDetails(overlapping))
    ensures forall i, j :: 0 <= i < j <= |overlapping| ==>
      DetailOffset(overlapping, i) + |OverlapDetail(overlapping[i])| + 2 <= DetailOffset(overlapping, j)
    ensures |overlapping| > 0 ==> |msg| + 2 == DetailOffset(overlapping, |overlapping|)
  {
    var details := OverlapDetails(overlapping);
    forall i, j | 0 <= i < j <= |overlapping|
      ensures DetailOffset(overlapping, i) + |OverlapDetail(overlapping[i])| + 2 <= DetailOffset(overlapping, j)
    {
      JoinOffsetsIncrease(", ", details, i, j);
    }
    if |overlapping| > 0 {
      JoinLength(", ", details);
    }
  }

  lemma OverlapMessageLists(overlapping: seq<LeaveRequest>, msg: string)
    requires msg == OverlapIntro + Join(", ", OverlapDetails(overlapping))
    ensures |msg| >= |OverlapPrefix| && msg[..|OverlapPrefix|] == OverlapPrefix
    ensures forall x :: x in overlapping ==> Contains(msg, OverlapDetail(x))
  {
    var details := OverlapDetails(overlapping);
    IntroStartsWithPrefix();
    PrefixKept(OverlapIntro, Join(", ", details), |OverlapPrefix|);
    forall x | x in overlapping
      ensures Contains(msg, OverlapDetail(x))
    {
      var i :| 0 <= i < |overlapping| && overlapping[i] == x;
      JoinedPartContained(OverlapIntro, details, i);
    }
  }

  lemma IntroStartsWithPrefix()
    ensures |OverlapIntro| >= |OverlapPrefix| && OverlapIntro[..|OverlapPrefix|] == OverlapPrefix
  {
  }

  lemma PrefixKept(a: string, b: string, n: int)
    requires 0 <= n <= |a|
    ensures (a + b)[..n] == a[..n]
  {
  }

  /** Text placed in front of a joined list still contains each part. */
  lemma JoinedPartContained(intro: string, parts: seq<string>, i: int)
    requires 0 <= i < |parts|
    ensures Contains(intro + Join(", ", parts), parts[i])
  {
    var joined := Join(", ", parts);
    var t := parts[i];
    JoinContainsParts(", ", parts, i);
    ContainsIff(joined, t);
    var j :| OccursAt(joined, t, j);
    assert (intro + joined)[|intro| + j..|intro| + j + |t|] == joined[j..j + |t|];
    assert OccursAt(intro + joined, t, |intro| + j);
    ContainsIff(intro + joined, t);
  }

  /** Submitting the same non-empty range again is refused: the first request
      is now a pending overlap of the second. */
  lemma CreateTwiceRefused(store: LeaveRequests, req: LeaveRequestInput, id: int, id': int)
    requires id !in store && req.startDate <= req.endDate
    requires Create(store, req, id).Success?
    requires id' !in Create(store, req, id).value.store
    ensures Create(Create(store, req, id).value.store, req, id').Failure?
  {
    var store' := Create(store, req, id).value.store;
    var lr := store'[id];
    RowsMembers(store', lr);
    var i :| 0 <= i < |Rows(store')| && Rows(store')[i] == lr;
    assert Overlaps(Rows(store')[i], req.employeeId, req.startDate, req.endDate, None);
  }

  /** Every command keeps each record under its own key. */
  lemma CommandsKeepKeys(store: LeaveRequests, employees: Employees, cancel: CancelCommand, reject: RejectCommand,
                         approverId: int, approve: ApproveRequest, req: LeaveRequestInput, newId: int)
    requires WellKeyed(store) && newId !in store
    ensures Cancel(store, cancel).Success? ==> WellKeyed(Cancel(store, cancel).value.store)
    ensures Reject(store, employees, reject).Success? ==> WellKeyed(Reject(store, employees, reject).value.store)
    ensures Approve(store, employees, approverId, approve).Success?
      ==> WellKeyed(Approve(store, employees, approverId, approve).value.store)
    ensures Create(store, req, newId).Success? ==> WellKeyed(Create(store, req, newId).value.store)
  {
    CancelKeepsKeys(store, cancel);
    RejectKeepsKeys(store, employees, reject);
    ApproveKeepsKeys(store, employees, approverId, approve);
  }

  lemma CancelKeepsKeys(store: LeaveRequests, cmd: CancelCommand)
    requires WellKeyed(store)
    ensures Cancel(store, cmd).Success? ==> WellKeyed(Cancel(store, cmd).value.store)
  {
    if Cancel(store, cmd).Success? {
      UpdateKeepsKeys(store, Cancel(store, cmd).value.store, cmd.leaveRequestId);
    }
  }

  lemma RejectKeepsKeys(store: LeaveRequests, employees: Employees, cmd: RejectCommand)
    requires WellKeyed(store)
    ensures Reject(store, employees, cmd).Success? ==> WellKeyed(Reject(store, employees, cmd).value.store)
  {
    if Reject(store, employees, cmd).Success? {
      UpdateKeepsKeys(store, Reject(store, employees, cmd).value.store, cmd.leaveRequestId);
    }
  }

  lemma ApproveKeepsKeys(store: LeaveRequests, employees: Employees, approverId: int, req: ApproveRequest)
    requires WellKeyed(store)
    ensures Approve(store, employees, approverId, req).Success?
      ==> WellKeyed(Approve(store, employees, approverId, req).value.store)
  {
    if Approve(store, employees, approverId, req).Success? {
      UpdateKeepsKeys(store, Approve(store, employees, approverId, req).value.store, req.leaveRequestId);
    }
  }

  /** Replacing one record by one with the same id keeps the store well keyed. */
  lemma UpdateKeepsKeys(store: LeaveRequests, store': LeaveRequests, id: int)
    requires WellKeyed(store) && UpdatedOnly(store, store', id)
    requires store'[id].leaveRequestId == store[id].leaveRequestId
    ensures WellKeyed(store')
  {
  }
}
