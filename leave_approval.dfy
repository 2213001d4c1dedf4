/** The leave-approval page: a list of leave requests, a status filter that
    starts on "Pending", and the approve/reject update of one request by id. */
module LeaveApproval {
  import opened Optional
  import opened Seqs
  import opened Clock

  datatype LeaveStatus = Pending | Approved | Rejected

  function StatusLabel(s: LeaveStatus): string {
    match s
    case Pending => "Pending"
    case Approved => "Approved"
    case Rejected => "Rejected"
  }

  /** The three status labels are distinct, so the filter separates statuses. */
  lemma StatusLabelInjective(a: LeaveStatus, b: LeaveStatus)
    requires StatusLabel(a) == StatusLabel(b)
    ensures a == b
  {
  }

  /** A leave request; the approval and rejection stamps are optional fields. */
  datatype LeaveRequest = LeaveRequest(
    id: string,
    employeeId: string,
    employeeName: string,
    leaveType: string,
    startDate: Day,
    endDate: Day,
    reason: string,
    status: LeaveStatus,
    requestedDate: Day,
    approvedBy: Option<string>,
    approvedDate: Option<Day>,
    rejectedBy: Option<string>,
    rejectedDate: Option<Day>,
    rejectionReason: Option<string>)

  const Approver := "Admin"
  const SimulatedReason := "N/A (simulation)"

  /** One request after a decision: the new status; approving stamps the
      approver and date, rejecting stamps the rejecter, date and reason; every
      other field is carried over. */
  function Decide(q: LeaveRequest, newStatus: LeaveStatus, today: Day): (q': LeaveRequest)
    requires newStatus != Pending
    ensures q'.status == newStatus
    ensures (q.id, q.employeeId, q.employeeName, q.leaveType) == (q'.id, q'.employeeId, q'.employeeName, q'.leaveType)
    ensures (q.startDate, q.endDate, q.reason, q.requestedDate) == (q'.startDate, q'.endDate, q'.reason, q'.requestedDate)
    ensures newStatus == Approved ==>
      && q'.approvedBy == Some(Approver) && q'.approvedDate == Some(today)
      && (q'.rejectedBy, q'.rejectedDate, q'.rejectionReason) == (q.rejectedBy, q.rejectedDate, q.rejectionReason)
    ensures newStatus == Rejected ==>
      && q'.rejectedBy == Some(Approver) && q'.rejectedDate == Some(today)
      && q'.rejectionReason == Some(SimulatedReason)
      && (q'.approvedBy, q'.approvedDate) == (q.approvedBy, q.approvedDate)
  {
    if newStatus == Approved then
      q.(status := newStatus, approvedBy := Some(Approver), approvedDate := Some(today))
    else
      q.(status := newStatus, rejectedBy := Some(Approver), rejectedDate := Some(today),
         rejectionReason := Some(SimulatedReason))
  }

  /** The request list after handleUpdateRequestStatus(id, newStatus) on day
      `today`: each request with that id is decided, every other request is
      carried over, in the same order. */
  function UpdateStatus(requests: seq<LeaveRequest>, id: string, newStatus: LeaveStatus, today: Day)
    : (r: seq<LeaveRequest>)
    requires newStatus != Pending
    ensures |r| == |requests|
    ensures forall i :: 0 <= i < |requests| && requests[i].id != id ==> r[i] == requests[i]
    ensures forall i :: 0 <= i < |requests| && requests[i].id == id ==> r[i] == Decide(requests[i], newStatus, today)
  {
    if requests == [] then []
    else
      var q := requests[0];
      var q' := if q.id != id then q else Decide(q, newStatus, today);
      var rest := UpdateStatus(requests[1..], id, newStatus, today);
      assert forall i :: 1 <= i < |requests| ==> ([q'] + rest)[i] == rest[i - 1] && requests[i] == requests[1..][i - 1];
      [q'] + rest
  }

  /** Applying the same decision twice on the same day is the same as once. */
  lemma {:induction false} UpdateStatusIdempotent(requests: seq<LeaveRequest>, id: string, newStatus: LeaveStatus, today: Day)
    requires newStatus != Pending
    ensures UpdateStatus(UpdateStatus(requests, id, newStatus, today), id, newStatus, today)
         == UpdateStatus(requests, id, newStatus, today)
  {
    if requests != [] {
      UpdateStatusIdempotent(requests[1..], id, newStatus, today);
    }
  }

  /** An id that no request has leaves the list unchanged. */
  lemma UpdateStatusUnknownId(requests: seq<LeaveRequest>, id: string, newStatus: LeaveStatus, today: Day)
    requires newStatus != Pending
    requires forall i :: 0 <= i < |requests| ==> requests[i].id != id
    ensures UpdateStatus(requests, id, newStatus, today) == requests
  {
  }

  // ---------------------------------------------------------------------------
  // What the page offers
  // ---------------------------------------------------------------------------

  /** The Approve and Reject buttons are rendered for a pending request only;
      a decided one shows "Processed" instead. */
  predicate ActionsOffered(q: LeaveRequest) {
    q.status == Pending
  }

  predicate ShowsProcessed(q: LeaveRequest) {
    q.status == Approved || q.status == Rejected
  }

  /** Every request shows exactly one of the two. */
  lemma ActionsOrProcessed(q: LeaveRequest)
    ensures ActionsOffered(q) != ShowsProcessed(q)
  {
  }

  predicate UniqueIds(requests: seq<LeaveRequest>) {
    forall i, j :: 0 <= i < j < |requests| ==> requests[i].id != requests[j].id
  }

  /** A click on a row's button: `decision` on the request `id`. */
  datatype Click = Click(id: string, decision: LeaveStatus, today: Day)

  predicate IsDecision(c: Click) {
    c.decision != Pending
  }

  /** One click through the page: it has an effect only when some request with
      that id is pending (otherwise there is no button to click). */
  function UiStep(requests: seq<LeaveRequest>, c: Click): (r: seq<LeaveRequest>)
    requires IsDecision(c)
    ensures |r| == |requests|
    ensures forall i :: 0 <= i < |requests| ==> r[i].id == requests[i].id
    ensures forall i :: 0 <= i < |requests| && requests[i].id != c.id ==> r[i] == requests[i]
    ensures (forall i :: 0 <= i < |requests| && requests[i].id == c.id ==> !ActionsOffered(requests[i])) ==> r == requests
    ensures forall i :: 0 <= i < |requests| && requests[i].id == c.id && ActionsOffered(requests[i]) ==> r[i].status == c.decision
  {
    if exists i :: 0 <= i < |requests| && requests[i].id == c.id && ActionsOffered(requests[i])
    then UpdateStatus(requests, c.id, c.decision, c.today)
    else requests
  }

  /** A sequence of clicks through the page: ids never change, and a request
      whose id no click names is left as it was. */
  function RunUi(requests: seq<LeaveRequest>, clicks: seq<Click>): (r: seq<LeaveRequest>)
    requires forall k :: 0 <= k < |clicks| ==> IsDecision(clicks[k])
    ensures |r| == |requests|
    ensures forall i :: 0 <= i < |requests| ==> r[i].id == requests[i].id
    ensures forall i :: 0 <= i < |requests| && (forall k :: 0 <= k < |clicks| ==> clicks[k].id != requests[i].id) ==>
      r[i] == requests[i]
    decreases |clicks|
  {
    if clicks == [] then requests
    else
      var next := UiStep(requests, clicks[0]);
      assert forall k :: 1 <= k < |clicks| ==> clicks[1..][k - 1] == clicks[k];
      RunUi(next, clicks[1..])
  }

  /** With distinct ids, a decided request is never touched again by clicks:
      through the page a request leaves Pending at most once. */
  lemma {:induction false} DecidedIsFinal(requests: seq<LeaveRequest>, clicks: seq<Click>, i: int)
    requires UniqueIds(requests)
    requires forall k :: 0 <= k < |clicks| ==> IsDecision(clicks[k])
    requires 0 <= i < |requests| && requests[i].status != Pending
    ensures RunUi(requests, clicks)[i] == requests[i]
    decreases |clicks|
  {
    if clicks != [] {
      var next := UiStep(requests, clicks[0]);
      if requests[i].id == clicks[0].id {
        // The only request with this id is not pending: no button, no change.
        assert next == requests;
      }
      assert next[i] == requests[i];
      assert UniqueIds(next) by {
        forall a, b | 0 <= a < b < |next| ensures next[a].id != next[b].id {
          assert next[a].id == requests[a].id && next[b].id == requests[b].id;
        }
      }
      DecidedIsFinal(next, clicks[1..], i);
    }
  }

  /** With distinct ids, a click can only move a request out of Pending. */
  lemma UiStepOnlyLeavesPending(requests: seq<LeaveRequest>, c: Click, i: int)
    requires UniqueIds(requests)
    requires IsDecision(c) && 0 <= i < |requests|
    ensures UiStep(requests, c)[i].status == requests[i].status || requests[i].status == Pending
  {
    if requests[i].id == c.id && requests[i].status != Pending {
      assert forall k :: 0 <= k < |requests| && requests[k].id == c.id ==> k == i;
      assert UiStep(requests, c) == requests;
    }
  }

  // ---------------------------------------------------------------------------
  // The filtered view
  // ---------------------------------------------------------------------------

  /** filteredRequests: all requests for the empty filter, otherwise those whose
      status label equals it, in order. */
  function FilterByStatus(requests: seq<LeaveRequest>, filterStatus: string): (r: seq<LeaveRequest>)
    ensures forall q :: q in r <==> q in requests && (filterStatus == "" || StatusLabel(q.status) == filterStatus)
  {
    Filter(requests, (q: LeaveRequest) => filterStatus == "" || StatusLabel(q.status) == filterStatus)
  }

  lemma EmptyFilterKeepsAll(requests: seq<LeaveRequest>)
    ensures FilterByStatus(requests, "") == requests
  {
    FilterKeepsAll(requests, (q: LeaveRequest) => "" == "" || StatusLabel(q.status) == "");
  }

  /** Once a request is decided it drops out of the default "Pending" view. */
  lemma DecidedLeavesPendingView(requests: seq<LeaveRequest>, id: string, newStatus: LeaveStatus, today: Day)
    requires newStatus != Pending
    ensures forall q :: q in FilterByStatus(UpdateStatus(requests, id, newStatus, today), "Pending") ==> q.id != id
  {
    var r := UpdateStatus(requests, id, newStatus, today);
    forall q | q in FilterByStatus(r, "Pending") ensures q.id != id {
      var j :| 0 <= j < |r| && r[j] == q;
    }
  }

  // ---------------------------------------------------------------------------
  // The page's state
  // ---------------------------------------------------------------------------

  /** The LeaveApproval component's state. */
  class LeaveDesk {
    var leaveRequests: seq<LeaveRequest>
    var filterStatus: string

    /** Loads the request fixture; the filter defaults to "Pending". */
    constructor (initial: seq<LeaveRequest>)
      ensures leaveRequests == initial && filterStatus == "Pending"
    {
      leaveRequests := initial;
      filterStatus := "Pending";
    }

    /** handleUpdateRequestStatus, with the current day passed in. */
    method UpdateRequestStatus(id: string, newStatus: LeaveStatus, today: Day)
      requires newStatus != Pending
      modifies this`leaveRequests
      ensures leaveRequests == UpdateStatus(old(leaveRequests), id, newStatus, today)
    {
      leaveRequests := UpdateStatus(leaveRequests, id, newStatus, today);
    }

    method SetFilterStatus(status: string)
      modifies this`filterStatus
      ensures filterStatus == status
    {
      filterStatus := status;
    }

    /** The rows the table shows. */
    function FilteredRequests(): (r: seq<LeaveRequest>)
      reads this
      ensures forall q :: q in r <==> q in leaveRequests && (filterStatus == "" || StatusLabel(q.status) == filterStatus)
    {
      FilterByStatus(leaveRequests, filterStatus)
    }
  }

  /** getStatusColor: yellow, green and red for the three statuses. */
  function StatusColor(s: LeaveStatus): (r: string)
    ensures s == Pending <==> r == "bg-yellow-100 text-yellow-800"
    ensures s == Approved <==> r == "bg-green-100 text-green-800"
    ensures s == Rejected <==> r == "bg-red-100 text-red-800"
  {
    match s
    case Pending => "bg-yellow-100 text-yellow-800"
    case Approved => "bg-green-100 text-green-800"
    case Rejected => "bg-red-100 text-red-800"
  }
}
