/** The time-and-attendance page: it takes the shifts of one day and derives,
    for each, an attendance entry. The status is chosen by the shift's position
    in that day's list (`index % 5`), whether its employee is in the directory,
    and its department; no clock times are compared. */
module TimeAttendance {
  import opened Optional
  import opened Seqs
  import opened Clock
  import opened Roster

  datatype Status = OnTime | LateIn | EarlyOut | Absent | TimeOff | Unknown

  /** The status as the page writes it (and as the status filter compares it). */
  function StatusLabel(s: Status): string {
    match s
    case OnTime => "On Time"
    case LateIn => "Late In"
    case EarlyOut => "Early Out"
    case Absent => "Absent"
    case TimeOff => "Time Off"
    case Unknown => "Unknown"
  }

  lemma StatusLabelInjective(a: Status, b: Status)
    requires StatusLabel(a) == StatusLabel(b)
    ensures a == b
  {
  }

  /** A shift together with what was observed for it. */
  datatype AttendanceEntry = AttendanceEntry(
    shift: Shift,
    actualStartTime: Option<Time>,
    actualEndTime: Option<Time>,
    status: Status,
    notes: string)

  const LateNote := "Traffic delay reported by employee."
  const EarlyNote := "Left early due to personal reasons."
  const SickNote := "Called in sick."
  const VacationNote := "Approved vacation day."

  /** `employees.find(e => e.id === id)`: the first directory entry with that id. */
  function FindEmployee(employees: seq<Employee>, id: string): (r: Option<Employee>)
    ensures r.Some? <==> exists k :: 0 <= k < |employees| && employees[k].id == id
    ensures r.Some? ==> r.value.id == id && r.value in employees
    ensures r.Some? ==> forall k :: 0 <= k < |employees| && employees[k].id == id ==> r.value == employees[k] || r.value in employees[..k]
  {
    if employees == [] then None
    else if employees[0].id == id then Some(employees[0])
    else
      var r := FindEmployee(employees[1..], id);
      assert forall k :: 1 <= k < |employees| ==> employees[k] == employees[1..][k - 1];
      assert forall k :: 1 <= k <= |employees| ==> employees[..k] == [employees[0]] + employees[1..][..k - 1];
      r
  }

  /** The body of the `map` in generateMockAttendance for the shift at position
      `index`, `known` saying whether its employee is in the directory. */
  function DeriveEntry(shift: Shift, index: nat, known: bool): (r: AttendanceEntry)
    ensures r.shift == shift
    ensures r.status != Unknown
    ensures r.status == LateIn <==> known && index % 5 == 1
    ensures r.status == EarlyOut <==> known && index % 5 == 2
    ensures r.status == Absent <==> known && index % 5 == 3
    ensures r.status == TimeOff <==> known && index % 5 == 4 && shift.department == "HR"
    ensures r.status == OnTime ==>
      r.actualStartTime == Some(shift.startTime) && r.actualEndTime == Some(shift.endTime) && r.notes == ""
    ensures r.status == LateIn ==>
      && r.actualStartTime == Some(Time(shift.startTime.hour, shift.startTime.minute + 15))
      && r.actualEndTime == Some(shift.endTime)
    ensures r.status == EarlyOut ==>
      && r.actualStartTime == Some(shift.startTime)
      && r.actualEndTime == Some(Time(shift.endTime.hour - 1, shift.endTime.minute))
    ensures r.status in {Absent, TimeOff} <==> r.actualStartTime.None? && r.actualEndTime.None?
    ensures r.notes == "" <==> r.status == OnTime
  {
    if index % 5 == 1 && known then
      AttendanceEntry(shift, Some(Time(shift.startTime.hour, shift.startTime.minute + 15)), Some(shift.endTime), LateIn, LateNote)
    else if index % 5 == 2 && known then
      AttendanceEntry(shift, Some(shift.startTime), Some(Time(shift.endTime.hour - 1, shift.endTime.minute)), EarlyOut, EarlyNote)
    else if index % 5 == 3 && known then
      AttendanceEntry(shift, None, None, Absent, SickNote)
    else if index % 5 == 4 && known && shift.department == "HR" then
      AttendanceEntry(shift, None, None, TimeOff, VacationNote)
    else
      AttendanceEntry(shift, Some(shift.startTime), Some(shift.endTime), OnTime, "")
  }

  /** The status as a table over the position's residue modulo 5, the directory
      lookup and the department. */
  function StatusTable(index: nat, known: bool, department: string): Status {
    if !known then OnTime
    else
      match index % 5
      case 1 => LateIn
      case 2 => EarlyOut
      case 3 => Absent
      case 4 => if department == "HR" then TimeOff else OnTime
      case _ => OnTime
  }

  /** generateMockAttendance: one entry per shift, in the same order, each
      carrying its shift and the status the table gives for its position. */
  function GenerateMockAttendance(shifts: seq<Shift>, employees: seq<Employee>): (r: seq<AttendanceEntry>)
    ensures |r| == |shifts|
    ensures forall i :: 0 <= i < |shifts| ==>
      && r[i].shift == shifts[i]
      && r[i].status == StatusTable(i, FindEmployee(employees, shifts[i].employeeId).Some?, shifts[i].department)
  {
    seq(|shifts|, i requires 0 <= i < |shifts| =>
      DeriveEntry(shifts[i], i, FindEmployee(employees, shifts[i].employeeId).Some?))
  }

  /** A shift whose employee is not in the directory is always on time, with
      its scheduled times as actual times and no note. */
  lemma UnknownEmployeeOnTime(shifts: seq<Shift>, employees: seq<Employee>, i: int)
    requires 0 <= i < |shifts|
    requires forall e :: e in employees ==> e.id != shifts[i].employeeId
    ensures var r := GenerateMockAttendance(shifts, employees)[i];
      && r.status == OnTime
      && r.actualStartTime == Some(shifts[i].startTime)
      && r.actualEndTime == Some(shifts[i].endTime)
      && r.notes == ""
  {
  }

  /** The entry at a position of residue 1 or 2 whose employee is known: 15
      minutes added to the start minute (no carry into the hour), or one hour
      taken off the end hour (no borrow from the day). */
  lemma DeviationTimes(shifts: seq<Shift>, employees: seq<Employee>, i: int)
    requires 0 <= i < |shifts|
    requires exists e :: e in employees && e.id == shifts[i].employeeId
    ensures var r := GenerateMockAttendance(shifts, employees)[i];
      var s := shifts[i];
      && (i % 5 == 1 ==>
            r.status == LateIn
            && r.actualStartTime == Some(Time(s.startTime.hour, s.startTime.minute + 15))
            && r.actualEndTime == Some(s.endTime)
            && r.notes == LateNote)
      && (i % 5 == 2 ==>
            r.status == EarlyOut
            && r.actualStartTime == Some(s.startTime)
            && r.actualEndTime == Some(Time(s.endTime.hour - 1, s.endTime.minute))
            && r.notes == EarlyNote)
  {
    var e :| e in employees && e.id == shifts[i].employeeId;
    var k :| 0 <= k < |employees| && employees[k] == e;
    assert FindEmployee(employees, shifts[i].employeeId).Some?;
    assert GenerateMockAttendance(shifts, employees)[i] == DeriveEntry(shifts[i], i, true);
  }

  // ---------------------------------------------------------------------------
  // The page's views
  // ---------------------------------------------------------------------------

  /** The shifts of one date, in list order (the filter before generation). */
  function ShiftsOn(allShifts: seq<Shift>, filterDate: Day): (r: seq<Shift>)
    ensures forall s :: s in r <==> s in allShifts && s.date == filterDate
  {
    Filter(allShifts, (s: Shift) => s.date == filterDate)
  }

  /** The entries shown for a date: one per shift of that date, in order, whose
      status is taken from its position in that date's list (not in the whole
      shift list). */
  function DailyAttendance(allShifts: seq<Shift>, employees: seq<Employee>, filterDate: Day): (r: seq<AttendanceEntry>)
    ensures forall e :: e in r ==> e.shift.date == filterDate && e.shift in allShifts
    ensures forall s :: s in allShifts && s.date == filterDate ==> exists e :: e in r && e.shift == s
    ensures |r| == |ShiftsOn(allShifts, filterDate)|
    ensures forall i :: 0 <= i < |r| ==>
      && r[i].shift == ShiftsOn(allShifts, filterDate)[i]
      && r[i].status == StatusTable(i, FindEmployee(employees, r[i].shift.employeeId).Some?, r[i].shift.department)
  {
    var todays := ShiftsOn(allShifts, filterDate);
    var r := GenerateMockAttendance(todays, employees);
    assert forall i :: 0 <= i < |r| ==> r[i].shift in todays;
    assert forall s :: s in todays ==> exists i :: 0 <= i < |todays| && todays[i] == s && r[i].shift == s;
    r
  }

  /** The status filter: all entries for the empty filter, otherwise those whose
      status label equals it, in order. */
  function FilterByStatus(records: seq<AttendanceEntry>, statusFilter: string): (r: seq<AttendanceEntry>)
    ensures forall e :: e in r <==> e in records && (statusFilter == "" || StatusLabel(e.status) == statusFilter)
  {
    Filter(records, (e: AttendanceEntry) => statusFilter == "" || StatusLabel(e.status) == statusFilter)
  }

  lemma EmptyStatusFilterKeepsAll(records: seq<AttendanceEntry>)
    ensures FilterByStatus(records, "") == records
  {
    FilterKeepsAll(records, (e: AttendanceEntry) => "" == "" || StatusLabel(e.status) == "");
  }

  /** The "Actual Times" column: both times when both are present, else N/A. */
  function ActualTimesText(e: AttendanceEntry): (r: string)
    ensures r == "N/A" <==> e.actualStartTime.None? || e.actualEndTime.None?
    ensures e.actualStartTime.Some? && e.actualEndTime.Some? ==>
      r == Format(e.actualStartTime.value) + " - " + Format(e.actualEndTime.value)
  {
    if e.actualStartTime.Some? && e.actualEndTime.Some? then
      Format(e.actualStartTime.value) + " - " + Format(e.actualEndTime.value)
    else "N/A"
  }

  /** A generated entry shows N/A exactly when it is an absence or time off. */
  lemma NotApplicableIffNoShow(shifts: seq<Shift>, employees: seq<Employee>, i: int)
    requires 0 <= i < |shifts|
    ensures var r := GenerateMockAttendance(shifts, employees)[i];
      ActualTimesText(r) == "N/A" <==> r.status == Absent || r.status == TimeOff
  {
  }

  /** The late start is not carried into the hour: for a shift starting at
      minute 45 or later, the "Late In" start shown on the page reads back with
      a minute field of 60 or more (09:50 is shown as 09:65). */
  lemma LateStartNotCarried(s: Shift)
    requires 0 <= s.startTime.hour && 45 <= s.startTime.minute
    ensures var e := DeriveEntry(s, 1, true);
      && e.actualStartTime.Some?
      && var shown := Parse(Format(e.actualStartTime.value));
         shown.Some? && shown.value.hour == s.startTime.hour && shown.value.minute >= 60
  {
    var e := DeriveEntry(s, 1, true);
    assert e.status == LateIn;
    FormatParseRoundTrip(e.actualStartTime.value);
  }

  /** getStatusColor: a colour for each status, grey for anything else. */
  function StatusColor(s: Status): (r: string)
    ensures r == "bg-gray-100 text-gray-800" <==> s == Unknown
  {
    match s
    case OnTime => "bg-green-100 text-green-800"
    case LateIn => "bg-yellow-100 text-yellow-800"
    case EarlyOut => "bg-orange-100 text-orange-800"
    case Absent => "bg-red-100 text-red-800"
    case TimeOff => "bg-blue-100 text-blue-800"
    case Unknown => "bg-gray-100 text-gray-800"
  }

  /** Distinct statuses get distinct colours. */
  lemma StatusColorInjective(a: Status, b: Status)
    requires StatusColor(a) == StatusColor(b)
    ensures a == b
  {
  }
}
