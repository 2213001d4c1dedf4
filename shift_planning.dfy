/** The shift-planning board: a seven-day window over the calendar, the hourly
    time slots, the drag-and-drop reassignment of a shift, and the two views the
    board shows (the unassigned pool and one grid cell per employee and day). */
module ShiftPlanning {
  import opened Optional
  import opened Seqs
  import opened Text
  import opened Clock
  import opened Roster

  // ---------------------------------------------------------------------------
  // The week window
  // ---------------------------------------------------------------------------

  /** getWeekDays: seven consecutive days, the first being the start day itself
      (the window is not snapped to a fixed weekday). */
  method GetWeekDays(startDate: Day) returns (days: seq<Day>)
    ensures |days| == 7
    ensures forall i :: 0 <= i < 7 ==> days[i] == startDate + i
  {
    days := [];
    for i := 0 to 7
      invariant |days| == i
      invariant forall k :: 0 <= k < i ==> days[k] == startDate + k
    {
      days := days + [startDate + i];
    }
  }

  datatype Direction = Prev | Next

  /** The start day after changeWeek(direction): one week later or earlier. */
  function WeekStep(start: Day, direction: Direction): (r: Day)
    ensures direction == Next ==> r == start + 7
    ensures direction == Prev ==> r == start - 7
  {
    match direction
    case Next => start + 7
    case Prev => start - 7
  }

  /** Going forward a week and back again (or back and forward) returns to
      the same window. */
  lemma WeekStepInverse(start: Day)
    ensures WeekStep(WeekStep(start, Next), Prev) == start
    ensures WeekStep(WeekStep(start, Prev), Next) == start
  {
  }

  // ---------------------------------------------------------------------------
  // Time slots
  // ---------------------------------------------------------------------------

  /** timeSlots: fifteen hourly labels starting at 08:00. */
  function TimeSlots(): (r: seq<string>)
    ensures |r| == 15
  {
    seq(15, i requires 0 <= i < 15 => Format(Time(i + 8, 0)))
  }

  /** The slots run from "08:00" to "22:00". */
  lemma TimeSlotsEnds()
    ensures TimeSlots()[0] == "08:00" && TimeSlots()[14] == "22:00"
  {
    SlotShape(0);
    SlotShape(14);
    assert DigitChar(0) == '0' && DigitChar(8) == '8' && DigitChar(2) == '2';
  }

  /** Each slot is a five-character label that parses back to the hour i + 8. */
  lemma TimeSlotsParse()
    ensures forall i :: 0 <= i < 15 ==>
      |TimeSlots()[i]| == 5 && Parse(TimeSlots()[i]) == Some(Time(i + 8, 0))
  {
    forall i | 0 <= i < 15
      ensures |TimeSlots()[i]| == 5 && Parse(TimeSlots()[i]) == Some(Time(i + 8, 0))
    {
      SlotShape(i);
    }
  }

  /** The slots are strictly increasing as strings, so sorting by label keeps
      them in time order. */
  lemma TimeSlotsIncreasing()
    ensures forall i, j :: 0 <= i < j < 15 ==> LexLess(TimeSlots()[i], TimeSlots()[j])
  {
    forall i, j | 0 <= i < j < 15 ensures LexLess(TimeSlots()[i], TimeSlots()[j]) {
      SlotShape(i);
      SlotShape(j);
      HourLabelsOrdered(i + 8, j + 8, TimeSlots()[i], TimeSlots()[j]);
    }
  }

  /** The slot at position i is the zero-padded hour i + 8 with zero minutes. */
  lemma SlotShape(i: int)
    requires 0 <= i < 15
    ensures TimeSlots()[i] == [DigitChar((i + 8) / 10), DigitChar((i + 8) % 10), ':', '0', '0']
    ensures Parse(TimeSlots()[i]) == Some(Time(i + 8, 0))
  {
    assert TimeSlots()[i] == Format(Time(i + 8, 0));
    FormatTwoDigits(Time(i + 8, 0));
    FormatParseRoundTrip(Time(i + 8, 0));
  }

  /** Two-digit hour labels compare as their hours do. */
  lemma HourLabelsOrdered(h: nat, k: nat, a: string, b: string)
    requires h < k < 100
    requires a == [DigitChar(h / 10), DigitChar(h % 10), ':', '0', '0']
    requires b == [DigitChar(k / 10), DigitChar(k % 10), ':', '0', '0']
    ensures LexLess(a, b)
  {
    if h / 10 == k / 10 {
      assert a[0] == b[0];
      assert a[1..][0] < b[1..][0];
    }
  }

  // ---------------------------------------------------------------------------
  // Drag and drop
  // ---------------------------------------------------------------------------

  /** The shift list after dropping the shift with id `id` on (`date`,
      `employeeId`), optionally at a time slot: every shift with that id takes
      the target day and employee, and the slot's time as its start when one is
      given; `id`, end time and department stay. Every other shift is untouched. */
  function MoveShift(shifts: seq<Shift>, id: string, date: Day, employeeId: string, slot: Option<Time>)
    : (r: seq<Shift>)
    ensures |r| == |shifts|
    ensures forall i :: 0 <= i < |shifts| && shifts[i].id != id ==> r[i] == shifts[i]
    ensures forall i :: 0 <= i < |shifts| && shifts[i].id == id ==>
      && r[i].id == id
      && r[i].date == date
      && r[i].employeeId == employeeId
      && r[i].startTime == (if slot.Some? then slot.value else shifts[i].startTime)
      && r[i].endTime == shifts[i].endTime
      && r[i].department == shifts[i].department
  {
    if shifts == [] then []
    else
      var s := shifts[0];
      var s' := if s.id == id then s.(date := date, employeeId := employeeId, startTime := slot.GetOr(s.startTime)) else s;
      [s'] + MoveShift(shifts[1..], id, date, employeeId, slot)
  }

  /** Dropping the same shift on the same target twice gives the same list as once. */
  lemma {:induction false} MoveShiftIdempotent(shifts: seq<Shift>, id: string, date: Day, employeeId: string, slot: Option<Time>)
    ensures MoveShift(MoveShift(shifts, id, date, employeeId, slot), id, date, employeeId, slot)
         == MoveShift(shifts, id, date, employeeId, slot)
  {
    if shifts != [] {
      MoveShiftIdempotent(shifts[1..], id, date, employeeId, slot);
    }
  }

  /** A drop whose id matches no shift leaves the list as it was. */
  lemma MoveShiftUnknownId(shifts: seq<Shift>, id: string, date: Day, employeeId: string, slot: Option<Time>)
    requires forall i :: 0 <= i < |shifts| ==> shifts[i].id != id
    ensures MoveShift(shifts, id, date, employeeId, slot) == shifts
  {
  }

  // ---------------------------------------------------------------------------
  // The board's views
  // ---------------------------------------------------------------------------

  /** The pool's selection: no employee, or the placeholder "TBD". */
  predicate IsUnassigned(s: Shift) {
    s.employeeId == "" || s.employeeId == "TBD"
  }

  /** The unassigned pool: the unassigned shifts, in list order. */
  function UnassignedPool(shifts: seq<Shift>): (r: seq<Shift>)
    ensures forall s :: s in r <==> s in shifts && IsUnassigned(s)
  {
    Filter(shifts, IsUnassigned)
  }

  /** The grid cell of one employee on one day: that employee's shifts on that day. */
  function Cell(shifts: seq<Shift>, employeeId: string, date: Day): (r: seq<Shift>)
    ensures forall s :: s in r <==> s in shifts && s.employeeId == employeeId && s.date == date
  {
    Filter(shifts, (s: Shift) => s.employeeId == employeeId && s.date == date)
  }

  /** After a drop on (employee, day), the moved shift shows in that cell, and
      (for a real employee id) no shift with the moved id remains in the pool. */
  lemma DropShowsInTargetCell(shifts: seq<Shift>, k: int, date: Day, employeeId: string, slot: Option<Time>)
    requires 0 <= k < |shifts|
    ensures MoveShift(shifts, shifts[k].id, date, employeeId, slot)[k]
            in Cell(MoveShift(shifts, shifts[k].id, date, employeeId, slot), employeeId, date)
    ensures employeeId != "" && employeeId != "TBD" ==>
      forall s :: s in UnassignedPool(MoveShift(shifts, shifts[k].id, date, employeeId, slot)) ==> s.id != shifts[k].id
  {
    var r := MoveShift(shifts, shifts[k].id, date, employeeId, slot);
    assert r[k] in r;
    if employeeId != "" && employeeId != "TBD" {
      forall s | s in UnassignedPool(r) ensures s.id != shifts[k].id {
        var j :| 0 <= j < |r| && r[j] == s;
      }
    }
  }

  /** A drop is applied whatever the target cell already holds: a shift that
      already sits in (employee, day) stays there unchanged, and the dropped
      shift joins it, whatever their hours. */
  lemma DropSkipsConflictCheck(shifts: seq<Shift>, j: int, k: int, date: Day, employeeId: string, slot: Option<Time>)
    requires 0 <= j < |shifts| && 0 <= k < |shifts|
    requires shifts[j].id != shifts[k].id
    requires shifts[j].employeeId == employeeId && shifts[j].date == date
    ensures var r := MoveShift(shifts, shifts[k].id, date, employeeId, slot);
      && r[j] == shifts[j]
      && r[j] in Cell(r, employeeId, date)
      && r[k] in Cell(r, employeeId, date)
  {
    var r := MoveShift(shifts, shifts[k].id, date, employeeId, slot);
    assert r[j] in r && r[k] in r;
  }

  // ---------------------------------------------------------------------------
  // The page's state
  // ---------------------------------------------------------------------------

  /** The ShiftPlanning component's state: the shift list, the first day of the
      shown window, and the shift being dragged. */
  class ShiftBoard {
    var shifts: seq<Shift>
    var currentWeekStartDate: Day
    var draggedShift: Option<Shift>

    /** Loads the shift fixture; the window starts today. */
    constructor (initialShifts: seq<Shift>, today: Day)
      ensures shifts == initialShifts
      ensures currentWeekStartDate == today
      ensures draggedShift == None
    {
      shifts := initialShifts;
      currentWeekStartDate := today;
      draggedShift := None;
    }

    /** handleDragStart: remembers the shift being dragged. */
    method DragStart(shift: Shift)
      modifies this`draggedShift
      ensures draggedShift == Some(shift)
    {
      draggedShift := Some(shift);
    }

    /** handleDrop: with nothing dragged, nothing changes; otherwise the dragged
        shift is moved to the target and the drag is over. No conflict is checked. */
    method Drop(targetDate: Day, targetEmployeeId: string, targetTimeSlot: Option<Time>)
      modifies this`shifts, this`draggedShift
      ensures old(draggedShift).None? ==> shifts == old(shifts)
      ensures old(draggedShift).Some? ==>
        shifts == MoveShift(old(shifts), old(draggedShift).value.id, targetDate, targetEmployeeId, targetTimeSlot)
      ensures draggedShift == None
    {
      if draggedShift.None? {
        return;
      }
      shifts := MoveShift(shifts, draggedShift.value.id, targetDate, targetEmployeeId, targetTimeSlot);
      draggedShift := None;
    }

    /** changeWeek: moves the window a week forward or back. */
    method ChangeWeek(direction: Direction)
      modifies this`currentWeekStartDate
      ensures currentWeekStartDate == WeekStep(old(currentWeekStartDate), direction)
    {
      currentWeekStartDate := currentWeekStartDate + (if direction == Next then 7 else -7);
    }
  }
}
