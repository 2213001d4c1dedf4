# Employer pages of the workforce-management prototype, in Dafny

This project models the logic in four employer pages of a React workforce-management prototype:

- **Shift planning board.** A seven-day window over the calendar, moved a week at a time. Fifteen hourly time slots. The drag-and-drop reassignment of a shift. The unassigned-shift pool and the employee × day grid cells.
- **Time and attendance.** An attendance entry (status, actual times, note) is derived for every shift of the selected day. The status depends only on the shift's position in that day's list (`index % 5`), on whether its employee is in the directory, and on its department. Then comes the status filter, the "Actual Times" column and the status colours.
- **Leave approval.** Approving or rejecting a request by id, with the approver/rejecter stamps. The Pending-only action buttons. The status filter, which starts on "Pending".
- **Employee directory.** Filtering by status and by a case-insensitive search on name or email. Sorting a copy by a column and direction. The column-header sort state and its arrow indicator.

Modelling choices:

- Dates are day numbers: consecutive calendar days differ by one.
- Times are kept parsed, as `Time(hour, minute)`, with unbounded integer fields. `Clock.Format` is the page's `HH:MM` formatting and `Clock.Parse` reads the text back.
- Anything the pages take from the browser or the fixtures is a parameter:
  - today's date
  - the shift, employee and leave-request lists
  - the dragged shift, the clicked button, the chosen filters

Files:

- `seqs.dfy`: `Option` and an order-keeping `Filter` (JavaScript's `Array.prototype.filter`).
- `text.dfy`: JavaScript `<` on strings, ASCII `toLowerCase`, `includes`, `String(n)`, `padStart(2, '0')` and `Number` on digit strings.
- `clock.dfy`: day numbers, times, `HH:MM` formatting and parsing.
- `roster.dfy`: the shift and employee records that two pages share.
- `shift_planning.dfy`, `time_attendance.dfy`, `leave_approval.dfy`, `employee_management.dfy`: one module per page.

Where a page updates React state, the module has a class whose fields are that state and whose methods update it:

- `ShiftPlanning.ShiftBoard`
- `LeaveApproval.LeaveDesk`
- `EmployeeManagement.SortState`

The sort sorts an `array` copy of the filtered directory in place, with loop invariants. The record updates inside `map` and the filters are functions.

What the code does not do, and the model therefore does not do either:

- A drop is written without any conflict or overlap check (`ShiftPlanning.DropSkipsConflictCheck`). When a start slot is given, the end time is kept, so the shift's duration is not preserved.
- Attendance is simulated, not measured: no clock events are read or compared. The status is a table over the shift's position in that day's list, whether the employee is known, and the department.

## Model

| member | source | states |
|---|---|---|
| `Seqs.Filter` | my-app/src/pages/employer/ShiftPlanning.tsx:105 | `filter`: the result is no longer than the input, keeps exactly the elements that pass, and never adds a copy |
| `Seqs.FilterTwice` | my-app/src/pages/employer/EmployeeManagement.tsx:34-45 | filtering by one test and then by another selects what filtering once by both selects |
| `Text.LexLessIrreflexive` | my-app/src/pages/employer/EmployeeManagement.tsx:49-50 | no string is `<` itself |
| `Text.LexLessTransitive` | my-app/src/pages/employer/EmployeeManagement.tsx:49-50 | string `<` is transitive |
| `Text.LexLessTotal` | my-app/src/pages/employer/EmployeeManagement.tsx:49-51 | two strings are equal or one is `<` the other, which is what makes the comparator's final `return 0` mean "same key" |
| `Text.LexLessFirstDifference` | my-app/src/pages/employer/EmployeeManagement.tsx:49-50 | string `<` holds if and only if, at the first position where the strings differ, the left one has the smaller character, or the left one is a proper prefix of the right |
| `Text.LexLessAsymmetric` | my-app/src/pages/employer/EmployeeManagement.tsx:49-50 | `a < b` and `b < a` never both hold, so the comparator's two tests never both fire |
| `Text.LowerChar` | my-app/src/pages/employer/EmployeeManagement.tsx:42-43 | one character of `toLowerCase`: the result is never an ASCII capital; a capital becomes the same letter in lower case; any other character is kept |
| `Text.Lower` | my-app/src/pages/employer/EmployeeManagement.tsx:42-43 | `toLowerCase` keeps the length, works character by character, leaves no ASCII capital, and keeps every character that is not a capital |
| `Text.LowerIdempotent` | my-app/src/pages/employer/EmployeeManagement.tsx:42-43 | lower-casing twice is lower-casing once |
| `Text.ContainsIffOccurs` | my-app/src/pages/employer/EmployeeManagement.tsx:42-43 | `includes` holds if and only if the term occurs at some position |
| `Text.OccursLower` | my-app/src/pages/employer/EmployeeManagement.tsx:42-43 | an occurrence of the term stays an occurrence after lower-casing both texts |
| `Text.ContainsEmpty` | my-app/src/pages/employer/EmployeeManagement.tsx:39-43 | every string includes the empty string |
| `Text.NatToString` | my-app/src/pages/employer/ShiftPlanning.tsx:31 | `String(n)` is a non-empty string of digits, one digit exactly when `n < 10` |
| `Text.IntToString` | my-app/src/pages/employer/TimeAttendance.tsx:43 | `String(i)` is the plain digits for a non-negative `i`, and "-" followed by the digits of `-i` for a negative one (the Early Out end of a shift ending in hour 0) |
| `Text.PadStart2` | my-app/src/pages/employer/ShiftPlanning.tsx:31 | `padStart(2, '0')` has length two or more, ends with the input, and has only zeros in front |
| `Text.DigitsValue` | my-app/src/pages/employer/TimeAttendance.tsx:37 | `Number` on digit text is zero if and only if every digit is '0', and its last digit is the units digit |
| `Text.NatToStringRoundTrip` | my-app/src/pages/employer/TimeAttendance.tsx:37-38 | `Number(String(n)) == n` |
| `Text.LeadingZero` | my-app/src/pages/employer/TimeAttendance.tsx:37 | a leading zero does not change a digit string's value |
| `Text.PadStart2Value` | my-app/src/pages/employer/TimeAttendance.tsx:37-38 | padding a digit string with zeros keeps its numeric value |
| `Text.TwoDigits` | my-app/src/pages/employer/ShiftPlanning.tsx:31 | for `n < 100`, `String(n).padStart(2, '0')` is exactly the tens digit then the units digit |
| `Clock.Format` | my-app/src/pages/employer/TimeAttendance.tsx:38 | the `HH:MM` text of a time has at least five characters |
| `Clock.IndexOf` | my-app/src/pages/employer/TimeAttendance.tsx:37 | the first position of a character, or none when it does not occur |
| `Clock.Parse` | my-app/src/pages/employer/TimeAttendance.tsx:37 | `split(':').map(Number)` on `digits:digits` gives non-negative fields |
| `Clock.FormatParseRoundTrip` | my-app/src/pages/employer/TimeAttendance.tsx:37-38 | parsing the formatted text of a time with non-negative fields gives the time back |
| `Clock.FormatInjective` | my-app/src/pages/employer/TimeAttendance.tsx:38 | distinct non-negative times are written differently |
| `Clock.FormatTwoDigits` | my-app/src/pages/employer/ShiftPlanning.tsx:31 | a time with both fields below 100 is written as exactly `HH:MM` |
| `ShiftPlanning.GetWeekDays` | my-app/src/pages/employer/ShiftPlanning.tsx:20-28 | exactly seven days; day `i` is the start day plus `i`, so day 0 is the start day itself |
| `ShiftPlanning.WeekStep` | my-app/src/pages/employer/ShiftPlanning.tsx:76-82 | next moves the start seven days later, prev seven days earlier |
| `ShiftPlanning.WeekStepInverse` | my-app/src/pages/employer/ShiftPlanning.tsx:76-82 | next then prev, and prev then next, restore the start |
| `ShiftPlanning.TimeSlots` | my-app/src/pages/employer/ShiftPlanning.tsx:31 | there are fifteen slots |
| `ShiftPlanning.TimeSlotsEnds` | my-app/src/pages/employer/ShiftPlanning.tsx:31 | the first slot is "08:00" and the last "22:00" |
| `ShiftPlanning.TimeSlotsParse` | my-app/src/pages/employer/ShiftPlanning.tsx:31 | slot `i` has five characters and reads back as hour `i + 8`, minute 0 |
| `ShiftPlanning.TimeSlotsIncreasing` | my-app/src/pages/employer/ShiftPlanning.tsx:31 | the slots are strictly increasing as strings |
| `ShiftPlanning.MoveShift` | my-app/src/pages/employer/ShiftPlanning.tsx:66-72 | same length and order; a shift with the dropped id takes the target day, the target employee and the slot's start time (or keeps its own start), and keeps its id, end time and department; every other shift is unchanged |
| `ShiftPlanning.MoveShiftIdempotent` | my-app/src/pages/employer/ShiftPlanning.tsx:66-72 | repeating the same drop gives the same list |
| `ShiftPlanning.MoveShiftUnknownId` | my-app/src/pages/employer/ShiftPlanning.tsx:66-72 | a drop whose id matches no shift leaves the list unchanged |
| `ShiftPlanning.UnassignedPool` | my-app/src/pages/employer/ShiftPlanning.tsx:105 | the pool holds exactly the shifts with an empty or "TBD" employee |
| `ShiftPlanning.Cell` | my-app/src/pages/employer/ShiftPlanning.tsx:141-143 | a grid cell holds exactly the shifts of that employee on that day |
| `ShiftPlanning.DropShowsInTargetCell` | my-app/src/pages/employer/ShiftPlanning.tsx:141-149 | after a drop on (employee, day) the moved shift is in that cell; for a real employee no shift with its id is left in the pool |
| `ShiftPlanning.DropSkipsConflictCheck` | my-app/src/pages/employer/ShiftPlanning.tsx:66-72 | for any shift already in (employee, day) and any other shift dropped there, the first stays unchanged and the cell then holds both, whatever their hours |
| `ShiftPlanning.ShiftBoard.constructor` | my-app/src/pages/employer/ShiftPlanning.tsx:35-37 | the board starts with the loaded shifts, the window on today, and nothing dragged |
| `ShiftPlanning.ShiftBoard.DragStart` | my-app/src/pages/employer/ShiftPlanning.tsx:45-49 | the dragged shift is remembered |
| `ShiftPlanning.ShiftBoard.Drop` | my-app/src/pages/employer/ShiftPlanning.tsx:55-74 | with nothing dragged the shifts are unchanged; otherwise the shifts become `MoveShift` of the dragged id onto the target; the drag is cleared either way |
| `ShiftPlanning.ShiftBoard.ChangeWeek` | my-app/src/pages/employer/ShiftPlanning.tsx:76-82 | the window start becomes `WeekStep` of the old start |
| `TimeAttendance.StatusLabelInjective` | my-app/src/pages/employer/TimeAttendance.tsx:22 | the six status labels are distinct |
| `TimeAttendance.FindEmployee` | my-app/src/pages/employer/TimeAttendance.tsx:29 | `find` returns an employee if and only if one has the id, and then it is the first such |
| `TimeAttendance.DeriveEntry` | my-app/src/pages/employer/TimeAttendance.tsx:29-65 | each status holds if and only if its residue / known-employee / department condition holds; "Unknown" never; the actual times of each case; no actual times exactly for Absent and Time Off; an empty note exactly for On Time |
| `TimeAttendance.GenerateMockAttendance` | my-app/src/pages/employer/TimeAttendance.tsx:27-67 | one entry per shift, in order, carrying the shift, with the status given by the reference table over position mod 5, directory lookup and department |
| `TimeAttendance.UnknownEmployeeOnTime` | my-app/src/pages/employer/TimeAttendance.tsx:29-57 | a shift whose employee is not in the directory is On Time, with the scheduled times and no note |
| `TimeAttendance.DeviationTimes` | my-app/src/pages/employer/TimeAttendance.tsx:36-45 | for a known employee, position 1 mod 5 starts 15 minutes late (minute + 15, same hour, same end) and position 2 mod 5 ends an hour early (hour − 1, same minute, same start), each with its note |
| `TimeAttendance.LateStartNotCarried` | my-app/src/pages/employer/TimeAttendance.tsx:37-38 | for a start at minute 45 or later, the shown late start reads back with the same hour and a minute of 60 or more |
| `TimeAttendance.ShiftsOn` | my-app/src/pages/employer/TimeAttendance.tsx:83 | the date filter keeps exactly the shifts of that date |
| `TimeAttendance.DailyAttendance` | my-app/src/pages/employer/TimeAttendance.tsx:82-84 | every entry comes from a shift of the chosen day, and every shift of that day has an entry; entry `i` is for the `i`-th shift of that day, and its status comes from the table at position `i` within that day's list, not within the whole list |
| `TimeAttendance.FilterByStatus` | my-app/src/pages/employer/TimeAttendance.tsx:102-104 | an entry is kept if and only if the filter is empty or equals its status |
| `TimeAttendance.EmptyStatusFilterKeepsAll` | my-app/src/pages/employer/TimeAttendance.tsx:102-104 | the empty filter returns the entries unchanged |
| `TimeAttendance.ActualTimesText` | my-app/src/pages/employer/TimeAttendance.tsx:158-160 | "N/A" if and only if a time is missing; otherwise "start - end" |
| `TimeAttendance.NotApplicableIffNoShow` | my-app/src/pages/employer/TimeAttendance.tsx:46-56 | a generated entry shows "N/A" if and only if it is Absent or Time Off |
| `TimeAttendance.StatusColor` | my-app/src/pages/employer/TimeAttendance.tsx:87-96 | the grey colour is given exactly to a status outside the five named ones |
| `TimeAttendance.StatusColorInjective` | my-app/src/pages/employer/TimeAttendance.tsx:87-96 | distinct statuses get distinct colours |
| `LeaveApproval.StatusLabelInjective` | my-app/src/pages/employer/LeaveApproval.tsx:12 | the three status labels are distinct |
| `LeaveApproval.Decide` | my-app/src/pages/employer/LeaveApproval.tsx:36-41 | the decided request takes the new status and keeps its other fields. Approving stamps approver "Admin" and today and keeps the rejection fields. Rejecting stamps "Admin", today and "N/A (simulation)" and keeps the approval fields |
| `LeaveApproval.UpdateStatus` | my-app/src/pages/employer/LeaveApproval.tsx:33-45 | same length and order; requests with another id unchanged; every request with the id is decided as `Decide` states |
| `LeaveApproval.UpdateStatusIdempotent` | my-app/src/pages/employer/LeaveApproval.tsx:33-45 | the same decision applied twice on the same day equals applying it once |
| `LeaveApproval.UpdateStatusUnknownId` | my-app/src/pages/employer/LeaveApproval.tsx:33-45 | an id no request has leaves the list unchanged |
| `LeaveApproval.ActionsOrProcessed` | my-app/src/pages/employer/LeaveApproval.tsx:109-127 | every row shows exactly one of the action buttons or "Processed" |
| `LeaveApproval.UiStep` | my-app/src/pages/employer/LeaveApproval.tsx:109-124 | a click on a button keeps every id. Requests with another id are unchanged. If no request with the id is Pending (no button is shown) nothing changes. A pending request with the id takes the clicked decision |
| `LeaveApproval.RunUi` | my-app/src/pages/employer/LeaveApproval.tsx:109-124 | a sequence of clicks keeps every id and leaves unchanged every request whose id no click names |
| `LeaveApproval.DecidedIsFinal` | my-app/src/pages/employer/LeaveApproval.tsx:109-127 | with distinct ids, a decided request is unchanged by any later sequence of clicks, so it leaves Pending at most once |
| `LeaveApproval.UiStepOnlyLeavesPending` | my-app/src/pages/employer/LeaveApproval.tsx:109-124 | with distinct ids, a click changes a request's status only if it was Pending |
| `LeaveApproval.FilterByStatus` | my-app/src/pages/employer/LeaveApproval.tsx:59-61 | a request is kept if and only if the filter is empty or equals its status |
| `LeaveApproval.EmptyFilterKeepsAll` | my-app/src/pages/employer/LeaveApproval.tsx:59-61 | the empty filter returns the list unchanged |
| `LeaveApproval.DecidedLeavesPendingView` | my-app/src/pages/employer/LeaveApproval.tsx:59-61 | after a decision, no request with that id is in the "Pending" view |
| `LeaveApproval.LeaveDesk.constructor` | my-app/src/pages/employer/LeaveApproval.tsx:22-27 | the loaded requests, with the filter on "Pending" |
| `LeaveApproval.LeaveDesk.UpdateRequestStatus` | my-app/src/pages/employer/LeaveApproval.tsx:29-48 | the requests become `UpdateStatus` of the old requests |
| `LeaveApproval.LeaveDesk.SetFilterStatus` | my-app/src/pages/employer/LeaveApproval.tsx:69-73 | the filter becomes the chosen value |
| `LeaveApproval.LeaveDesk.FilteredRequests` | my-app/src/pages/employer/LeaveApproval.tsx:59-61 | the shown rows are exactly the requests that pass the current filter |
| `LeaveApproval.StatusColor` | my-app/src/pages/employer/LeaveApproval.tsx:50-57 | yellow if and only if Pending, green if and only if Approved, red if and only if Rejected |
| `EmployeeManagement.Visible` | my-app/src/pages/employer/EmployeeManagement.tsx:33-45 | an employee is kept if and only if it passes the status filter (or it is empty) and the search (or it is empty) |
| `EmployeeManagement.MatchesSearchMeaning` | my-app/src/pages/employer/EmployeeManagement.tsx:40-44 | the search test holds if and only if the lower-cased term occurs at some position of the lower-cased name or of the lower-cased email |
| `EmployeeManagement.SearchIgnoresTermCase` | my-app/src/pages/employer/EmployeeManagement.tsx:42-43 | a term and its lower-cased form find the same employees |
| `EmployeeManagement.SearchFindsSubstring` | my-app/src/pages/employer/EmployeeManagement.tsx:40-44 | an employee whose name or email contains the term as typed is found |
| `EmployeeManagement.EmptySearchMatchesAll` | my-app/src/pages/employer/EmployeeManagement.tsx:39-45 | the empty term matches every employee |
| `EmployeeManagement.Compare` | my-app/src/pages/employer/EmployeeManagement.tsx:48-52 | the comparator returns −1, 0 or 1 |
| `EmployeeManagement.InOrderMeaning` | my-app/src/pages/employer/EmployeeManagement.tsx:48-52 | the comparator allows `a` before `b` if and only if `b`'s key is not below `a`'s (ascending) or not above it (descending) |
| `EmployeeManagement.InOrderTotal` | my-app/src/pages/employer/EmployeeManagement.tsx:48-52 | when the comparator asks to swap two employees, the swapped pair is in order |
| `EmployeeManagement.InOrderTransitive` | my-app/src/pages/employer/EmployeeManagement.tsx:48-52 | the comparator's order is transitive |
| `EmployeeManagement.SortedMeaning` | my-app/src/pages/employer/EmployeeManagement.tsx:48-52 | a sorted list has non-decreasing keys for ascending and non-increasing keys for descending |
| `EmployeeManagement.SortInPlace` | my-app/src/pages/employer/EmployeeManagement.tsx:48-52 | `.sort` leaves the array sorted by the comparator and a permutation of what it held |
| `EmployeeManagement.InsertInto` | my-app/src/pages/employer/EmployeeManagement.tsx:48-52 | one insertion step extends the sorted prefix by one element and permutes the array |
| `EmployeeManagement.FilteredAndSortedEmployees` | my-app/src/pages/employer/EmployeeManagement.tsx:30-55 | the result is sorted by the key and direction, is a permutation of the filtered directory, and holds exactly the directory's employees that pass both filters |
| `EmployeeManagement.FilterStagesAgree` | my-app/src/pages/employer/EmployeeManagement.tsx:33-45 | the page's two optional filter stages select exactly what `Visible` selects |
| `EmployeeManagement.ClickHeader` | my-app/src/pages/employer/EmployeeManagement.tsx:57-64 | a click makes the column the sort key; the same column flips the direction, another column sets ascending |
| `EmployeeManagement.ClickHeaderTwice` | my-app/src/pages/employer/EmployeeManagement.tsx:57-64 | two clicks on the current column restore the state; two clicks on a new column give that column descending |
| `EmployeeManagement.SortIndicator` | my-app/src/pages/employer/EmployeeManagement.tsx:66-71 | " ▲" if and only if the active column is ascending, " ▼" if and only if it is descending, "" if and only if another column is asked about |
| `EmployeeManagement.SortState.constructor` | my-app/src/pages/employer/EmployeeManagement.tsx:21-22 | the page opens sorted by name, ascending |
| `EmployeeManagement.SortState.HandleSort` | my-app/src/pages/employer/EmployeeManagement.tsx:57-64 | the new key and direction are `ClickHeader` of the old ones |

## Left out

- Rendering, CSS classes, routing and layout are not modelled. Nor are React's effect and memo scheduling, DOM drag events, `dataTransfer` or `console.log`. Only the state changes they carry are modelled.
- Fixtures are not modelled. The JSON fixtures (shifts, employees, leave requests) are input sequences.
- `Date` is not modelled. JavaScript `Date`, `toISOString`, `toLocaleDateString` and `new Date()` are replaced by integer day numbers. Today is a parameter. Time zones and the UTC date that `toISOString` yields are not modelled.
- Shift conflict/overlap checks, duration preservation on a move, and lateness measured from clock events are not modelled. The code has none of them.
- The shift board's other views are not modelled: the pool is never a drop target, and the grid's drop passes no time slot. `Drop` takes an optional slot, as `handleDrop` does.
- Times of day are stored parsed. An On Time entry shows the scheduled time as `Format` writes it, which equals the fixture text when that text is canonical `HH:MM`.
- `Clock.Parse` reads only text of the form `digits:digits`; every other text is modelled as no time. There JavaScript's `split(':').map(Number)` gives other results: `NaN`, an empty field read as 0 (`"9:"`), signs, spaces, decimals, exponents, hexadecimal, or a third field. The attendance deviations are applied to the parsed fields directly.
- `Text.Lower` lower-cases ASCII letters only; full Unicode case mapping is not modelled.
- `Text.LexLess` compares by character code point. JavaScript compares UTF-16 code units, which differs only outside the Basic Multilingual Plane.
- `EmployeeManagement.Employee` has no optional profile picture, and the sort key cannot be the profile picture.
- `EmployeeManagement.SortInPlace` is an insertion sort; it is not the engine's own algorithm. Its contract is sortedness by the comparator and permutation. Stability (equal keys keeping directory order) is not stated.
- `LeaveApproval.StatusColor` has no grey default branch: the three-valued status type leaves none to reach.
- `LeaveApproval.DecidedIsFinal` and `LeaveApproval.UiStepOnlyLeavesPending` require distinct request ids. With a repeated id, clicking a pending request also re-stamps a processed request with the same id, as the `map` at my-app/src/pages/employer/LeaveApproval.tsx:33-45 does.
- `ShiftPlanning.ShiftBoard.Drop` uses the absence of a time slot for `targetTimeSlot || s.startTime`. An empty-string slot behaves like no slot in the source, and it is modelled as `None`.
- The time-attendance page's own state (the chosen date and status filter) is not modelled as a class. That state is only ever replaced wholesale. `TimeAttendance.DailyAttendance` and `TimeAttendance.FilterByStatus` give the records the page shows for given values of that state.
- Employee names in the attendance table (`employeesMap[...] || 'Unknown Employee'`) are a rendering lookup and are not modelled.
