/** The records the shift-planning and attendance pages share: a shift as it is
    loaded from the shift fixture, and the directory's view of an employee. */
module Roster {
  import opened Clock

  /** One scheduled block of work. An `employeeId` of `""` or `"TBD"` marks the
      shift as unassigned. */
  datatype Shift = Shift(
    id: string,
    employeeId: string,
    date: Day,
    startTime: Time,
    endTime: Time,
    department: string)

  /** The part of a directory entry these pages read. */
  datatype Employee = Employee(id: string, name: string)
}
