/** The clock record the attendance service stores. Identifiers stand for the service's opaque
    strings; their order is the string order that breaks ties. `detail` stands for the columns
    (place, device, source) that no computation of the daily projection reads, `voidNote` for who
    voided a record, when and why. */
module AttendanceRecords {

  datatype Option<+T> = None | Some(value: T)

  datatype Direction = ClockIn | ClockOut

  datatype RecordStatus = Accepted | Rejected

  datatype ClockRecord = ClockRecord(
    id: int,
    employee: int,
    workDate: int,
    direction: Direction,
    status: RecordStatus,
    voided: bool,
    clockedAt: int,
    createdAt: int,
    clientEvent: Option<int>,
    detail: int,
    voidNote: Option<int>)

  /** The records a day is computed from. */
  predicate Effective(r: ClockRecord, workDate: int) {
    r.workDate == workDate && r.status == Accepted && !r.voided
  }
}
