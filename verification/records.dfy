/**
 * The database rows the plugin reads and writes: a course and a row of the
 * `enrol` table describing one Paystack enrolment instance.
 */
module Records {

  datatype Course = Course(id: int, fullname: string, shortname: string)

  /**
   * An enrolment instance. `status` 0 means enabled; `cost` is the price
   * as PHP's float cast reads it; `enrolPeriod` is in seconds, 0 meaning
   * unlimited; the dates are Unix timestamps, 0 meaning unset.
   */
  datatype Instance = Instance(
    id: int,
    courseId: int,
    enrol: string,
    status: int,
    name: string,
    cost: real,
    currency: string,
    roleId: int,
    customInt3: int,
    enrolPeriod: int,
    enrolStartDate: int,
    enrolEndDate: int,
    timeModified: int)

  /** The enrolment window of one user in one course: start and end times, 0 meaning unbounded. */
  datatype Window = Window(timeStart: int, timeEnd: int)

  /** An enrolment counts as active when it has started and has not yet ended. */
  predicate Active(w: Window, now: int) {
    w.timeStart <= now && (w.timeEnd == 0 || now < w.timeEnd)
  }
}
