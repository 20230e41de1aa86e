/**
 * The failures that `error(...)` reports in lilsched.py and sched.py, one
 * constructor per call site. The message printed and the process exit are
 * replaced by returning one of these values.
 */
module Errors {

  datatype Error =
    /** `students` is missing from the document or is not a table. */
    | StudentsNotTable
    /** The student's entry is not a table holding a `slots` array. */
    | MissingSlots(student: string)
    /** A slot is not a table with both a `weekday` and a `slot` key. */
    | SlotMissingKeys(student: string)
    /** A slot's `weekday` is not a string or its `slot` is not a number. */
    | SlotMistyped(student: string)
    /** A weekday token that names no day. */
    | InvalidWeekday(token: string)
}
