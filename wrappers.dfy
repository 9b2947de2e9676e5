/** Absence of a value: JavaScript's `null` (and a missing regex match). */
module Wrappers {

  datatype Option<+T> = None | Some(value: T)

  /**
   * A key of a JavaScript object literal: never assigned (`Absent`),
   * assigned `null`, or assigned a value.
   */
  datatype Slot<+T> = Absent | Null | Present(value: T)
}
