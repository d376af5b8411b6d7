/** Whether an object's invariant holds, as a value. */
module Soundness {
  datatype Standing = Sound | Unsound
}
