/** Small failure-compatible wrapper shared by the other modules. */
module Wrappers {

  /** `None` stands for JavaScript's `null` / "nothing scheduled"; `Some(v)` for a value. */
  datatype Option<+T> = None | Some(value: T)
}
