/** An optional value, used for JavaScript arguments that may be absent. */
module Wrappers {

  /** `None` stands for an absent (`undefined` / `null`) argument. */
  datatype Option<+T> = None | Some(value: T)
}
