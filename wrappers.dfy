/** An optional value: `None` stands for JavaScript's `null`, an absent
    result, or an action that returned early without producing anything. */
module Wrappers {
  datatype Option<+T> = None | Some(value: T)
}
