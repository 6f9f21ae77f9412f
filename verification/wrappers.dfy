/** The absent-or-present value used wherever the JavaScript code has `null`,
    `undefined` or a failed step. */
module Wrappers {
  datatype Option<+T> = None | Some(value: T)
}
