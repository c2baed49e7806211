/** The absent-or-present value that Django's `.first()` and Python's `None` stand for. */
module Wrappers {

  datatype Option<+T> = None | Some(value: T)
}
