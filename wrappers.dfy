/** The usual optional-value datatype: `None` stands for JavaScript's `null`
    (or an unmatched regular expression, or an unknown table key). */
module Wrappers {
  datatype Option<+T> = None | Some(value: T)
}
