/** The optional-value datatype used for the source's nullable values. */
module Wrappers {

  /** `None` stands for JavaScript's `null` (or `undefined`), `Some(v)` for a value. */
  datatype Option<+T> = None | Some(value: T)
}
