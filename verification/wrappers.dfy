/** The optional value used for JavaScript's `null` slot and for `NaN`-or-number results. */
module Wrappers {
  datatype Option<+T> = None | Some(value: T)
}
