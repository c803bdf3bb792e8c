/** The optional-value type shared by the other modules. */
module Wrappers {

  /** A value that may be absent: JavaScript's `undefined`, a failed lookup,
      or a partial function that gave no answer. */
  datatype Option<+T> = None | Some(value: T)
}
