// Optional values shared by every module of the model.

module Wrappers {

  /** A value that may be absent: JavaScript's `undefined`. */
  datatype Option<+T> = None | Some(value: T)

  /** A value the upstream feed may send as JSON `null`, kept distinct from an absent one. */
  datatype Nullable<+T> = Null | NonNull(value: T)
}
