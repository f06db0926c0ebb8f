/** Small general-purpose definitions shared by the rangefeed modules. */
module Prelude {

  /** A value that may be absent: Go's nil pointer or nil error. */
  datatype Option<+T> = None | Some(value: T)
}
