/** An optional value, used where the original code either produces one value or none. */
module Wrappers {
  datatype Option<+T> = None | Some(value: T)
}
