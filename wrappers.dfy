/** An optional value: stands for a JavaScript `undefined` result or an optional argument. */
module Wrappers {
  datatype Option<+T> = None | Some(value: T)
}
