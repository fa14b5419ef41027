/** An optional value: Go's "value, ok" and nil-able parameters. */
module Wrappers {

  datatype Option<+T> = None | Some(value: T)
}
