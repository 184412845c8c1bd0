/** The optional value used for Go's nil pointers, nil maps and absent query parameters. */
module Wrappers {

  datatype Option<+T> = None | Some(value: T)
}
