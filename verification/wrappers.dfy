/** The optional value used for lookups and for operations that .NET would
    abort with an exception. */
module Wrappers {

  datatype Option<+T> = None | Some(value: T)
}
