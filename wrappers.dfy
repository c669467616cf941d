/** The optional value used for C# nulls and for the failure of a `TryParse`. */
module Wrappers {

  datatype Option<+T> = None | Some(value: T)
}
