/** An optional value: a JSON field that is null or missing. */
module Wrappers {

  datatype Option<+T> = None | Some(value: T)
}
