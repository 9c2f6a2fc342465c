/** The conventional optional value, standing in for a nullable handle. */
module Wrappers {

  datatype Option<+T> = None | Some(value: T)
}
