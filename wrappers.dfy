/** The optional value that the pixel surface returns for a coordinate. */
module Wrappers {

  datatype Option<+T> = None | Some(value: T)
}
