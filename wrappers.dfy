/** Option and Result types for the operations of the index that can fail. */
module Wrappers {

  datatype Option<T> = None | Some(value: T)

  /** Why an operation of the index raised instead of returning. */
  datatype Error =
    | GridError   // a grid-library call rejected its input (bad cell, resolution, coordinates or polygon)
    | EmptyRange  // a random draw was asked for a value in an empty inclusive range

  datatype Result<T> = Ok(value: T) | Err(error: Error)
}
