/** The result of a validating constructor: the constructed value, or a payload-free error marker. */
module Wrappers {

  datatype Result<+T, +E> = Ok(value: T) | Err(error: E)
}
