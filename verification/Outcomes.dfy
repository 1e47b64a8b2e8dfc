/** The two shapes in which the tools' operations end: grub_util_error becomes an Err. */
module Outcomes {
  datatype Option<+T> = None | Some(value: T)

  datatype Result<+T, +E> = Ok(value: T) | Err(error: E)
}
