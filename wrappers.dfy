/** Error and result types shared by the memory modules. */
module Wrappers {

  /** The two kinds of failure the core reports: a map line whose address
      does not parse as hexadecimal, and a positioned read or write on the
      memory handle that cannot be completed in full. */
  datatype Error = ParseIntError | IoError

  datatype Result<T> = Ok(value: T) | Err(error: Error)

  datatype Option<T> = None | Some(value: T)
}
