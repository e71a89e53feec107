/**
 * What every wrapper shares: the libgphoto2 status codes it names, the error
 * value a failing status becomes, and the two ways a wrapper can end (a
 * result, or a panic where the binding asserts something of the native layer).
 */
module Gp {

  /** A byte of native memory (C `char`, Rust `u8`). */
  newtype Byte = b: int | 0 <= b < 0x100

  // Status codes of the libgphoto2 headers. Only GP_OK's meaning and the
  // codes being distinct matter to the model.
  const GP_OK: int := 0
  const GP_ERROR_BAD_PARAMETERS: int := -2
  const GP_ERROR_NOT_SUPPORTED: int := -6
  const GP_ERROR_CORRUPTED_DATA: int := -102
  const GP_ERROR_FILE_EXISTS: int := -103

  /** The error built from a native status code (`error::from_libgphoto2`). */
  datatype Error = Error(code: int)

  /** `::Result<T>` of the binding. */
  datatype Result<T> = Ok(value: T) | Err(error: Error)

  /** The outcome of a wrapper that panics instead of returning an error. */
  datatype Checked<T> = Returned(value: T) | Panic

  /**
   * The status check every `try_unsafe!` call site performs: GP_OK lets the
   * wrapper go on, any other status is returned as its error.
   */
  function Check(status: int): (r: Result<()>)
    ensures r.Ok? <==> status == GP_OK
    ensures r.Err? ==> r.error.code == status
  {
    if status == GP_OK then Ok(()) else Err(Error(status))
  }
}
