/** Option and Result values, and bytes, shared by every module of the model. */
module Wrappers {

  datatype Option<+T> = None | Some(value: T)
  {
    /** Python's `x or default` for an optional value. */
    function GetOr(default: T): T
    {
      if Some? then value else default
    }
  }

  datatype Result<+T, +E> = Ok(value: T) | Err(error: E)

  /** One octet of a BLOB column or of an encoded payload. */
  newtype byte = b: int | 0 <= b < 256

  type Bytes = seq<byte>
}
