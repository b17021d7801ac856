/** Optional values and results, standing for Java's `null` returns and thrown exceptions. */
module Outcomes {

  datatype Option<+T> = None | Some(value: T)

  /** The Java runtime exceptions the modelled code can raise. */
  datatype JavaException =
    | IndexOutOfBounds   // `ByteBuffer.wrap` with an offset or length outside the array
    | BufferUnderflow    // a `get` on a buffer with too few octets left

  datatype Result<+T> = Ok(value: T) | Err(error: JavaException)
}
