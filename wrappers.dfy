/** Optional values, results and the error conditions the buffer layer raises. */
module Wrappers {
  datatype Option<T> = None | Some(value: T)

  /**
   * The exceptions of the buffer layer: std::out_of_range "Out of buffer range.",
   * std::runtime_error "Buffer is not flushed." and the managed "Unknown protocol.".
   */
  datatype Error = OutOfRange | NotFlushed | UnknownProtocol

  datatype Result<T> = Ok(value: T) | Err(error: Error)
}
