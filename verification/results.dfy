/** Failure-carrying values shared by the Huffman coding model. */
module Results {

  /** A value that may be absent; stands in for a nullable pointer. */
  datatype Option<+T> = None | Some(value: T)

  /** The one failure the codec meets: the bit source ran dry in the middle of a read. */
  datatype Error = TruncatedStream

  /** The outcome of reading from a bit source. */
  datatype Result<+T> = Success(value: T) | Failure(error: Error)
}
