/** Values that cross the boundary between the extractor and Go's I/O:
    bytes, errors, and the outcome of reading a whole stream. */
module GoIo {

  type byte = bv8

  /** An error value returned by a collaborator; only its identity matters here. */
  datatype Error = Error(message: string)

  /** Go's `error` result: `None` is a nil error. */
  datatype Option<+T> = None | Some(value: T)

  /** What `io.ReadAll` on the scan input yields: every byte of the file, or a failure. */
  datatype ReadResult = Content(bytes: seq<byte>) | ReadFailed(err: Error)
}
