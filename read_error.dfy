/**
 * `io::ReadError`, as far as the readers of this model produce it. The
 * `io` module itself is not part of this model.
 */
module ReadErrors {
  import opened Format

  /** A missing field, a field that is not a valid value, or an I/O failure. */
  datatype ReadError = InvalidFormat | InvalidValue | IoFailure(err: IoError)

  function FromIo(e: IoError): (r: ReadError)
    ensures r == IoFailure(e)
  {
    IoFailure(e)
  }
}
