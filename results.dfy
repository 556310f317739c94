/** Error kinds raised while decoding a PCK archive, and the failure-compatible
    result types every read returns instead of raising an exception. */
module Results {

  /** What can go wrong while decoding.
      - EndOfStream: a read of `requested` bytes at position `pos` would pass the
        end of the buffer (the reader's EndOfStreamException).
      - UnknownMetaIndex: a property names a meta index that the meta table does
        not hold (the dictionary lookup's KeyError).
      - NegativeLength: a string length or a file size read from the archive is
        negative; the model refuses it instead of slicing backwards. */
  datatype Error =
    | EndOfStream(pos: nat, requested: nat)
    | UnknownMetaIndex(index: int)
    | NegativeLength(length: int)

  /** The value of a read that succeeded, or the error that ended it. */
  datatype Result<+T> = Success(value: T) | Failure(error: Error) {
    predicate IsFailure() { Failure? }

    function PropagateFailure<U>(): Result<U>
      requires Failure?
    {
      Failure(error)
    }

    function Extract(): T
      requires Success?
    {
      value
    }
  }

  /** A decoded value together with the position just after its last byte. */
  datatype Parsed<+T> = Parsed(value: T, next: nat)

  /** True unless `r` is an end-of-stream failure: such a result depends only
      on bytes that were actually present. */
  predicate NotEndOfStream<T>(r: Result<T>) {
    r.Success? || !r.error.EndOfStream?
  }
}
