/** Shared vocabulary: bytes, optional values, results and the errors the
    struct constructor can raise. */
module Common {

  /** One byte of an ArrayBuffer. */
  type byte = x: int | 0 <= x < 256

  datatype Option<+T> = None | Some(value: T)

  /** The exceptions the constructor and the accessors can throw. In the host
      all but the first two are RangeErrors; they are kept apart here so that
      a contract can say which check failed. */
  datatype Error =
    | UnknownType(tag: string)  // the kind table has no sized entry for the tag's identifier
    | TypeError                 // undefined or null where a string's `length` or a BigInt is needed
    | OutOfBounds               // a view or a typed array reaching past the end of its buffer
    | Misaligned                // a typed array whose byte offset is not a multiple of its element size
    | SourceTooLarge            // TypedArray.prototype.set given more elements than fit

  datatype Result<+T> = Ok(value: T) | Err(error: Error) {
    predicate IsFailure() { Err? }

    function PropagateFailure<U>(): Result<U>
      requires Err?
    {
      Err(error)
    }

    function Extract(): T
      requires Ok?
    {
      value
    }
  }

  function Zeros(n: nat): (r: seq<byte>)
    ensures |r| == n && forall i :: 0 <= i < n ==> r[i] == 0
  {
    seq(n, _ => 0)
  }
}
