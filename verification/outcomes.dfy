/** The ways the codec can stop. The implementation has no error type of its
    own for decoding: every failure is a Rust panic (an `unwrap` on a short
    read, a `panic!()`, an out-of-range slice, an arithmetic overflow). The
    model turns each panic into a value so that it can be reasoned about.
 */
module Outcomes {

  /** Why a panic happened. */
  datatype Panic =
    | SliceOutOfRange          // `bytes[0..44]` on a buffer shorter than 44 bytes
    | ReadPastEnd              // a `read_*::<LittleEndian>().unwrap()` on too few bytes
    | UnsupportedBitDepth(bits: int) // the `_ => panic!()` arm of the bit-depth match
    | NegativeVolume           // `set_volume` with `volume < 0.0`
    | SizeUnderflow            // `(size as u32) - 8` below zero (a debug-build overflow panic)

  /** Either the value an operation returns or the panic that stopped it. */
  datatype Result<+T> = Ok(value: T) | Err(panic: Panic) {

    predicate IsFailure() {
      Err?
    }

    function PropagateFailure<U>(): Result<U>
      requires Err?
    {
      Err(panic)
    }

    function Extract(): T
      requires Ok?
    {
      value
    }
  }
}
