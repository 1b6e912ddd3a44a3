/** Optional values, and the outcome of a Rust computation that may panic.

    A Rust panic (an index or slice out of range, an arithmetic overflow in a
    checked build, `unwrap` on an `Err`) ends the computation; the model makes
    it a value so that the conditions under which the source panics can be
    stated and proved. */
module Wrappers {

  datatype Option<+T> = None | Some(value: T)

  /** Why a computation panicked. */
  datatype Panic =
    | IndexOutOfRange(index: nat, len: nat)      // `data[index]` or a slice ending at `index` with `len` elements
    | ArithmeticOverflow                         // a `u8` addition or multiplication past 255
    | UnwrapFailed                               // `Result::unwrap` on an `Err`

  datatype Outcome<+T> = Returned(value: T) | Panicked(panic: Panic)
}
