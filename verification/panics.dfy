/** Rust panics of the cycle search, turned into values.

    Every failure the program can meet is a fatal `panic!`: the capacity
    assertion of the board, a shift of a `u64` by 64 or more places (debug
    builds check it), and the strict cell conversion meeting a value that is
    not a bit. The model returns them as `Err` instead of aborting.
 */
module Panics {

  datatype Panic =
    | CapacityMismatch  // `width * height != C`, or a vector of the wrong length unwrapped into `[CellState; C]`
    | ShiftOverflow     // `1u64 << n` or `i << n` with `n >= 64`
    | NotABit           // the strict `From<u64>` met a value other than 0 or 1

  datatype Result<+T> = Ok(value: T) | Err(panic: Panic)
}
