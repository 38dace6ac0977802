/** Outcomes of the toolkit's operations: a value, or the panic that aborts the call. */
module Outcomes {

  datatype Option<+T> = None | Some(value: T)

  /** Why an operation aborted (each Rust `panic!`, failed index or `unwrap` becomes one). */
  datatype Fault =
    | IndexOutOfBounds   // a Vec, slice or DMatrix index past its end
    | ShapeMismatch      // two matrices whose shapes do not fit together
    | InvalidTestSize    // test_size outside (0, 1]
    | TooFewSamples      // a test partition of zero rows
    | UnwrapFailed       // `unwrap` on an empty Option or an Err
    | Overflow           // a `usize` subtraction below zero

  /** A value, or the panic that ended the call; usable with `:-`. */
  datatype Result<+T> = Ok(value: T) | Panic(fault: Fault) {

    predicate IsFailure() {
      Panic?
    }

    function PropagateFailure<U>(): Result<U>
      requires Panic?
    {
      Panic(fault)
    }

    function Extract(): T
      requires Ok?
    {
      value
    }
  }
}
