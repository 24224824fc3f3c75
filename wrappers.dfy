/** Failure-carrying datatypes shared by the model.
    `Result` is Rust's `Result<T, E>`; `Outcome` records whether a Rust
    expression returns a value or panics (an `unwrap` on `Err`, an arithmetic
    overflow inside the standard library). */
module Wrappers {

  datatype Option<+T> = None | Some(value: T)

  datatype Result<+T, +E> = Ok(value: T) | Err(error: E)

  /** Why the standard library panicked. */
  datatype PanicReason =
    | UnwrapOnErr              // `Result::unwrap` on an `Err`
    | DurationNewOverflow      // "overflow in Duration::new"
    | InstantAddOverflow       // "overflow when adding duration to instant"
    | InstantSubOverflow       // "overflow when subtracting duration from instant"

  datatype Outcome<+T> = Done(value: T) | Panic(reason: PanicReason)
}
