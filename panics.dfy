// Panics of the modelled code, as values.
//
// Dafny has no unwinding: an operation that can panic returns `Checked`, and
// an operation that runs caller code returns an `Outcome`.

module Panics {

  datatype Panic =
    | LengthOutOfBounds      // "length out of bounds" assert of the legacy extent
    | CapacityOutOfBounds    // "capacity out of bounds" assert of the extent
    | CapacityOverflow       // a growing Vec/String would exceed isize::MAX
    | MutatorPanicked        // the closure given to `apply` panicked

  datatype Checked<T> = Ok(value: T) | Abort(panic: Panic)

  datatype Outcome = Completed | Panicked(panic: Panic)

  /**
   * What the closure given to `apply` does to the buffer.  `Returns(data)`:
   * it edits the buffer in place (clear, then push) until it holds `data`.
   * `Rebuilds(data, spare)`: it assigns a new buffer (`*o = String::new()`,
   * `*o = Vec::with_capacity(..)`, `o.shrink_to_fit()`) holding `data` with
   * room for `spare` more elements; the old buffer is dropped.  `Panics`: it
   * panics before touching the buffer.
   */
  datatype Mutation<T> = Returns(data: seq<T>) | Rebuilds(data: seq<T>, spare: nat) | Panics
}
