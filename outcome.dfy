/** Outcomes of the operations that can abort in the original program. */
module Outcomes {

  /** Why a run stops without an answer. */
  datatype Fault =
    | IndexOutOfRange  // a buffer or slice is indexed outside its bounds (a Go runtime panic)
    | NilFront         // `Front()` of an empty list is dereferenced (a Go runtime panic)
    | Stalled          // the read loop seeks back to where it started and would repeat forever
    | NeverSent        // the channel an answer is awaited on is never sent to nor closed

  datatype Result<T> = Ok(value: T) | Err(fault: Fault)
}
