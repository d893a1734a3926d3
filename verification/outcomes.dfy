/** Results of the operations that can fail: an allocator failure, a span
    lookup failure, or the unaligned-start check of `markBitsForSpan`. */
module Outcomes {

  /** The errors the bitmap code returns or passes on. */
  datatype Error =
    | AllocFailed      // `allocator.alloc()` returned an error
    | NoSpan           // `h.spanOf(p)` returned an error
    | UnalignedStart   // "markBitsForSpan: unaligned start"

  /** A Go `(value, error)` pair where exactly one side is meaningful. */
  datatype Result<T> = Ok(value: T) | Err(error: Error)
}
